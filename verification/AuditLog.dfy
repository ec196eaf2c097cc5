/** The append-only audit chain: verification, opening and appending. */
module AuditLog {
  import opened Text

  datatype Record = Record(
    version: int, sequence: nat, time: string, actor: string, action: string, id: string, previous: string,
    hash: string)

  /** The libraries the chain relies on: the JSON encoder and decoder, the hash as
      hexadecimal text, the replacement of invalid text that an encode and decode
      performs, the syntax of times, and the line length the scanner accepts. */
  datatype Codec = Codec(
    encode: Record -> string,
    decode: string -> Option<Record>,
    digest: string -> string,
    clean: string -> string,
    validTime: string -> bool,
    fits: string -> bool)

  function Clean(c: Codec, r: Record): Record {
    r.(time := c.clean(r.time), actor := c.clean(r.actor), action := c.clean(r.action), id := c.clean(r.id),
       previous := c.clean(r.previous), hash := c.clean(r.hash))
  }

  /** Encodings are single lines that decode to the cleaned record; replaced text
      is written as an escape, so it never encodes like its replacement; the hash
      is injective and clean text. */
  ghost predicate Encodes(c: Codec) {
    && (forall r :: '\n' !in c.encode(r))
    && (forall r :: c.decode(c.encode(r)) == Some(Clean(c, r)))
    && (forall r :: c.encode(Clean(c, r)) == c.encode(r) ==> Clean(c, r) == r)
    && (forall s :: c.decode(s).Some? ==> Clean(c, c.decode(s).value) == c.decode(s).value)
    && (forall s, t :: c.digest(s) == c.digest(t) ==> s == t)
    && (forall s :: c.clean(c.digest(s)) == c.digest(s))
    && c.clean("") == ""
  }

  ghost predicate IsDigest(c: Codec, x: string) {
    x == "" || exists s :: c.digest(s) == x
  }

  const MaxTime := 64
  const MaxSequence := 0xffff_ffff_ffff_ffff

  /** A record that Append can write: its texts are within the limits, its number
      is one of 64 bits, its time is a time stamp and its hashes are hashes. */
  ghost predicate Writable(c: Codec, r: Record) {
    && r.version == 1 && r.sequence <= MaxSequence && Fits(r.actor, r.action, r.id) && |r.time| <= MaxTime
    && IsDigest(c, r.previous) && IsDigest(c, r.hash)
  }

  /** Every such record fits a line of the scanner. */
  ghost predicate LinesFit(c: Codec) {
    forall r :: Writable(c, r) ==> c.fits(c.encode(r))
  }

  ghost predicate Sound(c: Codec) {
    Encodes(c) && LinesFit(c)
  }

  function HashOf(c: Codec, r: Record): string {
    c.digest(c.encode(r.(hash := "")))
  }

  // ---------- verification ----------

  /** What a line scanner yields; a last line without a newline still counts. */
  function Lines(text: string): seq<string>
    decreases |text|
  {
    if text == "" then []
    else
      var i := Index(text, "\n");
      if i < 0 then [text] else [text[..i]] + Lines(text[i + 1..])
  }

  /** The record a line contributes after `seq` records with hash `head`. */
  function Check(c: Codec, line: string, count: nat, head: string): Option<Record> {
    if !c.fits(line) then None
    else match c.decode(line)
      case None => None
      case Some(r) =>
        if r.version == 1 && r.sequence == count + 1 && r.previous == head && r.hash == HashOf(c, r)
            && c.validTime(r.time)
        then Some(r) else None
  }

  function Prepend(records: seq<Record>, rest: Option<seq<Record>>): Option<seq<Record>> {
    if rest.None? then None else Some(records + rest.value)
  }

  /** The records of lines that continue a chain, or None at the first mismatch. */
  function Chain(c: Codec, lines: seq<string>, count: nat, head: string): (r: Option<seq<Record>>)
    ensures r.Some? ==> |r.value| == |lines|
  {
    if lines == [] then Some([])
    else match Check(c, lines[0], count, head)
      case None => None
      case Some(r) => Prepend([r], Chain(c, lines[1..], count + 1, r.hash))
  }

  lemma PrependTwice(a: seq<Record>, b: seq<Record>, rest: Option<seq<Record>>)
    ensures Prepend(a, Prepend(b, rest)) == Prepend(a + b, rest)
    ensures Prepend([], rest) == rest
  {
    if rest.Some? {
      assert a + (b + rest.value) == a + b + rest.value;
      assert [] + rest.value == rest.value;
    }
  }

  function HeadOf(records: seq<Record>, head: string): string {
    if records == [] then head else records[|records| - 1].hash
  }

  method Verify(c: Codec, text: string) returns (ok: bool, count: nat, head: string)
    ensures var chain := Chain(c, Lines(text), 0, "");
            ok == chain.Some? && (ok ==> count == |chain.value| && head == HeadOf(chain.value, ""))
  {
    count, head := 0, "";
    ghost var records: seq<Record> := [];
    var lines := Lines(text);
    assert lines[0..] == lines;
    PrependTwice([], [], Chain(c, lines, 0, ""));
    for i := 0 to |lines|
      invariant count == i == |records| && head == HeadOf(records, "")
      invariant Chain(c, lines, 0, "") == Prepend(records, Chain(c, lines[i..], i, head))
    {
      assert lines[i..][0] == lines[i] && lines[i..][1..] == lines[i + 1..];
      var record := CheckLine(c, lines[i], count, head);
      if record.None? {
        return false, count, head;
      }
      var r := record.value;
      PrependTwice(records, [r], Chain(c, lines[i + 1..], i + 1, r.hash));
      records := records + [r];
      count, head := r.sequence, r.hash;
    }
    assert lines[|lines|..] == [] && records + [] == records;
    return true, count, head;
  }

  method CheckLine(c: Codec, line: string, count: nat, head: string) returns (record: Option<Record>)
    ensures record == Check(c, line, count, head)
  {
    if !c.fits(line) {
      return None;
    }
    match c.decode(line) {
      case None => return None;
      case Some(r) =>
        if r.version != 1 || r.sequence != count + 1 || r.previous != head || r.hash != HashOf(c, r) {
          return None;
        }
        if !c.validTime(r.time) {
          return None;
        }
        return Some(r);
    }
  }

  /** The records of a file that opens. */
  function Opened(c: Codec, text: string): Option<seq<Record>> {
    if text != "" && text[|text| - 1] != '\n' then None else Chain(c, Lines(text), 0, "")
  }

  // ---------- append ----------

  /** How one append goes wrong, if it does: `Written(n)` stops the write after n bytes. */
  datatype Fault = NoFault | OpenFails | WriteFails(n: nat) | SyncFails | CloseFails | DirectoryFails

  /** `live` is what a reader sees, `durable` what a crash cannot take away, and
      `linked` says that the directory entry is durable too. */
  datatype Disk = Disk(live: string, durable: string, linked: bool)

  datatype Memory = Memory(sequence: nat, head: string, failed: bool)

  function NewRecord(c: Codec, m: Memory, actor: string, action: string, id: string, time: string): Record {
    var r := Record(1, m.sequence + 1, time, actor, action, id, m.head, "");
    r.(hash := HashOf(c, r))
  }

  predicate Fits(actor: string, action: string, id: string) {
    |actor| <= 4096 && |action| <= 8192 && |id| <= 4096
  }

  function Take(s: string, n: nat): string {
    if n <= |s| then s[..n] else s
  }

  function AfterWrite(d: Disk, raw: string, fault: Fault): Disk {
    match fault
    case OpenFails => d
    case WriteFails(n) => d.(live := d.live + Take(raw, n))
    case SyncFails => d.(live := d.live + raw)
    case CloseFails => Disk(d.live + raw, d.live + raw, d.linked)
    case DirectoryFails => Disk(d.live + raw, d.live + raw, d.linked)
    case NoFault => Disk(d.live + raw, d.live + raw, true)
  }

  function AfterAppend(
    c: Codec, d: Disk, m: Memory, actor: string, action: string, id: string, time: string, fault: Fault)
    : (Disk, Memory, bool)
  {
    if m.failed || !Fits(actor, action, id) then (d, m, false)
    else
      var r := NewRecord(c, m, actor, action, id, time);
      var d' := AfterWrite(d, c.encode(r) + "\n", fault);
      match fault
      case OpenFails => (d', m, false)
      case NoFault => (d', Memory(r.sequence, r.hash, false), true)
      case _ => (d', m.(failed := true), false)
  }

  class Log {
    const codec: Codec
    var disk: Disk
    var sequence: nat
    var head: string
    var failed: bool

    ghost function View(): (Disk, Memory)
      reads this
    {
      (disk, Memory(sequence, head, failed))
    }

    constructor (codec: Codec, disk: Disk, sequence: nat, head: string)
      ensures this.codec == codec && View() == (disk, Memory(sequence, head, false))
    {
      this.codec, this.disk, this.sequence, this.head, failed := codec, disk, sequence, head, false;
    }

    static method Open(codec: Codec, disk: Disk) returns (log: Log?)
      ensures log != null <==> Opened(codec, disk.live).Some?
      ensures log != null ==>
                var records := Opened(codec, disk.live).value;
                fresh(log) && log.codec == codec && log.View() == (disk, Memory(|records|, HeadOf(records, ""), false))
    {
      if |disk.live| > 0 && disk.live[|disk.live| - 1] != '\n' {
        return null;
      }
      var ok, count, head := Verify(codec, disk.live);
      if !ok {
        return null;
      }
      log := new Log(codec, disk, count, head);
    }

    method Append(actor: string, action: string, id: string, time: string, fault: Fault) returns (ok: bool)
      modifies this
      ensures (View().0, View().1, ok) ==
                AfterAppend(codec, old(View()).0, old(View()).1, actor, action, id, time, fault)
    {
      if failed {
        return false;
      }
      if |actor| > 4096 || |action| > 8192 || |id| > 4096 {
        return false;
      }
      var r := Record(1, sequence + 1, time, actor, action, id, head, "");
      r := r.(hash := HashOf(codec, r));
      var raw := codec.encode(r) + "\n";
      if fault.OpenFails? {
        return false;
      }
      if fault.WriteFails? {
        disk := disk.(live := disk.live + Take(raw, fault.n));
        failed := true;
        return false;
      }
      disk := disk.(live := disk.live + raw);
      if fault.SyncFails? {
        failed := true;
        return false;
      }
      disk := disk.(durable := disk.live);
      if fault.CloseFails? || fault.DirectoryFails? {
        failed := true;
        return false;
      }
      disk := disk.(linked := true);
      sequence := r.sequence;
      head := r.hash;
      return true;
    }
  }
}
