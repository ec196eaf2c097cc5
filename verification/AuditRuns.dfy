/** What every run of appends, faults, crashes and reopenings keeps. */
module AuditRuns {
  import opened Text
  import opened AuditLog

  /** `log` is the memory of the open log, if any. History: the acknowledged
      records, the file at the last acknowledgement, and whether a record with
      invalid text was acknowledged since the log was opened. */
  datatype State = State(disk: Disk, log: Option<Memory>, acked: set<Record>, committed: string, tainted: bool)

  datatype Op =
    | Append(actor: string, action: string, id: string, time: string, fault: Fault)
    | Crash(content: string)
    | Open

  predicate ValidText(c: Codec, op: Op)
    requires op.Append?
  {
    c.clean(op.actor) == op.actor && c.clean(op.action) == op.action && c.clean(op.id) == op.id
        && c.clean(op.time) == op.time
  }

  function Next(c: Codec, s: State, op: Op): State {
    match op
    case Append(actor, action, id, time, fault) =>
      if s.log.None? then s
      else
        var (d, m, ok) := AfterAppend(c, s.disk, s.log.value, actor, action, id, time, fault);
        if ok then
          State(d, Some(m), s.acked + {NewRecord(c, s.log.value, actor, action, id, time)}, d.live,
                s.tainted || !ValidText(c, op))
        else s.(disk := d, log := Some(m))
    case Crash(content) => s.(disk := Disk(content, content, s.disk.linked || content != ""), log := None)
    case Open =>
      match Opened(c, s.disk.live)
      case None => s.(log := None)
      case Some(records) => s.(log := Some(Memory(|records|, HeadOf(records, ""), false)), tainted := false)
  }

  /** Append stamps a valid time and its number has not run out; a crash keeps what is durable under a durable
      name and may leave anything else after it. */
  predicate Allowed(c: Codec, s: State, op: Op) {
    match op
    case Append(_, _, _, time, _) =>
      c.validTime(time) && |time| <= MaxTime && (s.log.Some? ==> s.log.value.sequence < MaxSequence)
    case Crash(content) => s.disk.linked ==> HasPrefix(content, s.disk.durable)
    case Open => true
  }

  function Run(c: Codec, s: State, ops: seq<Op>): State
    decreases |ops|
  {
    if ops == [] then s else Run(c, Next(c, s, ops[0]), ops[1..])
  }

  predicate AllowedRun(c: Codec, s: State, ops: seq<Op>)
    decreases |ops|
  {
    ops == [] || (Allowed(c, s, ops[0]) && AllowedRun(c, Next(c, s, ops[0]), ops[1..]))
  }

  // ---------- lines and chains of a longer file ----------

  predicate WholeLines(text: string) {
    text == "" || text[|text| - 1] == '\n'
  }

  lemma {:induction false} LinesAppend(a: string, b: string)
    requires WholeLines(a)
    ensures Lines(a + b) == Lines(a) + Lines(b)
    decreases |a|
  {
    if a == "" {
      assert a + b == b;
    } else {
      IndexChar(a, '\n');
      IndexChar(a + b, '\n');
      var i := Index(a, "\n");
      assert i >= 0;
      assert At(a + b, "\n", i);
      assert Index(a + b, "\n") == i by {
        var j := Index(a + b, "\n");
        assert j <= i && (a + b)[j] == '\n';
        assert a[..i] == (a + b)[..i];
      }
      assert (a + b)[..i] == a[..i] && (a + b)[i + 1..] == a[i + 1..] + b;
      assert WholeLines(a[i + 1..]);
      LinesAppend(a[i + 1..], b);
      assert [a[..i]] + (Lines(a[i + 1..]) + Lines(b)) == [a[..i]] + Lines(a[i + 1..]) + Lines(b);
    }
  }

  lemma LinesOne(line: string)
    requires '\n' !in line
    ensures Lines(line + "\n") == [line]
  {
    var t := line + "\n";
    IndexChar(t, '\n');
    assert t[|line|] == '\n' && At(t, "\n", |line|);
    assert Index(t, "\n") == |line|;
    assert t[..|line|] == line && t[|line| + 1..] == "";
  }

  lemma {:induction false} ChainAppend(c: Codec, a: seq<string>, b: seq<string>, count: nat, head: string)
    ensures Chain(c, a, count, head).None? ==> Chain(c, a + b, count, head).None?
    ensures Chain(c, a, count, head).Some? ==>
              var rs := Chain(c, a, count, head).value;
              Chain(c, a + b, count, head) == Prepend(rs, Chain(c, b, count + |a|, HeadOf(rs, head)))
    decreases |a|
  {
    if a == [] {
      assert a + b == b;
      PrependTwice([], [], Chain(c, b, count, head));
    } else {
      assert (a + b)[0] == a[0] && (a + b)[1..] == a[1..] + b;
      match Check(c, a[0], count, head)
      case None =>
      case Some(r) =>
        ChainAppend(c, a[1..], b, count + 1, r.hash);
        var rest := Chain(c, a[1..], count + 1, r.hash);
        if rest.Some? {
          var head' := HeadOf([r] + rest.value, head);
          assert head' == HeadOf(rest.value, r.hash);
          PrependTwice([r], rest.value, Chain(c, b, count + |a|, head'));
        }
    }
  }

  lemma ChainOne(c: Codec, line: string, count: nat, head: string)
    ensures Chain(c, [line], count, head) ==
              match Check(c, line, count, head) case None => None case Some(r) => Some([r])
  {
    assert [line][1..] == [];
    match Check(c, line, count, head)
    case None =>
    case Some(r) => assert [r] + [] == [r];
  }

  /** A file that opens opens up to every whole line of it. */
  lemma {:induction false} OpenedPrefix(c: Codec, a: string, f: string)
    requires WholeLines(a) && HasPrefix(f, a) && Opened(c, f).Some?
    ensures Opened(c, a).Some? && |Opened(c, a).value| <= |Opened(c, f).value|
    ensures Opened(c, a).value == Opened(c, f).value[..|Opened(c, a).value|]
  {
    assert f == a + f[|a|..];
    LinesAppend(a, f[|a|..]);
    ChainAppend(c, Lines(a), Lines(f[|a|..]), 0, "");
  }

  // ---------- the appended record ----------

  lemma {:induction false} NewRecordIsHashed(
    c: Codec, m: Memory, actor: string, action: string, id: string, time: string)
    requires Encodes(c)
    ensures var r := NewRecord(c, m, actor, action, id, time);
            r.hash == HashOf(c, r) && c.clean(r.hash) == r.hash
  {
    var r := NewRecord(c, m, actor, action, id, time);
    assert r.(hash := "") == Record(1, m.sequence + 1, time, actor, action, id, m.head, "");
  }

  /** A line that holds a new record is accepted only as that very record. */
  lemma {:induction false} AcceptedMeansUnchanged(c: Codec, r: Record, count: nat, head: string)
    requires Encodes(c) && r.hash == HashOf(c, r) && c.clean(r.hash) == r.hash
    requires Check(c, c.encode(r), count, head).Some?
    ensures Check(c, c.encode(r), count, head).value == r && Clean(c, r) == r
  {
    var q := Clean(c, r);
    assert c.decode(c.encode(r)) == Some(q);
    assert q.hash == HashOf(c, q);
    assert c.encode(q.(hash := "")) == c.encode(r.(hash := ""));
    assert q.(hash := "") == Clean(c, r.(hash := ""));
    assert Clean(c, r.(hash := "")) == r.(hash := "");
  }

  /** And it is accepted there exactly when its text is valid. */
  lemma {:induction false} AcceptedExactlyWhenValid(c: Codec, m: Memory, op: Op)
    requires Sound(c) && op.Append? && Fits(op.actor, op.action, op.id) && c.validTime(op.time) && |op.time| <= MaxTime
    requires c.clean(m.head) == m.head && IsDigest(c, m.head) && m.sequence < MaxSequence
    ensures var r := NewRecord(c, m, op.actor, op.action, op.id, op.time);
            Check(c, c.encode(r), m.sequence, m.head) == if ValidText(c, op) then Some(r) else None
  {
    var r := NewRecord(c, m, op.actor, op.action, op.id, op.time);
    NewRecordIsHashed(c, m, op.actor, op.action, op.id, op.time);
    assert Writable(c, r);
    if ValidText(c, op) {
      assert Clean(c, r) == r;
    } else if Check(c, c.encode(r), m.sequence, m.head).Some? {
      AcceptedMeansUnchanged(c, r, m.sequence, m.head);
    }
  }

  // ---------- the invariant ----------

  /** Every file that continues `committed` and opens holds the acknowledged
      records at their sequence numbers. */
  ghost predicate Retained(c: Codec, committed: string, acked: set<Record>) {
    forall f :: HasPrefix(f, committed) && Opened(c, f).Some? ==> AllIn(Opened(c, f).value, acked)
  }

  predicate AllIn(records: seq<Record>, acked: set<Record>) {
    forall r :: r in acked ==> 1 <= r.sequence <= |records| && records[r.sequence - 1] == r
  }

  /** While the log works, its memory is what verifying the file gives, exactly as
      long as only valid text was appended; a record with invalid text makes the
      file unreadable. */
  ghost predicate MemoryMatches(c: Codec, s: State) {
    s.log.Some? && !s.log.value.failed ==> Matching(c, s.disk.live, s.log.value, s.tainted)
  }

  ghost predicate Matching(c: Codec, live: string, m: Memory, tainted: bool) {
    && WholeLines(live) && |Lines(live)| == m.sequence && c.clean(m.head) == m.head && IsDigest(c, m.head)
    && (if tainted then Opened(c, live).None? else Opened(c, live).Some? && HeadOf(Opened(c, live).value, "") == m.head)
  }

  ghost predicate Inv(c: Codec, s: State) {
    && HasPrefix(s.disk.live, s.disk.durable) && HasPrefix(s.disk.durable, s.committed)
    && (s.acked != {} ==> s.disk.linked)
    && (s.acked == {} ==> s.committed == "")
    && Retained(c, s.committed, s.acked)
    && MemoryMatches(c, s)
  }

  const Empty := State(Disk("", "", false), None, {}, "", false)

  lemma EmptyOk(c: Codec)
    ensures Inv(c, Empty)
  {
  }

  lemma {:induction false} HeadIsClean(c: Codec, lines: seq<string>, count: nat, head: string)
    requires Encodes(c) && Chain(c, lines, count, head).Some? && c.clean(head) == head && IsDigest(c, head)
    ensures var h := HeadOf(Chain(c, lines, count, head).value, head); c.clean(h) == h && IsDigest(c, h)
    decreases |lines|
  {
    if lines != [] {
      var r := Check(c, lines[0], count, head).value;
      assert c.clean(r.hash) == r.hash;
      HeadIsClean(c, lines[1..], count + 1, r.hash);
      var rest := Chain(c, lines[1..], count + 1, r.hash).value;
      assert HeadOf([r] + rest, head) == HeadOf(rest, r.hash);
    }
  }

  lemma PrefixTransitive(a: string, b: string, f: string)
    requires HasPrefix(b, a) && HasPrefix(f, b)
    ensures HasPrefix(f, a)
  {
    assert f[..|a|] == f[..|b|][..|a|];
  }

  /** The file after an acknowledged append, and the chain it holds. */
  lemma {:induction false} AppendedFile(c: Codec, live: string, m: Memory, r: Record)
    requires Encodes(c) && WholeLines(live) && |Lines(live)| == m.sequence
    ensures var f := live + (c.encode(r) + "\n");
            && WholeLines(f) && Lines(f) == Lines(live) + [c.encode(r)]
            && (Opened(c, live).None? ==> Opened(c, f).None?)
            && (Opened(c, live).Some? ==>
                  var rs := Opened(c, live).value;
                  Opened(c, f) == match Check(c, c.encode(r), m.sequence, HeadOf(rs, ""))
                                  case None => None
                                  case Some(q) => Some(rs + [q]))
  {
    var line := c.encode(r);
    var f := live + (line + "\n");
    LinesAppend(live, line + "\n");
    LinesOne(line);
    ChainAppend(c, Lines(live), [line], 0, "");
    assert f[|f| - 1] == '\n';
    if Opened(c, live).Some? {
      ChainOne(c, line, m.sequence, HeadOf(Opened(c, live).value, ""));
    }
  }

  /** A file that continues an appended record and opens holds it, and holds what
      it held before. */
  lemma {:induction false} AppendedIsThere(c: Codec, live: string, m: Memory, r: Record, f: string)
    requires Encodes(c) && WholeLines(live) && |Lines(live)| == m.sequence
    requires r.sequence == m.sequence + 1 && r.hash == HashOf(c, r) && c.clean(r.hash) == r.hash
    requires HasPrefix(f, live + (c.encode(r) + "\n")) && Opened(c, f).Some?
    ensures AllIn(Opened(c, f).value, {r}) && HasPrefix(f, live)
  {
    var next := live + (c.encode(r) + "\n");
    AppendedFile(c, live, m, r);
    OpenedPrefix(c, next, f);
    assert next[..|live|] == live;
    PrefixTransitive(live, next, f);
    var rs := Opened(c, live).value;
    AcceptedMeansUnchanged(c, r, m.sequence, HeadOf(rs, ""));
    assert Opened(c, next).value == rs + [r];
    assert Opened(c, f).value[m.sequence] == Opened(c, next).value[m.sequence];
  }

  lemma {:induction false} AppendRetains(c: Codec, s: State, r: Record)
    requires Encodes(c) && Inv(c, s) && s.log.Some? && !s.log.value.failed
    requires r.sequence == s.log.value.sequence + 1 && r.hash == HashOf(c, r) && c.clean(r.hash) == r.hash
    ensures Retained(c, s.disk.live + (c.encode(r) + "\n"), s.acked + {r})
  {
    PrefixTransitive(s.committed, s.disk.durable, s.disk.live);
    forall f | HasPrefix(f, s.disk.live + (c.encode(r) + "\n")) && Opened(c, f).Some?
      ensures AllIn(Opened(c, f).value, s.acked + {r})
    {
      AppendedIsThere(c, s.disk.live, s.log.value, r, f);
      PrefixTransitive(s.committed, s.disk.live, f);
      assert AllIn(Opened(c, f).value, s.acked);
    }
  }

  lemma {:induction false} AckedMatches(c: Codec, live: string, m: Memory, tainted: bool, op: Op)
    requires Sound(c) && op.Append? && c.validTime(op.time) && |op.time| <= MaxTime && Fits(op.actor, op.action, op.id)
    requires Matching(c, live, m, tainted) && m.sequence < MaxSequence
    ensures var r := NewRecord(c, m, op.actor, op.action, op.id, op.time);
            Matching(c, live + (c.encode(r) + "\n"), Memory(r.sequence, r.hash, false), tainted || !ValidText(c, op))
  {
    var r := NewRecord(c, m, op.actor, op.action, op.id, op.time);
    NewRecordIsHashed(c, m, op.actor, op.action, op.id, op.time);
    AppendedFile(c, live, m, r);
    AcceptedExactlyWhenValid(c, m, op);
  }

  lemma {:induction false} AppendMatches(c: Codec, s: State, op: Op)
    requires Sound(c) && MemoryMatches(c, s) && op.Append? && Allowed(c, s, op)
    ensures MemoryMatches(c, Next(c, s, op))
  {
    if s.log.Some? && AfterAppend(c, s.disk, s.log.value, op.actor, op.action, op.id, op.time, op.fault).2 {
      AckedMatches(c, s.disk.live, s.log.value, s.tainted, op);
    }
  }

  lemma WritePrefixes(d: Disk, raw: string, fault: Fault)
    requires HasPrefix(d.live, d.durable)
    ensures var e := AfterWrite(d, raw, fault);
            HasPrefix(e.live, e.durable) && HasPrefix(e.durable, d.durable) && (d.linked ==> e.linked)
  {
    assert (d.live + raw)[..|d.live|] == d.live;
    PrefixTransitive(d.durable, d.live, d.live + raw);
    if fault.WriteFails? {
      var part := Take(raw, fault.n);
      assert (d.live + part)[..|d.live|] == d.live;
      PrefixTransitive(d.durable, d.live, d.live + part);
    }
  }

  lemma {:induction false} AppendKeeps(c: Codec, s: State, op: Op)
    requires Sound(c) && Inv(c, s) && op.Append? && Allowed(c, s, op)
    ensures Inv(c, Next(c, s, op))
  {
    AppendMatches(c, s, op);
    if s.log.Some? && !s.log.value.failed && Fits(op.actor, op.action, op.id) {
      var r := NewRecord(c, s.log.value, op.actor, op.action, op.id, op.time);
      WritePrefixes(s.disk, c.encode(r) + "\n", op.fault);
      if op.fault.NoFault? {
        NewRecordIsHashed(c, s.log.value, op.actor, op.action, op.id, op.time);
        AppendRetains(c, s, r);
      } else {
        PrefixTransitive(s.committed, s.disk.durable, Next(c, s, op).disk.durable);
      }
    }
  }

  lemma {:induction false} StepKeeps(c: Codec, s: State, op: Op)
    requires Sound(c) && Inv(c, s) && Allowed(c, s, op)
    ensures Inv(c, Next(c, s, op))
  {
    match op
    case Append(_, _, _, _, _) => AppendKeeps(c, s, op);
    case Crash(content) =>
      if s.disk.linked { PrefixTransitive(s.committed, s.disk.durable, content); }
    case Open =>
      if Opened(c, s.disk.live).Some? { HeadIsClean(c, Lines(s.disk.live), 0, ""); }
  }

  lemma {:induction false} RunKeeps(c: Codec, s: State, ops: seq<Op>)
    requires Sound(c) && Inv(c, s) && AllowedRun(c, s, ops)
    ensures Inv(c, Run(c, s, ops))
    decreases |ops|
  {
    if ops != [] {
      StepKeeps(c, s, ops[0]);
      RunKeeps(c, Next(c, s, ops[0]), ops[1..]);
    }
  }

  lemma {:induction false} AckedGrows(c: Codec, s: State, ops: seq<Op>)
    ensures s.acked <= Run(c, s, ops).acked
    decreases |ops|
  {
    if ops != [] { AckedGrows(c, Next(c, s, ops[0]), ops[1..]); }
  }

  /** An acknowledged record is at its sequence number in every log that is later
      opened, after any faults, crashes and appends. */
  lemma {:induction false} AcknowledgedSurvives(c: Codec, s: State, ops: seq<Op>, r: Record)
    requires Sound(c) && Inv(c, s) && AllowedRun(c, s, ops) && r in s.acked
    requires Opened(c, Run(c, s, ops).disk.live).Some?
    ensures var records := Opened(c, Run(c, s, ops).disk.live).value;
            1 <= r.sequence <= |records| && records[r.sequence - 1] == r
  {
    RunKeeps(c, s, ops);
    AckedGrows(c, s, ops);
    var t := Run(c, s, ops);
    PrefixTransitive(t.committed, t.disk.durable, t.disk.live);
  }

  // ---------- the head pins the log ----------

  /** An accepted log is an accepted log and one more record that continues it. */
  lemma {:induction false} ChainLast(c: Codec, lines: seq<string>, count: nat, head: string)
    returns (front: seq<Record>, last: Record)
    requires Encodes(c) && lines != [] && Chain(c, lines, count, head).Some?
    ensures Chain(c, lines[..|lines| - 1], count, head) == Some(front)
    ensures Chain(c, lines, count, head) == Some(front + [last])
    ensures last.previous == HeadOf(front, head) && last.hash == HashOf(c, last) && Clean(c, last) == last
  {
    var init, line := lines[..|lines| - 1], lines[|lines| - 1];
    assert lines == init + [line];
    ChainAppend(c, init, [line], count, head);
    front := Chain(c, init, count, head).value;
    ChainOne(c, line, count + |init|, HeadOf(front, head));
    last := Chain(c, [line], count + |init|, HeadOf(front, head)).value[0];
  }

  lemma HeadOfLast(front: seq<Record>, last: Record, head: string)
    ensures HeadOf(front + [last], head) == last.hash
  {
  }

  /** Two accepted logs with the same length and head are the same log. */
  lemma {:induction false} SameHeadSameLog(c: Codec, a: seq<string>, b: seq<string>)
    requires Encodes(c) && Chain(c, a, 0, "").Some? && Chain(c, b, 0, "").Some?
    requires |a| == |b| && HeadOf(Chain(c, a, 0, "").value, "") == HeadOf(Chain(c, b, 0, "").value, "")
    ensures Chain(c, a, 0, "") == Chain(c, b, 0, "")
    decreases |a|
  {
    if a != [] {
      var front, last := ChainLast(c, a, 0, "");
      var other, end := ChainLast(c, b, 0, "");
      HeadOfLast(front, last, "");
      HeadOfLast(other, end, "");
      SameHash(c, last, end);
      SameHeadSameLog(c, a[..|a| - 1], b[..|b| - 1]);
    }
  }

  lemma {:induction false} SameHash(c: Codec, x: Record, y: Record)
    requires Encodes(c) && x.hash == HashOf(c, x) && y.hash == HashOf(c, y) && x.hash == y.hash
    requires Clean(c, x) == x && Clean(c, y) == y
    ensures x == y
  {
    var p, q := x.(hash := ""), y.(hash := "");
    assert Clean(c, p) == p && Clean(c, q) == q;
    assert c.encode(p) == c.encode(q);
    assert c.decode(c.encode(p)) == Some(p) && c.decode(c.encode(q)) == Some(q);
    assert x == p.(hash := x.hash) && y == q.(hash := y.hash);
  }

  // ---------- what is accepted, and what is kept ----------

  /** Line `i` holds record `i` of a chain that continues `count` records with
      hash `head`. */
  ghost predicate Linked(c: Codec, lines: seq<string>, records: seq<Record>, count: nat, head: string, i: nat)
    requires i < |lines| == |records|
  {
    var r := records[i];
    && c.fits(lines[i]) && c.decode(lines[i]) == Some(r) && c.validTime(r.time)
    && r.version == 1 && r.sequence == count + i + 1
    && r.previous == (if i == 0 then head else records[i - 1].hash)
    && r.hash == c.digest(c.encode(r.(hash := "")))
  }

  ghost predicate AllLinked(c: Codec, lines: seq<string>, records: seq<Record>, count: nat, head: string) {
    |records| == |lines| && forall i: nat :: i < |lines| ==> Linked(c, lines, records, count, head, i)
  }

  lemma {:induction false} LinkedCons(c: Codec, lines: seq<string>, records: seq<Record>, count: nat, head: string)
    requires lines != [] && |records| == |lines|
    ensures AllLinked(c, lines, records, count, head) <==>
              Linked(c, lines, records, count, head, 0)
              && AllLinked(c, lines[1..], records[1..], count + 1, records[0].hash)
  {
    var tail, rest, hash, next := lines[1..], records[1..], records[0].hash, count + 1;
    if AllLinked(c, lines, records, count, head) {
      forall i: nat | i < |tail|
        ensures Linked(c, tail, rest, next, hash, i)
      {
        assert Linked(c, lines, records, count, head, i + 1);
      }
    }
    if Linked(c, lines, records, count, head, 0) && AllLinked(c, tail, rest, next, hash) {
      forall i: nat | i < |lines|
        ensures Linked(c, lines, records, count, head, i)
      {
        if i > 0 { assert Linked(c, tail, rest, next, hash, i - 1); }
      }
    }
  }

  /** A log is accepted exactly when its lines hold records numbered from one, each
      naming the hash of the one before and hashing to its own. */
  lemma {:induction false} AcceptedExactlyWhenLinked(
    c: Codec, lines: seq<string>, records: seq<Record>, count: nat, head: string)
    ensures Chain(c, lines, count, head) == Some(records) <==> AllLinked(c, lines, records, count, head)
    decreases |lines|
  {
    if lines != [] && |records| == |lines| {
      var first, rest := records[0], records[1..];
      assert records == [first] + rest;
      LinkedCons(c, lines, records, count, head);
      AcceptedExactlyWhenLinked(c, lines[1..], rest, count + 1, first.hash);
      assert Check(c, lines[0], count, head) == Some(first) <==> Linked(c, lines, records, count, head, 0);
    }
  }

  /** An append is acknowledged exactly when the log has not failed, the texts are
      within their limits, and nothing goes wrong on the disk. */
  lemma AcknowledgedExactly(c: Codec, d: Disk, m: Memory, op: Op)
    requires op.Append?
    ensures AfterAppend(c, d, m, op.actor, op.action, op.id, op.time, op.fault).2 <==>
              !m.failed && |op.actor| <= 4096 && |op.action| <= 8192 && |op.id| <= 4096 && op.fault.NoFault?
  {
  }

  /** What was acknowledged is what is read: every later log that opens holds the
      texts as they were given, at the number they got. */
  lemma {:induction false} AcknowledgedAsGiven(c: Codec, s: State, op: Op, ops: seq<Op>)
    requires Sound(c) && Inv(c, s) && op.Append? && Allowed(c, s, op) && s.log.Some?
    requires AfterAppend(c, s.disk, s.log.value, op.actor, op.action, op.id, op.time, op.fault).2
    requires AllowedRun(c, Next(c, s, op), ops) && Opened(c, Run(c, Next(c, s, op), ops).disk.live).Some?
    ensures var records, n := Opened(c, Run(c, Next(c, s, op), ops).disk.live).value, s.log.value.sequence;
            n < |records| && records[n].sequence == n + 1 && records[n].actor == op.actor
            && records[n].action == op.action && records[n].id == op.id && records[n].time == op.time
  {
    var r := NewRecord(c, s.log.value, op.actor, op.action, op.id, op.time);
    StepKeeps(c, s, op);
    assert r in Next(c, s, op).acked;
    AcknowledgedSurvives(c, Next(c, s, op), ops, r);
  }
}
