/** Offline backups: what Create writes and what extraction accepts. */
module Backup {
  import opened Counting
  import opened Text

  datatype Manifest = Manifest(version: int, files: map<string, string>)

  datatype Entry = Entry(name: string, regular: bool, size: int, content: string)

  /** The manifest encoding and the file hash. The encoder writes text it cannot
      represent as `clean` of it. */
  datatype Codec = Codec(
    encode: Manifest -> string, decode: string -> Option<Manifest>, clean: string -> string, digest: string -> string)

  ghost predicate CleanMap(c: Codec, files: map<string, string>) {
    forall n :: n in files ==> c.clean(n) == n && c.clean(files[n]) == files[n]
  }

  /** `d` is what reading back an encoded `m` yields: the names are cleaned, and
      nothing changes when there is nothing to clean. */
  ghost predicate ReadBack(c: Codec, m: Manifest, d: Manifest) {
    && d.version == m.version
    && (forall k :: k in d.files ==> exists n :: n in m.files && c.clean(n) == k)
    && (CleanMap(c, m.files) ==> d.files == m.files)
  }

  ghost predicate HasDigests(c: Codec) {
    forall s :: c.digest(s) != ""
  }

  ghost predicate Sound(c: Codec) {
    && HasDigests(c) && (forall s :: c.clean(c.digest(s)) == c.digest(s))
          && (forall s :: c.clean(c.clean(s)) == c.clean(s))
    && forall m :: c.decode(c.encode(m)).Some? && ReadBack(c, m, c.decode(c.encode(m)).value)
  }

  const ManifestName := ".mailhub-backup.json"
  const MaxEntries := 1000000
  const MaxManifest := 67108864

  // ---------- names ----------

  /** A clean relative name: no empty, "." or ".." component and no backslash. */
  predicate SafeName(name: string) {
    '\\' !in name && forall p :: p in Split(name, "/") ==> p != "" && p != "." && p != ".."
  }

  /** `a` names a directory above `b`. */
  predicate Above(a: string, b: string) {
    HasPrefix(b, a + "/")
  }

  /** The file system refuses a file below a file, or in the place of a directory. */
  predicate Blocked(files: map<string, string>, name: string) {
    exists f :: f in files && (Above(f, name) || Above(name, f))
  }

  // ---------- extraction ----------

  datatype State = State(
    files: map<string, string>, hashes: map<string, string>, manifest: Option<Manifest>, total: int)

  function Next(c: Codec, s: State, e: Entry, maxBytes: int): Option<State> {
    if !e.regular || !SafeName(e.name) || e.size < 0 || e.size > maxBytes - s.total then None
    else
      var counted := s.(total := s.total + e.size);
      if e.name == ManifestName then
        if s.manifest.Some? || e.size > MaxManifest || c.decode(e.content).None? then None
        else Some(counted.(manifest := c.decode(e.content)))
      else if |s.hashes| >= MaxEntries || e.name in s.hashes || Blocked(s.files, e.name) then None
      else Some(counted.(files := s.files[e.name := e.content], hashes := s.hashes[e.name := c.digest(e.content)]))
  }

  const Fresh := State(map[], map[], None, 0)

  /** The state after the first `n` entries. */
  function After(c: Codec, archive: seq<Entry>, maxBytes: int, n: nat): Option<State>
    requires n <= |archive|
  {
    if n == 0 then Some(Fresh)
    else
      var before := After(c, archive, maxBytes, n - 1);
      if before.None? then None else Next(c, before.value, archive[n - 1], maxBytes)
  }

  predicate Matches(s: State) {
    && s.manifest.Some? && s.manifest.value.version == 1 && |s.manifest.value.files| == |s.hashes|
    && forall n :: n in s.hashes ==>
         (if n in s.manifest.value.files then s.manifest.value.files[n] else "") == s.hashes[n]
  }

  /** The extracted files, or None. */
  function Extracted(c: Codec, archive: seq<Entry>, trailing: bool, maxBytes: int): Option<map<string, string>> {
    if maxBytes <= 0 then None
    else
      var s := After(c, archive, maxBytes, |archive|);
      if s.None? || trailing || !Matches(s.value) then None else Some(s.value.files)
  }

  /** `trailing` says that bytes follow the end of the archive. */
  method Extract(c: Codec, archive: seq<Entry>, trailing: bool, maxBytes: int) returns (r: Option<map<string, string>>)
    ensures r == Extracted(c, archive, trailing, maxBytes)
  {
    if maxBytes <= 0 {
      return None;
    }
    var s := Fresh;
    for i := 0 to |archive|
      invariant After(c, archive, maxBytes, i) == Some(s)
    {
      Stuck(c, archive, maxBytes, i + 1, |archive|);
      var next := TakeEntry(c, s, archive[i], maxBytes);
      if next.None? {
        return None;
      }
      s := next.value;
    }
    var files, hashes, manifest := s.files, s.hashes, s.manifest;
    if trailing {
      return None;
    }
    if manifest.None? || manifest.value.version != 1 || |manifest.value.files| != |hashes| {
      return None;
    }
    var rest := hashes.Keys;
    while rest != {}
      invariant rest <= hashes.Keys
      invariant forall n :: n in hashes && n !in rest ==>
                  (if n in manifest.value.files then manifest.value.files[n] else "") == hashes[n]
    {
      var name :| name in rest;
      rest := rest - {name};
      var listed := if name in manifest.value.files then manifest.value.files[name] else "";
      if listed != hashes[name] {
        return None;
      }
    }
    return Some(files);
  }

  /** The checks on one entry, in order, and its extraction. */
  method TakeEntry(c: Codec, s: State, h: Entry, maxBytes: int) returns (r: Option<State>)
    ensures r == Next(c, s, h, maxBytes)
  {
    if !h.regular || !SafeName(h.name) {
      return None;
    }
    if h.size < 0 || h.size > maxBytes - s.total {
      return None;
    }
    var t := s.(total := s.total + h.size);
    if h.name == ManifestName {
      if t.manifest.Some? {
        return None;
      }
      if h.size > MaxManifest {
        return None;
      }
      t := t.(manifest := c.decode(h.content));
      if t.manifest.None? {
        return None;
      }
      return Some(t);
    }
    if |t.hashes| >= MaxEntries {
      return None;
    }
    if h.name in t.hashes {
      return None;
    }
    if Blocked(t.files, h.name) {
      return None;
    }
    t := t.(files := t.files[h.name := h.content]);
    t := t.(hashes := t.hashes[h.name := c.digest(h.content)]);
    return Some(t);
  }

  lemma {:induction false} Stuck(c: Codec, archive: seq<Entry>, maxBytes: int, i: nat, n: nat)
    requires i <= n <= |archive|
    ensures After(c, archive, maxBytes, i).None? ==> After(c, archive, maxBytes, n).None?
  {
    if i < n { Stuck(c, archive, maxBytes, i, n - 1); }
  }

  function Digests(c: Codec, files: map<string, string>): map<string, string> {
    map n | n in files :: c.digest(files[n])
  }

  function Sizes(archive: seq<Entry>, n: nat): int
    requires n <= |archive|
  {
    if n == 0 then 0 else Sizes(archive, n - 1) + archive[n - 1].size
  }

  /** The extracted files are the entries other than the manifest. */
  ghost predicate FromEntries(archive: seq<Entry>, n: nat, files: map<string, string>)
    requires n <= |archive|
  {
    && (forall i :: 0 <= i < n && archive[i].name != ManifestName
          ==> archive[i].name in files && files[archive[i].name] == archive[i].content)
    && (forall f :: f in files ==> f != ManifestName && SafeName(f) && Named(archive, n, f))
  }

  predicate Named(archive: seq<Entry>, n: nat, name: string)
    requires n <= |archive|
  {
    exists i :: 0 <= i < n && archive[i].name == name
  }

  ghost predicate ManifestRead(c: Codec, archive: seq<Entry>, n: nat, manifest: Option<Manifest>)
    requires n <= |archive|
  {
    && (manifest.Some? <==> Named(archive, n, ManifestName))
    && (forall i :: 0 <= i < n && archive[i].name == ManifestName ==> manifest == c.decode(archive[i].content))
  }

  ghost predicate DistinctNames(archive: seq<Entry>, n: nat)
    requires n <= |archive|
  {
    forall i, j :: 0 <= i < j < n ==> archive[i].name != archive[j].name
  }

  ghost predicate Consistent(c: Codec, archive: seq<Entry>, maxBytes: int, n: nat, s: State)
    requires n <= |archive|
  {
    && s.hashes == Digests(c, s.files) && s.total == Sizes(archive, n) <= maxBytes
    && FromEntries(archive, n, s.files) && DistinctNames(archive, n) && ManifestRead(c, archive, n, s.manifest)
  }

  lemma NamedNext(archive: seq<Entry>, n: nat, name: string)
    requires n < |archive|
    ensures Named(archive, n + 1, name) <==> Named(archive, n, name) || archive[n].name == name
  {
    if Named(archive, n, name) {
      var i :| 0 <= i < n && archive[i].name == name;
      assert archive[i].name == name;
    }
  }

  lemma {:induction false} FromEntriesNext(archive: seq<Entry>, n: nat, files: map<string, string>)
    requires n < |archive| && FromEntries(archive, n, files)
    requires archive[n].name != ManifestName && archive[n].name !in files && SafeName(archive[n].name)
    ensures FromEntries(archive, n + 1, files[archive[n].name := archive[n].content])
    ensures forall i :: 0 <= i < n ==> archive[i].name != archive[n].name
  {
    var after := files[archive[n].name := archive[n].content];
    forall f | f in after
      ensures f != ManifestName && SafeName(f) && Named(archive, n + 1, f)
    {
      NamedNext(archive, n, f);
    }
  }

  lemma {:induction false} NextFile(c: Codec, archive: seq<Entry>, maxBytes: int, n: nat, s: State)
    requires n < |archive| && Consistent(c, archive, maxBytes, n, s) && Next(c, s, archive[n], maxBytes).Some?
    requires archive[n].name != ManifestName
    ensures Consistent(c, archive, maxBytes, n + 1, Next(c, s, archive[n], maxBytes).value)
  {
    var e := archive[n];
    var t := Next(c, s, e, maxBytes).value;
    assert s.hashes.Keys == s.files.Keys;
    FromEntriesNext(archive, n, s.files);
    DistinctNext(archive, n);
    SameManifest(c, archive, n, s.manifest);
    DigestsNext(c, s.files, e.name, e.content);
  }

  lemma DigestsNext(c: Codec, files: map<string, string>, name: string, content: string)
    ensures Digests(c, files[name := content]) == Digests(c, files)[name := c.digest(content)]
  {
  }

  lemma DistinctNext(archive: seq<Entry>, n: nat)
    requires n < |archive| && DistinctNames(archive, n) && forall i :: 0 <= i < n ==> archive[i].name != archive[n].name
    ensures DistinctNames(archive, n + 1)
  {
  }

  lemma SameManifest(c: Codec, archive: seq<Entry>, n: nat, manifest: Option<Manifest>)
    requires n < |archive| && ManifestRead(c, archive, n, manifest) && archive[n].name != ManifestName
    ensures ManifestRead(c, archive, n + 1, manifest)
  {
    NamedNext(archive, n, ManifestName);
  }

  lemma {:induction false} NextManifest(c: Codec, archive: seq<Entry>, maxBytes: int, n: nat, s: State)
    requires n < |archive| && Consistent(c, archive, maxBytes, n, s) && Next(c, s, archive[n], maxBytes).Some?
    requires archive[n].name == ManifestName
    ensures Consistent(c, archive, maxBytes, n + 1, Next(c, s, archive[n], maxBytes).value)
  {
    NamedNext(archive, n, ManifestName);
    assert forall i :: 0 <= i < n ==> archive[i].name != ManifestName by {
      assert !Named(archive, n, ManifestName);
    }
    forall f | f in s.files
      ensures Named(archive, n + 1, f)
    {
      NamedNext(archive, n, f);
    }
  }

  lemma FreshConsistent(c: Codec, archive: seq<Entry>, maxBytes: int)
    requires maxBytes > 0
    ensures Consistent(c, archive, maxBytes, 0, Fresh)
  {
  }

  lemma {:induction false} NextConsistent(c: Codec, archive: seq<Entry>, maxBytes: int, n: nat, s: State)
    requires n < |archive| && Consistent(c, archive, maxBytes, n, s) && Next(c, s, archive[n], maxBytes).Some?
    ensures Consistent(c, archive, maxBytes, n + 1, Next(c, s, archive[n], maxBytes).value)
  {
    if archive[n].name == ManifestName {
      NextManifest(c, archive, maxBytes, n, s);
    } else {
      NextFile(c, archive, maxBytes, n, s);
    }
  }

  /** The entries taken so far have distinct names, all safe, and sizes within the
      limit; the files are theirs, the digests are of the files, and the manifest
      is the one entry of its name. */
  lemma {:induction false} AfterConsistent(c: Codec, archive: seq<Entry>, maxBytes: int, n: nat)
    requires n <= |archive| && maxBytes > 0 && After(c, archive, maxBytes, n).Some?
    ensures Consistent(c, archive, maxBytes, n, After(c, archive, maxBytes, n).value)
  {
    if n == 0 {
      FreshConsistent(c, archive, maxBytes);
    } else {
      AfterConsistent(c, archive, maxBytes, n - 1);
      NextConsistent(c, archive, maxBytes, n - 1, After(c, archive, maxBytes, n - 1).value);
    }
  }

  /** Equal sizes and one-sided matching make the two tables equal. */
  lemma {:induction false} OneSidedIsEnough(listed: map<string, string>, hashes: map<string, string>)
    requires |listed| == |hashes|
    requires forall n :: n in hashes ==> hashes[n] != "" && (if n in listed then listed[n] else "") == hashes[n]
    ensures listed == hashes
  {
    assert hashes.Keys <= listed.Keys;
    Smaller(hashes.Keys, listed.Keys);
  }

  /** Extraction accepts only an archive whose entries are distinct safe names
      within the byte limit, with one manifest that lists exactly the extracted
      files and their digests. */
  lemma {:induction false} AcceptedMeansAgreed(
    c: Codec, archive: seq<Entry>, trailing: bool, maxBytes: int) returns (m: nat)
    requires HasDigests(c) && Extracted(c, archive, trailing, maxBytes).Some?
    ensures !trailing && Sizes(archive, |archive|) <= maxBytes
    ensures m < |archive| && archive[m].name == ManifestName && c.decode(archive[m].content).Some?
    ensures var files := Extracted(c, archive, trailing, maxBytes).value;
            && c.decode(archive[m].content).value == Manifest(1, Digests(c, files))
            && DistinctNames(archive, |archive|) && FromEntries(archive, |archive|, files)
  {
    AfterConsistent(c, archive, maxBytes, |archive|);
    var s := After(c, archive, maxBytes, |archive|).value;
    OneSidedIsEnough(s.manifest.value.files, s.hashes);
    m :| 0 <= m < |archive| && archive[m].name == ManifestName;
  }
}
