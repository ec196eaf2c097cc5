/** Extracting what Create wrote. */
module BackupRoundTrip {
  import opened Text
  import opened Backup

  /** A file of the data directory; `path` holds its components. */
  datatype File = File(path: seq<string>, regular: bool, content: string)

  function Name(f: File): string {
    Join(f.path, "/")
  }

  predicate Component(p: string) {
    p != "" && p != "." && p != ".." && '/' !in p
  }

  /** What a directory walk yields: files with proper components, none of which
      is another one or lies below it. */
  ghost predicate TreeOk(tree: seq<File>) {
    && (forall i :: 0 <= i < |tree| ==> tree[i].path != [] && forall p :: p in tree[i].path ==> Component(p))
    && forall i, j :: 0 <= i < |tree| && 0 <= j < |tree| && i != j ==> !(tree[i].path <= tree[j].path)
  }

  predicate Lock(f: File) {
    f.path != [] && f.path[|f.path| - 1] == ".owner.lock"
  }

  /** The files of the first `n` that are not ownership locks. */
  function Kept(tree: seq<File>, n: nat): seq<File>
    requires n <= |tree|
  {
    if n == 0 then [] else Kept(tree, n - 1) + (if Lock(tree[n - 1]) then [] else [tree[n - 1]])
  }

  function EntryOf(f: File): Entry {
    Entry(Name(f), true, |f.content|, f.content)
  }

  function Entries(files: seq<File>): seq<Entry> {
    seq(|files|, i requires 0 <= i < |files| => EntryOf(files[i]))
  }

  /** Names and contents of the first `n` files. */
  function Contents(files: seq<File>, n: nat): map<string, string>
    requires n <= |files|
  {
    if n == 0 then map[] else Contents(files, n - 1)[Name(files[n - 1]) := files[n - 1].content]
  }

  predicate Archivable(f: File) {
    f.regular && Name(f) != ManifestName
  }

  function ManifestEntry(c: Codec, files: seq<File>): Entry {
    var raw := c.encode(Manifest(1, Digests(c, Contents(files, |files|))));
    Entry(ManifestName, true, |raw|, raw)
  }

  function Created(c: Codec, tree: seq<File>): Option<seq<Entry>> {
    var files := Kept(tree, |tree|);
    if exists f :: f in files && !Archivable(f) then None
    else Some(Entries(files) + [ManifestEntry(c, files)])
  }

  method Create(c: Codec, tree: seq<File>) returns (r: Option<seq<Entry>>)
    ensures r == Created(c, tree)
  {
    var entries: seq<Entry> := [];
    var manifest: map<string, string> := map[];
    for i := 0 to |tree|
      invariant entries == Entries(Kept(tree, i))
      invariant manifest == Digests(c, Contents(Kept(tree, i), |Kept(tree, i)|))
      invariant forall f :: f in Kept(tree, i) ==> Archivable(f)
    {
      var f := tree[i];
      ghost var before := Kept(tree, i);
      NextKept(c, tree, i);
      if f.path != [] && f.path[|f.path| - 1] == ".owner.lock" {
        continue;
      }
      KeptGrows(tree, i + 1, |tree|, f);
      var rel := Join(f.path, "/");
      if rel == ManifestName {
        return None;
      }
      if !f.regular {
        return None;
      }
      entries := entries + [Entry(rel, true, |f.content|, f.content)];
      manifest := manifest[rel := c.digest(f.content)];
    }
    var raw := c.encode(Manifest(1, manifest));
    return Some(entries + [Entry(ManifestName, true, |raw|, raw)]);
  }

  lemma {:induction false} KeptGrows(tree: seq<File>, i: nat, n: nat, f: File)
    requires i <= n <= |tree| && f in Kept(tree, i)
    ensures f in Kept(tree, n)
  {
    if i < n { KeptGrows(tree, i, n - 1, f); }
  }

  lemma {:induction false} ContentsPrefix(a: seq<File>, b: seq<File>, n: nat)
    requires n <= |a| && n <= |b| && a[..n] == b[..n]
    ensures Contents(a, n) == Contents(b, n)
  {
    if n > 0 {
      assert a[n - 1] == a[..n][n - 1] && b[n - 1] == b[..n][n - 1];
      assert a[..n - 1] == a[..n][..n - 1] && b[..n - 1] == b[..n][..n - 1];
      ContentsPrefix(a, b, n - 1);
    }
  }

  lemma ContentsLast(files: seq<File>, f: File)
    ensures Contents(files + [f], |files| + 1) == Contents(files, |files|)[Name(f) := f.content]
  {
    assert (files + [f])[..|files|] == files[..|files|];
    ContentsPrefix(files, files + [f], |files|);
  }

  /** What one more file does to the archive and its manifest. */
  lemma NextKept(c: Codec, tree: seq<File>, i: nat)
    requires i < |tree|
    ensures var before, after, f := Kept(tree, i), Kept(tree, i + 1), tree[i];
            if Lock(f) then after == before
            else after == before + [f] && Entries(after) == Entries(before) + [EntryOf(f)]
                 && Digests(c, Contents(after, |after|))
                       == Digests(c, Contents(before, |before|))[Name(f) := c.digest(f.content)]
  {
    var before, after, f := Kept(tree, i), Kept(tree, i + 1), tree[i];
    if !Lock(f) {
      ContentsLast(before, f);
      DigestsNext(c, Contents(before, |before|), Name(f), f.content);
    }
  }

  // ---------- names of a tree ----------

  lemma {:induction false} NameComponents(f: File)
    requires f.path != [] && forall p :: p in f.path ==> Component(p)
    ensures Split(Name(f), "/") == f.path
    ensures SafeName(Name(f)) <==> '\\' !in Name(f)
  {
    SplitJoin(f.path, '/');
  }

  /** A name above another one belongs to a path above the other's. */
  lemma {:induction false} AboveIsPrefix(a: File, b: File)
    requires a.path != [] && b.path != [] && (forall p :: p in a.path ==> Component(p))
              && (forall p :: p in b.path ==> Component(p))
    requires Above(Name(a), Name(b)) || Name(a) == Name(b)
    ensures a.path <= b.path
  {
    NameComponents(a);
    NameComponents(b);
    if Name(a) != Name(b) {
      var rest := Name(b)[|Name(a)| + 1..];
      assert Name(b) == Name(a) + "/" + rest;
      SplitAppend(Name(a), rest, '/');
      assert b.path == a.path + Split(rest, "/");
    }
  }

  lemma {:induction false} ContentsNames(files: seq<File>, n: nat, name: string)
    requires n <= |files|
    ensures name in Contents(files, n) <==> exists i :: 0 <= i < n && Name(files[i]) == name
  {
    if n > 0 { ContentsNames(files, n - 1, name); }
  }

  lemma {:induction false} NothingInTheWay(files: seq<File>, n: nat)
    requires TreeOk(files) && n < |files|
    ensures Name(files[n]) !in Contents(files, n) && !Blocked(Contents(files, n), Name(files[n]))
  {
    ContentsNames(files, n, Name(files[n]));
    forall i | 0 <= i < n
      ensures Name(files[i]) != Name(files[n]) && !Above(Name(files[i]), Name(files[n]))
                && !Above(Name(files[n]), Name(files[i]))
    {
      if Name(files[i]) == Name(files[n]) || Above(Name(files[i]), Name(files[n])) {
        AboveIsPrefix(files[i], files[n]);
      }
      if Above(Name(files[n]), Name(files[i])) { AboveIsPrefix(files[n], files[i]); }
    }
    forall f | f in Contents(files, n)
      ensures !Above(f, Name(files[n])) && !Above(Name(files[n]), f)
    {
      ContentsNames(files, n, f);
    }
  }

  lemma {:induction false} ContentsSize(c: Codec, files: seq<File>, n: nat)
    requires TreeOk(files) && n <= |files|
    ensures |Digests(c, Contents(files, n))| == n
  {
    if n > 0 {
      ContentsSize(c, files, n - 1);
      NothingInTheWay(files, n - 1);
      DigestsNext(c, Contents(files, n - 1), Name(files[n - 1]), files[n - 1].content);
      OneMore(Digests(c, Contents(files, n - 1)), Name(files[n - 1]), c.digest(files[n - 1].content));
    }
  }

  lemma OneMore(m: map<string, string>, k: string, v: string)
    requires k !in m
    ensures |m[k := v]| == |m| + 1
  {
    assert m[k := v].Keys == m.Keys + {k};
  }

  // ---------- the round trip ----------

  ghost predicate GoodUpTo(files: seq<File>, archive: seq<Entry>, maxBytes: int, n: nat)
    requires n <= |files| && n <= |archive|
  {
    Sizes(archive, n) <= maxBytes && n <= MaxEntries && forall i :: 0 <= i < n ==> '\\' !in Name(files[i])
  }

  lemma FileStep(c: Codec, s: State, e: Entry, maxBytes: int)
    requires e.regular && e.size >= 0 && e.name != ManifestName && e.name !in s.hashes && !Blocked(s.files, e.name)
    ensures Next(c, s, e, maxBytes) ==
              if SafeName(e.name) && e.size <= maxBytes - s.total && |s.hashes| < MaxEntries
              then Some(State(s.files[e.name := e.content], s.hashes[e.name := c.digest(e.content)], s.manifest,
                  s.total + e.size))
              else None
  {
  }

  lemma {:induction false} ExtractFile(c: Codec, files: seq<File>, archive: seq<Entry>, maxBytes: int, n: nat)
    requires TreeOk(files) && n < |files| && |archive| == |files| + 1 && archive[..|files|] == Entries(files)
              && Archivable(files[n])
    requires GoodUpTo(files, archive, maxBytes, n)
    ensures Next(c, State(Contents(files, n), Digests(c, Contents(files, n)), None, Sizes(archive, n)), archive[n],
              maxBytes) ==
              if GoodUpTo(files, archive, maxBytes, n + 1)
              then Some(State(Contents(files, n + 1), Digests(c, Contents(files, n + 1)), None, Sizes(archive, n + 1)))
              else None
  {
    assert archive[n] == archive[..|files|][n] == EntryOf(files[n]);
    NameComponents(files[n]);
    NothingInTheWay(files, n);
    ContentsSize(c, files, n);
    DigestsNext(c, Contents(files, n), Name(files[n]), files[n].content);
    FileStep(c, State(Contents(files, n), Digests(c, Contents(files, n)), None, Sizes(archive, n)), archive[n],
        maxBytes);
  }

  lemma {:induction false} ExtractFiles(c: Codec, files: seq<File>, archive: seq<Entry>, maxBytes: int, n: nat)
    requires TreeOk(files) && n <= |files| && |archive| == |files| + 1 && archive[..|files|] == Entries(files)
    requires maxBytes > 0 && forall f :: f in files ==> Archivable(f)
    ensures After(c, archive, maxBytes, n) ==
              if GoodUpTo(files, archive, maxBytes, n)
              then Some(State(Contents(files, n), Digests(c, Contents(files, n)), None, Sizes(archive, n)))
              else None
  {
    if n > 0 {
      ExtractFiles(c, files, archive, maxBytes, n - 1);
      assert files[n - 1] in files;
      assert archive[n - 1] == archive[..|files|][n - 1] == EntryOf(files[n - 1]);
      if GoodUpTo(files, archive, maxBytes, n - 1) {
        ExtractFile(c, files, archive, maxBytes, n - 1);
      }
    }
  }

  /** The limits extraction imposes on an archive of these files. */
  ghost predicate WithinLimits(c: Codec, files: seq<File>, maxBytes: int) {
    var archive := Entries(files) + [ManifestEntry(c, files)];
    && maxBytes > 0 && Sizes(archive, |archive|) <= maxBytes && |files| <= MaxEntries
    && ManifestEntry(c, files).size <= MaxManifest
    && forall f :: f in files ==> '\\' !in Name(f)
  }

  lemma {:induction false} ManifestNameIsSafe()
    ensures SafeName(ManifestName)
  {
    SplitJoin([ManifestName], '/');
    assert Join([ManifestName], "/") == ManifestName;
  }

  /** Every name is one the manifest encoding can represent. */
  ghost predicate NamesAreClean(c: Codec, files: seq<File>) {
    forall f :: f in files ==> c.clean(Name(f)) == Name(f)
  }

  lemma {:induction false} CleanNamesCleanMap(c: Codec, files: seq<File>)
    requires Sound(c) && NamesAreClean(c, files)
    ensures CleanMap(c, Digests(c, Contents(files, |files|)))
  {
    forall n | n in Contents(files, |files|)
      ensures c.clean(n) == n
    {
      ContentsNames(files, |files|, n);
      var i :| 0 <= i < |files| && Name(files[i]) == n;
      assert files[i] in files;
    }
  }

  /** A name the encoding cannot represent is not in the manifest that is read back. */
  lemma {:induction false} UncleanIsNotListed(c: Codec, m: Manifest, name: string)
    requires Sound(c) && c.clean(name) != name
    ensures name !in c.decode(c.encode(m)).value.files
  {
    assert ReadBack(c, m, c.decode(c.encode(m)).value);
  }

  /** The manifest matches the extracted digests exactly when all names are clean. */
  lemma {:induction false} MatchesWhenClean(c: Codec, files: seq<File>, s: State)
    requires Sound(c) && s.hashes == Digests(c, Contents(files, |files|))
    requires s.manifest == c.decode(c.encode(Manifest(1, s.hashes)))
    ensures Matches(s) <==> NamesAreClean(c, files)
  {
    assert ReadBack(c, Manifest(1, s.hashes), s.manifest.value);
    if NamesAreClean(c, files) {
      CleanNamesCleanMap(c, files);
    } else {
      var f :| f in files && c.clean(Name(f)) != Name(f);
      var i :| 0 <= i < |files| && files[i] == f;
      UncleanIsNotListed(c, Manifest(1, s.hashes), Name(f));
      ContentsNames(files, |files|, Name(f));
      assert Name(f) in s.hashes && s.hashes[Name(f)] != "";
    }
  }

  /** The last entry of an archive is the manifest Create wrote. */
  lemma {:induction false} ExtractManifest(c: Codec, files: seq<File>, archive: seq<Entry>, maxBytes: int)
    requires Sound(c) && TreeOk(files) && archive == Entries(files) + [ManifestEntry(c, files)]
    requires GoodUpTo(files, archive, maxBytes, |files|)
    ensures var s := State(Contents(files, |files|), Digests(c, Contents(files, |files|)), None,
              Sizes(archive, |files|));
            var t := Next(c, s, archive[|files|], maxBytes);
            if Sizes(archive, |archive|) <= maxBytes && ManifestEntry(c, files).size <= MaxManifest
            then t.Some? && (Matches(t.value) <==> NamesAreClean(c, files)) && t.value.files == Contents(files, |files|)
            else t.None?
  {
    ManifestNameIsSafe();
    assert archive[|files|] == ManifestEntry(c, files);
    assert Sizes(archive, |archive|) == Sizes(archive, |files|) + ManifestEntry(c, files).size;
    var s := State(Contents(files, |files|), Digests(c, Contents(files, |files|)), None, Sizes(archive, |files|));
    var t := Next(c, s, archive[|files|], maxBytes);
    if t.Some? { MatchesWhenClean(c, files, t.value); }
  }

  /** Extracting what Create wrote gives back every file except the ownership
      locks, exactly when the limits hold, no name has a backslash, and the
      manifest encoding can represent every name. */
  lemma {:induction false} RoundTrip(c: Codec, tree: seq<File>, maxBytes: int)
    requires Sound(c) && TreeOk(tree) && Created(c, tree).Some?
    ensures var files := Kept(tree, |tree|);
            Extracted(c, Created(c, tree).value, false, maxBytes) ==
              if WithinLimits(c, files, maxBytes) && NamesAreClean(c, files)
              then Some(Contents(files, |files|)) else None
  {
    var files := Kept(tree, |tree|);
    var archive := Created(c, tree).value;
    KeptTreeOk(tree, |tree|);
    if maxBytes > 0 {
      assert archive[..|files|] == Entries(files);
      ExtractFiles(c, files, archive, maxBytes, |files|);
      SizesGrow(archive, |files|);
      assert (forall f :: f in files ==> '\\' !in Name(f))
          <==> (forall i :: 0 <= i < |files| ==> '\\' !in Name(files[i]));
      if GoodUpTo(files, archive, maxBytes, |files|) {
        ExtractManifest(c, files, archive, maxBytes);
      }
    }
  }

  /** One file whose name the encoding replaces is enough: the backup is written
      and cannot be restored, whatever the limit. */
  lemma {:induction false} UncleanNameIsNotRestored(c: Codec, name: string, content: string, maxBytes: int)
    requires Sound(c) && Component(name) && name != ".owner.lock" && name != ManifestName && c.clean(name) != name
    ensures var tree := [File([name], true, content)];
            Created(c, tree).Some? && Extracted(c, Created(c, tree).value, false, maxBytes).None?
  {
    var f := File([name], true, content);
    var tree := [f];
    assert Kept(tree, 0) == [] && Kept(tree, 1) == [f];
    assert TreeOk(tree) && Name(f) == name;
    RoundTrip(c, tree, maxBytes);
    assert f in Kept(tree, 1);
  }

  lemma SizesGrow(archive: seq<Entry>, n: nat)
    requires n + 1 == |archive| && archive[n].size >= 0
    ensures Sizes(archive, n) <= Sizes(archive, |archive|)
  {
  }

  lemma {:induction false} KeptTreeOk(tree: seq<File>, n: nat)
    requires TreeOk(tree) && n <= |tree|
    ensures TreeOk(Kept(tree, n))
    ensures forall k :: 0 <= k < |Kept(tree, n)| ==> exists i :: 0 <= i < n && tree[i] == Kept(tree, n)[k]
  {
    if n > 0 { KeptTreeOk(tree, n - 1); }
  }
}
