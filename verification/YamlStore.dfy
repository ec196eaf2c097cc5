/** The walk over the node store computes the same document as the value setter. */
module YamlStore {
  import opened Text
  import opened Document
  import opened YamlWalk

  // ---------- the walk ----------

  /** The position of the value of `key` in a mapping's content, or -1. */
  function FindValue(store: Store, content: seq<nat>, key: string, i: nat): (r: int)
    requires i <= |content| + 1 && forall k :: 0 <= k < |content| ==> content[k] in store
    ensures r == -1 || (i < r <= |content| && r % 2 != i % 2)
    decreases |content| + 1 - i
  {
    if i >= |content| then -1
    else if store[content[i]].value == key then i + 1
    else FindValue(store, content, key, i + 2)
  }

  predicate Closed(store: Store) {
    forall id :: id in store ==>
      WellKinded(store[id]) && forall k :: 0 <= k < |store[id].content| ==> store[id].content[k] in store
  }

  predicate WellKinded(n: Node) {
    match n.kind
    case MappingNode => |n.content| % 2 == 0
    case SequenceNode => true
    case _ => n.content == []
  }

  /** What a token selects at a node. */
  datatype Choice = Child(i: nat) | NewKey | Stop(problem: Problem)

  function Choose(store: Store, id: nat, part: string, last: bool): (c: Choice)
    requires Closed(store) && id in store
    ensures c.Child? ==> c.i < |store[id].content|
  {
    var node := store[id];
    match node.kind
    case MappingNode =>
      var found := FindValue(store, node.content, part, 0);
      if found >= 0 then Child(found) else if last then NewKey else Stop(NoParent)
    case SequenceNode =>
      var i := Position(part, |node.content|);
      if i >= 0 then Child(i) else Stop(BadIndex)
    case _ => Stop(NotAContainer)
  }

  function WriteChild(store: Store, id: nat, i: nat, value: nat): Store
    requires id in store && i < |store[id].content|
  {
    store[id := store[id].(content := store[id].content[i := value])]
  }

  function WritePair(store: Store, id: nat, part: string, value: nat, key: nat): Store
    requires id in store
  {
    store[key := Node(ScalarNode, part, [])][id := store[id].(content := store[id].content + [key, value])]
  }

  /** One write at the end of the walk, or a refusal; `key` names a new key node. */
  function Walk(store: Store, id: nat, parts: seq<string>, value: nat, key: nat): Result<Store>
    requires Closed(store) && id in store && parts != []
    decreases |parts|
  {
    var part := Decode(parts[0]);
    match Choose(store, id, part, |parts| == 1)
    case Stop(problem) => Refused(problem)
    case NewKey => Done(WritePair(store, id, part, value, key))
    case Child(i) =>
      if |parts| == 1 then Done(WriteChild(store, id, i, value))
      else Walk(store, store[id].content[i], parts[1..], value, key)
  }

  method Set(store: Store, root: nat, parts: seq<string>, value: nat, key: nat) returns (r: Result<Store>)
    requires Closed(store) && root in store && parts != []
    ensures r == Walk(store, root, parts, value, key)
  {
    var current := root;
    assert parts[0..] == parts;
    var pos := 0;
    while true
      invariant pos < |parts| && current in store
      invariant Walk(store, root, parts, value, key) == Walk(store, current, parts[pos..], value, key)
      decreases |parts| - pos
    {
      var part := Decode(parts[pos]);
      var last := pos == |parts| - 1;
      assert parts[pos..][0] == parts[pos] && parts[pos..][1..] == parts[pos + 1..];
      var choice := ChooseChild(store, current, part, last);
      match choice {
        case Stop(problem) =>
          return Refused(problem);
        case NewKey =>
          var added := store[key := Node(ScalarNode, part, [])];
          return Done(added[current := store[current].(content := store[current].content + [key, value])]);
        case Child(i) =>
          if last {
            return Done(store[current := store[current].(content := store[current].content[i := value])]);
          }
          current := store[current].content[i];
      }
      pos := pos + 1;
    }
  }

  method ChooseChild(store: Store, current: nat, part: string, last: bool) returns (c: Choice)
    requires Closed(store) && current in store
    ensures c == Choose(store, current, part, last)
  {
    var node := store[current];
    match node.kind {
      case MappingNode =>
        var found := LookUp(store, node.content, part);
        if found < 0 {
          if !last {
            return Stop(NoParent);
          }
          return NewKey;
        }
        return Child(found);
      case SequenceNode =>
        var i := Position(part, |node.content|);
        if i < 0 {
          return Stop(BadIndex);
        }
        return Child(i);
      case _ =>
        return Stop(NotAContainer);
    }
  }

  method LookUp(store: Store, content: seq<nat>, key: string) returns (found: int)
    requires |content| % 2 == 0 && forall k :: 0 <= k < |content| ==> content[k] in store
    ensures found == FindValue(store, content, key, 0)
  {
    var i := 0;
    while i < |content|
      invariant i % 2 == 0 && i <= |content|
      invariant FindValue(store, content, key, 0) == FindValue(store, content, key, i)
    {
      if store[content[i]].value == key {
        return i + 1;
      }
      i := i + 2;
    }
    return -1;
  }

  // ---------- trees in the store ----------

  /** The shape of a subtree: which nodes it is made of. */
  datatype Tree = Tree(id: nat, kids: seq<Tree>)

  function Ids(t: Tree): set<nat> {
    {t.id} + set i: nat, x: nat | i < |t.kids| && x in Ids(t.kids[i]) :: x
  }

  function KidIds(t: Tree): seq<nat> {
    seq(|t.kids|, i requires 0 <= i < |t.kids| => t.kids[i].id)
  }

  /** No node twice. */
  ghost predicate Separate(t: Tree) {
    && (forall i :: 0 <= i < |t.kids| ==> t.id !in Ids(t.kids[i]) && Separate(t.kids[i]))
    && (forall i, j :: 0 <= i < j < |t.kids| ==> Ids(t.kids[i]) !! Ids(t.kids[j]))
  }

  /** The store holds a tree of this shape, with scalar keys. */
  ghost predicate Holds(store: Store, t: Tree) {
    && t.id in store && store[t.id].content == KidIds(t) && WellKinded(store[t.id])
    && (forall i :: 0 <= i < |t.kids| ==> Holds(store, t.kids[i]))
    && (store[t.id].kind == MappingNode ==>
          forall i :: 0 <= i < |t.kids| && i % 2 == 0 ==> store[t.kids[i].id].kind == ScalarNode)
  }

  ghost function Doc(store: Store, t: Tree): Yaml
    requires Holds(store, t)
  {
    match store[t.id].kind
    case ScalarNode => YScalar(store[t.id].value)
    case AliasNode => YAlias
    case SequenceNode => YSequence(seq(|t.kids|, i requires 0 <= i < |t.kids| => Doc(store, t.kids[i])))
    case MappingNode =>
      YMapping(seq(|t.kids| / 2, i requires 0 <= i < |t.kids| / 2 =>
        assert Holds(store, t.kids[2 * i]); Pair(store[t.kids[2 * i].id].value, Doc(store, t.kids[2 * i + 1]))))
  }

  ghost predicate Agree(a: Store, b: Store, ids: set<nat>) {
    forall x :: x in ids && x in a ==> x in b && b[x] == a[x]
  }

  lemma {:induction false} Untouched(a: Store, b: Store, t: Tree)
    requires Holds(a, t) && Agree(a, b, Ids(t))
    ensures Holds(b, t) && Doc(b, t) == Doc(a, t)
  {
    forall i | 0 <= i < |t.kids|
      ensures Holds(b, t.kids[i]) && Doc(b, t.kids[i]) == Doc(a, t.kids[i])
      ensures t.kids[i].id in b && b[t.kids[i].id] == a[t.kids[i].id]
    {
      assert Ids(t.kids[i]) <= Ids(t);
      Untouched(a, b, t.kids[i]);
    }
  }

  lemma PairAt(store: Store, t: Tree, i: nat)
    requires Holds(store, t) && store[t.id].kind == MappingNode && 2 * i + 1 < |t.kids|
    ensures |Doc(store, t).pairs| == |t.kids| / 2 && 2 * i < |store[t.id].content|
    ensures store[t.id].content[2 * i] == t.kids[2 * i].id && t.kids[2 * i].id in store
    ensures Holds(store, t.kids[2 * i + 1])
    ensures Doc(store, t).pairs[i] == Pair(store[t.kids[2 * i].id].value, Doc(store, t.kids[2 * i + 1]))
  {
    assert Holds(store, t.kids[2 * i]);
  }

  ghost predicate KeysMatch(store: Store, content: seq<nat>, pairs: seq<Pair>) {
    && |content| == 2 * |pairs| && (forall k :: 0 <= k < |content| ==> content[k] in store)
    && forall i :: 0 <= i < |pairs| ==> store[content[2 * i]].value == pairs[i].key
  }

  /** The index of the pair a lookup finds. */
  lemma {:induction false} SamePair(store: Store, content: seq<nat>, pairs: seq<Pair>, key: string, i: nat)
    requires KeysMatch(store, content, pairs) && i <= |pairs|
    ensures var pair := FindKey(pairs, key, i);
            FindValue(store, content, key, 2 * i) == if pair < 0 then -1 else 2 * pair + 1
    decreases |pairs| - i
  {
    if i < |pairs| { SamePair(store, content, pairs, key, i + 1); }
  }

  lemma {:induction false} FoundPair(store: Store, t: Tree, key: string)
    requires Closed(store) && Holds(store, t) && store[t.id].kind == MappingNode
    ensures var pair := FindKey(Doc(store, t).pairs, key, 0);
            FindValue(store, store[t.id].content, key, 0) == if pair < 0 then -1 else 2 * pair + 1
  {
    forall i | 0 <= i < |Doc(store, t).pairs|
      ensures store[store[t.id].content[2 * i]].value == Doc(store, t).pairs[i].key
    {
      PairAt(store, t, i);
    }
    SamePair(store, store[t.id].content, Doc(store, t).pairs, key, 0);
  }

  // ---------- writing below one node ----------

  function WithKid(t: Tree, i: nat, k: Tree): Tree
    requires i < |t.kids|
  {
    t.(kids := t.kids[i := k])
  }

  /** A document with its `i`-th child node replaced. */
  ghost function Put(doc: Yaml, i: nat, child: Yaml): Yaml
    requires (doc.YSequence? && i < |doc.items|) || (doc.YMapping? && i % 2 == 1 && i / 2 < |doc.pairs|)
  {
    match doc
    case YSequence(items) => YSequence(items[i := child])
    case YMapping(pairs) => YMapping(pairs[i / 2 := Pair(pairs[i / 2].key, child)])
  }

  lemma IdsOfKid(t: Tree, i: nat)
    requires i < |t.kids|
    ensures Ids(t.kids[i]) <= Ids(t) && t.kids[i].id in Ids(t.kids[i])
  {
  }

  lemma {:induction false} SeparateWithKid(t: Tree, i: nat, k: Tree)
    requires Separate(t) && i < |t.kids| && Separate(k) && Ids(k) !! Ids(t) - Ids(t.kids[i])
    ensures Separate(WithKid(t, i, k)) && Ids(WithKid(t, i, k)) <= Ids(t) + Ids(k)
  {
    var u := WithKid(t, i, k);
    forall j | 0 <= j < |t.kids|
      ensures Ids(t.kids[j]) <= Ids(t) && (j != i ==> Ids(t.kids[j]) !! Ids(k) && Ids(t.kids[j]) !! Ids(t.kids[i]))
    {
      IdsOfKid(t, j);
    }
    forall j | 0 <= j < |u.kids|
      ensures u.id !in Ids(u.kids[j]) && Separate(u.kids[j])
    {
      IdsOfKid(t, i);
    }
  }

  /** `b` is `a` with child `i` of the node at the root of `t` replaced by `k`. */
  ghost predicate Replaced(a: Store, b: Store, t: Tree, i: nat, k: Tree)
    requires Holds(a, t) && i < |t.kids|
  {
    && t.id in b && b[t.id] == a[t.id].(content := a[t.id].content[i := k.id])
    && Agree(a, b, Ids(t) - Ids(t.kids[i]) - {t.id})
    && Holds(b, k)
  }

  lemma {:induction false} OtherKid(a: Store, b: Store, t: Tree, i: nat, k: Tree, j: nat)
    requires Holds(a, t) && Separate(t) && i < |t.kids| && j < |t.kids| && i != j && Replaced(a, b, t, i, k)
    ensures Holds(b, t.kids[j]) && Doc(b, t.kids[j]) == Doc(a, t.kids[j])
    ensures t.kids[j].id in b && b[t.kids[j].id] == a[t.kids[j].id]
  {
    IdsOfKid(t, j);
    assert Ids(t.kids[i]) !! Ids(t.kids[j]) by {
      if i < j { assert Ids(t.kids[i]) !! Ids(t.kids[j]); } else { assert Ids(t.kids[j]) !! Ids(t.kids[i]); }
    }
    Untouched(a, b, t.kids[j]);
  }

  lemma {:induction false} HoldsWithKid(a: Store, b: Store, t: Tree, i: nat, k: Tree)
    requires Holds(a, t) && Separate(t) && i < |t.kids| && Replaced(a, b, t, i, k)
    requires a[t.id].kind == SequenceNode || (a[t.id].kind == MappingNode && i % 2 == 1)
    ensures Holds(b, WithKid(t, i, k)) && b[t.id].kind == a[t.id].kind
  {
    var u := WithKid(t, i, k);
    forall j | 0 <= j < |t.kids|
      ensures Holds(b, u.kids[j]) && (j != i ==> b[u.kids[j].id] == a[t.kids[j].id])
    {
      if j != i { OtherKid(a, b, t, i, k, j); }
    }
    assert KidIds(u) == KidIds(t)[i := k.id];
  }

  lemma {:induction false} PairWithKid(a: Store, b: Store, t: Tree, i: nat, k: Tree, j: nat)
    requires Holds(a, t) && Separate(t) && i < |t.kids| && Replaced(a, b, t, i, k) && Holds(b, WithKid(t, i, k))
    requires a[t.id].kind == MappingNode == b[t.id].kind && i % 2 == 1 && 2 * j + 1 < |t.kids|
    ensures j < |Doc(a, t).pairs| && j < |Doc(b, WithKid(t, i, k)).pairs|
    ensures Doc(b, WithKid(t, i, k)).pairs[j]
         == if j == i / 2 then Pair(Doc(a, t).pairs[j].key, Doc(b, k)) else Doc(a, t).pairs[j]
  {
    PairAt(a, t, j);
    PairAt(b, WithKid(t, i, k), j);
    OtherKid(a, b, t, i, k, 2 * j);
    if 2 * j + 1 != i { OtherKid(a, b, t, i, k, 2 * j + 1); }
  }

  lemma {:induction false} ItemWithKid(a: Store, b: Store, t: Tree, i: nat, k: Tree, j: nat)
    requires Holds(a, t) && Separate(t) && i < |t.kids| && Replaced(a, b, t, i, k) && Holds(b, WithKid(t, i, k))
    requires a[t.id].kind == SequenceNode == b[t.id].kind && j < |t.kids|
    ensures var before, after := Doc(a, t).items, Doc(b, WithKid(t, i, k)).items;
            after[j] == if j == i then Doc(b, k) else before[j]
  {
    if j != i { OtherKid(a, b, t, i, k, j); }
  }

  lemma {:induction false} DocWithKid(a: Store, b: Store, t: Tree, i: nat, k: Tree)
    requires Holds(a, t) && Separate(t) && i < |t.kids| && Replaced(a, b, t, i, k)
    requires a[t.id].kind == SequenceNode || (a[t.id].kind == MappingNode && i % 2 == 1)
    ensures Holds(b, WithKid(t, i, k)) && Doc(b, WithKid(t, i, k)) == Put(Doc(a, t), i, Doc(b, k))
  {
    HoldsWithKid(a, b, t, i, k);
    if a[t.id].kind == MappingNode {
      var before, after := Doc(a, t).pairs, Doc(b, WithKid(t, i, k)).pairs;
      forall j | 0 <= j < |after|
        ensures after[j] == before[i / 2 := Pair(before[i / 2].key, Doc(b, k))][j]
      {
        PairWithKid(a, b, t, i, k, j);
      }
    } else {
      var before, after := Doc(a, t).items, Doc(b, WithKid(t, i, k)).items;
      forall j | 0 <= j < |after|
        ensures after[j] == before[i := Doc(b, k)][j]
      {
        ItemWithKid(a, b, t, i, k, j);
      }
    }
  }

  function WithPair(t: Tree, key: nat, v: Tree): Tree {
    t.(kids := t.kids + [Tree(key, []), v])
  }

  lemma {:induction false} SeparateWithPair(t: Tree, key: nat, v: Tree)
    requires Separate(t) && Separate(v) && Ids(t) !! Ids(v) && key !in Ids(t) + Ids(v)
    ensures Separate(WithPair(t, key, v)) && Ids(WithPair(t, key, v)) <= Ids(t) + Ids(v) + {key}
  {
    var u, n, leaf := WithPair(t, key, v), |t.kids|, Tree(key, []);
    assert Ids(leaf) == {key};
    forall j | 0 <= j < |u.kids|
      ensures u.id !in Ids(u.kids[j]) && Separate(u.kids[j])
      ensures if j < n then Ids(u.kids[j]) <= Ids(t) else u.kids[j] == if j == n then leaf else v
    {
      if j < n { IdsOfKid(t, j); }
    }
    forall i, j | 0 <= i < j < |u.kids|
      ensures Ids(u.kids[i]) !! Ids(u.kids[j])
    {
      if j < n { assert Ids(t.kids[i]) !! Ids(t.kids[j]); }
    }
  }

  ghost predicate PairAdded(a: Store, b: Store, t: Tree, key: nat, name: string, v: Tree)
    requires t.id in a
  {
    b == WritePair(a, t.id, name, v.id, key)
  }

  lemma {:induction false} KidsWithPair(a: Store, b: Store, t: Tree, key: nat, name: string, v: Tree, j: nat)
    requires Holds(a, t) && Separate(t) && Holds(a, v) && Ids(t) !! Ids(v) && key !in Ids(t) + Ids(v)
    requires PairAdded(a, b, t, key, name, v) && j < |t.kids| + 2
    ensures var u := WithPair(t, key, v);
            && Holds(b, u.kids[j])
            && (j < |t.kids| ==> Doc(b, u.kids[j]) == Doc(a, t.kids[j]) && b[u.kids[j].id] == a[t.kids[j].id])
            && (j == |t.kids| ==> b[u.kids[j].id] == Node(ScalarNode, name, []))
            && (j == |t.kids| + 1 ==> Doc(b, u.kids[j]) == Doc(a, v))
  {
    if j < |t.kids| {
      IdsOfKid(t, j);
      Untouched(a, b, t.kids[j]);
    } else if j == |t.kids| + 1 {
      assert t.id in Ids(t);
      Untouched(a, b, v);
    } else {
      assert t.id in Ids(t);
      assert KidIds(Tree(key, [])) == [];
    }
  }

  lemma {:induction false} HoldsWithPair(a: Store, b: Store, t: Tree, key: nat, name: string, v: Tree)
    requires Holds(a, t) && Separate(t) && a[t.id].kind == MappingNode
    requires Holds(a, v) && Ids(t) !! Ids(v) && key !in Ids(t) + Ids(v) && PairAdded(a, b, t, key, name, v)
    ensures Holds(b, WithPair(t, key, v)) && b[t.id].kind == MappingNode
  {
    var u, n := WithPair(t, key, v), |t.kids|;
    forall j | 0 <= j < |u.kids|
      ensures Holds(b, u.kids[j])
      ensures j < n ==> b[u.kids[j].id] == a[t.kids[j].id]
      ensures j == n ==> b[u.kids[j].id] == Node(ScalarNode, name, [])
    {
      KidsWithPair(a, b, t, key, name, v, j);
    }
    assert KidIds(u) == KidIds(t) + [key, v.id];
  }

  lemma {:induction false} PairWithPair(a: Store, b: Store, t: Tree, key: nat, name: string, v: Tree, j: nat)
    requires Holds(a, t) && Separate(t) && a[t.id].kind == MappingNode && 2 * j < |t.kids| + 1
    requires Holds(a, v) && Ids(t) !! Ids(v) && key !in Ids(t) + Ids(v) && PairAdded(a, b, t, key, name, v)
    requires Holds(b, WithPair(t, key, v)) && b[t.id].kind == MappingNode
    ensures j < |Doc(b, WithPair(t, key, v)).pairs| && (2 * j < |t.kids| ==> j < |Doc(a, t).pairs|)
    ensures Doc(b, WithPair(t, key, v)).pairs[j]
         == if 2 * j < |t.kids| then Doc(a, t).pairs[j] else Pair(name, Doc(a, v))
  {
    PairAt(b, WithPair(t, key, v), j);
    if 2 * j < |t.kids| { PairAt(a, t, j); }
    KidsWithPair(a, b, t, key, name, v, 2 * j);
    KidsWithPair(a, b, t, key, name, v, 2 * j + 1);
  }

  /** A new pair at the end of a mapping. */
  lemma {:induction false} DocWithPair(a: Store, b: Store, t: Tree, key: nat, name: string, v: Tree)
    requires Holds(a, t) && Separate(t) && a[t.id].kind == MappingNode
    requires Holds(a, v) && Ids(t) !! Ids(v) && key !in Ids(t) + Ids(v) && PairAdded(a, b, t, key, name, v)
    ensures Holds(b, WithPair(t, key, v))
    ensures Doc(b, WithPair(t, key, v)) == YMapping(Doc(a, t).pairs + [Pair(name, Doc(a, v))])
  {
    HoldsWithPair(a, b, t, key, name, v);
    var before, after := Doc(a, t).pairs, Doc(b, WithPair(t, key, v)).pairs;
    forall j | 0 <= j < |after|
      ensures after[j] == (before + [Pair(name, Doc(a, v))])[j]
    {
      PairWithPair(a, b, t, key, name, v, j);
    }
  }

  // ---------- the walk refines the setter ----------

  /** The store after a walk holds the document the value setter computes, below
      the same root; nodes outside the tree are as they were. */
  ghost predicate Correct(a: Store, t: Tree, parts: seq<string>, v: Tree, key: nat, r: Result<Store>, u: Tree)
    requires Holds(a, t) && Holds(a, v) && parts != []
  {
    match r
    case Refused(problem) => SetYaml(Doc(a, t), parts, Doc(a, v)) == Refused(problem)
    case Done(b) =>
      && u.id == t.id && Separate(u) && Ids(u) <= Ids(t) + Ids(v) + {key}
      && Holds(b, u) && SetYaml(Doc(a, t), parts, Doc(a, v)) == Done(Doc(b, u))
      && (forall x :: x in a && x !in Ids(t) ==> x in b && b[x] == a[x])
  }

  ghost predicate Ready(a: Store, t: Tree, v: Tree, key: nat) {
    && Closed(a) && Holds(a, t) && Separate(t) && Holds(a, v) && Separate(v)
    && Ids(t) !! Ids(v) && key !in Ids(t) + Ids(v) && key !in a
  }

  /** The last step writes the new value into child `i`. */
  lemma {:induction false} WriteHere(a: Store, t: Tree, parts: seq<string>, v: Tree, key: nat, i: nat)
    requires Ready(a, t, v, key) && |parts| == 1 && i < |t.kids|
    requires a[t.id].kind == SequenceNode || (a[t.id].kind == MappingNode && i % 2 == 1)
    requires SetYaml(Doc(a, t), parts, Doc(a, v)) == Done(Put(Doc(a, t), i, Doc(a, v)))
    ensures Correct(a, t, parts, v, key, Done(WriteChild(a, t.id, i, v.id)), WithKid(t, i, v))
  {
    var b := WriteChild(a, t.id, i, v.id);
    assert t.id in Ids(t);
    Untouched(a, b, v);
    SeparateWithKid(t, i, v);
    DocWithKid(a, b, t, i, v);
  }

  /** The last step adds a pair for a new key. */
  lemma {:induction false} AppendHere(a: Store, t: Tree, parts: seq<string>, v: Tree, key: nat)
    requires Ready(a, t, v, key) && |parts| == 1 && a[t.id].kind == MappingNode
    requires FindKey(Doc(a, t).pairs, Decode(parts[0]), 0) < 0
    ensures Correct(a, t, parts, v, key, Done(WritePair(a, t.id, Decode(parts[0]), v.id, key)), WithPair(t, key, v))
  {
    var b := WritePair(a, t.id, Decode(parts[0]), v.id, key);
    assert t.id in Ids(t);
    SeparateWithPair(t, key, v);
    DocWithPair(a, b, t, key, Decode(parts[0]), v);
  }

  /** A walk that was right below child `i` is right here. */
  lemma {:induction false} WalkBelow(
    a: Store, t: Tree, parts: seq<string>, v: Tree, key: nat, i: nat, r: Result<Store>, k: Tree)
    requires Ready(a, t, v, key) && |parts| > 1 && i < |t.kids|
    requires a[t.id].kind == SequenceNode || (a[t.id].kind == MappingNode && i % 2 == 1)
    requires Correct(a, t.kids[i], parts[1..], v, key, r, k)
    requires var next := SetYaml(Doc(a, t.kids[i]), parts[1..], Doc(a, v));
             SetYaml(Doc(a, t), parts, Doc(a, v)) == if next.Refused? then next else Done(Put(Doc(a, t), i, next.value))
    ensures Correct(a, t, parts, v, key, r, WithKid(t, i, k))
  {
    if r.Done? {
      var b := r.value;
      IdsOfKid(t, i);
      assert t.id !in Ids(t.kids[i]);
      assert a[t.id].content[i := k.id] == a[t.id].content;
      assert Replaced(a, b, t, i, k);
      SeparateWithKid(t, i, k);
      DocWithKid(a, b, t, i, k);
    }
  }

  /** Child `i` is the one the first token of the path selects. */
  ghost predicate Selects(a: Store, t: Tree, part: string, i: nat)
    requires Holds(a, t)
  {
    && i < |t.kids| && Holds(a, t.kids[i]) && a[t.id].kind in {SequenceNode, MappingNode}
    && (a[t.id].kind == SequenceNode ==> i == Position(part, |t.kids|))
    && (a[t.id].kind == MappingNode ==> i % 2 == 1 && i / 2 == FindKey(Doc(a, t).pairs, part, 0))
  }

  /** The walk and the value setter take the same branch. */
  lemma {:induction false} SameChoice(a: Store, t: Tree, part: string, last: bool)
    requires Closed(a) && Holds(a, t)
    ensures match Choose(a, t.id, part, last)
            case Child(i) => Selects(a, t, part, i)
            case NewKey => last && Doc(a, t).YMapping? && FindKey(Doc(a, t).pairs, part, 0) < 0
            case Stop(problem) => !last || !problem.NoParent?
  {
    if a[t.id].kind == MappingNode { FoundPair(a, t, part); }
  }

  lemma {:induction false} StopIsRefusal(a: Store, t: Tree, parts: seq<string>, value: Yaml)
    requires Closed(a) && Holds(a, t) && parts != []
    requires Choose(a, t.id, Decode(parts[0]), |parts| == 1).Stop?
    ensures SetYaml(Doc(a, t), parts, value) == Refused(Choose(a, t.id, Decode(parts[0]), |parts| == 1).problem)
  {
    if a[t.id].kind == MappingNode { FoundPair(a, t, Decode(parts[0])); }
  }

  /** Walking and writing in place computes what the value setter computes, and
      refuses exactly the same paths. */
  lemma {:induction false} WalkIsSet(a: Store, t: Tree, parts: seq<string>, v: Tree, key: nat) returns (u: Tree)
    requires Ready(a, t, v, key) && parts != []
    ensures Correct(a, t, parts, v, key, Walk(a, t.id, parts, v.id, key), u)
    decreases |parts|, 1
  {
    u := t;
    SameChoice(a, t, Decode(parts[0]), |parts| == 1);
    match Choose(a, t.id, Decode(parts[0]), |parts| == 1) {
      case Child(i) =>
        u := Descend(a, t, parts, v, key, i);
      case NewKey =>
        u := WithPair(t, key, v);
        AppendHere(a, t, parts, v, key);
      case Stop(_) =>
        StopIsRefusal(a, t, parts, Doc(a, v));
    }
  }

  lemma {:induction false} SetAtChild(a: Store, t: Tree, parts: seq<string>, value: Yaml, i: nat)
    requires Holds(a, t) && parts != [] && Selects(a, t, Decode(parts[0]), i)
    ensures |parts| == 1 ==> SetYaml(Doc(a, t), parts, value) == Done(Put(Doc(a, t), i, value))
    ensures |parts| > 1 ==>
              var next := SetYaml(Doc(a, t.kids[i]), parts[1..], value);
              SetYaml(Doc(a, t), parts, value) == if next.Refused? then next else Done(Put(Doc(a, t), i, next.value))
  {
    if a[t.id].kind == MappingNode {
      assert 2 * (i / 2) + 1 == i;
      assert Doc(a, t).pairs[i / 2].value == Doc(a, t.kids[i]);
    } else {
      assert Doc(a, t).items[i] == Doc(a, t.kids[i]);
    }
  }

  lemma {:induction false} Descend(a: Store, t: Tree, parts: seq<string>, v: Tree, key: nat, i: nat) returns (u: Tree)
    requires Ready(a, t, v, key) && parts != [] && Selects(a, t, Decode(parts[0]), i)
    ensures Correct(a, t, parts, v, key,
                    if |parts| == 1 then Done(WriteChild(a, t.id, i, v.id))
                    else Walk(a, t.kids[i].id, parts[1..], v.id, key), u)
    decreases |parts|, 0
  {
    SetAtChild(a, t, parts, Doc(a, v), i);
    if |parts| == 1 {
      u := WithKid(t, i, v);
      WriteHere(a, t, parts, v, key, i);
    } else {
      IdsOfKid(t, i);
      var k := WalkIsSet(a, t.kids[i], parts[1..], v, key);
      u := WithKid(t, i, k);
      WalkBelow(a, t, parts, v, key, i, Walk(a, t.kids[i].id, parts[1..], v.id, key), k);
    }
  }

  /** For alias-free trees with distinct keys the in-place walk gives, read as
      JSON, what the recursive JSON setter gives, document or refusal. */
  lemma {:induction false} InPlaceAgreesWithJson(
    a: Store, t: Tree, parts: seq<string>, v: Tree, key: nat) returns (u: Tree)
    requires Ready(a, t, v, key) && parts != [] && Plain(Doc(a, t)) && Plain(Doc(a, v))
    ensures match Walk(a, t.id, parts, v.id, key)
            case Refused(problem) => SetJson(ToJson(Doc(a, t)), parts, ToJson(Doc(a, v))) == Refused(problem)
            case Done(b) =>
              && u.id == t.id && Holds(b, u) && Plain(Doc(b, u))
              && SetJson(ToJson(Doc(a, t)), parts, ToJson(Doc(a, v))) == Done(ToJson(Doc(b, u)))
  {
    u := WalkIsSet(a, t, parts, v, key);
    SettersAgree(Doc(a, t), parts, Doc(a, v));
  }
}
