/** The in-place setter for YAML trees: a walk from node to node over a store of
    nodes, with one write at the end. Node identities are numbers, so sharing and
    update in place are visible in the store. */
module YamlWalk {
  import opened Text
  import opened Document

  datatype Kind = MappingNode | SequenceNode | ScalarNode | AliasNode

  /** A mapping's content alternates key and value nodes. */
  datatype Node = Node(kind: Kind, value: string, content: seq<nat>)

  type Store = map<nat, Node>

  // ---------- documents as values ----------

  datatype Yaml = YScalar(value: string) | YMapping(pairs: seq<Pair>) | YSequence(items: seq<Yaml>) | YAlias

  datatype Pair = Pair(key: string, value: Yaml)

  function FindKey(pairs: seq<Pair>, key: string, i: nat): (r: int)
    requires i <= |pairs|
    ensures r == -1 || (i <= r < |pairs| && pairs[r].key == key)
    ensures r == -1 ==> forall j :: i <= j < |pairs| ==> pairs[j].key != key
    decreases |pairs| - i
  {
    if i == |pairs| then -1 else if pairs[i].key == key then i else FindKey(pairs, key, i + 1)
  }

  function SetYaml(doc: Yaml, parts: seq<string>, value: Yaml): Result<Yaml>
    requires parts != []
    decreases |parts|
  {
    var part, last := Decode(parts[0]), |parts| == 1;
    match doc
    case YMapping(pairs) =>
      var i := FindKey(pairs, part, 0);
      if i < 0 then (if last then Done(YMapping(pairs + [Pair(part, value)])) else Refused(NoParent))
      else if last then Done(YMapping(pairs[i := Pair(part, value)]))
      else
        var next := SetYaml(pairs[i].value, parts[1..], value);
        if next.Refused? then next else Done(YMapping(pairs[i := Pair(part, next.value)]))
    case YSequence(items) =>
      var i := Position(part, |items|);
      if i < 0 then Refused(BadIndex)
      else if last then Done(YSequence(items[i := value]))
      else
        var next := SetYaml(items[i], parts[1..], value);
        if next.Refused? then next else Done(YSequence(items[i := next.value]))
    case _ => Refused(NotAContainer)
  }

  // ---------- the same document as JSON ----------

  /** No alias anywhere and no key twice in a mapping. */
  predicate Plain(doc: Yaml) {
    match doc
    case YScalar(_) => true
    case YMapping(pairs) =>
      && (forall i, j :: 0 <= i < j < |pairs| ==> pairs[i].key != pairs[j].key)
      && forall i :: 0 <= i < |pairs| ==> Plain(pairs[i].value)
    case YSequence(items) => forall i :: 0 <= i < |items| ==> Plain(items[i])
    case YAlias => false
  }

  function ToJson(doc: Yaml): Json
    requires Plain(doc)
  {
    match doc
    case YScalar(value) => Scalar(value)
    case YMapping(pairs) => Object(Members(pairs, |pairs|))
    case YSequence(items) => Array(seq(|items|, i requires 0 <= i < |items| => ToJson(items[i])))
  }

  /** The first `n` pairs as members; keys are distinct. */
  function Members(pairs: seq<Pair>, n: nat): (m: map<string, Json>)
    requires n <= |pairs| && forall i :: 0 <= i < |pairs| ==> Plain(pairs[i].value)
    decreases pairs, n
  {
    if n == 0 then map[] else Members(pairs, n - 1)[pairs[n - 1].key := ToJson(pairs[n - 1].value)]
  }

  ghost predicate Distinct(pairs: seq<Pair>) {
    forall i, j :: 0 <= i < j < |pairs| ==> pairs[i].key != pairs[j].key
  }

  lemma {:induction false} MembersAt(pairs: seq<Pair>, n: nat, i: nat)
    requires i < n <= |pairs| && Distinct(pairs) && forall k :: 0 <= k < |pairs| ==> Plain(pairs[k].value)
    ensures pairs[i].key in Members(pairs, n) && Members(pairs, n)[pairs[i].key] == ToJson(pairs[i].value)
  {
    if i < n - 1 { MembersAt(pairs, n - 1, i); }
  }

  lemma {:induction false} MembersKeys(pairs: seq<Pair>, n: nat, key: string)
    requires n <= |pairs| && forall k :: 0 <= k < |pairs| ==> Plain(pairs[k].value)
    ensures key in Members(pairs, n) <==> exists i :: 0 <= i < n && pairs[i].key == key
  {
    if n > 0 { MembersKeys(pairs, n - 1, key); }
  }

  lemma {:induction false} MembersReplaced(pairs: seq<Pair>, i: nat, value: Yaml, n: nat)
    requires i < |pairs| && n <= |pairs| && Distinct(pairs) && Plain(value)
    requires forall k :: 0 <= k < |pairs| ==> Plain(pairs[k].value)
    ensures var after := pairs[i := Pair(pairs[i].key, value)];
            Members(after, n) == if i < n then Members(pairs, n)[pairs[i].key := ToJson(value)] else Members(pairs, n)
  {
    if n > 0 {
      MembersReplaced(pairs, i, value, n - 1);
      if i < n - 1 { assert pairs[i].key != pairs[n - 1].key; }
    }
  }

  lemma {:induction false} MembersPrefix(a: seq<Pair>, b: seq<Pair>, n: nat)
    requires n <= |a| && n <= |b| && a[..n] == b[..n]
    requires (forall k :: 0 <= k < |a| ==> Plain(a[k].value)) && (forall k :: 0 <= k < |b| ==> Plain(b[k].value))
    ensures Members(a, n) == Members(b, n)
  {
    if n > 0 {
      assert a[n - 1] == a[..n][n - 1] && b[n - 1] == b[..n][n - 1];
      assert a[..n - 1] == a[..n][..n - 1] && b[..n - 1] == b[..n][..n - 1];
      MembersPrefix(a, b, n - 1);
    }
  }

  /** The document as JSON, and a refusal for a refusal. */
  function AsJson(r: Result<Yaml>): Result<Json>
    requires r.Done? ==> Plain(r.value)
  {
    match r case Done(y) => Done(ToJson(y)) case Refused(p) => Refused(p)
  }

  lemma {:induction false} ReplaceMember(pairs: seq<Pair>, i: nat, value: Yaml)
    requires i < |pairs| && Plain(YMapping(pairs)) && Plain(value)
    ensures var after := YMapping(pairs[i := Pair(pairs[i].key, value)]);
            Plain(after) && ToJson(after) == Object(ToJson(YMapping(pairs)).members[pairs[i].key := ToJson(value)])
  {
    MembersReplaced(pairs, i, value, |pairs|);
  }

  lemma {:induction false} AppendMember(pairs: seq<Pair>, key: string, value: Yaml)
    requires Plain(YMapping(pairs)) && Plain(value) && forall i :: 0 <= i < |pairs| ==> pairs[i].key != key
    ensures var after := YMapping(pairs + [Pair(key, value)]);
            Plain(after) && ToJson(after) == Object(ToJson(YMapping(pairs)).members[key := ToJson(value)])
  {
    var after := pairs + [Pair(key, value)];
    assert after[..|pairs|] == pairs[..|pairs|];
    MembersPrefix(pairs, after, |pairs|);
  }

  lemma ReplaceItem(items: seq<Yaml>, i: nat, value: Yaml)
    requires i < |items| && Plain(YSequence(items)) && Plain(value)
    ensures var after := YSequence(items[i := value]);
            Plain(after) && ToJson(after) == Array(ToJson(YSequence(items)).items[i := ToJson(value)])
  {
    var after := items[i := value];
    assert ToJson(YSequence(after)).items == ToJson(YSequence(items)).items[i := ToJson(value)];
  }

  /** On alias-free documents with distinct keys both setters compute the same
      document and refuse the same paths for the same reason. */
  lemma {:induction false} SettersAgree(doc: Yaml, parts: seq<string>, value: Yaml)
    requires parts != [] && Plain(doc) && Plain(value)
    ensures var r := SetYaml(doc, parts, value);
            (r.Done? ==> Plain(r.value)) && AsJson(r) == SetJson(ToJson(doc), parts, ToJson(value))
    decreases |parts|
  {
    var part := Decode(parts[0]);
    match doc
    case YMapping(pairs) =>
      var i := FindKey(pairs, part, 0);
      MembersKeys(pairs, |pairs|, part);
      if i < 0 {
        if |parts| == 1 { AppendMember(pairs, part, value); }
      } else {
        MembersAt(pairs, |pairs|, i);
        if |parts| == 1 {
          ReplaceMember(pairs, i, value);
        } else {
          SettersAgree(pairs[i].value, parts[1..], value);
          var next := SetYaml(pairs[i].value, parts[1..], value);
          if next.Done? { ReplaceMember(pairs, i, next.value); }
        }
      }
    case YSequence(items) =>
      var i := Position(part, |items|);
      if i >= 0 {
        if |parts| == 1 {
          ReplaceItem(items, i, value);
        } else {
          SettersAgree(items[i], parts[1..], value);
          var next := SetYaml(items[i], parts[1..], value);
          if next.Done? { ReplaceItem(items, i, next.value); }
        }
      }
    case YScalar(_) =>
  }
}
