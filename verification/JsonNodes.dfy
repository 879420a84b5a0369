/** The node tree a parse hands out, and the accessors that read it. A handle
    is a node; the null reference is handle zero. */
module JsonNodes {
  import opened Octets
  import opened JsonSyntax
  import opened JsonUnicode
  import opened JsonParser

  const TAG_NULL := 0
  const TAG_BOOL := 1
  const TAG_INT := 2
  const TAG_STR := 3
  const TAG_ARRAY := 4
  const TAG_OBJECT := 5

  class JsonNode {
    var tag: int
    var num: int
    var str: seq<Byte>
    var len: nat
    var items: array?<JsonNode?>
    var keys: array?<seq<Byte>>

    /** A zeroed block. */
    constructor ()
      ensures tag == TAG_NULL && num == 0 && str == [] && len == 0 && items == null && keys == null
    {
      tag, num, str, len, items, keys := TAG_NULL, 0, [], 0, null, null;
    }
  }

  /** `to_str().unwrap_or("")`: a string that is not UTF-8 turns into the empty
      one. */
  function TextOf(s: seq<Byte>): seq<Byte> {
    if ValidUtf8(s) then s else []
  }

  predicate Nests(v: Json) {
    v.Array? || v.Object?
  }

  function Count(v: Json): nat
    requires Nests(v)
  {
    if v.Array? then |v.items| else |v.members|
  }

  function Child(v: Json, i: nat): (c: Json)
    requires Nests(v) && i < Count(v)
    ensures c < v
  {
    if v.Array? then v.items[i] else v.members[i].1
  }

  /** `n` is the root of a tree in `repr` that stores `v`. */
  ghost predicate Denotes(n: JsonNode, v: Json, repr: set<object>)
    reads repr
    decreases v, 1
  {
    && n in repr
    && match v
       case Null => n.tag == TAG_NULL
       case Bool(b) => n.tag == TAG_BOOL && n.num == if b then 1 else 0
       case Int(k) => n.tag == TAG_INT && n.num == k
       case Str(s) => n.tag == TAG_STR && n.str == TextOf(s)
       case Array(vs) =>
         && n.tag == TAG_ARRAY && n.len == |vs|
         && (|vs| > 0 ==> n.items != null && n.items in repr && n.items.Length == |vs| && Stores(n.items[..], v, repr))
       case Object(ms) =>
         && n.tag == TAG_OBJECT && n.len == |ms|
         && (|ms| > 0 ==> n.items != null && n.items in repr && n.items.Length == |ms| && Stores(n.items[..], v, repr))
         && (|ms| > 0 ==> n.keys != null && n.keys in repr && n.keys[..] == Names(ms))
  }

  /** The first children of `v`. */
  ghost predicate Stores(nodes: seq<JsonNode?>, v: Json, repr: set<object>)
    requires Nests(v) && |nodes| <= Count(v)
    reads repr
    decreases v, 0
  {
    forall i :: 0 <= i < |nodes| ==> nodes[i] != null && Denotes(nodes[i], Child(v, i), repr)
  }

  function Names(ms: seq<(seq<Byte>, Json)>): (ks: seq<seq<Byte>>)
    ensures |ks| == |ms| && forall i :: 0 <= i < |ms| ==> ks[i] == TextOf(ms[i].0)
  {
    if |ms| == 0 then [] else Names(ms[..|ms| - 1]) + [TextOf(ms[|ms| - 1].0)]
  }

  lemma {:induction false} DenotesWider(n: JsonNode, v: Json, repr: set<object>, wider: set<object>)
    requires Denotes(n, v, repr) && repr <= wider
    ensures Denotes(n, v, wider)
    decreases v, 1
  {
    if Nests(v) && Count(v) > 0 {
      StoresWider(n.items[..], v, repr, wider);
    }
  }

  lemma {:induction false} StoresWider(nodes: seq<JsonNode?>, v: Json, repr: set<object>, wider: set<object>)
    requires Nests(v) && |nodes| <= Count(v) && Stores(nodes, v, repr) && repr <= wider
    ensures Stores(nodes, v, wider)
    decreases v, 0
  {
    forall i | 0 <= i < |nodes| ensures Denotes(nodes[i], Child(v, i), wider) {
      DenotesWider(nodes[i], Child(v, i), repr, wider);
    }
  }

  /** A tree stores one value only: what is read back from the nodes is the
      value that was stored. */
  lemma {:induction false} DenotesOnce(n: JsonNode, v: Json, w: Json, repr: set<object>)
    requires Denotes(n, v, repr) && Denotes(n, w, repr) && StringsValid(v) && StringsValid(w)
    ensures v == w
    decreases v
  {
    hide ValidUtf8;
    if Nests(v) {
      forall i | 0 <= i < Count(v) ensures Child(v, i) == Child(w, i) {
        DenotesOnce(n.items[..][i], Child(v, i), Child(w, i), repr);
      }
      SameChildren(v, w);
    }
  }

  lemma SameChildren(v: Json, w: Json)
    requires Nests(v) && (v.Array? <==> w.Array?) && Nests(w) && Count(v) == Count(w)
    requires forall i :: 0 <= i < Count(v) ==> Child(v, i) == Child(w, i)
    requires v.Object? ==> Names(v.members) == Names(w.members) && StringsValid(v) && StringsValid(w)
    ensures v == w
  {
    hide ValidUtf8;
    if v.Array? {
      forall i | 0 <= i < |v.items| ensures v.items[i] == w.items[i] {
        assert Child(v, i) == Child(w, i);
      }
      assert v.items == w.items;
    } else {
      forall i | 0 <= i < |v.members| ensures v.members[i] == w.members[i] {
        assert Child(v, i) == Child(w, i);
        assert Names(v.members)[i] == Names(w.members)[i];
      }
      assert v.members == w.members;
    }
  }

  // ----- building the tree

  /** `to_gc`. The whole tree is new memory. */
  method ToGc(v: Json) returns (n: JsonNode, ghost repr: set<object>)
    ensures fresh(repr) && Denotes(n, v, repr)
    decreases v, 1
  {
    n := new JsonNode();
    repr := {n};
    match v {
      case Null =>
      case Bool(b) =>
        n.tag, n.num := TAG_BOOL, if b then 1 else 0;
      case Int(k) =>
        n.tag, n.num := TAG_INT, k;
      case Str(s) =>
        n.tag, n.str := TAG_STR, TextOf(s);
      case Array(vs) =>
        n.tag, n.len := TAG_ARRAY, |vs|;
        if |vs| > 0 {
          var arr, nodes := StoreChildren(v);
          n.items := arr;
          repr := nodes + {n, arr};
          StoresWider(arr[..], v, nodes, repr);
        }
      case Object(ms) =>
        n.tag, n.len := TAG_OBJECT, |ms|;
        if |ms| > 0 {
          var arr, nodes := StoreChildren(v);
          var names := StoreNames(ms);
          n.items, n.keys := arr, names;
          repr := nodes + {n, arr, names};
          StoresWider(arr[..], v, nodes, repr);
        }
    }
  }

  /** The pointer array of an array or object. */
  method StoreChildren(v: Json) returns (arr: array<JsonNode?>, ghost nodes: set<object>)
    requires Nests(v)
    ensures fresh(arr) && fresh(nodes) && arr !in nodes
    ensures arr.Length == Count(v) && Stores(arr[..], v, nodes)
    decreases v, 0
  {
    arr := new JsonNode?[Count(v)];
    nodes := {};
    for i := 0 to arr.Length
      invariant fresh(nodes) && arr !in nodes
      invariant Stores(arr[..i], v, nodes)
    {
      var child, more := ToGc(Child(v, i));
      ghost var all := nodes + more;
      StoresWider(arr[..i], v, nodes, all);
      DenotesWider(child, Child(v, i), more, all);
      nodes := all;
      arr[i] := child;
      assert arr[..i + 1] == arr[..i] + [child];
    }
    assert arr[..arr.Length] == arr[..];
  }

  /** The pointer array of an object's keys. */
  method StoreNames(ms: seq<(seq<Byte>, Json)>) returns (keys: array<seq<Byte>>)
    ensures fresh(keys) && keys[..] == Names(ms)
  {
    hide TextOf;
    keys := new seq<Byte>[|ms|];
    for i := 0 to |ms|
      invariant forall j :: 0 <= j < i ==> keys[j] == TextOf(ms[j].0)
    {
      keys[i] := TextOf(ms[i].0);
    }
  }

  // ----- the accessors

  /** `tyra_json_kind`. */
  function Kind(h: JsonNode?): string
    reads h
  {
    if h == null then "null"
    else if h.tag == TAG_BOOL then "bool"
    else if h.tag == TAG_INT then "int"
    else if h.tag == TAG_STR then "string"
    else if h.tag == TAG_ARRAY then "array"
    else if h.tag == TAG_OBJECT then "object"
    else "null"
  }

  function IntOf(h: JsonNode?): int
    reads h
  {
    if h != null && h.tag == TAG_INT then h.num else 0
  }

  function BoolOf(h: JsonNode?): int
    reads h
  {
    if h != null && h.tag == TAG_BOOL then h.num else 0
  }

  function StrOf(h: JsonNode?): seq<Byte>
    reads h
  {
    if h != null && h.tag == TAG_STR then h.str else []
  }

  /** `tyra_json_is_string`, `tyra_json_is_int` and `tyra_json_is_bool`. */
  predicate IsString(h: JsonNode?)
    reads h
  {
    h != null && h.tag == TAG_STR
  }

  predicate IsInt(h: JsonNode?)
    reads h
  {
    h != null && h.tag == TAG_INT
  }

  predicate IsBool(h: JsonNode?)
    reads h
  {
    h != null && h.tag == TAG_BOOL
  }

  function KindName(v: Json): string {
    match v
    case Null => "null"
    case Bool(_) => "bool"
    case Int(_) => "int"
    case Str(_) => "string"
    case Array(_) => "array"
    case Object(_) => "object"
  }

  /** The scalar accessors tell the kind apart and return the scalar stored;
      asked for another kind they return the neutral value. */
  lemma ScalarsRead(h: JsonNode, v: Json, repr: set<object>)
    requires Denotes(h, v, repr) && StringsValid(v)
    ensures Kind(h) == KindName(v)
    ensures v.Null? ==> Kind(h) == "null"
    ensures v.Bool? ==> Kind(h) == "bool"
    ensures v.Int? ==> Kind(h) == "int"
    ensures v.Str? ==> Kind(h) == "string"
    ensures v.Array? ==> Kind(h) == "array"
    ensures v.Object? ==> Kind(h) == "object"
    ensures (IsString(h) <==> v.Str?) && (IsInt(h) <==> v.Int?) && (IsBool(h) <==> v.Bool?)
    ensures IntOf(h) == if v.Int? then v.n else 0
    ensures BoolOf(h) == if v == Bool(true) then 1 else 0
    ensures StrOf(h) == if v.Str? then v.s else []
  {
    hide ValidUtf8;
  }

  /** `tyra_json_at`: the element, and nothing out of range or off an array. */
  method ItemAt(h: JsonNode?, index: int, ghost v: Json, ghost repr: set<object>) returns (r: JsonNode?)
    requires h != null ==> Denotes(h, v, repr)
    ensures if h != null && v.Array? && 0 <= index < |v.items| then r != null && Denotes(r, v.items[index], repr)
      else r == null
  {
    if h == null || h.tag != TAG_ARRAY || index < 0 || index >= h.len {
      return null;
    }
    assert h.items[..][index] == h.items[index] && Child(v, index) == v.items[index];
    r := h.items[index];
  }

  /** `k` is the first member named `key`. */
  ghost predicate FirstNamed(ms: seq<(seq<Byte>, Json)>, key: seq<Byte>, k: nat) {
    k < |ms| && ms[k].0 == key && forall j :: 0 <= j < k ==> ms[j].0 != key
  }

  /** `tyra_json_get`: the value of the first member with that key, or nothing
      when no member has it or the handle is no object. */
  method Get(h: JsonNode?, key: seq<Byte>, ghost v: Json, ghost repr: set<object>) returns (r: JsonNode?)
    requires h != null ==> Denotes(h, v, repr) && StringsValid(v)
    ensures r != null ==>
      h != null && v.Object? && exists k: nat :: FirstNamed(v.members, key, k) && Denotes(r, v.members[k].1, repr)
    ensures r == null <==> h == null || !v.Object? || forall j :: 0 <= j < |v.members| ==> v.members[j].0 != key
  {
    hide ValidUtf8;
    if h == null || h.tag != TAG_OBJECT {
      return null;
    }
    for i := 0 to h.len
      invariant forall j :: 0 <= j < i ==> v.members[j].0 != key
    {
      assert h.keys[..][i] == h.keys[i] && Names(v.members)[i] == v.members[i].0;
      if h.keys[i] == key {
        assert h.items[..][i] == h.items[i] && Child(v, i) == v.members[i].1;
        assert FirstNamed(v.members, key, i);
        return h.items[i];
      }
    }
    r := null;
  }

  /** `tyra_json_parse`: a text in valid UTF-8 that renders a value gives the
      root of a tree storing exactly that value, and any other text gives the
      null handle and an error. */
  method ParseToNode(text: seq<Byte>) returns (h: JsonNode?, r: Parsed<Json>, ghost repr: set<object>)
    ensures r == DocumentResult(text) && (h == null <==> r.Err?)
    ensures h != null ==> fresh(repr) && Denotes(h, r.value, repr)
    ensures h != null && ValidUtf8(text) ==> StringsValid(r.value)
  {
    r := Parse(text);
    h, repr := null, {};
    if r.Ok? {
      h, repr := ToGc(r.value);
      if ValidUtf8(text) {
        AcceptedStringsValid(text);
      }
    }
  }
}
