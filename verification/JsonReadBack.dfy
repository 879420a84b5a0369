/** Reading a node tree back through its accessors alone. */
module JsonReadBack {
  import opened Octets
  import opened Options
  import opened JsonSyntax
  import opened JsonUnicode
  import opened JsonParser
  import opened JsonNodes

  /** One call of `at` or `get`. */
  datatype Access = Index(i: int) | Field(key: seq<Byte>)

  /** The position of the first member named `key`, or the number of members. */
  function FirstPlace(ms: seq<(seq<Byte>, Json)>, key: seq<Byte>): (k: nat)
    ensures k <= |ms| && (k < |ms| ==> FirstNamed(ms, key, k))
    ensures k == |ms| ==> forall j :: 0 <= j < |ms| ==> ms[j].0 != key
  {
    if |ms| == 0 then 0
    else if ms[0].0 == key then 0
    else
      var k := FirstPlace(ms[1..], key);
      assert k < |ms[1..]| ==> ms[k + 1] == ms[1..][k];
      assert forall j :: 0 < j < |ms| ==> ms[j] == ms[1..][j - 1];
      k + 1
  }

  /** The part of `v` that one access names. */
  function Part(v: Json, a: Access): (r: Option<Json>)
    ensures r.Some? ==> r.value < v
  {
    match a
    case Index(i) => if v.Array? && 0 <= i < |v.items| then Some(v.items[i]) else None
    case Field(key) =>
      if v.Object? && FirstPlace(v.members, key) < |v.members| then
        Some(v.members[FirstPlace(v.members, key)].1)
      else None
  }

  /** The part of `v` that a path of accesses names. */
  function Sub(v: Json, path: seq<Access>): Option<Json>
    decreases |path|
  {
    if |path| == 0 then Some(v)
    else match Part(v, path[0])
      case None => None
      case Some(w) => Sub(w, path[1..])
  }

  lemma FirstOnly(ms: seq<(seq<Byte>, Json)>, key: seq<Byte>, k: nat)
    requires FirstNamed(ms, key, k)
    ensures FirstPlace(ms, key) == k
  {
    hide FirstPlace;
    assert FirstPlace(ms, key) <= k;
  }

  lemma PartValid(v: Json, a: Access)
    requires StringsValid(v) && Part(v, a).Some?
    ensures StringsValid(Part(v, a).value)
  {
    hide ValidUtf8, FirstPlace;
  }

  /** One access: the null handle exactly when the value has no such part, and
      otherwise the root of the part's tree. */
  method Step(h: JsonNode, a: Access, ghost v: Json, ghost repr: set<object>) returns (r: JsonNode?)
    requires Denotes(h, v, repr) && StringsValid(v)
    ensures r == null <==> Part(v, a).None?
    ensures r != null ==> Denotes(r, Part(v, a).value, repr) && StringsValid(Part(v, a).value)
  {
    hide ValidUtf8, StringsValid, Denotes;
    match a {
      case Index(i) =>
        r := ItemAt(h, i, v, repr);
      case Field(key) =>
        r := Get(h, key, v, repr);
        if r != null {
          ghost var k: nat :| FirstNamed(v.members, key, k) && Denotes(r, v.members[k].1, repr);
          FirstOnly(v.members, key, k);
        }
    }
    if r != null {
      PartValid(v, a);
    }
  }

  /** Any sequence of accesses from the root: the handle reached is null exactly
      when the value has no such part, and otherwise denotes that part. */
  method Follow(h: JsonNode, path: seq<Access>, ghost v: Json, ghost repr: set<object>) returns (r: JsonNode?)
    requires Denotes(h, v, repr) && StringsValid(v)
    ensures r == null <==> Sub(v, path).None?
    ensures r != null ==> Denotes(r, Sub(v, path).value, repr) && StringsValid(Sub(v, path).value)
  {
    hide StringsValid, Denotes, Part;
    r := h;
    ghost var w := v;
    assert path[0..] == path;
    for i := 0 to |path|
      invariant r != null && Denotes(r, w, repr) && StringsValid(w)
      invariant Sub(w, path[i..]) == Sub(v, path)
    {
      assert path[i..][0] == path[i] && path[i..][1..] == path[i + 1..];
      r := Step(r, path[i], w, repr);
      if r == null {
        return;
      }
      w := Part(w, path[i]).value;
    }
  }

  // ----- what the accessors tell

  /** What the scalar accessors say of a handle. */
  datatype Reading = Reading(kind: string, n: int, b: int, s: seq<Byte>)

  function ReadingOf(v: Option<Json>): Reading {
    match v
    case None => Reading("null", 0, 0, [])
    case Some(Null) => Reading("null", 0, 0, [])
    case Some(Bool(b)) => Reading("bool", 0, if b then 1 else 0, [])
    case Some(Int(n)) => Reading("int", n, 0, [])
    case Some(Str(s)) => Reading("string", 0, 0, s)
    case Some(Array(_)) => Reading("array", 0, 0, [])
    case Some(Object(_)) => Reading("object", 0, 0, [])
  }

  /** Parse, follow the path, and read what is there. */
  method ReadText(text: seq<Byte>, path: seq<Access>) returns (there: bool, r: Reading)
    requires ValidUtf8(text)
    ensures DocumentResult(text).Ok? ==> there == Sub(DocumentResult(text).value, path).Some?
    ensures DocumentResult(text).Ok? ==> r == ReadingOf(Sub(DocumentResult(text).value, path))
    ensures DocumentResult(text).Err? ==> !there && r == ReadingOf(None)
  {
    hide ValidUtf8, StringsValid, Denotes, Sub, DocumentResult;
    var h, parsed, repr := ParseToNode(text);
    if h != null {
      var root: JsonNode := h;
      ghost var v := parsed.value;
      h := Follow(root, path, v, repr);
      if h != null {
        ScalarsRead(h, Sub(v, path).value, repr);
      }
    }
    there := h != null;
    r := Reading(Kind(h), IntOf(h), BoolOf(h), StrOf(h));
  }

  /** A value as far as accessors can tell: of members with one name only the
      first counts, and their order does not. */
  datatype View =
    | Scalar(v: Json)
    | Items(items: seq<View>)
    | Fields(fields: map<seq<Byte>, View>)

  ghost function NameSet(ms: seq<(seq<Byte>, Json)>): set<seq<Byte>> {
    set i | 0 <= i < |ms| :: ms[i].0
  }

  ghost function Seen(v: Json): View
    decreases v, 1
  {
    match v
    case Array(vs) => Items(SeenItems(v, |vs|))
    case Object(ms) => Fields(
      map key | key in NameSet(ms) && Part(v, Field(key)).Some? :: Seen(Part(v, Field(key)).value))
    case _ => Scalar(v)
  }

  ghost function SeenItems(v: Json, n: nat): (r: seq<View>)
    requires v.Array? && n <= |v.items|
    ensures |r| == n && forall i :: 0 <= i < n ==> r[i] == Seen(v.items[i])
    decreases v, 0, n
  {
    if n == 0 then [] else SeenItems(v, n - 1) + [Seen(v.items[n - 1])]
  }

  lemma FieldNamed(v: Json, key: seq<Byte>)
    requires v.Object?
    ensures Part(v, Field(key)).Some? <==> key in NameSet(v.members)
  {
    if key in NameSet(v.members) {
      var i :| 0 <= i < |v.members| && v.members[i].0 == key;
    }
    if Part(v, Field(key)).Some? {
      assert v.members[FirstPlace(v.members, key)].0 == key;
    }
  }

  /** The same answers along every path. */
  ghost predicate ReadAlike(v: Json, w: Json) {
    forall path :: Sub(v, path).Some? == Sub(w, path).Some? && ReadingOf(Sub(v, path)) == ReadingOf(Sub(w, path))
  }

  lemma PartsAlike(v: Json, w: Json, a: Access)
    requires ReadAlike(v, w)
    ensures Part(v, a).Some? <==> Part(w, a).Some?
    ensures Part(v, a).Some? ==> ReadAlike(Part(v, a).value, Part(w, a).value)
  {
    hide Part, ReadingOf;
    OneAccess(v, a);
    OneAccess(w, a);
    if Part(v, a).Some? {
      forall path
        ensures var x, y := Sub(Part(v, a).value, path), Sub(Part(w, a).value, path);
          x.Some? == y.Some? && ReadingOf(x) == ReadingOf(y)
      {
        assert ([a] + path)[1..] == path;
        assert Sub(v, [a] + path).Some? == Sub(w, [a] + path).Some?;
      }
    }
  }

  lemma OneAccess(v: Json, a: Access)
    ensures Sub(v, [a]) == Part(v, a)
  {
    hide Part;
    assert [a][1..] == [];
  }

  /** The accessors rebuild the value as far as they can tell it at all: two
      values read alike along every path exactly when their views agree. */
  lemma ReadingsRebuild(v: Json, w: Json)
    ensures ReadAlike(v, w) <==> Seen(v) == Seen(w)
  {
    hide ReadAlike, Seen;
    if ReadAlike(v, w) {
      AlikeSeen(v, w);
    }
    if Seen(v) == Seen(w) {
      SeenAlike(v, w);
    }
  }

  lemma KindsDiffer(v: Json, w: Json)
    requires ReadingOf(Some(v)) == ReadingOf(Some(w))
    ensures v.Null? == w.Null? && v.Bool? == w.Bool? && v.Int? == w.Int? && v.Str? == w.Str?
    ensures v.Array? == w.Array? && v.Object? == w.Object? && (!Nests(v) ==> v == w)
  {
    assert "null"[0] == 'n' && "bool"[0] == 'b' && "int"[0] == 'i' && "string"[0] == 's';
    assert "array"[0] == 'a' && "object"[0] == 'o';
    var k := KindName(v)[0];
    assert k == KindName(w)[0];
  }

  lemma {:induction false} AlikeSeen(v: Json, w: Json)
    requires ReadAlike(v, w)
    ensures Seen(v) == Seen(w)
    decreases v
  {
    hide ReadAlike;
    SameShape(v, w);
    if v.Array? {
      SameLength(v, w);
      forall i | 0 <= i < |v.items| ensures Seen(v.items[i]) == Seen(w.items[i]) {
        PartsAlike(v, w, Index(i));
        AlikeSeen(v.items[i], w.items[i]);
      }
      assert SeenItems(v, |v.items|) == SeenItems(w, |w.items|);
    } else if v.Object? {
      forall key
        ensures key in NameSet(v.members) <==> key in NameSet(w.members)
        ensures key in NameSet(v.members) ==> Part(v, Field(key)).Some? && Part(w, Field(key)).Some?
        ensures key in NameSet(v.members) ==> Seen(Part(v, Field(key)).value) == Seen(Part(w, Field(key)).value)
      {
        PartsAlike(v, w, Field(key));
        FieldNamed(v, key);
        FieldNamed(w, key);
        if key in NameSet(v.members) {
          AlikeSeen(Part(v, Field(key)).value, Part(w, Field(key)).value);
        }
      }
      assert NameSet(v.members) == NameSet(w.members);
    }
  }

  lemma SameShape(v: Json, w: Json)
    requires ReadAlike(v, w)
    ensures v.Array? == w.Array? && v.Object? == w.Object? && (!Nests(v) ==> v == w)
  {
    assert Sub(v, []) == Some(v) && Sub(w, []) == Some(w);
    assert ReadingOf(Sub(v, [])) == ReadingOf(Sub(w, []));
    KindsDiffer(v, w);
  }

  lemma SameLength(v: Json, w: Json)
    requires ReadAlike(v, w) && v.Array? && w.Array?
    ensures |v.items| == |w.items|
  {
    hide ReadAlike;
    PartsAlike(v, w, Index(|v.items|));
    PartsAlike(v, w, Index(|w.items|));
  }

  lemma SeenAlike(v: Json, w: Json)
    requires Seen(v) == Seen(w)
    ensures ReadAlike(v, w)
  {
    hide Seen;
    forall path ensures Sub(v, path).Some? == Sub(w, path).Some? && ReadingOf(Sub(v, path)) == ReadingOf(Sub(w, path)) {
      SeenAlong(v, w, path);
    }
  }

  lemma {:induction false} SeenAlong(v: Json, w: Json, path: seq<Access>)
    requires Seen(v) == Seen(w)
    ensures Sub(v, path).Some? == Sub(w, path).Some? && ReadingOf(Sub(v, path)) == ReadingOf(Sub(w, path))
    decreases |path|
  {
    if |path| > 0 {
      SeenPart(v, w, path[0]);
      if Part(v, path[0]).Some? {
        SeenAlong(Part(v, path[0]).value, Part(w, path[0]).value, path[1..]);
      }
    }
  }

  lemma SeenPart(v: Json, w: Json, a: Access)
    requires Seen(v) == Seen(w)
    ensures Part(v, a).Some? <==> Part(w, a).Some?
    ensures Part(v, a).Some? ==> Seen(Part(v, a).value) == Seen(Part(w, a).value)
  {
    match a
    case Index(i) =>
      if v.Array? && 0 <= i < |v.items| {
        assert SeenItems(v, |v.items|)[i] == SeenItems(w, |w.items|)[i];
      }
    case Field(key) =>
      if v.Object? {
        FieldNamed(v, key);
        FieldNamed(w, key);
        assert key in Seen(v).fields <==> key in Seen(w).fields;
        assert key in Seen(v).fields ==> Seen(v).fields[key] == Seen(w).fields[key];
      }
  }
}
