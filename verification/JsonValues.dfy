/** Which values a text can denote: those within an `i64`'s and a C string's
    reach, and no others. */
module JsonValues {
  import opened Octets
  import opened JsonSyntax
  import opened JsonReader
  import opened JsonLaws
  import opened JsonRoundTrip

  predicate Representable(v: Json) {
    match v
    case Null => true
    case Bool(_) => true
    case Int(n) => IsI64(n)
    case Str(s) => 0 !in s
    case Array(vs) => forall i :: 0 <= i < |vs| ==> Representable(vs[i])
    case Object(ms) => forall i :: 0 <= i < |ms| ==> 0 !in ms[i].0 && Representable(ms[i].1)
  }

  // ----- a strict rendering of a value

  function DigitsOf(n: nat): (ds: seq<Byte>)
    ensures |ds| > 0 && AllDigits(ds) && (|ds| > 1 ==> ds[0] != 48) && (n > 0 ==> ds[0] != 48)
    ensures DigitsValue(ds) == n
  {
    if n < 10 then [48 + n] else
      var ds := DigitsOf(n / 10) + [48 + n % 10];
      assert ds[..|ds| - 1] == DigitsOf(n / 10);
      ds
  }

  function HexDigit(d: nat): (h: Byte)
    requires d < 16
    ensures IsHex(h) && HexValue(h) == d
  {
    if d < 10 then 48 + d else 87 + d
  }

  /** Quotes and backslashes are escaped, control characters written as four
      hexadecimal digits, all else is raw. */
  function PieceOf(b: Byte): (p: Piece)
    requires b != 0
    ensures PieceOk(p) && PieceValue(p) == [b] && (p.Raw? ==> p.b >= 32)
  {
    if b == QUOTE || b == BACKSLASH then Escaped(b)
    else if b < 32 then Unicode([HexDigit(0), HexDigit(0), HexDigit(b / 16), HexDigit(b % 16)])
    else Raw(b)
  }

  function PiecesOf(s: seq<Byte>): seq<Piece>
    requires 0 !in s
  {
    if |s| == 0 then [] else [PieceOf(s[0])] + PiecesOf(s[1..])
  }

  lemma {:induction false} PiecesOfDenote(s: seq<Byte>)
    requires 0 !in s
    ensures StringOk(PiecesOf(s)) && PiecesValue(PiecesOf(s)) == s && StrictPieces(PiecesOf(s))
  {
    hide PieceOk, PieceValue, PieceOf;
    if |s| > 0 {
      PiecesOfDenote(s[1..]);
      assert PiecesOf(s)[1..] == PiecesOf(s[1..]);
    }
  }

  /** No white space, and the shortest digits. */
  function Render(v: Json): (t: Text)
    requires Representable(v)
    decreases v, 1, 0
  {
    match v
    case Null => NullText
    case Bool(b) => if b then TrueText else FalseText
    case Int(n) => NumberText(n < 0, DigitsOf(if n < 0 then -n else n))
    case Str(s) => StrText(PiecesOf(s))
    case Array(vs) => if |vs| == 0 then EmptyArray([]) else ArrayText(RenderItems(v, |vs|))
    case Object(ms) => if |ms| == 0 then EmptyObject([]) else ObjectText(RenderMembers(v, |ms|))
  }

  /** The last `n` elements. */
  function RenderItems(v: Json, n: nat): (es: seq<Element>)
    requires v.Array? && Representable(v) && n <= |v.items|
    ensures |es| == n
    decreases v, 0, n
  {
    if n == 0 then []
    else [Element([], Render(v.items[|v.items| - n]), [])] + RenderItems(v, n - 1)
  }

  function RenderMembers(v: Json, n: nat): (ms: seq<Member>)
    requires v.Object? && Representable(v) && n <= |v.members|
    ensures |ms| == n
    decreases v, 0, n
  {
    if n == 0 then []
    else
      var m := v.members[|v.members| - n];
      [Member([], PiecesOf(m.0), [], [], Render(m.1), [])] + RenderMembers(v, n - 1)
  }

  /** A value has a strict rendering, and it renders that value. */
  lemma {:induction false} RenderDenotes(v: Json)
    requires Representable(v)
    ensures TextOk(Render(v)) && Value(Render(v)) == v && Strict(Render(v))
    decreases v, 1, 0
  {
    hide StringOk, StrictPieces, PiecesValue, PiecesOf;
    match v
    case Str(s) => PiecesOfDenote(s);
    case Array(vs) =>
      if |vs| > 0 {
        RenderItemsDenote(v, |vs|);
      }
    case Object(ms) =>
      if |ms| > 0 {
        RenderMembersDenote(v, |ms|);
      }
    case _ =>
  }

  lemma {:induction false} RenderItemsDenote(v: Json, n: nat)
    requires v.Array? && Representable(v) && n <= |v.items|
    ensures var es := RenderItems(v, n);
      ElementsOk(es) && ElementValues(es) == v.items[|v.items| - n..] && StrictElements(es)
    decreases v, 0, n
  {
    hide Render, TextOk, Value, Strict;
    if n > 0 {
      var es := RenderItems(v, n);
      RenderDenotes(v.items[|v.items| - n]);
      RenderItemsDenote(v, n - 1);
      assert es[1..] == RenderItems(v, n - 1);
    }
  }

  lemma {:induction false} RenderMembersDenote(v: Json, n: nat)
    requires v.Object? && Representable(v) && n <= |v.members|
    ensures var ms := RenderMembers(v, n);
      MembersOk(ms) && MemberValues(ms) == v.members[|v.members| - n..] && StrictMembers(ms)
    decreases v, 0, n
  {
    hide Render, TextOk, Value, Strict, StrictPieces, StringOk, PiecesValue, PiecesOf;
    if n > 0 {
      var ms := RenderMembers(v, n);
      PiecesOfDenote(v.members[|v.members| - n].0);
      RenderDenotes(v.members[|v.members| - n].1);
      RenderMembersDenote(v, n - 1);
      assert ms[1..] == RenderMembers(v, n - 1);
    }
  }

  // ----- a rendered value is representable

  lemma {:induction false} ValueRepresentable(t: Text)
    requires TextOk(t)
    ensures Representable(Value(t))
    decreases t, 1, 0
  {
    match t
    case ArrayText(es) => ElementsRepresentable(es);
    case ObjectText(ms) => MembersRepresentable(ms);
    case _ =>
  }

  lemma {:induction false} ElementsRepresentable(es: seq<Element>)
    requires ElementsOk(es)
    ensures forall i :: 0 <= i < |ElementValues(es)| ==> Representable(ElementValues(es)[i])
    decreases es, 0, |es|
  {
    if |es| > 0 {
      ValueRepresentable(es[0].value);
      ElementsRepresentable(es[1..]);
    }
  }

  lemma {:induction false} MembersRepresentable(ms: seq<Member>)
    requires MembersOk(ms)
    ensures forall i :: 0 <= i < |MemberValues(ms)| ==>
      0 !in MemberValues(ms)[i].0 && Representable(MemberValues(ms)[i].1)
    decreases ms, 0, |ms|
  {
    hide Representable, TextOk, Value, PiecesValue;
    if |ms| > 0 {
      ValueRepresentable(ms[0].value);
      MembersRepresentable(ms[1..]);
    }
  }

  /** The parser's results are exactly the representable values: each of them
      is what some document parses to, and nothing else is. */
  lemma ParsesToRepresentable(v: Json)
    ensures Representable(v) <==> exists b :: ReadDocument(b).Got? && Value(ReadDocument(b).val.value) == v
  {
    hide Representable, ReadElement, Render;
    if Representable(v) {
      RenderDenotes(v);
      var e := Element([], Render(v), []);
      assert ElementsOk([e]);
      DocumentExactly(ElementBytes(e), e);
    }
    forall b | ReadDocument(b).Got? && Value(ReadDocument(b).val.value) == v
      ensures Representable(v)
    {
      ValueRepresentable(ReadDocument(b).val.value);
    }
  }
}
