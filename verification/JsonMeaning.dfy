/** What texts mean, told on their bytes alone: which values the literals,
    numbers and strings are, character by character, and how arrays and objects
    are made of the texts inside them. */
module JsonMeaning {
  import opened Octets
  import opened JsonSyntax
  import opened JsonReader
  import opened JsonLaws
  import opened JsonRoundTrip
  import opened JsonUnicode
  import opened JsonParser

  /** The text parses to `v`. */
  ghost predicate Means(b: seq<Byte>, v: Json) {
    DocumentResult(b) == Ok(v)
  }

  /** Texts and renderings. */
  lemma MeansRendering(b: seq<Byte>, v: Json) returns (e: Element)
    requires Means(b, v)
    ensures ElementsOk([e]) && ElementBytes(e) == b && Value(e.value) == v
  {
    hide ReadElement, Value;
    e := ReadDocument(b).val;
    DocumentExactly(b, e);
  }

  lemma RenderingMeans(e: Element)
    requires ElementsOk([e])
    ensures Means(ElementBytes(e), Value(e.value))
  {
    hide ReadElement, Value, ElementBytes;
    DocumentExactly(ElementBytes(e), e);
  }

  lemma BareMeans(t: Text)
    requires TextOk(t)
    ensures Means(Bytes(t), Value(t))
  {
    hide Means, TextOk, Value, Bytes;
    var e := Element([], t, []);
    assert ElementBytes(e) == Bytes(t);
    RenderingMeans(e);
  }

  // ----- literals

  lemma LiteralsMean()
    ensures Means([110, 117, 108, 108], Null)
    ensures Means([116, 114, 117, 101], Bool(true))
    ensures Means([102, 97, 108, 115, 101], Bool(false))
  {
    hide Means;
    BareMeans(NullText);
    BareMeans(TrueText);
    BareMeans(FalseText);
  }

  // ----- numbers

  /** A text that starts and ends without white space is a bare rendering. */
  lemma BareRendering(b: seq<Byte>, v: Json) returns (t: Text)
    requires Means(b, v) && |b| > 0 && !IsWs(b[0]) && !IsWs(b[|b| - 1])
    ensures TextOk(t) && Bytes(t) == b && Value(t) == v
  {
    hide Means, TextOk, Value, Bytes;
    var e := MeansRendering(b, v);
    t := e.value;
    assert b == Bytes(t);
  }

  lemma NumberRendering(neg: bool, ds: seq<Byte>, v: Json)
    requires |ds| > 0 && AllDigits(ds) && Means((if neg then [MINUS] else []) + ds, v)
    ensures IsI64(NumberValue(neg, ds)) && v == Int(NumberValue(neg, ds))
  {
    hide Means, NumberValue;
    var b := (if neg then [MINUS] else []) + ds;
    assert b[|b| - 1] == ds[|ds| - 1] && b[0] == if neg then MINUS else ds[0];
    var t := BareRendering(b, v);
    HoldsWhole(b);
    FirstByte(b, 0, t);
    assert t.NumberText? && t.neg == neg;
    assert t.digits == b[if neg then 1 else 0..];
  }

  lemma HoldsWhole(b: seq<Byte>)
    ensures Holds(b, 0, b)
  {
  }

  lemma NumberMeans(neg: bool, ds: seq<Byte>)
    requires |ds| > 0 && AllDigits(ds)
    ensures var b := (if neg then [MINUS] else []) + ds;
      if IsI64(NumberValue(neg, ds)) then Means(b, Int(NumberValue(neg, ds))) else DocumentResult(b).Err?
  {
    hide DocumentResult, NumberValue;
    var b := (if neg then [MINUS] else []) + ds;
    if IsI64(NumberValue(neg, ds)) {
      BareMeans(NumberText(neg, ds));
    } else if DocumentResult(b).Ok? {
      NumberRendering(neg, ds, DocumentResult(b).value);
    }
  }

  /** One digit, with or without a sign. */
  lemma DigitMeans(d: int)
    requires 0 <= d < 10
    ensures Means([48 + d], Int(d)) && Means([45, 48 + d], Int(-d))
  {
    hide Means;
    var ds: seq<Byte> := [48 + d];
    assert ds[..0] == [] && DigitsValue(ds) == d;
    NumberMeans(false, ds);
    NumberMeans(true, ds);
    assert [] + ds == ds && [MINUS] + ds == [45, 48 + d];
  }

  /** And one digit more: ten times the number and the digit, if that is within
      an `i64`. */
  lemma NextDigitMeans(neg: bool, ds: seq<Byte>, n: int, d: nat)
    requires |ds| > 0 && AllDigits(ds) && d < 10 && Means((if neg then [45] else []) + ds, Int(n))
    ensures var b, m := (if neg then [45] else []) + (ds + [48 + d]), if neg then 10 * n - d else 10 * n + d;
      if -0x8000_0000_0000_0000 <= m <= 0x7FFF_FFFF_FFFF_FFFF then Means(b, Int(m)) else DocumentResult(b).Err?
  {
    hide DocumentResult;
    var more: seq<Byte> := ds + [48 + d];
    NumberRendering(neg, ds, Int(n));
    assert more[..|more| - 1] == ds;
    assert DigitsValue(more) == DigitsValue(ds) * 10 + d;
    NumberMeans(neg, more);
  }

  // ----- strings

  lemma StringRendering(body: seq<Byte>, s: seq<Byte>) returns (ps: seq<Piece>)
    requires Means([34] + body + [34], Str(s))
    ensures StringOk(ps) && PiecesText(ps) == body && PiecesValue(ps) == s
  {
    hide Means, StringOk, PiecesText, PiecesValue;
    var b: seq<Byte> := [34] + body + [34];
    assert b[0] == 34 && b[|b| - 1] == 34;
    var t := BareRendering(b, Str(s));
    ps := t.pieces;
    assert StringText(ps)[1..|b| - 1] == PiecesText(ps) && b[1..|b| - 1] == body;
  }

  lemma {:induction false} PiecesAppend(ps: seq<Piece>, p: Piece)
    requires PiecesOk(ps) && PieceOk(p)
    ensures PiecesOk(ps + [p]) && PiecesText(ps + [p]) == PiecesText(ps) + PieceText(p)
    ensures PiecesValue(ps + [p]) == PiecesValue(ps) + PieceValue(p)
    decreases |ps|
  {
    hide PieceOk, PieceText, PieceValue;
    if |ps| > 0 {
      PiecesAppend(ps[1..], p);
      assert (ps + [p])[1..] == ps[1..] + [p];
    } else {
      assert [p][1..] == [] && ps + [p] == [p];
    }
  }

  /** A string with one character more. */
  lemma PieceMeans(body: seq<Byte>, s: seq<Byte>, p: Piece)
    requires Means([34] + body + [34], Str(s)) && PieceOk(p) && 0 !in PieceValue(p)
    ensures Means([34] + (body + PieceText(p)) + [34], Str(s + PieceValue(p)))
  {
    hide Means, PieceText, PieceValue, PieceOk;
    var ps := StringRendering(body, s);
    PiecesAppend(ps, p);
    BareMeans(StrText(ps + [p]));
  }

  lemma EmptyStringMeans()
    ensures Means([34, 34], Str([]))
  {
    hide Means;
    BareMeans(StrText([]));
    assert Bytes(StrText([])) == [34, 34];
  }

  /** A byte stands for itself, unless it is the quote, the backslash or NUL. */
  lemma ByteMeans(body: seq<Byte>, s: seq<Byte>, c: Byte)
    requires Means([34] + body + [34], Str(s)) && c != 34 && c != 92 && c != 0
    ensures Means([34] + (body + [c]) + [34], Str(s + [c]))
  {
    hide Means;
    PieceMeans(body, s, Raw(c));
  }

  /** The two-character escapes (RFC 8259, section 7): quotation mark, reverse
      solidus, solidus, backspace, form feed, line feed, carriage return and
      tab. */
  predicate StandsFor(letter: Byte, byte: Byte) {
    || (letter == 34 && byte == 0x22) || (letter == 92 && byte == 0x5C) || (letter == 47 && byte == 0x2F)
    || (letter == 98 && byte == 0x08) || (letter == 102 && byte == 0x0C) || (letter == 110 && byte == 0x0A)
    || (letter == 114 && byte == 0x0D) || (letter == 116 && byte == 0x09)
  }

  lemma EscapeMeans(body: seq<Byte>, s: seq<Byte>, letter: Byte, byte: Byte)
    requires Means([34] + body + [34], Str(s)) && StandsFor(letter, byte)
    ensures Means([34] + (body + [92, letter]) + [34], Str(s + [byte]))
  {
    hide Means;
    PieceMeans(body, s, Escaped(letter));
  }

  /** A hexadecimal digit in either case. */
  predicate HexDigitIs(h: Byte, d: nat) {
    (48 <= h <= 57 && d == h - 48) || (65 <= h <= 70 && d == h - 65 + 10) || (97 <= h <= 102 && d == h - 97 + 10)
  }

  ghost predicate UnitIs(h: seq<Byte>, cp: nat) {
    |h| == 4 && exists a: nat, b: nat, c: nat, d: nat ::
      && HexDigitIs(h[0], a) && HexDigitIs(h[1], b) && HexDigitIs(h[2], c) && HexDigitIs(h[3], d)
      && cp == 0x1000 * a + 0x100 * b + 0x10 * c + d
  }

  lemma UnitValue(h: seq<Byte>, cp: nat)
    requires UnitIs(h, cp)
    ensures IsHex4(h) && Hex4Value(h) == cp
  {
  }

  /** The bytes of one character of UTF-8, and the code point they encode. */
  ghost predicate Encodes(u: seq<Byte>, cp: nat) {
    |u| > 0 && CharLen(u) == |u| && Decode(u) == cp
  }

  lemma ScalarEncoded(cp: nat)
    requires IsScalar(cp) && cp > 0
    ensures Encodes(Utf8(cp), cp) && 0 !in Utf8(cp)
  {
    EncodedOnce(cp, []);
    assert Utf8(cp) + [] == Utf8(cp);
  }

  /** A `\u` escape outside the surrogates adds its character in UTF-8. */
  lemma UnicodeMeans(body: seq<Byte>, s: seq<Byte>, h: seq<Byte>, cp: nat) returns (u: seq<Byte>)
    requires Means([34] + body + [34], Str(s)) && UnitIs(h, cp) && cp > 0 && !(0xD800 <= cp <= 0xDFFF)
    ensures Encodes(u, cp) && Means([34] + (body + ([92, 117] + h)) + [34], Str(s + u))
  {
    hide Means, Encodes, Hex4Value;
    UnitValue(h, cp);
    u := Utf8(cp);
    ScalarEncoded(cp);
    PieceMeans(body, s, Unicode(h));
  }

  /** A pair of surrogates adds the one character it stands for. */
  lemma PairMeans(body: seq<Byte>, s: seq<Byte>, h: seq<Byte>, l: seq<Byte>, high: nat, low: nat)
    returns (u: seq<Byte>)
    requires Means([34] + body + [34], Str(s)) && UnitIs(h, high) && UnitIs(l, low)
    requires 0xD800 <= high <= 0xDBFF && 0xDC00 <= low <= 0xDFFF
    ensures Encodes(u, 0x10000 + 0x400 * (high - 0xD800) + (low - 0xDC00))
    ensures Means([34] + (body + ([92, 117] + h + [92, 117] + l)) + [34], Str(s + u))
  {
    hide Means, Encodes, Hex4Value;
    UnitValue(h, high);
    UnitValue(l, low);
    u := Utf8(Combine(high, low));
    ScalarEncoded(Combine(high, low));
    PieceMeans(body, s, Surrogates(h, l));
  }

  /** One character of each length, and a pair. */
  lemma CharactersEncode()
    ensures Encodes([0x41], 0x41) && Encodes([0xC3, 0xA9], 0xE9) && Encodes([0xE2, 0x82, 0xAC], 0x20AC)
    ensures Encodes([0xF0, 0x9F, 0x98, 0x80], 0x1F600)
    ensures 0x10000 + 0x400 * (0xD83D - 0xD800) + (0xDE00 - 0xDC00) == 0x1F600
  {
  }

  // ----- arrays and objects

  /** The texts with commas between them. */
  function Joined(bs: seq<seq<Byte>>): seq<Byte> {
    if |bs| == 0 then [] else if |bs| == 1 then bs[0] else bs[0] + [44] + Joined(bs[1..])
  }

  lemma {:induction false} ElementTexts(bs: seq<seq<Byte>>, vs: seq<Json>) returns (es: seq<Element>)
    requires |bs| == |vs| && forall i :: 0 <= i < |bs| ==> Means(bs[i], vs[i])
    ensures |es| == |bs| && ElementsOk(es) && ElementsBytes(es) == Joined(bs) && ElementValues(es) == vs
    decreases |bs|
  {
    hide Means, TextOk, Value, ElementBytes;
    es := [];
    if |bs| > 0 {
      var e := MeansRendering(bs[0], vs[0]);
      var rest := ElementTexts(bs[1..], vs[1..]);
      es := [e] + rest;
      assert es[1..] == rest && vs == [vs[0]] + vs[1..];
      if |bs| == 1 {
        ElementsOne(e);
        assert es == [e];
      } else {
        ElementsStep(e, rest);
        assert bs[0] + ([44] + Joined(bs[1..])) == bs[0] + [44] + Joined(bs[1..]);
      }
    }
  }

  /** An array of texts means the array of what they mean. */
  lemma ArrayMeans(bs: seq<seq<Byte>>, vs: seq<Json>)
    requires |bs| == |vs| > 0 && forall i :: 0 <= i < |bs| ==> Means(bs[i], vs[i])
    ensures Means([91] + Joined(bs) + [93], Array(vs))
  {
    hide Means, ElementsBytes, ElementsOk, ElementValues;
    var es := ElementTexts(bs, vs);
    BareMeans(ArrayText(es));
  }

  lemma EmptyMeans(ws: seq<Byte>)
    requires AllWs(ws)
    ensures Means([91] + ws + [93], Array([])) && Means([123] + ws + [125], Object([]))
  {
    hide Means;
    BareMeans(EmptyArray(ws));
    BareMeans(EmptyObject(ws));
  }

  /** A member's text: its name's, a colon and its value's. */
  function MemberTexts(names: seq<seq<Byte>>, bs: seq<seq<Byte>>): (r: seq<seq<Byte>>)
    requires |names| == |bs|
    ensures |r| == |bs| && forall i :: 0 <= i < |bs| ==> r[i] == names[i] + [58] + bs[i]
  {
    if |bs| == 0 then [] else [names[0] + [58] + bs[0]] + MemberTexts(names[1..], bs[1..])
  }

  lemma StringElement(b: seq<Byte>, s: seq<Byte>) returns (e: Element)
    requires Means(b, Str(s))
    ensures ElementsOk([e]) && ElementBytes(e) == b && e.value.StrText?
    ensures StringOk(e.value.pieces) && PiecesValue(e.value.pieces) == s
  {
    hide Means, PiecesValue, PiecesOk, ElementBytes;
    e := MeansRendering(b, Str(s));
  }

  lemma OneMember(name: Element, v: Element) returns (m: Member)
    requires ElementsOk([name]) && ElementsOk([v]) && name.value.StrText?
    ensures MembersOk([m]) && MemberBytes(m) == ElementBytes(name) + [58] + ElementBytes(v)
    ensures m.name == name.value.pieces && m.value == v.value
  {
    hide TextOk, Bytes, StringText;
    m := Member(name.before, name.value.pieces, name.after, v.before, v.value, v.after);
    StringOkOf(name);
    assert MemberBytes(m) ==
      name.before + StringText(m.name) + name.after + [COLON] + (v.before + Bytes(v.value) + v.after);
  }

  lemma StringOkOf(e: Element)
    requires ElementsOk([e]) && e.value.StrText?
    ensures StringOk(e.value.pieces) && Bytes(e.value) == StringText(e.value.pieces)
  {
    hide StringOk;
  }

  lemma {:induction false} MemberRenderings(
      names: seq<seq<Byte>>, ks: seq<seq<Byte>>, bs: seq<seq<Byte>>, vs: seq<Json>) returns (ms: seq<Member>)
    requires |names| == |ks| == |bs| == |vs|
    requires forall i :: 0 <= i < |bs| ==> Means(names[i], Str(ks[i])) && Means(bs[i], vs[i])
    ensures |ms| == |bs| && MembersOk(ms) && MembersBytes(ms) == Joined(MemberTexts(names, bs))
    ensures |MemberValues(ms)| == |bs| && forall i :: 0 <= i < |bs| ==> MemberValues(ms)[i] == (ks[i], vs[i])
    decreases |bs|
  {
    hide Means, TextOk, Value, ElementBytes, MemberBytes, StringOk, PiecesValue, ElementsOk;
    ms := [];
    if |bs| > 0 {
      var name := StringElement(names[0], ks[0]);
      var v := MeansRendering(bs[0], vs[0]);
      var m := OneMember(name, v);
      var rest := MemberRenderings(names[1..], ks[1..], bs[1..], vs[1..]);
      ms := [m] + rest;
      assert ms[1..] == rest;
      MembersJoin(m, rest);
      var texts := MemberTexts(names, bs);
      assert texts[1..] == MemberTexts(names[1..], bs[1..]);
      if |bs| == 1 {
        MembersOne(m);
        assert ms == [m];
      } else {
        MembersStep(m, rest);
        assert texts[0] + ([44] + Joined(texts[1..])) == texts[0] + [44] + Joined(texts[1..]);
      }
      forall i | 0 < i < |bs| ensures MemberValues(ms)[i] == (ks[i], vs[i]) {
        assert MemberValues(ms)[i] == MemberValues(rest)[i - 1];
      }
    }
  }

  lemma MembersJoin(m: Member, ms: seq<Member>)
    requires MembersOk([m]) && MembersOk(ms)
    ensures MembersOk([m] + ms)
    ensures MemberValues([m] + ms) == [(PiecesValue(m.name), Value(m.value))] + MemberValues(ms)
  {
    hide TextOk, Value, StringOk, PiecesValue, AllWs;
    assert ([m] + ms)[1..] == ms;
  }

  /** An object of texts means the object of what they mean, member by member
      in the same order, repeated names included. */
  lemma ObjectMeans(names: seq<seq<Byte>>, ks: seq<seq<Byte>>, bs: seq<seq<Byte>>, vs: seq<Json>, v: Json)
    requires |names| == |ks| == |bs| == |vs| > 0
    requires forall i :: 0 <= i < |bs| ==> Means(names[i], Str(ks[i])) && Means(bs[i], vs[i])
    requires v.Object? && |v.members| == |bs| && forall i :: 0 <= i < |bs| ==> v.members[i] == (ks[i], vs[i])
    ensures Means([123] + Joined(MemberTexts(names, bs)) + [125], v)
  {
    hide Means, MembersBytes, MembersOk, MemberValues, Joined;
    var ms := MemberRenderings(names, ks, bs, vs);
    BareMeans(ObjectText(ms));
    assert MemberValues(ms) == v.members;
  }

  // ----- white space

  /** The bytes that count as white space, as letters of two-character escapes
      and as digits, and no others. */
  lemma CharacterSets(c: Byte)
    ensures IsWs(c) <==> c == 0x20 || c == 0x09 || c == 0x0A || c == 0x0D
    ensures IsEscape(c) <==> exists byte :: StandsFor(c, byte)
    ensures IsDigit(c) <==> 0x30 <= c <= 0x39
    ensures IsHex(c) <==> exists d: nat :: HexDigitIs(c, d)
  {
    if IsEscape(c) {
      assert StandsFor(c, EscapeValue(c));
    }
    if IsHex(c) {
      assert HexDigitIs(c, HexValue(c));
    }
  }

  lemma WhiteMeans(ws: seq<Byte>, b: seq<Byte>, more: seq<Byte>, v: Json)
    requires AllWs(ws) && Means(b, v) && AllWs(more)
    ensures Means(ws + b + more, v)
  {
    hide Means, TextOk, Value, Bytes;
    var e := MeansRendering(b, v);
    var wide := Element(ws + e.before, e.value, e.after + more);
    assert ElementBytes(wide) == ws + b + more;
    RenderingMeans(wide);
  }
}
