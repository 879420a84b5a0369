/** Text encoding: surrogate pairs decode to the scalar they encode, and a text
    in valid UTF-8 yields only strings in valid UTF-8. Section numbers are
    those of RFC 3629. */
module JsonUnicode {
  import opened Octets
  import opened JsonSyntax
  import opened JsonReader
  import opened JsonLaws
  import opened JsonRoundTrip

  // ----- surrogates (RFC 8259, section 7)

  /** The pair that encodes a scalar beyond the basic plane. */
  function HighOf(cp: nat): (h: nat)
    requires 0x10000 <= cp < 0x110000
    ensures IsHigh(h)
  {
    0xD800 + (cp - 0x10000) / 1024
  }

  function LowOf(cp: nat): (l: nat)
    requires 0x10000 <= cp < 0x110000
    ensures IsLow(l)
  {
    0xDC00 + (cp - 0x10000) % 1024
  }

  /** Decoding inverts encoding, both ways, and always gives a scalar: the
      branch for an invalid code point is never taken. */
  lemma SurrogatesInvert(cp: nat, high: nat, low: nat)
    requires IsHigh(high) && IsLow(low)
    ensures IsScalar(Combine(high, low))
    ensures 0x10000 <= cp < 0x110000 ==> (Combine(high, low) == cp <==> high == HighOf(cp) && low == LowOf(cp))
  {
  }

  // ----- UTF-8

  predicate Tail(b: Byte) {
    0x80 <= b <= 0xBF
  }

  /** The length of the well-formed sequence at the front of `s`, by the table
      of section 4; 0 if there is none. */
  function CharLen(s: seq<Byte>): (n: nat)
    ensures n <= 4 && n <= |s|
  {
    if |s| == 0 then 0
    else if s[0] < 0x80 then 1
    else if |s| >= 2 && 0xC2 <= s[0] <= 0xDF && Tail(s[1]) then 2
    else if |s| >= 3 && Second3(s[0], s[1]) && Tail(s[2]) then 3
    else if |s| >= 4 && Second4(s[0], s[1]) && Tail(s[2]) && Tail(s[3]) then 4
    else 0
  }

  predicate Second3(b0: Byte, b1: Byte) {
    || (b0 == 0xE0 && 0xA0 <= b1 <= 0xBF)
    || ((0xE1 <= b0 <= 0xEC || 0xEE <= b0 <= 0xEF) && Tail(b1))
    || (b0 == 0xED && 0x80 <= b1 <= 0x9F)
  }

  predicate Second4(b0: Byte, b1: Byte) {
    || (b0 == 0xF0 && 0x90 <= b1 <= 0xBF)
    || (0xF1 <= b0 <= 0xF3 && Tail(b1))
    || (b0 == 0xF4 && 0x80 <= b1 <= 0x8F)
  }

  /** What `str::from_utf8` accepts. */
  predicate ValidUtf8(s: seq<Byte>)
    decreases |s|
  {
    |s| == 0 || (CharLen(s) > 0 && ValidUtf8(s[CharLen(s)..]))
  }

  predicate Ascii(s: seq<Byte>) {
    forall i :: 0 <= i < |s| ==> s[i] < 0x80
  }

  /** The payload of a byte whose marker bits are `mark`. */
  function Payload(b: Byte, mark: int): int {
    b - mark
  }

  /** The scalar a well-formed sequence encodes. */
  function Decode(s: seq<Byte>): int
    requires CharLen(s) > 0
  {
    var n := CharLen(s);
    if n == 1 then s[0]
    else if n == 2 then Payload(s[0], 0xC0) * 64 + Payload(s[1], 0x80)
    else if n == 3 then Payload(s[0], 0xE0) * 4096 + Payload(s[1], 0x80) * 64 + Payload(s[2], 0x80)
    else Payload(s[0], 0xF0) * 262144 + Payload(s[1], 0x80) * 4096 + Payload(s[2], 0x80) * 64 + Payload(s[3], 0x80)
  }

  /** A code point in 6-bit digits. */
  lemma SixBits(cp: nat)
    ensures cp / 4096 == cp / 64 / 64 && cp / 262144 == cp / 64 / 64 / 64
    ensures cp == cp / 64 * 64 + cp % 64
    ensures cp / 64 == cp / 4096 * 64 + cp / 64 % 64
    ensures cp / 4096 == cp / 262144 * 64 + cp / 4096 % 64
  {
  }

  lemma EncodedTwo(cp: nat, s: seq<Byte>)
    requires 0x80 <= cp < 0x800 && |s| >= 2
    requires s[0] == 0xC0 + cp / 64 && s[1] == 0x80 + cp % 64
    ensures CharLen(s) == 2 && Decode(s) == cp
  {
    SixBits(cp);
  }

  lemma EncodedThree(cp: nat, s: seq<Byte>)
    requires 0x800 <= cp < 0x10000 && IsScalar(cp) && |s| >= 3
    requires s[0] == 0xE0 + cp / 4096 && s[1] == 0x80 + cp / 64 % 64 && s[2] == 0x80 + cp % 64
    ensures CharLen(s) == 3 && Decode(s) == cp
  {
    SixBits(cp);
    assert Second3(s[0], s[1]);
  }

  lemma EncodedFour(cp: nat, s: seq<Byte>)
    requires 0x10000 <= cp < 0x110000 && |s| >= 4
    requires s[0] == 0xF0 + cp / 262144 && s[1] == 0x80 + cp / 4096 % 64
    requires s[2] == 0x80 + cp / 64 % 64 && s[3] == 0x80 + cp % 64
    ensures CharLen(s) == 4 && Decode(s) == cp
  {
    SixBits(cp);
    assert Second4(s[0], s[1]);
  }

  /** `encode_utf8` is correct: its output is one well-formed sequence that
      decodes to the scalar. */
  lemma EncodedOnce(cp: nat, rest: seq<Byte>)
    requires IsScalar(cp)
    ensures CharLen(Utf8(cp) + rest) == |Utf8(cp)| > 0
    ensures Decode(Utf8(cp) + rest) == cp
  {
    hide Decode, CharLen;
    var s := Utf8(cp) + rest;
    if cp < 0x80 {
      EncodedAscii(cp, s);
    } else if cp < 0x800 {
      EncodedTwo(cp, s);
    } else if cp < 0x10000 {
      EncodedThree(cp, s);
    } else {
      EncodedFour(cp, s);
    }
  }

  lemma EncodedAscii(cp: nat, s: seq<Byte>)
    requires cp < 0x80 && |s| >= 1 && s[0] == cp
    ensures CharLen(s) == 1 && Decode(s) == cp
  {
  }

  /** One more character in front. */
  lemma PrependChar(c: seq<Byte>, rest: seq<Byte>)
    requires |c| > 0 && CharLen(c + rest) == |c|
    ensures ValidUtf8(c + rest) <==> ValidUtf8(rest)
  {
    assert (c + rest)[|c|..] == rest;
  }

  lemma PrependAscii(b: Byte, rest: seq<Byte>)
    requires b < 0x80
    ensures ValidUtf8([b] + rest) <==> ValidUtf8(rest)
  {
    PrependChar([b], rest);
  }

  lemma {:induction false} AfterAscii(a: seq<Byte>, b: seq<Byte>)
    requires Ascii(a)
    ensures ValidUtf8(a + b) <==> ValidUtf8(b)
    decreases |a|
  {
    if |a| == 0 {
      assert a + b == b;
    } else {
      AfterAscii(a[1..], b);
      PrependAscii(a[0], a[1..] + b);
      assert a + b == [a[0]] + (a[1..] + b);
    }
  }

  /** A character does not straddle a place where an ASCII byte starts. */
  lemma CharStaysLeft(a: seq<Byte>, b: seq<Byte>)
    requires |a| > 0 && (|b| > 0 ==> b[0] < 0x80) && CharLen(a + b) > 0
    ensures CharLen(a) == CharLen(a + b)
  {
    var s := a + b;
    if |a| < 4 && |b| > 0 {
      assert s[|a|] == b[0];
    }
  }

  /** So a valid text can be cut there. */
  lemma {:induction false} CutBeforeAscii(a: seq<Byte>, b: seq<Byte>)
    requires ValidUtf8(a + b) && (|b| > 0 ==> b[0] < 0x80)
    ensures ValidUtf8(a) && ValidUtf8(b)
    decreases |a|
  {
    if |a| == 0 {
      assert a + b == b;
    } else {
      CharStaysLeft(a, b);
      var n := CharLen(a);
      assert (a + b)[n..] == a[n..] + b;
      CutBeforeAscii(a[n..], b);
    }
  }

  // ----- strings

  /** A byte beyond ASCII is a character of its own only as a raw piece. */
  lemma RawHead(ps: seq<Piece>)
    requires PiecesOk(ps) && |PiecesText(ps)| > 0 && PiecesText(ps)[0] >= 0x80
    ensures |ps| > 0 && ps[0].Raw?
    ensures PiecesText(ps) == [PiecesText(ps)[0]] + PiecesText(ps[1..])
    ensures PiecesValue(ps) == [PiecesText(ps)[0]] + PiecesValue(ps[1..])
  {
    assert PiecesText(ps)[0] == PieceText(ps[0])[0];
  }

  /** The first `n` bytes, all beyond ASCII, pass through unchanged. */
  lemma {:induction false} RawRun(ps: seq<Piece>, n: nat)
    requires PiecesOk(ps) && n <= |PiecesText(ps)| && forall i :: 0 <= i < n ==> PiecesText(ps)[i] >= 0x80
    ensures n <= |ps| && PiecesOk(ps[n..])
    ensures PiecesText(ps) == PiecesText(ps)[..n] + PiecesText(ps[n..])
    ensures PiecesValue(ps) == PiecesText(ps)[..n] + PiecesValue(ps[n..])
    decreases n
  {
    hide PiecesText, PiecesValue;
    if n == 0 {
      assert ps[0..] == ps;
    } else {
      RawHead(ps);
      var rest := ps[1..];
      forall i | 0 <= i < n - 1 ensures PiecesText(rest)[i] >= 0x80 {
        assert PiecesText(ps)[i + 1] == PiecesText(rest)[i];
      }
      RawRun(rest, n - 1);
      assert rest[n - 1..] == ps[n..];
      assert PiecesText(ps)[..n] == [PiecesText(ps)[0]] + PiecesText(rest)[..n - 1];
    }
  }

  lemma PieceTextAscii(p: Piece)
    requires PieceOk(p) && (p.Raw? ==> p.b < 0x80)
    ensures Ascii(PieceText(p))
  {
  }

  /** The value of an ASCII piece is one character. */
  lemma PieceValueChar(p: Piece, rest: seq<Byte>)
    requires PieceOk(p) && (p.Raw? ==> p.b < 0x80)
    ensures |PieceValue(p)| > 0 && CharLen(PieceValue(p) + rest) == |PieceValue(p)|
  {
    match p
    case Raw(b) =>
    case Escaped(c) =>
    case Unicode(h) => EncodedOnce(Hex4Value(h), rest);
    case Surrogates(h, l) => EncodedOnce(Combine(Hex4Value(h), Hex4Value(l)), rest);
  }

  /** A string body in valid UTF-8 has a value in valid UTF-8. */
  lemma {:induction false} PiecesValid(ps: seq<Piece>)
    requires PiecesOk(ps) && ValidUtf8(PiecesText(ps))
    ensures ValidUtf8(PiecesValue(ps))
    decreases |ps|
  {
    if |ps| > 0 {
      var p, rest := ps[0], ps[1..];
      if p.Raw? && p.b >= 0x80 {
        MultibyteStep(ps);
      } else {
        PieceTextAscii(p);
        AfterAscii(PieceText(p), PiecesText(rest));
        PiecesValid(rest);
        PieceValueChar(p, PiecesValue(rest));
        PrependChar(PieceValue(p), PiecesValue(rest));
      }
    }
  }

  lemma RawFirst(ps: seq<Piece>)
    requires PiecesOk(ps) && |ps| > 0 && ps[0].Raw?
    ensures |PiecesText(ps)| > 0 && PiecesText(ps)[0] == ps[0].b
  {
  }

  lemma CharBeyondAscii(s: seq<Byte>)
    requires CharLen(s) > 0 && s[0] >= 0x80
    ensures forall i :: 0 <= i < CharLen(s) ==> s[i] >= 0x80
  {
  }

  lemma {:induction false} MultibyteStep(ps: seq<Piece>)
    requires PiecesOk(ps) && ValidUtf8(PiecesText(ps)) && |ps| > 0 && ps[0].Raw? && ps[0].b >= 0x80
    ensures ValidUtf8(PiecesValue(ps))
    decreases |ps|, 0
  {
    hide PiecesText, PiecesValue, CharLen;
    var text := PiecesText(ps);
    RawFirst(ps);
    var n := CharLen(text);
    CharBeyondAscii(text);
    RawRun(ps, n);
    var c, rest := text[..n], PiecesText(ps[n..]);
    assert text == c + rest;
    PrependChar(c, rest);
    PiecesValid(ps[n..]);
    var value := c + PiecesValue(ps[n..]);
    assert value[..n] == c;
    SameChar(text, value, n);
    PrependChar(c, PiecesValue(ps[n..]));
  }

  /** A character's length depends on its own bytes only. */
  lemma SameChar(s: seq<Byte>, t: seq<Byte>, n: nat)
    requires n == CharLen(s) && 0 < n <= |t| && s[..n] == t[..n]
    ensures CharLen(t) == n
  {
    assert forall i :: 0 <= i < n ==> s[i] == s[..n][i] == t[..n][i] == t[i];
  }

  lemma StringTextValid(ps: seq<Piece>)
    requires StringOk(ps) && ValidUtf8(StringText(ps))
    ensures ValidUtf8(PiecesValue(ps))
  {
    assert StringText(ps) == [QUOTE] + (PiecesText(ps) + [QUOTE]);
    AfterAscii([QUOTE], PiecesText(ps) + [QUOTE]);
    CutBeforeAscii(PiecesText(ps), [QUOTE]);
    PiecesValid(ps);
  }

  // ----- whole values

  /** Every string and every name in a value is valid UTF-8. */
  predicate StringsValid(v: Json) {
    match v
    case Str(s) => ValidUtf8(s)
    case Array(items) => forall i :: 0 <= i < |items| ==> StringsValid(items[i])
    case Object(ms) => forall i :: 0 <= i < |ms| ==> ValidUtf8(ms[i].0) && StringsValid(ms[i].1)
    case _ => true
  }

  lemma WsAscii(ws: seq<Byte>)
    requires AllWs(ws)
    ensures Ascii(ws)
  {
  }

  /** `open`, a list and `close`: the list is valid on its own. */
  lemma Unbracket(open: Byte, body: seq<Byte>, close: Byte)
    requires open < 0x80 && close < 0x80 && ValidUtf8([open] + body + [close])
    ensures ValidUtf8(body)
  {
    assert [open] + body + [close] == [open] + (body + [close]);
    AfterAscii([open], body + [close]);
    CutBeforeAscii(body, [close]);
  }

  lemma {:induction false} ValueValid(t: Text)
    requires TextOk(t) && ValidUtf8(Bytes(t))
    ensures StringsValid(Value(t))
    decreases t, 0
  {
    match t
    case NullText =>
    case TrueText =>
    case FalseText =>
    case NumberText(_, _) =>
    case StrText(ps) => StringTextValid(ps);
    case EmptyArray(_) =>
    case ArrayText(es) =>
      Unbracket(LBRACKET, ElementsBytes(es), RBRACKET);
      ElementsValid(es);
    case EmptyObject(_) =>
    case ObjectText(ms) =>
      Unbracket(LBRACE, MembersBytes(ms), RBRACE);
      MembersValid(ms);
  }

  /** White space, a part, white space, and then nothing or a comma: the part
      is valid on its own, and so is what follows the comma. */
  lemma CutPart(before: seq<Byte>, part: seq<Byte>, after: seq<Byte>, rest: seq<Byte>)
    requires AllWs(before) && AllWs(after) && (|rest| > 0 ==> rest[0] < 0x80)
    requires ValidUtf8(before + part + after + rest)
    ensures ValidUtf8(part) && ValidUtf8(rest)
  {
    WsAscii(before);
    WsAscii(after);
    assert before + part + after + rest == before + (part + (after + rest));
    AfterAscii(before, part + (after + rest));
    CutBeforeAscii(part, after + rest);
    AfterAscii(after, rest);
  }

  lemma {:induction false} ElementsValid(es: seq<Element>)
    requires ElementsOk(es) && ValidUtf8(ElementsBytes(es))
    ensures forall i :: 0 <= i < |ElementValues(es)| ==> StringsValid(ElementValues(es)[i])
    decreases es, 1, |es|
  {
    if |es| > 0 {
      var e := es[0];
      var rest := if |es| == 1 then [] else [COMMA] + ElementsBytes(es[1..]);
      CutPart(e.before, Bytes(e.value), e.after, rest);
      ValueValid(e.value);
      if |es| > 1 {
        AfterAscii([COMMA], ElementsBytes(es[1..]));
      }
      ElementsValid(es[1..]);
    }
  }

  /** A member's name and value are valid on their own. */
  lemma MemberParts(m: Member, rest: seq<Byte>)
    requires MembersOk([m]) && (|rest| > 0 ==> rest[0] < 0x80) && ValidUtf8(MemberBytes(m) + rest)
    ensures ValidUtf8(StringText(m.name)) && ValidUtf8(Bytes(m.value)) && ValidUtf8(rest)
  {
    hide ValidUtf8, Bytes, StringText;
    var tail := m.lead + Bytes(m.value) + m.after + rest;
    assert MemberBytes(m) + rest == m.before + StringText(m.name) + m.gap + ([COLON] + tail);
    CutPart(m.before, StringText(m.name), m.gap, [COLON] + tail);
    AfterAscii([COLON], tail);
    CutPart(m.lead, Bytes(m.value), m.after, rest);
  }

  lemma {:induction false} MembersValid(ms: seq<Member>)
    requires MembersOk(ms) && ValidUtf8(MembersBytes(ms))
    ensures forall i :: 0 <= i < |MemberValues(ms)| ==>
      ValidUtf8(MemberValues(ms)[i].0) && StringsValid(MemberValues(ms)[i].1)
    decreases ms, 1, |ms|
  {
    hide ValidUtf8, Bytes, StringText, MemberBytes;
    if |ms| > 0 {
      var m := ms[0];
      var rest := if |ms| == 1 then [] else [COMMA] + MembersBytes(ms[1..]);
      MembersUnfold(ms);
      MemberParts(m, rest);
      StringTextValid(m.name);
      ValueValid(m.value);
      if |ms| > 1 {
        AfterAscii([COMMA], MembersBytes(ms[1..]));
      } else {
        NothingValid();
      }
      MembersValid(ms[1..]);
    }
  }

  lemma NothingValid()
    ensures ValidUtf8([])
  {
  }

  /** A document in valid UTF-8 yields only valid strings, so turning them into
      text nodes never falls back to the empty string. */
  lemma AcceptedStringsValid(b: seq<Byte>)
    requires ReadDocument(b).Got? && ValidUtf8(b)
    ensures StringsValid(Value(ReadDocument(b).val.value))
  {
    var e := ReadDocument(b).val;
    DocumentExactly(b, e);
    assert e.before + Bytes(e.value) + e.after + [] == b;
    CutPart(e.before, Bytes(e.value), e.after, []);
    ValueValid(e.value);
  }
}
