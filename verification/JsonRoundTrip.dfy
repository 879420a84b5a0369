/** Every rendering is read back. */
module JsonRoundTrip {
  import opened Octets
  import opened JsonSyntax
  import opened JsonReader
  import opened JsonLaws

  /** `p` ends the white space that starts at `pos`. */
  lemma {:induction false} SkipExactly(b: seq<Byte>, pos: nat, p: nat)
    requires pos <= p <= |b| && AllWs(b[pos..p]) && (p < |b| ==> !IsWs(b[p]))
    ensures SkipWs(b, pos) == p
    decreases p - pos
  {
    if pos < p {
      assert b[pos..p][0] == b[pos] && b[pos..p][1..] == b[pos + 1..p];
      SkipExactly(b, pos + 1, p);
    }
  }

  lemma SkipHeld(b: seq<Byte>, pos: nat, ws: seq<Byte>)
    requires AllWs(ws) && Holds(b, pos, ws) && (pos + |ws| < |b| ==> !IsWs(b[pos + |ws|]))
    ensures SkipWs(b, pos) == pos + |ws| && b[pos..pos + |ws|] == ws
  {
    SkipExactly(b, pos, pos + |ws|);
  }

  lemma {:induction false} DigitsExactly(b: seq<Byte>, pos: nat, p: nat)
    requires pos <= p <= |b| && AllDigits(b[pos..p]) && (p < |b| ==> !IsDigit(b[p]))
    ensures SkipDigits(b, pos) == p
    decreases p - pos
  {
    if pos < p {
      assert b[pos..p][0] == b[pos] && b[pos..p][1..] == b[pos + 1..p];
      DigitsExactly(b, pos + 1, p);
    }
  }

  lemma {:induction false} LiteralExactly(b: seq<Byte>, pos: nat, lit: seq<Byte>)
    requires Holds(b, pos, lit)
    ensures Literal(b, pos, lit) == Got((), pos + |lit|)
    decreases |lit|
  {
    if |lit| > 0 {
      assert [lit[0]] + lit[1..] == lit;
      HoldsConcat(b, pos, [lit[0]], lit[1..]);
      HoldsOne(b, pos, lit[0]);
      LiteralExactly(b, pos + 1, lit[1..]);
    }
  }

  // ----- strings

  lemma {:induction false} HexExactly(b: seq<Byte>, pos: nat, h: seq<Byte>)
    requires Holds(b, pos, h) && forall i :: 0 <= i < |h| ==> IsHex(h[i])
    ensures ReadHex(b, pos, |h|) == Got(h, pos + |h|)
    decreases |h|
  {
    if |h| > 0 {
      assert [h[0]] + h[1..] == h;
      HoldsConcat(b, pos, [h[0]], h[1..]);
      HoldsOne(b, pos, h[0]);
      HexExactly(b, pos + 1, h[1..]);
    }
  }

  lemma TwoBytes(b: seq<Byte>, pos: nat, x: Byte, y: Byte)
    ensures Holds(b, pos, [x, y]) <==> At(b, pos, x) && At(b, pos + 1, y)
  {
    if pos + 2 <= |b| {
      assert b[pos..pos + 2] == [b[pos], b[pos + 1]];
    }
  }

  lemma SurrogatesExactly(b: seq<Byte>, pos: nat, h: seq<Byte>, l: seq<Byte>)
    requires PieceOk(Surrogates(h, l)) && Holds(b, pos, PieceText(Surrogates(h, l)))
    ensures At(b, pos, BACKSLASH) && At(b, pos + 1, LOWER_U)
    ensures ReadUnicode(b, pos + 2) == Got(Surrogates(h, l), pos + 12)
  {
    hide Holds, Hex4Value, ReadHex;
    var u := [BACKSLASH, LOWER_U];
    HoldsConcat(b, pos, u + h + u, l);
    HoldsConcat(b, pos, u + h, u);
    HoldsConcat(b, pos, u, h);
    TwoBytes(b, pos, BACKSLASH, LOWER_U);
    TwoBytes(b, pos + 6, BACKSLASH, LOWER_U);
    HexExactly(b, pos + 2, h);
    HexExactly(b, pos + 8, l);
  }

  lemma PieceExactly(b: seq<Byte>, pos: nat, p: Piece)
    requires PieceOk(p) && Holds(b, pos, PieceText(p))
    ensures pos < |b| && b[pos] != QUOTE
    ensures ReadPiece(b, pos) == Got(p, pos + |PieceText(p)|)
  {
    hide Holds, Hex4Value, ReadHex;
    match p
    case Raw(c) =>
      HoldsOne(b, pos, c);
    case Escaped(c) =>
      TwoBytes(b, pos, BACKSLASH, c);
    case Unicode(h) =>
      HoldsConcat(b, pos, [BACKSLASH, LOWER_U], h);
      TwoBytes(b, pos, BACKSLASH, LOWER_U);
      HexExactly(b, pos + 2, h);
    case Surrogates(h, l) =>
      SurrogatesExactly(b, pos, h, l);
  }

  lemma {:induction false} PiecesExactly(b: seq<Byte>, pos: nat, ps: seq<Piece>)
    requires PiecesOk(ps) && Holds(b, pos, PiecesText(ps) + [QUOTE])
    ensures ReadPieces(b, pos) == Got(ps, pos + |PiecesText(ps)| + 1)
    decreases |ps|
  {
    hide PieceText, ReadPiece, Holds;
    HoldsLast(b, pos, PiecesText(ps), QUOTE);
    if |ps| > 0 {
      var tail := PiecesText(ps[1..]);
      HoldsConcat(b, pos, PieceText(ps[0]), tail);
      PieceExactly(b, pos, ps[0]);
      HoldsLast(b, pos + |PieceText(ps[0])|, tail, QUOTE);
      PiecesExactly(b, pos + |PieceText(ps[0])|, ps[1..]);
      assert [ps[0]] + ps[1..] == ps;
    }
  }

  lemma StringExactly(b: seq<Byte>, pos: nat, ps: seq<Piece>)
    requires StringOk(ps) && Holds(b, pos, StringText(ps))
    ensures ReadString(b, pos) == Got(ps, pos + |StringText(ps)|)
  {
    HoldsBracketed(b, pos, QUOTE, PiecesText(ps), QUOTE);
    PiecesExactly(b, pos + 1, ps);
  }

  // ----- values

  /** A byte that would carry a number on. */
  predicate GoesOn(c: Byte) {
    IsDigit(c) || c == 46 || c == 101 || c == 69
  }

  /** What follows a number does not carry it on. */
  predicate Delimited(b: seq<Byte>, p: nat, t: Text) {
    t.NumberText? && p < |b| ==> !GoesOn(b[p])
  }

  lemma DigitsHeld(b: seq<Byte>, pos: nat, ds: seq<Byte>)
    requires |ds| > 0 && AllDigits(ds) && Holds(b, pos, ds) && (pos + |ds| < |b| ==> !IsDigit(b[pos + |ds|]))
    ensures pos < |b| && b[pos] == ds[0] && SkipDigits(b, pos) == pos + |ds| && b[pos..pos + |ds|] == ds
  {
    DigitsExactly(b, pos, pos + |ds|);
  }

  lemma NumberExactly(b: seq<Byte>, pos: nat, t: Text)
    requires t.NumberText? && TextOk(t) && Holds(b, pos, Bytes(t)) && Delimited(b, pos + |Bytes(t)|, t)
    ensures pos < |b| && (b[pos] == MINUS || IsDigit(b[pos]))
    ensures ReadNumber(b, pos) == Got(t, pos + |Bytes(t)|)
  {
    hide SkipDigits, NumberValue, Holds;
    if t.neg {
      HoldsConcat(b, pos, [MINUS], t.digits);
      HoldsOne(b, pos, MINUS);
      DigitsHeld(b, pos + 1, t.digits);
    } else {
      assert [] + t.digits == t.digits;
      DigitsHeld(b, pos, t.digits);
    }
  }

  /** The byte a rendering starts with. */
  function Lead(t: Text): Byte
    requires TextOk(t)
  {
    match t
    case NullText => 110
    case TrueText => 116
    case FalseText => 102
    case NumberText(neg, ds) => if neg then MINUS else ds[0]
    case StrText(_) => QUOTE
    case EmptyArray(_) => LBRACKET
    case ArrayText(_) => LBRACKET
    case EmptyObject(_) => LBRACE
    case ObjectText(_) => LBRACE
  }

  /** It is no white space and no closing bracket. */
  lemma FirstByte(b: seq<Byte>, pos: nat, t: Text)
    requires TextOk(t) && Holds(b, pos, Bytes(t))
    ensures At(b, pos, Lead(t)) && !IsWs(Lead(t)) && Lead(t) != RBRACKET
  {
    assert |Bytes(t)| > 0 && b[pos] == Bytes(t)[0];
  }

  lemma EmptyArrayExactly(b: seq<Byte>, pos: nat, ws: seq<Byte>)
    requires AllWs(ws) && Holds(b, pos, Bytes(EmptyArray(ws)))
    ensures ReadArray(b, pos) == Got(EmptyArray(ws), pos + |ws| + 2)
  {
    HoldsBracketed(b, pos, LBRACKET, ws, RBRACKET);
    HoldsLast(b, pos + 1, ws, RBRACKET);
    SkipHeld(b, pos + 1, ws);
  }

  lemma EmptyObjectExactly(b: seq<Byte>, pos: nat, ws: seq<Byte>)
    requires AllWs(ws) && Holds(b, pos, Bytes(EmptyObject(ws)))
    ensures ReadObject(b, pos) == Got(EmptyObject(ws), pos + |ws| + 2)
  {
    HoldsBracketed(b, pos, LBRACE, ws, RBRACE);
    HoldsLast(b, pos + 1, ws, RBRACE);
    SkipHeld(b, pos + 1, ws);
  }

  lemma {:induction false} ArrayExactly(b: seq<Byte>, pos: nat, es: seq<Element>)
    requires |es| > 0 && ElementsOk(es) && Holds(b, pos, [LBRACKET] + ElementsBytes(es) + [RBRACKET])
    ensures ReadArray(b, pos) == Got(ArrayText(es), pos + |ElementsBytes(es)| + 2)
    decreases es, 1, 0
  {
    hide Holds, ElementsBytes, ElementsOk, ReadElements;
    HoldsBracketed(b, pos, LBRACKET, ElementsBytes(es), RBRACKET);
    ElementsExactly(b, pos + 1, es);
    NotEmptyArray(b, pos + 1, es);
  }

  lemma {:induction false} ObjectExactly(b: seq<Byte>, pos: nat, ms: seq<Member>)
    requires |ms| > 0 && MembersOk(ms) && Holds(b, pos, [LBRACE] + MembersBytes(ms) + [RBRACE])
    ensures ReadObject(b, pos) == Got(ObjectText(ms), pos + |MembersBytes(ms)| + 2)
    decreases ms, 1, 0
  {
    hide Holds, MembersBytes, MembersOk, ReadMembers;
    HoldsBracketed(b, pos, LBRACE, MembersBytes(ms), RBRACE);
    MembersExactly(b, pos + 1, ms);
    NotEmptyObject(b, pos + 1, ms);
  }

  /** Reading at a value's first byte. */
  lemma {:induction false} ValueExactly(b: seq<Byte>, pos: nat, t: Text)
    requires TextOk(t) && Holds(b, pos, Bytes(t)) && Delimited(b, pos + |Bytes(t)|, t)
    ensures pos < |b| && ReadValue(b, pos) == Got(t, pos + |Bytes(t)|)
    decreases t, 1, 0
  {
    hide ElementsBytes, MembersBytes, ElementsOk, MembersOk, StringText, ReadArray, ReadObject, ReadString,
      ReadNumber, Literal;
    FirstByte(b, pos, t);
    SkipExactly(b, pos, pos);
    match t
    case NullText => LiteralExactly(b, pos, NULL);
    case TrueText => LiteralExactly(b, pos, TRUE);
    case FalseText => LiteralExactly(b, pos, FALSE);
    case NumberText(_, _) => NumberExactly(b, pos, t);
    case StrText(ps) => StringExactly(b, pos, ps);
    case EmptyArray(ws) => EmptyArrayExactly(b, pos, ws);
    case ArrayText(es) => ArrayExactly(b, pos, es);
    case EmptyObject(ws) => EmptyObjectExactly(b, pos, ws);
    case ObjectText(ms) => ObjectExactly(b, pos, ms);
  }

  /** White space before a value is skipped. */
  lemma ReadValueSkips(b: seq<Byte>, pos: nat)
    requires pos <= |b|
    ensures ReadValue(b, pos) == ReadValue(b, SkipWs(b, pos))
  {
    hide ReadArray, ReadObject, ReadString, ReadNumber, Literal;
    SkipExactly(b, SkipWs(b, pos), SkipWs(b, pos));
  }

  /** Reading before a value's white space. */
  lemma {:induction false} ValueAfterWs(b: seq<Byte>, pos: nat, ws: seq<Byte>, t: Text)
    requires AllWs(ws) && TextOk(t) && Holds(b, pos, ws) && Holds(b, pos + |ws|, Bytes(t))
    requires Delimited(b, pos + |ws| + |Bytes(t)|, t)
    ensures pos <= |b| && ReadValue(b, pos) == Got(t, pos + |ws| + |Bytes(t)|)
    ensures SkipWs(b, pos) == pos + |ws| && b[pos..pos + |ws|] == ws
    decreases t, 2, 0
  {
    hide Bytes, ReadValue, TextOk;
    FirstByte(b, pos + |ws|, t);
    SkipHeld(b, pos, ws);
    ReadValueSkips(b, pos);
    ValueExactly(b, pos + |ws|, t);
  }

  /** White space and delimiters do not carry a number on. */
  lemma ElementDelimited(b: seq<Byte>, pos: nat, ws: seq<Byte>, t: Text)
    requires AllWs(ws) && Holds(b, pos, ws)
    requires pos + |ws| < |b| ==> !GoesOn(b[pos + |ws|])
    ensures Delimited(b, pos, t)
  {
    if |ws| > 0 {
      assert b[pos] == ws[0];
    }
  }

  lemma {:induction false} ElementExactly(b: seq<Byte>, pos: nat, e: Element)
    requires ElementsOk([e]) && Holds(b, pos, ElementBytes(e))
    requires pos + |ElementBytes(e)| < |b| ==> !GoesOn(b[pos + |ElementBytes(e)|]) && !IsWs(b[pos + |ElementBytes(e)|])
    ensures ReadElement(b, pos) == Got(e, pos + |ElementBytes(e)|)
    decreases e, 0, 0
  {
    hide Holds, Bytes, ReadValue;
    HoldsConcat(b, pos, e.before + Bytes(e.value), e.after);
    HoldsConcat(b, pos, e.before, Bytes(e.value));
    var next := pos + |e.before| + |Bytes(e.value)|;
    ElementDelimited(b, next, e.after, e.value);
    ValueAfterWs(b, pos, e.before, e.value);
    SkipHeld(b, next, e.after);
  }

  lemma {:induction false} ElementsExactly(b: seq<Byte>, pos: nat, es: seq<Element>)
    requires |es| > 0 && ElementsOk(es) && Holds(b, pos, ElementsBytes(es) + [RBRACKET])
    ensures ReadElements(b, pos) == Got(es, pos + |ElementsBytes(es)| + 1)
    decreases es, 0, |es|
  {
    hide Holds, ElementBytes, ElementsBytes, ReadElement, ElementsOk, TextOk, AllWs, GoesOn;
    var e := es[0];
    ElementsSplit(es);
    ClosesList();
    if |es| == 1 {
      ElementsOne(e);
      assert es == [e];
      HoldsLast(b, pos, ElementBytes(e), RBRACKET);
      ElementExactly(b, pos, e);
    } else {
      assert es == [e] + es[1..];
      ElementsStep(e, es[1..]);
      HoldsList(b, pos, ElementBytes(e), ElementsBytes(es[1..]), RBRACKET);
      ElementExactly(b, pos, e);
      ElementsExactly(b, pos + |ElementBytes(e)| + 1, es[1..]);
    }
  }

  lemma ElementsSplit(es: seq<Element>)
    requires |es| > 0 && ElementsOk(es)
    ensures ElementsOk([es[0]]) && ElementsOk(es[1..])
  {
    hide TextOk, AllWs;
  }

  /** A non-empty array does not look empty. */
  lemma NotEmptyArray(b: seq<Byte>, pos: nat, es: seq<Element>)
    requires |es| > 0 && ElementsOk(es) && Holds(b, pos, ElementsBytes(es) + [RBRACKET])
    ensures pos <= |b| && !At(b, SkipWs(b, pos), RBRACKET)
  {
    hide Holds, Bytes, SkipWs;
    var e := es[0];
    var rest := if |es| == 1 then [] else [COMMA] + ElementsBytes(es[1..]);
    HoldsLast(b, pos, ElementsBytes(es), RBRACKET);
    HoldsConcat(b, pos, e.before + Bytes(e.value) + e.after, rest);
    HoldsConcat(b, pos, e.before + Bytes(e.value), e.after);
    HoldsConcat(b, pos, e.before, Bytes(e.value));
    FirstByte(b, pos + |e.before|, e.value);
    SkipHeld(b, pos, e.before);
  }

  lemma {:induction false} MemberExactly(b: seq<Byte>, pos: nat, m: Member)
    requires MembersOk([m]) && Holds(b, pos, MemberBytes(m))
    requires pos + |MemberBytes(m)| < |b| ==> !GoesOn(b[pos + |MemberBytes(m)|]) && !IsWs(b[pos + |MemberBytes(m)|])
    ensures ReadMember(b, pos) == Got(m, pos + |MemberBytes(m)|)
    decreases m, 0, 0
  {
    hide Holds, Bytes, ReadMember, ReadValue, ReadString, StringText, MemberBytes, TextOk, StringOk, AllWs, GoesOn,
      SkipWs, Delimited;
    MemberPieces(b, pos, m);
    MemberLength(m);
    var colon := pos + |m.before| + |StringText(m.name)| + |m.gap|;
    var next := colon + 1 + |m.lead| + |Bytes(m.value)|;
    NameExactly(b, pos, m.before, m.name, m.gap);
    ElementDelimited(b, next, m.after, m.value);
    ValueAfterWs(b, colon + 1, m.lead, m.value);
    SkipHeld(b, next, m.after);
    MemberRead(b, pos, m, colon, next);
  }

  /** The pieces of a member, put together. */
  lemma MemberRead(b: seq<Byte>, pos: nat, m: Member, colon: nat, next: nat)
    requires pos <= |b| && ReadString(b, SkipWs(b, pos)).Got? && ReadString(b, SkipWs(b, pos)).val == m.name
    requires SkipWs(b, ReadString(b, SkipWs(b, pos)).next) == colon && At(b, colon, COLON)
    requires ReadValue(b, colon + 1) == Got(m.value, next)
    requires m.before == b[pos..SkipWs(b, pos)] && m.gap == b[ReadString(b, SkipWs(b, pos)).next..colon]
    requires m.lead == b[colon + 1..SkipWs(b, colon + 1)] && m.after == b[next..SkipWs(b, next)]
    ensures ReadMember(b, pos) == Got(m, SkipWs(b, next))
  {
    hide ReadString, ReadValue, SkipWs, MembersOk, TextOk, StringOk, AllWs;
  }

  /** A member's name, as far as the colon. */
  lemma NameExactly(b: seq<Byte>, pos: nat, before: seq<Byte>, name: seq<Piece>, gap: seq<Byte>)
    requires AllWs(before) && StringOk(name) && AllWs(gap)
    requires Holds(b, pos, before) && Holds(b, pos + |before|, StringText(name))
    requires Holds(b, pos + |before| + |StringText(name)|, gap)
    requires At(b, pos + |before| + |StringText(name)| + |gap|, COLON)
    ensures var p := pos + |before|;
      var afterName := p + |StringText(name)|;
      && SkipWs(b, pos) == p && b[pos..p] == before
      && ReadString(b, p) == Got(name, afterName)
      && SkipWs(b, afterName) == afterName + |gap| && b[afterName..afterName + |gap|] == gap
  {
    hide StringText, ReadString, SkipWs;
    NameStarts(b, pos + |before|, name);
    SkipHeld(b, pos, before);
    StringExactly(b, pos + |before|, name);
    SkipHeld(b, pos + |before| + |StringText(name)|, gap);
  }

  lemma NameStarts(b: seq<Byte>, pos: nat, name: seq<Piece>)
    requires Holds(b, pos, StringText(name))
    ensures At(b, pos, QUOTE)
  {
    assert b[pos] == StringText(name)[0];
  }

  lemma {:induction false} MembersExactly(b: seq<Byte>, pos: nat, ms: seq<Member>)
    requires |ms| > 0 && MembersOk(ms) && Holds(b, pos, MembersBytes(ms) + [RBRACE])
    ensures ReadMembers(b, pos) == Got(ms, pos + |MembersBytes(ms)| + 1)
    decreases ms, 0, |ms|
  {
    hide Holds, MemberBytes, MembersBytes, ReadMember, MembersOk, TextOk, StringOk, AllWs, GoesOn;
    var m := ms[0];
    MembersSplit(ms);
    ClosesList();
    if |ms| == 1 {
      MembersOne(m);
      assert ms == [m];
      HoldsLast(b, pos, MemberBytes(m), RBRACE);
      MemberExactly(b, pos, m);
    } else {
      assert ms == [m] + ms[1..];
      MembersStep(m, ms[1..]);
      HoldsList(b, pos, MemberBytes(m), MembersBytes(ms[1..]), RBRACE);
      MemberExactly(b, pos, m);
      MembersExactly(b, pos + |MemberBytes(m)| + 1, ms[1..]);
    }
  }

  lemma MembersSplit(ms: seq<Member>)
    requires |ms| > 0 && MembersOk(ms)
    ensures MembersOk([ms[0]]) && MembersOk(ms[1..])
  {
    hide TextOk, StringOk, AllWs;
  }

  /** A delimiter neither carries a number on nor is white space. */
  lemma ClosesList()
    ensures !GoesOn(COMMA) && !GoesOn(RBRACKET) && !GoesOn(RBRACE)
  {
  }

  lemma MembersUnfold(ms: seq<Member>)
    requires |ms| > 0
    ensures MembersBytes(ms) == MemberBytes(ms[0]) + if |ms| == 1 then [] else [COMMA] + MembersBytes(ms[1..])
  {
  }

  lemma NotEmptyObject(b: seq<Byte>, pos: nat, ms: seq<Member>)
    requires |ms| > 0 && MembersOk(ms) && Holds(b, pos, MembersBytes(ms) + [RBRACE])
    ensures pos <= |b| && !At(b, SkipWs(b, pos), RBRACE)
  {
    hide Holds, MemberBytes, MembersBytes, StringText, SkipWs, StringOk, TextOk, AllWs;
    var m := ms[0];
    var rest := if |ms| == 1 then [] else [COMMA] + MembersBytes(ms[1..]);
    MembersUnfold(ms);
    HoldsLast(b, pos, MembersBytes(ms), RBRACE);
    HoldsConcat(b, pos, MemberBytes(m), rest);
    MemberStarts(b, pos, m);
  }

  lemma MemberStarts(b: seq<Byte>, pos: nat, m: Member)
    requires AllWs(m.before) && Holds(b, pos, MemberBytes(m))
    ensures pos <= |b| && At(b, SkipWs(b, pos), QUOTE)
  {
    hide MemberBytes, StringText, SkipWs;
    MemberPieces(b, pos, m);
    NameStarts(b, pos + |m.before|, m.name);
    SkipHeld(b, pos, m.before);
  }

  // ----- documents

  /** The parser accepts exactly the renderings: every rendering of a value,
      with white space around it, is read back as itself, and whatever is
      accepted is such a rendering. */
  lemma DocumentExactly(b: seq<Byte>, e: Element)
    ensures ReadDocument(b) == Got(e, |b|) <==> ElementsOk([e]) && b == ElementBytes(e)
  {
    hide ReadElement, ElementBytes, Holds;
    if ReadDocument(b) == Got(e, |b|) {
      ReadElementText(b, 0);
      WholeText(b, ElementBytes(e));
    }
    if ElementsOk([e]) && b == ElementBytes(e) {
      WholeText(b, ElementBytes(e));
      ElementExactly(b, 0, e);
    }
  }

  lemma WholeText(b: seq<Byte>, s: seq<Byte>)
    ensures Holds(b, 0, s) && |s| == |b| <==> b == s
  {
    assert b[0..|b|] == b;
  }

  /** In particular no text renders two different values. */
  lemma RenderingUnambiguous(e: Element, f: Element)
    requires ElementsOk([e]) && ElementsOk([f]) && ElementBytes(e) == ElementBytes(f)
    ensures e == f
  {
    DocumentExactly(ElementBytes(e), e);
    DocumentExactly(ElementBytes(e), f);
  }
}
