/** The parser reads exactly the renderings: what it accepts is a rendering of
    what it returns, and every rendering is read back as what it renders. */
module JsonLaws {
  import opened Octets
  import opened JsonSyntax
  import opened JsonReader

  /** `s` stands in `b` at `pos`. */
  predicate Holds(b: seq<Byte>, pos: nat, s: seq<Byte>) {
    pos + |s| <= |b| && b[pos..pos + |s|] == s
  }

  lemma HoldsConcat(b: seq<Byte>, pos: nat, x: seq<Byte>, y: seq<Byte>)
    ensures Holds(b, pos, x + y) <==> Holds(b, pos, x) && Holds(b, pos + |x|, y)
  {
    if Holds(b, pos, x + y) {
      assert b[pos..pos + |x|] == b[pos..pos + |x + y|][..|x|] == (x + y)[..|x|];
      assert b[pos + |x|..pos + |x| + |y|] == b[pos..pos + |x + y|][|x|..] == (x + y)[|x|..];
    }
    if Holds(b, pos, x) && Holds(b, pos + |x|, y) {
      assert b[pos..pos + |x + y|] == b[pos..pos + |x|] + b[pos + |x|..pos + |x| + |y|];
    }
  }

  lemma HoldsOne(b: seq<Byte>, pos: nat, c: Byte)
    ensures Holds(b, pos, [c]) <==> At(b, pos, c)
  {
    if pos < |b| {
      assert b[pos..pos + 1] == [b[pos]];
    }
  }

  lemma HoldsSlice(b: seq<Byte>, pos: nat, p: nat)
    requires pos <= p <= |b|
    ensures Holds(b, pos, b[pos..p])
  {
  }

  lemma HoldsJoin(b: seq<Byte>, pos: nat, x: seq<Byte>, y: seq<Byte>)
    requires Holds(b, pos, x) && Holds(b, pos + |x|, y)
    ensures Holds(b, pos, x + y)
  {
    HoldsConcat(b, pos, x, y);
  }

  /** `open`, then `body` and `close`. */
  lemma HoldsBracketed(b: seq<Byte>, pos: nat, open: Byte, body: seq<Byte>, close: Byte)
    ensures Holds(b, pos, [open] + body + [close]) <==> At(b, pos, open) && Holds(b, pos + 1, body + [close])
  {
    HoldsOne(b, pos, open);
    HoldsConcat(b, pos, [open], body + [close]);
    assert [open] + (body + [close]) == [open] + body + [close];
  }

  /** `x`, then a comma, `y` and `close`. */
  lemma HoldsList(b: seq<Byte>, pos: nat, x: seq<Byte>, y: seq<Byte>, close: Byte)
    ensures Holds(b, pos, x + ([COMMA] + y) + [close]) <==>
      Holds(b, pos, x) && At(b, pos + |x|, COMMA) && Holds(b, pos + |x| + 1, y + [close])
  {
    HoldsOne(b, pos + |x|, COMMA);
    HoldsConcat(b, pos + |x|, [COMMA], y + [close]);
    HoldsConcat(b, pos, x, [COMMA] + (y + [close]));
    assert x + ([COMMA] + (y + [close])) == x + ([COMMA] + y) + [close];
  }

  /** `x`, then `close`. */
  lemma HoldsLast(b: seq<Byte>, pos: nat, x: seq<Byte>, close: Byte)
    ensures Holds(b, pos, x + [close]) <==> Holds(b, pos, x) && At(b, pos + |x|, close)
  {
    HoldsOne(b, pos + |x|, close);
    HoldsConcat(b, pos, x, [close]);
  }

  // ----- what is accepted is a rendering

  lemma ReadHexText(b: seq<Byte>, pos: nat)
    requires pos <= |b| && ReadHex(b, pos, 4).Got?
    ensures Holds(b, pos, ReadHex(b, pos, 4).val) && IsHex4(ReadHex(b, pos, 4).val)
  {
  }

  lemma ReadUnicodeText(b: seq<Byte>, pos: nat)
    requires 2 <= pos <= |b| && ReadUnicode(b, pos).Got?
    requires Holds(b, pos - 2, [BACKSLASH, LOWER_U])
    ensures var r := ReadUnicode(b, pos); Holds(b, pos - 2, PieceText(r.val)) && r.next == pos - 2 + |PieceText(r.val)|
  {
    var r := ReadUnicode(b, pos);
    ReadHexText(b, pos);
    var h := ReadHex(b, pos, 4).val;
    HoldsConcat(b, pos - 2, [BACKSLASH, LOWER_U], h);
    if IsHigh(Hex4Value(h)) {
      var l := ReadHex(b, pos + 6, 4).val;
      ReadHexText(b, pos + 6);
      HoldsEscape(b, pos + 4);
      HoldsConcat(b, pos - 2, [BACKSLASH, LOWER_U] + h, [BACKSLASH, LOWER_U]);
      HoldsConcat(b, pos - 2, [BACKSLASH, LOWER_U] + h + [BACKSLASH, LOWER_U], l);
    }
  }

  lemma HoldsEscape(b: seq<Byte>, pos: nat)
    requires pos + 1 < |b| && b[pos] == BACKSLASH && b[pos + 1] == LOWER_U
    ensures Holds(b, pos, [BACKSLASH, LOWER_U])
  {
    assert b[pos..pos + 2] == [b[pos], b[pos + 1]];
  }

  lemma ReadPieceText(b: seq<Byte>, pos: nat)
    requires pos < |b| && b[pos] != QUOTE && ReadPiece(b, pos).Got?
    ensures var r := ReadPiece(b, pos); Holds(b, pos, PieceText(r.val)) && r.next == pos + |PieceText(r.val)|
  {
    if b[pos] == BACKSLASH && b[pos + 1] == LOWER_U {
      HoldsEscape(b, pos);
      ReadUnicodeText(b, pos + 2);
    }
  }

  lemma {:induction false} ReadPiecesText(b: seq<Byte>, pos: nat)
    requires pos <= |b| && ReadPieces(b, pos).Got?
    ensures var r := ReadPieces(b, pos);
      Holds(b, pos, PiecesText(r.val) + [QUOTE]) && r.next == pos + |PiecesText(r.val)| + 1
    decreases |b| - pos
  {
    hide Holds, PieceText;
    if b[pos] == QUOTE {
      HoldsOne(b, pos, QUOTE);
      assert PiecesText([]) + [QUOTE] == [QUOTE];
    } else {
      var p := ReadPiece(b, pos);
      var rest := ReadPieces(b, p.next);
      ReadPieceText(b, pos);
      ReadPiecesText(b, p.next);
      assert PiecesText([p.val] + rest.val) == PieceText(p.val) + PiecesText(rest.val) by {
        assert ([p.val] + rest.val)[1..] == rest.val;
      }
      HoldsJoin(b, pos, PieceText(p.val), PiecesText(rest.val) + [QUOTE]);
      assert PieceText(p.val) + (PiecesText(rest.val) + [QUOTE]) == PieceText(p.val) + PiecesText(rest.val) + [QUOTE];
    }
  }

  lemma ReadStringText(b: seq<Byte>, pos: nat)
    requires pos <= |b| && ReadString(b, pos).Got?
    ensures var r := ReadString(b, pos); Holds(b, pos, StringText(r.val)) && r.next == pos + |StringText(r.val)|
  {
    ReadPiecesText(b, pos + 1);
    var ps := ReadString(b, pos).val;
    HoldsBracketed(b, pos, QUOTE, PiecesText(ps), QUOTE);
  }

  lemma ReadNumberText(b: seq<Byte>, pos: nat)
    requires pos < |b| && ReadNumber(b, pos).Got?
    ensures var r := ReadNumber(b, pos); Holds(b, pos, Bytes(r.val)) && r.next == pos + |Bytes(r.val)|
  {
    if b[pos] == MINUS {
      HoldsOne(b, pos, MINUS);
      HoldsConcat(b, pos, [MINUS], b[pos + 1..SkipDigits(b, pos + 1)]);
    }
  }

  /** A value that was read renders to the text between the white space before
      it and the place where reading stopped. */
  lemma {:induction false} ReadValueText(b: seq<Byte>, pos: nat)
    requires pos <= |b| && ReadValue(b, pos).Got?
    ensures var r := ReadValue(b, pos);
      Holds(b, SkipWs(b, pos), Bytes(r.val)) && r.next == SkipWs(b, pos) + |Bytes(r.val)|
    decreases |b| - pos, 1
  {
    var p := SkipWs(b, pos);
    if b[p] == LBRACE {
      ReadObjectText(b, p);
    } else if b[p] == LBRACKET {
      ReadArrayText(b, p);
    } else if b[p] == QUOTE {
      ReadStringText(b, p);
    } else if b[p] == MINUS || IsDigit(b[p]) {
      ReadNumberText(b, p);
    }
  }

  lemma {:induction false} ReadArrayText(b: seq<Byte>, pos: nat)
    requires At(b, pos, LBRACKET) && ReadArray(b, pos).Got?
    ensures var r := ReadArray(b, pos); Holds(b, pos, Bytes(r.val)) && r.next == pos + |Bytes(r.val)|
    decreases |b| - pos, 0
  {
    hide Holds, ReadElements, ElementsBytes;
    var p := SkipWs(b, pos + 1);
    if At(b, p, RBRACKET) {
      HoldsSlice(b, pos + 1, p);
      HoldsLast(b, pos + 1, b[pos + 1..p], RBRACKET);
      HoldsBracketed(b, pos, LBRACKET, b[pos + 1..p], RBRACKET);
    } else {
      ReadElementsText(b, pos + 1);
      HoldsBracketed(b, pos, LBRACKET, ElementsBytes(ReadElements(b, pos + 1).val), RBRACKET);
    }
  }

  /** An element's text, without what follows it. */
  function ElementBytes(e: Element): seq<Byte> {
    e.before + Bytes(e.value) + e.after
  }

  lemma ElementsStep(e: Element, es: seq<Element>)
    requires |es| > 0
    ensures ElementsBytes([e] + es) == ElementBytes(e) + ([COMMA] + ElementsBytes(es))
  {
    assert ([e] + es)[1..] == es;
  }

  lemma ElementsOne(e: Element)
    ensures ElementsBytes([e]) == ElementBytes(e)
  {
  }

  lemma {:induction false} ReadElementText(b: seq<Byte>, pos: nat)
    requires pos <= |b| && ReadElement(b, pos).Got?
    ensures var r := ReadElement(b, pos); Holds(b, pos, ElementBytes(r.val)) && r.next == pos + |ElementBytes(r.val)|
    decreases |b| - pos, 2
  {
    hide Holds, Bytes;
    var v := ReadValue(b, pos);
    ReadValueText(b, pos);
    HoldsSlice(b, pos, SkipWs(b, pos));
    HoldsSlice(b, v.next, SkipWs(b, v.next));
    HoldsJoin(b, pos, b[pos..SkipWs(b, pos)], Bytes(v.val));
    HoldsJoin(b, pos, b[pos..SkipWs(b, pos)] + Bytes(v.val), b[v.next..SkipWs(b, v.next)]);
  }

  lemma {:induction false} ReadElementsText(b: seq<Byte>, pos: nat)
    requires pos <= |b| && ReadElements(b, pos).Got?
    ensures var r := ReadElements(b, pos);
      Holds(b, pos, ElementsBytes(r.val) + [RBRACKET]) && r.next == pos + |ElementsBytes(r.val)| + 1
    decreases |b| - pos, 3
  {
    hide Holds, Bytes, ElementBytes, ElementsBytes, ReadElement;
    var e := ReadElement(b, pos);
    ReadElementText(b, pos);
    if b[e.next] == COMMA {
      var es := ReadElements(b, e.next + 1).val;
      ReadElementsText(b, e.next + 1);
      ElementsStep(e.val, es);
      HoldsList(b, pos, ElementBytes(e.val), ElementsBytes(es), RBRACKET);
    } else {
      ElementsOne(e.val);
      HoldsLast(b, pos, ElementBytes(e.val), RBRACKET);
    }
  }

  lemma {:induction false} ReadObjectText(b: seq<Byte>, pos: nat)
    requires At(b, pos, LBRACE) && ReadObject(b, pos).Got?
    ensures var r := ReadObject(b, pos); Holds(b, pos, Bytes(r.val)) && r.next == pos + |Bytes(r.val)|
    decreases |b| - pos, 0
  {
    hide Holds, ReadMembers, MembersBytes;
    var p := SkipWs(b, pos + 1);
    if At(b, p, RBRACE) {
      HoldsSlice(b, pos + 1, p);
      HoldsLast(b, pos + 1, b[pos + 1..p], RBRACE);
      HoldsBracketed(b, pos, LBRACE, b[pos + 1..p], RBRACE);
    } else {
      ReadMembersText(b, pos + 1);
      HoldsBracketed(b, pos, LBRACE, MembersBytes(ReadMembers(b, pos + 1).val), RBRACE);
    }
  }

  /** A member's text, without what follows it. */
  function MemberBytes(m: Member): seq<Byte> {
    m.before + StringText(m.name) + m.gap + [COLON] + m.lead + Bytes(m.value) + m.after
  }

  lemma MemberPieces(b: seq<Byte>, pos: nat, m: Member)
    ensures Holds(b, pos, MemberBytes(m)) <==>
      (&& Holds(b, pos, m.before)
       && Holds(b, pos + |m.before|, StringText(m.name))
       && Holds(b, pos + |m.before| + |StringText(m.name)|, m.gap)
       && At(b, pos + |m.before| + |StringText(m.name)| + |m.gap|, COLON)
       && Holds(b, pos + |m.before| + |StringText(m.name)| + |m.gap| + 1, m.lead)
       && Holds(b, pos + |m.before| + |StringText(m.name)| + |m.gap| + 1 + |m.lead|, Bytes(m.value))
       && Holds(b, pos + |m.before| + |StringText(m.name)| + |m.gap| + 1 + |m.lead| + |Bytes(m.value)|, m.after))
  {
    hide Holds;
    var s1 := m.before + StringText(m.name);
    var s2 := s1 + m.gap;
    var s3 := s2 + [COLON];
    var s4 := s3 + m.lead;
    HoldsConcat(b, pos, m.before, StringText(m.name));
    HoldsConcat(b, pos, s1, m.gap);
    HoldsConcat(b, pos, s2, [COLON]);
    HoldsConcat(b, pos, s3, m.lead);
    HoldsConcat(b, pos, s4, Bytes(m.value));
    HoldsConcat(b, pos, s4 + Bytes(m.value), m.after);
    HoldsOne(b, pos + |s2|, COLON);
  }

  lemma MemberLength(m: Member)
    ensures |MemberBytes(m)| ==
      |m.before| + |StringText(m.name)| + |m.gap| + 1 + |m.lead| + |Bytes(m.value)| + |m.after|
  {
    hide Bytes, StringText;
  }

  lemma MembersStep(m: Member, ms: seq<Member>)
    requires |ms| > 0
    ensures MembersBytes([m] + ms) == MemberBytes(m) + ([COMMA] + MembersBytes(ms))
  {
    assert ([m] + ms)[1..] == ms;
  }

  lemma MembersOne(m: Member)
    ensures MembersBytes([m]) == MemberBytes(m)
  {
  }

  lemma {:induction false} ReadMemberText(b: seq<Byte>, pos: nat)
    requires pos <= |b| && ReadMember(b, pos).Got?
    ensures var r := ReadMember(b, pos); Holds(b, pos, MemberBytes(r.val)) && r.next == pos + |MemberBytes(r.val)|
    decreases |b| - pos, 2
  {
    hide Holds, Bytes, StringText, ReadString, ReadValue, MemberBytes, SkipWs, AllWs, MembersOk, StringOk, TextOk;
    var p := SkipWs(b, pos);
    var name := ReadString(b, p);
    ReadStringText(b, p);
    var colon := SkipWs(b, name.next);
    var v := ReadValue(b, colon + 1);
    ReadValueText(b, colon + 1);
    HoldsSlice(b, pos, p);
    HoldsSlice(b, name.next, colon);
    HoldsSlice(b, colon + 1, SkipWs(b, colon + 1));
    HoldsSlice(b, v.next, SkipWs(b, v.next));
    MemberLength(ReadMember(b, pos).val);
    MemberPieces(b, pos, ReadMember(b, pos).val);
  }

  lemma {:induction false} ReadMembersText(b: seq<Byte>, pos: nat)
    requires pos <= |b| && ReadMembers(b, pos).Got?
    ensures var r := ReadMembers(b, pos);
      Holds(b, pos, MembersBytes(r.val) + [RBRACE]) && r.next == pos + |MembersBytes(r.val)| + 1
    decreases |b| - pos, 3
  {
    hide Holds, MemberBytes, MembersBytes, ReadMember;
    var m := ReadMember(b, pos);
    ReadMemberText(b, pos);
    if b[m.next] == COMMA {
      var ms := ReadMembers(b, m.next + 1).val;
      ReadMembersText(b, m.next + 1);
      MembersStep(m.val, ms);
      HoldsList(b, pos, MemberBytes(m.val), MembersBytes(ms), RBRACE);
    } else {
      MembersOne(m.val);
      HoldsLast(b, pos, MemberBytes(m.val), RBRACE);
    }
  }
}
