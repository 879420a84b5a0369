/** The parser against RFC 8259: which accepted texts are JSON, and which JSON
    texts are accepted. */
module JsonStandard {
  import opened Octets
  import opened JsonSyntax
  import opened JsonReader
  import opened JsonLaws
  import opened JsonRoundTrip
  import opened JsonUnicode
  import opened JsonValues
  import opened JsonGrammar
  import opened JsonScan

  // ----- strings that fit

  /** Past a piece that is no half of a pair, or past a whole pair, the rest is
      paired exactly when all is. */
  lemma PairedRest(ps: seq<Piece>, n: nat)
    requires 0 < n <= |ps| && n <= 2
    requires if n == 1 then !HighUnit(ps[0]) && !LowUnit(ps[0]) else HighUnit(ps[0]) && LowUnit(ps[1])
    ensures Paired(ps[n..]) <==> Paired(ps)
  {
    hide HighUnit, LowUnit;
    NotBoth(ps[0]);
    NotBoth(ps[n - 1]);
    var rest := ps[n..];
    assert forall i :: 0 <= i < |rest| ==> rest[i] == ps[n + i];
    if Paired(rest) {
      forall i | 0 <= i < |ps| && HighUnit(ps[i]) ensures i + 1 < |ps| && LowUnit(ps[i + 1]) {
        if i >= n {
          assert HighUnit(rest[i - n]) && ps[i + 1] == rest[i - n + 1];
        }
      }
      forall i | 0 <= i < |ps| && LowUnit(ps[i]) ensures i > 0 && HighUnit(ps[i - 1]) {
        if i >= n {
          assert LowUnit(rest[i - n]) && ps[i - 1] == rest[i - n - 1];
        }
      }
    }
    if Paired(ps) {
      forall i | 0 <= i < |rest| && HighUnit(rest[i]) ensures i + 1 < |rest| && LowUnit(rest[i + 1]) {
        assert HighUnit(ps[n + i]);
        assert rest[i + 1] == ps[n + i + 1];
      }
      forall i | 0 <= i < |rest| && LowUnit(rest[i]) ensures i > 0 && HighUnit(rest[i - 1]) {
        assert LowUnit(ps[n + i]) && HighUnit(ps[n + i - 1]);
      }
    }
  }

  lemma NotBoth(p: Piece)
    ensures !(HighUnit(p) && LowUnit(p))
  {
  }

  /** A piece that is no half of a pair is read alone. */
  lemma LonePiece(p: Piece)
    requires RfcPiece(p) && !HighUnit(p) && !LowUnit(p)
    ensures PieceOk(p) && !p.Surrogates? && (p.Raw? ==> p.b >= 32)
    ensures 0 in PieceValue(p) <==> IsNul(p)
  {
    if p.Unicode? {
      ZeroOnly(Hex4Value(p.h));
    }
  }

  lemma ZeroOnly(cp: nat)
    requires IsScalar(cp)
    ensures 0 in Utf8(cp) <==> cp == 0
  {
  }

  lemma WholePair(p: Piece, q: Piece)
    requires HighUnit(p) && LowUnit(q)
    ensures var s := Surrogates(p.h, q.h); PieceOk(s) && 0 !in PieceValue(s) && !IsNul(p) && !IsNul(q)
  {
    ZeroOnly(Combine(Hex4Value(p.h), Hex4Value(q.h)));
  }

  /** What the spelling with pairs tells. */
  ghost predicate Suits(q: seq<Piece>, nulFree: bool) {
    PiecesOk(q) && StrictPieces(q) && (0 in PiecesValue(q) <==> !nulFree)
  }

  lemma SuitsStep(p: Piece, q: seq<Piece>, nulFree: bool)
    requires Suits(q, nulFree) && PieceOk(p) && (p.Raw? ==> p.b >= 32)
    ensures Suits([p] + q, nulFree && 0 !in PieceValue(p))
  {
    hide PieceOk, PieceValue;
    assert ([p] + q)[1..] == q;
  }

  /** With all surrogates paired, the string is one the reader takes apart. */
  lemma {:induction false} SpelledTogether(ps: seq<Piece>)
    requires RfcPieces(ps) && Paired(ps)
    ensures Suits(Spell(Together, ps), NulFree(ps))
    decreases |ps|
  {
    hide RfcPiece, HighUnit, LowUnit, IsNul, Suits, PieceOk, PieceValue, PieceText;
    if |ps| == 0 {
      SuitsNothing();
    } else if HighUnit(ps[0]) {
      assert LowUnit(ps[1]);
      NotBoth(ps[0]);
      PairedRest(ps, 2);
      SpelledTogether(ps[2..]);
      UnitIsUnicode(ps[0], ps[1]);
      WholePair(ps[0], ps[1]);
      SuitsStep(Surrogates(ps[0].h, ps[1].h), Spell(Together, ps[2..]), NulFree(ps[2..]));
      NulFreeRest(ps, 2);
    } else {
      PairedRest(ps, 1);
      SpelledTogether(ps[1..]);
      LonePiece(ps[0]);
      SuitsStep(ps[0], Spell(Together, ps[1..]), NulFree(ps[1..]));
      NulFreeRest(ps, 1);
    }
  }

  lemma SuitsNothing()
    ensures Suits([], true)
  {
  }

  lemma NulFreeRest(ps: seq<Piece>, n: nat)
    requires n <= |ps|
    ensures NulFree(ps) <==> NulFree(ps[n..]) && forall i :: 0 <= i < n ==> !IsNul(ps[i])
  {
    hide IsNul;
    forall i | n <= i < |ps| && NulFree(ps[n..]) ensures !IsNul(ps[i]) {
      assert ps[n..][i - n] == ps[i];
    }
  }

  // ----- strings that do not

  lemma LoneHighRefused(b: seq<Byte>, pos: nat, ps: seq<Piece>)
    requires RfcPieces(ps) && |ps| > 0 && HighUnit(ps[0]) && !(|ps| > 1 && LowUnit(ps[1]))
    requires Holds(b, pos, PiecesText(ps) + [QUOTE])
    ensures pos < |b| && b[pos] != QUOTE && ReadPiece(b, pos).Fail?
  {
    hide Holds, Hex4Value, ReadHex, PiecesText, IsHigh, IsLow;
    var h := ps[0].h;
    UnitHeld(b, pos, ps);
    if |ps| == 1 {
      NothingHeld(b, pos + 6);
    } else {
      NextHeld(b, pos + 6, ps[1..]);
      if ps[1].Unicode? {
        UnitHeld(b, pos + 6, ps[1..]);
      } else if ps[1].Escaped? {
        EscapeHeld(b, pos + 6, ps[1..]);
      }
    }
  }

  /** A `\u` escape, and the rest after it. */
  lemma UnitHeld(b: seq<Byte>, pos: nat, ps: seq<Piece>)
    requires RfcPieces(ps) && |ps| > 0 && ps[0].Unicode? && Holds(b, pos, PiecesText(ps) + [QUOTE])
    ensures At(b, pos, BACKSLASH) && At(b, pos + 1, LOWER_U)
    ensures ReadHex(b, pos + 2, 4) == Got(ps[0].h, pos + 6)
    ensures Holds(b, pos + 6, PiecesText(ps[1..]) + [QUOTE])
  {
    hide Holds, ReadHex, PiecesText;
    PieceThenRest(b, pos, ps);
    HoldsConcat(b, pos, [BACKSLASH, LOWER_U], ps[0].h);
    TwoBytes(b, pos, BACKSLASH, LOWER_U);
    HexExactly(b, pos + 2, ps[0].h);
  }

  lemma PieceThenRest(b: seq<Byte>, pos: nat, ps: seq<Piece>)
    requires |ps| > 0 && Holds(b, pos, PiecesText(ps) + [QUOTE])
    ensures Holds(b, pos, PieceText(ps[0])) && Holds(b, pos + |PieceText(ps[0])|, PiecesText(ps[1..]) + [QUOTE])
  {
    hide Holds, PieceText;
    var p, rest := PieceText(ps[0]), PiecesText(ps[1..]);
    assert p + rest + [QUOTE] == p + (rest + [QUOTE]);
    HoldsConcat(b, pos, p, rest + [QUOTE]);
  }

  lemma NothingHeld(b: seq<Byte>, pos: nat)
    requires Holds(b, pos, PiecesText([]) + [QUOTE])
    ensures At(b, pos, QUOTE)
  {
  }

  /** What a string goes on with is a backslash only where an escape stands. */
  lemma NextHeld(b: seq<Byte>, pos: nat, ps: seq<Piece>)
    requires RfcPieces(ps) && |ps| > 0 && Holds(b, pos, PiecesText(ps) + [QUOTE])
    ensures pos < |b| && (ps[0].Raw? ==> b[pos] != BACKSLASH)
  {
    hide Holds, PiecesText;
    PieceThenRest(b, pos, ps);
    FirstOfPiece(b, pos, ps[0]);
  }

  lemma FirstOfPiece(b: seq<Byte>, pos: nat, p: Piece)
    requires RfcPiece(p) && Holds(b, pos, PieceText(p))
    ensures pos < |b| && b[pos] != QUOTE && (p.Raw? ==> b[pos] != BACKSLASH)
  {
    assert b[pos] == PieceText(p)[0];
  }

  lemma EscapeHeld(b: seq<Byte>, pos: nat, ps: seq<Piece>)
    requires RfcPieces(ps) && |ps| > 0 && ps[0].Escaped? && Holds(b, pos, PiecesText(ps) + [QUOTE])
    ensures !At(b, pos + 1, LOWER_U)
  {
    hide Holds, PiecesText;
    PieceThenRest(b, pos, ps);
    TwoBytes(b, pos, BACKSLASH, ps[0].c);
  }

  lemma LoneLowRefused(b: seq<Byte>, pos: nat, ps: seq<Piece>)
    requires RfcPieces(ps) && |ps| > 0 && LowUnit(ps[0]) && Holds(b, pos, PiecesText(ps) + [QUOTE])
    ensures pos < |b| && b[pos] != QUOTE && ReadPiece(b, pos).Fail?
  {
    hide Holds, ReadHex, PiecesText, Hex4Value;
    UnitHeld(b, pos, ps);
  }

  lemma {:induction false} UnpairedRefused(b: seq<Byte>, pos: nat, ps: seq<Piece>)
    requires RfcPieces(ps) && !Paired(ps) && Holds(b, pos, PiecesText(ps) + [QUOTE])
    ensures ReadPieces(b, pos).Fail?
    decreases |ps|
  {
    hide Holds, PieceText, PiecesText, ReadPiece, RfcPiece, HighUnit, LowUnit;
    assert |ps| > 0;
    if HighUnit(ps[0]) && |ps| > 1 && LowUnit(ps[1]) {
      UnitIsUnicode(ps[0], ps[1]);
      var pair := Surrogates(ps[0].h, ps[1].h);
      WholePair(ps[0], ps[1]);
      PairHeld(b, pos, ps);
      PieceExactly(b, pos, pair);
      PairedRest(ps, 2);
      UnpairedRefused(b, pos + |PieceText(pair)|, ps[2..]);
    } else if HighUnit(ps[0]) {
      LoneHighRefused(b, pos, ps);
    } else if LowUnit(ps[0]) {
      LoneLowRefused(b, pos, ps);
    } else {
      LonePiece(ps[0]);
      PieceThenRest(b, pos, ps);
      PieceExactly(b, pos, ps[0]);
      PairedRest(ps, 1);
      UnpairedRefused(b, pos + |PieceText(ps[0])|, ps[1..]);
    }
  }

  lemma PairHeld(b: seq<Byte>, pos: nat, ps: seq<Piece>)
    requires |ps| > 1 && ps[0].Unicode? && ps[1].Unicode? && Holds(b, pos, PiecesText(ps) + [QUOTE])
    ensures var pair := PieceText(Surrogates(ps[0].h, ps[1].h));
      Holds(b, pos, pair) && Holds(b, pos + |pair|, PiecesText(ps[2..]) + [QUOTE])
  {
    hide Holds, PiecesText;
    var pair, rest := PieceText(Surrogates(ps[0].h, ps[1].h)), PiecesText(ps[2..]);
    PairText(ps[0].h, ps[1].h, ps[2..]);
    assert ps == [ps[0], ps[1]] + ps[2..];
    assert pair + rest + [QUOTE] == pair + (rest + [QUOTE]);
    HoldsConcat(b, pos, pair, rest + [QUOTE]);
  }

  lemma StringRefused(b: seq<Byte>, pos: nat, ps: seq<Piece>)
    requires RfcPieces(ps) && !(Paired(ps) && NulFree(ps)) && Holds(b, pos, StringText(ps))
    ensures ReadString(b, pos).Fail?
  {
    hide Holds, PiecesText, ReadPieces, RfcPieces, Paired, NulFree;
    HoldsBracketed(b, pos, QUOTE, PiecesText(ps), QUOTE);
    if Paired(ps) {
      var q := Spell(Together, ps);
      SpelledTogether(ps);
      SpellText(Together, ps);
      PiecesExactly(b, pos + 1, q);
    } else {
      UnpairedRefused(b, pos + 1, ps);
    }
  }

  // ----- values that fit

  lemma {:induction false} Refit(t: Text)
    requires Rfc(t) && Fits(t)
    ensures TextOk(Recast(Together, t)) && Strict(Recast(Together, t))
    decreases t, 0
  {
    hide PiecesOk, PiecesValue, Spell, NumberValue, RfcPieces, Paired, NulFree, StrictPieces;
    match t
    case StrText(ps) => SpelledTogether(ps);
    case ArrayText(es) => RefitElements(es);
    case ObjectText(ms) => RefitMembers(ms);
    case _ =>
  }

  lemma {:induction false} RefitElements(es: seq<Element>)
    requires RfcElements(es) && ElementsFit(es)
    ensures ElementsOk(RecastElements(Together, es)) && StrictElements(RecastElements(Together, es))
    decreases es, 1, |es|
  {
    hide Rfc, Fits, TextOk, Strict, Recast;
    if |es| > 0 {
      Refit(es[0].value);
      RefitElements(es[1..]);
      assert RecastElements(Together, es)[1..] == RecastElements(Together, es[1..]);
    }
  }

  lemma {:induction false} RefitMembers(ms: seq<Member>)
    requires RfcMembers(ms) && MembersFit(ms)
    ensures MembersOk(RecastMembers(Together, ms)) && StrictMembers(RecastMembers(Together, ms))
    decreases ms, 1, |ms|
  {
    hide Rfc, Fits, TextOk, Strict, Recast, RfcPieces, Paired, NulFree, PiecesOk, PiecesValue, StrictPieces, Spell;
    if |ms| > 0 {
      SpelledTogether(ms[0].name);
      Refit(ms[0].value);
      RefitMembers(ms[1..]);
      assert RecastMembers(Together, ms)[1..] == RecastMembers(Together, ms[1..]);
    }
  }

  // ----- values that do not

  /** A value starts with no white space and no closing bracket. */
  lemma RfcFirstByte(b: seq<Byte>, pos: nat, t: Text)
    requires Rfc(t) && Holds(b, pos, Bytes(t))
    ensures pos < |b| && !IsWs(b[pos]) && b[pos] != RBRACKET
  {
    assert |Bytes(t)| > 0 && b[pos] == Bytes(t)[0];
  }

  lemma DecimalRefused(b: seq<Byte>, pos: nat, t: Text)
    requires t.DecimalText? && Rfc(t) && Holds(b, pos, Bytes(t))
    ensures pos < |b| && (b[pos] == MINUS || IsDigit(b[pos])) && ReadNumber(b, pos).Fail?
  {
    hide Holds, SkipDigits, NumberValue, AllDigits;
    var sign, tail := if t.neg then [MINUS] else [], t.frac + t.exp;
    assert Bytes(t) == sign + (t.digits + tail);
    HoldsConcat(b, pos, sign, t.digits + tail);
    HoldsConcat(b, pos + |sign|, t.digits, tail);
    TailHeld(b, pos + |sign| + |t.digits|, t);
    DigitsHeld(b, pos + |sign|, t.digits);
    FirstDigit(t.digits);
    if t.neg {
      HoldsOne(b, pos, MINUS);
    }
  }

  lemma FirstDigit(ds: seq<Byte>)
    requires |ds| > 0 && AllDigits(ds)
    ensures IsDigit(ds[0])
  {
  }

  lemma TailHeld(b: seq<Byte>, pos: nat, t: Text)
    requires t.DecimalText? && Rfc(t) && Holds(b, pos, t.frac + t.exp)
    ensures pos < |b| && (b[pos] == 46 || b[pos] == 101 || b[pos] == 69)
  {
    assert b[pos] == (t.frac + t.exp)[0];
  }

  lemma OverflowRefused(b: seq<Byte>, pos: nat, t: Text)
    requires t.NumberText? && Rfc(t) && !Fits(t) && Holds(b, pos, Bytes(t)) && Delimited(b, pos + |Bytes(t)|, t)
    ensures pos < |b| && (b[pos] == MINUS || IsDigit(b[pos])) && ReadNumber(b, pos).Fail?
  {
    hide Holds, SkipDigits, NumberValue, AllDigits;
    var sign := if t.neg then [MINUS] else [];
    HoldsConcat(b, pos, sign, t.digits);
    FirstDigit(t.digits);
    if t.neg {
      HoldsOne(b, pos, MINUS);
    }
    DigitsHeld(b, pos + |sign|, t.digits);
  }

  /** Reading at the first byte of a value that does not fit. */
  lemma {:induction false} ValueRefused(b: seq<Byte>, pos: nat, t: Text)
    requires Rfc(t) && !Fits(t) && Holds(b, pos, Bytes(t)) && Delimited(b, pos + |Bytes(t)|, t)
    ensures pos < |b| && ReadValue(b, pos).Fail?
    decreases t, 1, 0
  {
    hide ElementsBytes, MembersBytes, RfcElements, RfcMembers, ElementsFit, MembersFit, StringText, ReadArray,
      ReadObject, ReadString, ReadNumber, Literal, Holds;
    RfcFirstByte(b, pos, t);
    SkipExactly(b, pos, pos);
    match t
    case NumberText(_, _) => OverflowRefused(b, pos, t);
    case DecimalText(_, _, _, _) => DecimalRefused(b, pos, t);
    case StrText(ps) =>
      NameStarts(b, pos, ps);
      StringRefused(b, pos, ps);
    case ArrayText(es) => ArrayRefused(b, pos, es);
    case ObjectText(ms) => ObjectRefused(b, pos, ms);
    case _ =>
  }

  lemma {:induction false} ArrayRefused(b: seq<Byte>, pos: nat, es: seq<Element>)
    requires |es| > 0 && RfcElements(es) && !ElementsFit(es)
    requires Holds(b, pos, [LBRACKET] + ElementsBytes(es) + [RBRACKET])
    ensures At(b, pos, LBRACKET) && ReadArray(b, pos).Fail?
    decreases es, 1, 0
  {
    hide Holds, ElementsBytes, RfcElements, ElementsFit, ReadElements;
    HoldsBracketed(b, pos, LBRACKET, ElementsBytes(es), RBRACKET);
    ElementsRefused(b, pos + 1, es);
    LooksFull(b, pos + 1, es);
  }

  lemma LooksFull(b: seq<Byte>, pos: nat, es: seq<Element>)
    requires |es| > 0 && RfcElements(es) && Holds(b, pos, ElementsBytes(es) + [RBRACKET])
    ensures pos <= |b| && !At(b, SkipWs(b, pos), RBRACKET)
  {
    hide Holds, Bytes, SkipWs, Rfc, RfcElements, AllWs;
    var e := es[0];
    RfcElementsSplit(es);
    var rest := if |es| == 1 then [] else [COMMA] + ElementsBytes(es[1..]);
    HoldsLast(b, pos, ElementsBytes(es), RBRACKET);
    HoldsConcat(b, pos, e.before + Bytes(e.value) + e.after, rest);
    HoldsConcat(b, pos, e.before + Bytes(e.value), e.after);
    HoldsConcat(b, pos, e.before, Bytes(e.value));
    RfcFirstByte(b, pos + |e.before|, e.value);
    SkipHeld(b, pos, e.before);
  }

  lemma RfcElementsSplit(es: seq<Element>)
    requires |es| > 0 && RfcElements(es)
    ensures AllWs(es[0].before) && Rfc(es[0].value) && AllWs(es[0].after)
    ensures RfcElements([es[0]]) && RfcElements(es[1..])
    ensures ElementsFit(es) <==> Fits(es[0].value) && ElementsFit(es[1..])
  {
    hide Rfc, AllWs;
  }

  lemma {:induction false} ObjectRefused(b: seq<Byte>, pos: nat, ms: seq<Member>)
    requires |ms| > 0 && RfcMembers(ms) && !MembersFit(ms)
    requires Holds(b, pos, [LBRACE] + MembersBytes(ms) + [RBRACE])
    ensures At(b, pos, LBRACE) && ReadObject(b, pos).Fail?
    decreases ms, 1, 0
  {
    hide Holds, MembersBytes, RfcMembers, MembersFit, ReadMembers, MemberBytes, SkipWs;
    HoldsBracketed(b, pos, LBRACE, MembersBytes(ms), RBRACE);
    MembersRefused(b, pos + 1, ms);
    var rest := if |ms| == 1 then [] else [COMMA] + MembersBytes(ms[1..]);
    MembersUnfold(ms);
    HoldsLast(b, pos + 1, MembersBytes(ms), RBRACE);
    HoldsConcat(b, pos + 1, MemberBytes(ms[0]), rest);
    RfcMembersSplit(ms);
    MemberStarts(b, pos + 1, ms[0]);
  }

  lemma RfcMembersSplit(ms: seq<Member>)
    requires |ms| > 0 && RfcMembers(ms)
    ensures var m := ms[0]; AllWs(m.before) && AllWs(m.gap) && AllWs(m.lead) && AllWs(m.after)
    ensures var m := ms[0]; RfcPieces(m.name) && Rfc(m.value)
    ensures RfcMembers([ms[0]]) && RfcMembers(ms[1..])
    ensures MembersFit(ms) <==>
      Paired(ms[0].name) && NulFree(ms[0].name) && Fits(ms[0].value) && MembersFit(ms[1..])
  {
    hide Rfc, AllWs, RfcPieces, Paired, NulFree;
  }

  lemma {:induction false} ElementRefused(b: seq<Byte>, pos: nat, e: Element)
    requires AllWs(e.before) && Rfc(e.value) && AllWs(e.after) && !Fits(e.value) && Holds(b, pos, ElementBytes(e))
    requires pos + |ElementBytes(e)| < |b| ==> !GoesOn(b[pos + |ElementBytes(e)|])
    ensures pos <= |b| && ReadElement(b, pos).Fail?
    decreases e, 0, 0
  {
    hide Holds, Bytes, ReadValue, Rfc, Fits, AllWs, GoesOn;
    HoldsConcat(b, pos, e.before + Bytes(e.value), e.after);
    HoldsConcat(b, pos, e.before, Bytes(e.value));
    ElementDelimited(b, pos + |e.before| + |Bytes(e.value)|, e.after, e.value);
    RefusedAfterWs(b, pos, e.before, e.value);
  }

  lemma {:induction false} RefusedAfterWs(b: seq<Byte>, pos: nat, ws: seq<Byte>, t: Text)
    requires AllWs(ws) && Rfc(t) && !Fits(t) && Holds(b, pos, ws) && Holds(b, pos + |ws|, Bytes(t))
    requires Delimited(b, pos + |ws| + |Bytes(t)|, t)
    ensures pos <= |b| && ReadValue(b, pos).Fail?
    decreases t, 2, 0
  {
    hide Bytes, ReadValue, Rfc, Fits;
    RfcFirstByte(b, pos + |ws|, t);
    SkipHeld(b, pos, ws);
    ReadValueSkips(b, pos);
    ValueRefused(b, pos + |ws|, t);
  }

  /** An element that fits is read. */
  lemma ElementRead(b: seq<Byte>, pos: nat, e: Element)
    requires AllWs(e.before) && Rfc(e.value) && AllWs(e.after) && Fits(e.value) && Holds(b, pos, ElementBytes(e))
    requires pos + |ElementBytes(e)| < |b| ==> !GoesOn(b[pos + |ElementBytes(e)|]) && !IsWs(b[pos + |ElementBytes(e)|])
    ensures var r := Element(e.before, Recast(Together, e.value), e.after);
      && ElementsOk([r]) && ElementBytes(r) == ElementBytes(e) && Strict(r.value)
      && ReadElement(b, pos) == Got(r, pos + |ElementBytes(e)|)
  {
    hide Holds, Bytes, ReadElement, Rfc, Fits, AllWs, TextOk, Strict, Recast, GoesOn;
    var r := Element(e.before, Recast(Together, e.value), e.after);
    Refit(e.value);
    RecastBytes(Together, e.value);
    ElementExactly(b, pos, r);
  }

  lemma {:induction false} ElementsRefused(b: seq<Byte>, pos: nat, es: seq<Element>)
    requires |es| > 0 && RfcElements(es) && !ElementsFit(es) && Holds(b, pos, ElementsBytes(es) + [RBRACKET])
    ensures pos <= |b| && ReadElements(b, pos).Fail?
    decreases es, 0, |es|
  {
    hide Holds, ElementBytes, ElementsBytes, ReadElement, RfcElements, Rfc, Fits, AllWs, GoesOn, Recast;
    var e := es[0];
    RfcElementsSplit(es);
    ClosesList();
    if |es| == 1 {
      ElementsOne(e);
      assert es == [e];
      HoldsLast(b, pos, ElementBytes(e), RBRACKET);
      ElementRefused(b, pos, e);
    } else {
      assert es == [e] + es[1..];
      ElementsStep(e, es[1..]);
      HoldsList(b, pos, ElementBytes(e), ElementsBytes(es[1..]), RBRACKET);
      if Fits(e.value) {
        ElementRead(b, pos, e);
        ElementsRefused(b, pos + |ElementBytes(e)| + 1, es[1..]);
      } else {
        ElementRefused(b, pos, e);
      }
    }
  }

  lemma NameFails(b: seq<Byte>, pos: nat)
    requires pos <= |b| && ReadString(b, SkipWs(b, pos)).Fail?
    ensures ReadMember(b, pos).Fail?
  {
    hide ReadString, ReadValue, SkipWs;
  }

  lemma ValueFails(b: seq<Byte>, pos: nat, colon: nat)
    requires pos <= |b| && ReadString(b, SkipWs(b, pos)).Got?
    requires SkipWs(b, ReadString(b, SkipWs(b, pos)).next) == colon && At(b, colon, COLON)
    requires ReadValue(b, colon + 1).Fail?
    ensures ReadMember(b, pos).Fail?
  {
    hide ReadString, ReadValue, SkipWs;
  }

  lemma {:induction false} MemberRefused(b: seq<Byte>, pos: nat, m: Member)
    requires RfcMembers([m]) && !MembersFit([m]) && Holds(b, pos, MemberBytes(m))
    requires pos + |MemberBytes(m)| < |b| ==> !GoesOn(b[pos + |MemberBytes(m)|])
    ensures pos <= |b| && ReadMember(b, pos).Fail?
    decreases m, 1, 0
  {
    hide Holds, Bytes, ReadMember, ReadString, StringText, MemberBytes, Rfc, Fits, RfcPieces, Paired, NulFree, AllWs,
      GoesOn, SkipWs, RfcMembers, MembersFit;
    RfcMembersSplit([m]);
    MembersFitNone();
    assert [m][1..] == [];
    MemberPieces(b, pos, m);
    if Paired(m.name) && NulFree(m.name) {
      MemberLength(m);
      MemberValueRefused(b, pos, m);
    } else {
      NameStarts(b, pos + |m.before|, m.name);
      SkipHeld(b, pos, m.before);
      StringRefused(b, pos + |m.before|, m.name);
      NameFails(b, pos);
    }
  }

  /** The name is read, the value is refused. */
  lemma {:induction false} MemberValueRefused(b: seq<Byte>, pos: nat, m: Member)
    requires AllWs(m.before) && AllWs(m.gap) && AllWs(m.lead) && AllWs(m.after)
    requires RfcPieces(m.name) && Paired(m.name) && NulFree(m.name) && Rfc(m.value) && !Fits(m.value)
    requires Holds(b, pos, MemberBytes(m)) && |MemberBytes(m)| ==
      |m.before| + |StringText(m.name)| + |m.gap| + 1 + |m.lead| + |Bytes(m.value)| + |m.after|
    requires pos + |MemberBytes(m)| < |b| ==> !GoesOn(b[pos + |MemberBytes(m)|])
    ensures pos <= |b| && ReadMember(b, pos).Fail?
    decreases m, 0, 0
  {
    hide Holds, Bytes, ReadMember, ReadString, ReadValue, StringText, StringOk, MemberBytes, Rfc, Fits, RfcPieces,
      Paired, NulFree, AllWs, GoesOn, SkipWs, Spell, Delimited;
    var colon := pos + |m.before| + |StringText(m.name)| + |m.gap|;
    MemberPieces(b, pos, m);
    NameSpelled(m.name);
    NameExactly(b, pos, m.before, Spell(Together, m.name), m.gap);
    ElementDelimited(b, colon + 1 + |m.lead| + |Bytes(m.value)|, m.after, m.value);
    RefusedAfterWs(b, colon + 1, m.lead, m.value);
    ValueFails(b, pos, colon);
  }

  lemma MembersFitNone()
    ensures RfcMembers([]) && MembersFit([])
  {
  }

  lemma NameSpelled(name: seq<Piece>)
    requires RfcPieces(name) && Paired(name) && NulFree(name)
    ensures StringOk(Spell(Together, name)) && StringText(Spell(Together, name)) == StringText(name)
  {
    hide PiecesText, RfcPieces, Paired, NulFree, Spell;
    SpelledTogether(name);
    SpellText(Together, name);
  }

  /** A member that fits is read. */
  lemma MemberReads(b: seq<Byte>, pos: nat, m: Member)
    requires RfcMembers([m]) && MembersFit([m]) && Holds(b, pos, MemberBytes(m))
    requires pos + |MemberBytes(m)| < |b| ==> !GoesOn(b[pos + |MemberBytes(m)|]) && !IsWs(b[pos + |MemberBytes(m)|])
    ensures ReadMember(b, pos) == Got(RecastMember(Together, m), pos + |MemberBytes(m)|)
  {
    hide Holds, MemberBytes, ReadMember, RfcMembers, MembersFit, RecastMember, GoesOn;
    RefitMembers([m]);
    RecastMemberBytes(Together, m);
    OneMember(m);
    MemberExactly(b, pos, RecastMember(Together, m));
  }

  lemma OneMember(m: Member)
    ensures RecastMembers(Together, [m]) == [RecastMember(Together, m)]
  {
  }

  lemma {:induction false} MembersRefused(b: seq<Byte>, pos: nat, ms: seq<Member>)
    requires |ms| > 0 && RfcMembers(ms) && !MembersFit(ms) && Holds(b, pos, MembersBytes(ms) + [RBRACE])
    ensures pos <= |b| && ReadMembers(b, pos).Fail?
    decreases ms, 0, |ms|
  {
    hide Holds, MemberBytes, MembersBytes, ReadMember, RfcMembers, MembersFit, Rfc, Fits, RfcPieces, Paired, NulFree,
      AllWs, GoesOn, RecastMember;
    var m := ms[0];
    RfcMembersSplit(ms);
    RfcMembersSplit([m]);
    MembersFitNone();
    ClosesList();
    if |ms| == 1 {
      MembersOne(m);
      assert ms == [m];
      HoldsLast(b, pos, MemberBytes(m), RBRACE);
      MemberRefused(b, pos, m);
    } else {
      assert ms == [m] + ms[1..];
      MembersStep(m, ms[1..]);
      HoldsList(b, pos, MemberBytes(m), MembersBytes(ms[1..]), RBRACE);
      if MembersFit([m]) {
        MemberReads(b, pos, m);
        MembersRefused(b, pos + |MemberBytes(m)| + 1, ms[1..]);
      } else {
        MemberRefused(b, pos, m);
      }
    }
  }

  // ----- strict readings are JSON

  lemma {:induction false} SpelledApart(ps: seq<Piece>)
    requires PiecesOk(ps) && StrictPieces(ps)
    ensures RfcPieces(Spell(Apart, ps))
    decreases |ps|
  {
    hide PieceOk, RfcPiece;
    if |ps| > 0 {
      SpelledApart(ps[1..]);
      PieceApart(ps[0]);
    }
  }

  lemma PieceApart(p: Piece)
    requires PieceOk(p) && (p.Raw? ==> p.b >= 32)
    ensures if p.Surrogates? then RfcPiece(Unicode(p.high)) && RfcPiece(Unicode(p.low)) else RfcPiece(p)
  {
  }

  lemma {:induction false} StrictIsRfc(t: Text)
    requires TextOk(t) && Strict(t)
    ensures Rfc(Recast(Apart, t))
    decreases t, 0
  {
    hide PiecesOk, PiecesValue, Spell, NumberValue, StrictPieces, RfcPieces;
    match t
    case StrText(ps) => SpelledApart(ps);
    case ArrayText(es) => StrictElementsAreRfc(es);
    case ObjectText(ms) => StrictMembersAreRfc(ms);
    case _ =>
  }

  lemma {:induction false} StrictElementsAreRfc(es: seq<Element>)
    requires ElementsOk(es) && StrictElements(es)
    ensures RfcElements(RecastElements(Apart, es))
    decreases es, 1, |es|
  {
    hide Rfc, TextOk, Strict, Recast;
    if |es| > 0 {
      StrictIsRfc(es[0].value);
      StrictElementsAreRfc(es[1..]);
      assert RecastElements(Apart, es)[1..] == RecastElements(Apart, es[1..]);
    }
  }

  lemma {:induction false} StrictMembersAreRfc(ms: seq<Member>)
    requires MembersOk(ms) && StrictMembers(ms)
    ensures RfcMembers(RecastMembers(Apart, ms))
    decreases ms, 1, |ms|
  {
    hide Rfc, TextOk, Strict, Recast, PiecesOk, PiecesValue, StrictPieces, RfcPieces, Spell;
    if |ms| > 0 {
      SpelledApart(ms[0].name);
      StrictIsRfc(ms[0].value);
      StrictMembersAreRfc(ms[1..]);
      assert RecastMembers(Apart, ms)[1..] == RecastMembers(Apart, ms[1..]);
    }
  }

  // ----- documents

  /** A JSON text is accepted exactly when it fits: no fraction or exponent, no
      integer outside an `i64`, no lone surrogate, no NUL. */
  lemma JsonIsAccepted(b: seq<Byte>, g: Element)
    requires RfcElements([g]) && ElementBytes(g) == b
    ensures ReadDocument(b).Got? <==> Fits(g.value)
    ensures ReadDocument(b).Got? ==> Strict(ReadDocument(b).val.value)
  {
    hide ReadElement, ElementBytes, Holds, Rfc, Fits, Strict, RfcElements;
    RfcElementsSplit([g]);
    WholeText(b, ElementBytes(g));
    if Fits(g.value) {
      ElementRead(b, 0, g);
    } else {
      ElementRefused(b, 0, g);
    }
  }

  /** An accepted text is JSON exactly when it is in UTF-8 and the scan finds
      neither a leading zero nor a raw control character. */
  lemma AcceptedIsJson(b: seq<Byte>)
    requires ReadDocument(b).Got?
    ensures RfcDocument(b) <==> ValidUtf8(b) && Tidy(b)
  {
    hide ReadElement, ElementBytes, RfcElements, ElementsOk, ValidUtf8, Tidy;
    var e := ReadDocument(b).val;
    DocumentExactly(b, e);
    TidyIsStrict(e);
    forall g | RfcElements([g]) && ElementBytes(g) == b ensures Tidy(b) {
      JsonIsAccepted(b, g);
    }
    if Tidy(b) {
      var g := Element(e.before, Recast(Apart, e.value), e.after);
      WholeElement(e);
      assert RfcElements([g]) && ElementBytes(g) == b;
    }
  }

  lemma WholeElement(e: Element)
    requires ElementsOk([e]) && Strict(e.value)
    ensures var g := Element(e.before, Recast(Apart, e.value), e.after);
      RfcElements([g]) && ElementBytes(g) == ElementBytes(e)
  {
    hide Strict, TextOk, Rfc, Recast, Bytes;
    StrictIsRfc(e.value);
    RecastBytes(Apart, e.value);
  }

  // ----- accepted and no JSON

  /** The text `01`. */
  lemma LeadingZeroAccepted()
    ensures ReadDocument([48, 49]).Got? && Value(ReadDocument([48, 49]).val.value) == Int(1)
    ensures !RfcDocument([48, 49])
  {
    hide ReadElement, ValidUtf8;
    var t := NumberText(false, [48, 49]);
    assert [48, 49][..1] == [48] && [48][..0] == [];
    assert DigitsValue([48]) == 0 && DigitsValue([48, 49]) == 1;
    assert ElementBytes(Element([], t, [])) == [48, 49];
    DocumentExactly([48, 49], Element([], t, []));
    AcceptedIsJson([48, 49]);
    TidyIsStrict(Element([], t, []));
  }

  /** A string of one byte that is no JSON by itself: a control character, or a
      byte that is not UTF-8. */
  lemma RawByteAccepted(c: Byte)
    requires 0 < c < 32 || c >= 0x80
    ensures var b := [QUOTE, c, QUOTE];
      ReadDocument(b).Got? && Value(ReadDocument(b).val.value) == Str([c]) && !RfcDocument(b)
  {
    hide ReadElement;
    var b, ps := [QUOTE, c, QUOTE], [Raw(c)];
    assert ps[1..] == [];
    assert ps[0].Raw? && ps[0].b == c && PiecesOk(ps);
    assert PiecesText(ps) == [c] + PiecesText([]) == [c];
    assert PiecesValue(ps) == [c] + PiecesValue([]) == [c];
    var e := Element([], StrText(ps), []);
    assert ElementBytes(e) == b;
    DocumentExactly(b, e);
    AcceptedIsJson(b);
    TidyIsStrict(e);
    if c >= 0x80 {
      AfterAscii([QUOTE], [c, QUOTE]);
      assert b == [QUOTE] + [c, QUOTE];
      assert CharLen([c, QUOTE]) == 0;
    }
  }

  // ----- JSON and refused

  /** A string of one escape: half of a pair, or NUL. */
  lemma EscapeRefused(h: seq<Byte>)
    requires IsHex4(h) && (0xD800 <= Hex4Value(h) <= 0xDFFF || Hex4Value(h) == 0)
    ensures var b := StringText([Unicode(h)]); RfcDocument(b) && ReadDocument(b).Fail?
  {
    hide ReadDocument, Hex4Value, ValidUtf8, StringText;
    var ps := [Unicode(h)];
    var b, g := StringText(ps), Element([], StrText(ps), []);
    assert ps[0] == Unicode(h);
    assert ElementBytes(g) == b && RfcElements([g]);
    EscapeAscii(h);
    AsciiValid(b);
    JsonIsAccepted(b, g);
  }

  lemma EscapeAscii(h: seq<Byte>)
    requires IsHex4(h)
    ensures Ascii(StringText([Unicode(h)]))
  {
    var ps := [Unicode(h)];
    assert ps[1..] == [];
    assert PiecesText(ps) == [BACKSLASH, LOWER_U] + h;
  }

  lemma AsciiValid(b: seq<Byte>)
    requires Ascii(b)
    ensures ValidUtf8(b)
  {
    AfterAscii(b, []);
    assert b + [] == b;
  }

  /** An integer past an `i64`, in as few digits as it takes. */
  lemma IntegerRefused(n: nat)
    requires n > 0x7FFF_FFFF_FFFF_FFFF
    ensures RfcDocument(DigitsOf(n)) && ReadDocument(DigitsOf(n)).Fail?
  {
    hide ReadElement, DigitsOf, ValidUtf8, DigitsValue;
    var b := DigitsOf(n);
    var g := Element([], NumberText(false, b), []);
    assert ElementBytes(g) == b && RfcElements([g]);
    assert NumberValue(false, b) == n;
    AsciiValid(b);
    JsonIsAccepted(b, g);
  }

  /** The texts `0.5` and `1e2`. */
  lemma DecimalsRefused()
    ensures RfcDocument([48, 46, 53]) && ReadDocument([48, 46, 53]).Fail?
    ensures RfcDocument([49, 101, 50]) && ReadDocument([49, 101, 50]).Fail?
  {
    hide ReadDocument, RfcDocument;
    DecimalRefusal([48], [46, 53], []);
    DecimalRefusal([49], [], [101, 50]);
    assert [48] + [46, 53] + [] == [48, 46, 53] && [49] + [] + [101, 50] == [49, 101, 50];
  }

  lemma DecimalRefusal(ds: seq<Byte>, frac: seq<Byte>, exp: seq<Byte>)
    requires Rfc(DecimalText(false, ds, frac, exp))
    ensures RfcDocument(ds + frac + exp) && ReadDocument(ds + frac + exp).Fail?
  {
    hide ReadDocument, ValidUtf8;
    var b := ds + frac + exp;
    var g := Element([], DecimalText(false, ds, frac, exp), []);
    assert ElementBytes(g) == b && RfcElements([g]);
    NumeralsAscii(ds, frac, exp);
    AsciiValid(b);
    JsonIsAccepted(b, g);
  }

  lemma NumeralsAscii(ds: seq<Byte>, frac: seq<Byte>, exp: seq<Byte>)
    requires Rfc(DecimalText(false, ds, frac, exp))
    ensures Ascii(ds) && Ascii(frac) && Ascii(exp) && Ascii(ds + frac + exp)
  {
    assert forall i :: 1 <= i < |frac| ==> frac[i] == frac[1..][i - 1];
    assert forall i :: 1 <= i < |exp| ==> exp[i] == exp[1..][i - 1];
    assert forall i :: 2 <= i < |exp| ==> exp[i] == exp[2..][i - 2];
  }
}
