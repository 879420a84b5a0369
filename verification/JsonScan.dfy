/** What the scan finds in a text the parser accepts. */
module JsonScan {
  import opened Octets
  import opened JsonSyntax
  import opened JsonLaws
  import opened JsonRoundTrip
  import opened JsonGrammar

  lemma {:induction false} ScanConcat(m: Mode, a: seq<Byte>, b: seq<Byte>)
    ensures Scanned(m, a + b) == Scanned(Scanned(m, a), b)
    decreases |a|
  {
    if |a| == 0 {
      assert a + b == b;
    } else {
      ScanConcat(Scan(m, a[0]), a[1..], b);
      assert (a + b)[1..] == a[1..] + b;
    }
  }

  lemma ScanOne(m: Mode, c: Byte)
    ensures Scanned(m, [c]) == Scan(m, c)
  {
  }

  lemma {:induction false} ScanStopped(b: seq<Byte>)
    ensures Scanned(Stopped, b) == Stopped
    decreases |b|
  {
    if |b| > 0 {
      ScanStopped(b[1..]);
    }
  }

  // ----- strings

  lemma PieceScan(p: Piece)
    requires PieceOk(p)
    ensures Scanned(Inside, PieceText(p)) == if p.Raw? && p.b < 32 then Stopped else Inside
  {
    match p
    case Raw(b) => ScanOne(Inside, b);
    case Escaped(c) => EscapeScan(c);
    case Unicode(h) => UnitScan(h);
    case Surrogates(h, l) =>
      UnitScan(h);
      UnitScan(l);
      ScanConcat(Inside, [BACKSLASH, LOWER_U] + h, [BACKSLASH, LOWER_U] + l);
      assert [BACKSLASH, LOWER_U] + h + ([BACKSLASH, LOWER_U] + l) == PieceText(p);
  }

  lemma EscapeScan(c: Byte)
    ensures Scanned(Inside, [BACKSLASH, c]) == Inside
  {
    ScanConcat(Inside, [BACKSLASH], [c]);
    ScanOne(Inside, BACKSLASH);
    ScanOne(Escape, c);
    assert [BACKSLASH] + [c] == [BACKSLASH, c];
  }

  lemma UnitScan(h: seq<Byte>)
    requires IsHex4(h)
    ensures Scanned(Inside, [BACKSLASH, LOWER_U] + h) == Inside
  {
    EscapeScan(LOWER_U);
    ScanConcat(Inside, [BACKSLASH, LOWER_U], h);
    HexScan(h);
  }

  lemma {:induction false} HexScan(h: seq<Byte>)
    requires forall i :: 0 <= i < |h| ==> IsHex(h[i])
    ensures Scanned(Inside, h) == Inside
    decreases |h|
  {
    if |h| > 0 {
      HexScan(h[1..]);
    }
  }

  lemma {:induction false} PiecesScan(ps: seq<Piece>)
    requires PiecesOk(ps)
    ensures Scanned(Inside, PiecesText(ps)) == if StrictPieces(ps) then Inside else Stopped
    decreases |ps|
  {
    hide PieceOk, PieceText, Scanned;
    if |ps| > 0 {
      PieceScan(ps[0]);
      ScanConcat(Inside, PieceText(ps[0]), PiecesText(ps[1..]));
      PiecesScan(ps[1..]);
      ScanStopped(PiecesText(ps[1..]));
      assert ps == [ps[0]] + ps[1..];
    } else {
      NothingScan(Inside);
    }
  }

  lemma NothingScan(m: Mode)
    ensures Scanned(m, []) == m
  {
  }

  /** A value ends the scan outside strings, unless it stopped. */
  predicate Outside(m: Mode) {
    m == Between || m == Zero || m == Digits
  }

  predicate Ends(m: Mode, tidy: bool) {
    if tidy then Outside(m) else m == Stopped
  }

  lemma StringScan(m: Mode, ps: seq<Piece>)
    requires PiecesOk(ps) && Outside(m)
    ensures Scanned(m, StringText(ps)) == if StrictPieces(ps) then Between else Stopped
  {
    hide Scanned, PiecesText, StrictPieces;
    ScanOne(m, QUOTE);
    PiecesScan(ps);
    ScanConcat(m, [QUOTE], PiecesText(ps));
    ScanConcat(m, [QUOTE] + PiecesText(ps), [QUOTE]);
    ScanOne(Inside, QUOTE);
    ScanStopped([QUOTE]);
  }

  // ----- numbers

  lemma {:induction false} DigitsScan(ds: seq<Byte>)
    requires AllDigits(ds)
    ensures Scanned(Digits, ds) == Digits
    decreases |ds|
  {
    if |ds| > 0 {
      DigitsScan(ds[1..]);
    }
  }

  lemma NumberScan(neg: bool, ds: seq<Byte>)
    requires |ds| > 0 && AllDigits(ds)
    ensures Ends(Scanned(Between, (if neg then [MINUS] else []) + ds), |ds| > 1 ==> ds[0] != 48)
  {
    ScanConcat(Between, if neg then [MINUS] else [], ds);
    ScanOne(Between, MINUS);
    assert ds == [ds[0]] + ds[1..];
    if ds[0] == 48 {
      if |ds| > 1 {
        assert IsDigit(ds[1]) && ds[1..][0] == ds[1];
        ScanStopped(ds[1..][1..]);
      }
    } else {
      DigitsScan(ds[1..]);
    }
  }

  // ----- values

  lemma {:induction false} PlainScan(m: Mode, bs: seq<Byte>)
    requires Outside(m) && forall i :: 0 <= i < |bs| ==> !IsDigit(bs[i]) && bs[i] != QUOTE
    ensures Scanned(m, bs) == if |bs| == 0 then m else Between
    decreases |bs|
  {
    if |bs| > 0 {
      PlainScan(Between, bs[1..]);
    }
  }

  /** A part that ends the scan, then plain bytes. */
  lemma ThenPlain(m: Mode, a: seq<Byte>, tidy: bool, bs: seq<Byte>)
    requires Ends(Scanned(m, a), tidy)
    requires forall i :: 0 <= i < |bs| ==> !IsDigit(bs[i]) && bs[i] != QUOTE
    ensures Ends(Scanned(m, a + bs), tidy)
    ensures |bs| > 0 && tidy ==> Scanned(m, a + bs) == Between
  {
    hide Scanned;
    ScanConcat(m, a, bs);
    if tidy {
      PlainScan(Scanned(m, a), bs);
    } else {
      ScanStopped(bs);
    }
  }

  /** A part that leaves the scan between tokens, then one that ends it. */
  lemma ThenPart(m: Mode, a: seq<Byte>, tidyA: bool, b: seq<Byte>, tidyB: bool)
    requires Scanned(m, a) == if tidyA then Between else Stopped
    requires Ends(Scanned(Between, b), tidyB)
    ensures Ends(Scanned(m, a + b), tidyA && tidyB)
  {
    hide Scanned;
    ScanConcat(m, a, b);
    ScanStopped(b);
  }

  lemma {:induction false} ValueScan(t: Text)
    requires TextOk(t)
    ensures Ends(Scanned(Between, Bytes(t)), Strict(t))
    decreases t, 0
  {
    hide Scanned, Ends, StringText, PiecesText, ElementsBytes, MembersBytes;
    match t
    case NullText => PlainEnds(NULL);
    case TrueText => PlainEnds(TRUE);
    case FalseText => PlainEnds(FALSE);
    case NumberText(neg, ds) => NumberScan(neg, ds);
    case StrText(ps) =>
      StringScan(Between, ps);
      StringEnds(ps);
    case EmptyArray(ws) => PlainEnds([LBRACKET] + ws + [RBRACKET]);
    case ArrayText(es) =>
      ElementsScan(es);
      BracketScan(LBRACKET, ElementsBytes(es), StrictElements(es), RBRACKET);
    case EmptyObject(ws) => PlainEnds([LBRACE] + ws + [RBRACE]);
    case ObjectText(ms) =>
      MembersScan(ms);
      BracketScan(LBRACE, MembersBytes(ms), StrictMembers(ms), RBRACE);
  }

  lemma StringEnds(ps: seq<Piece>)
    requires Scanned(Between, StringText(ps)) == if StrictPieces(ps) then Between else Stopped
    ensures Ends(Scanned(Between, StringText(ps)), StrictPieces(ps))
  {
    hide Scanned, StringText;
  }

  lemma PlainEnds(bs: seq<Byte>)
    requires forall i :: 0 <= i < |bs| ==> !IsDigit(bs[i]) && bs[i] != QUOTE
    ensures Ends(Scanned(Between, bs), true)
  {
    hide Scanned;
    PlainScan(Between, bs);
  }

  lemma BracketScan(open: Byte, body: seq<Byte>, tidy: bool, close: Byte)
    requires !IsDigit(open) && open != QUOTE && !IsDigit(close) && close != QUOTE
    requires Ends(Scanned(Between, body), tidy)
    ensures Ends(Scanned(Between, [open] + body + [close]), tidy)
  {
    hide Scanned;
    ScanOne(Between, open);
    ThenPart(Between, [open], true, body, tidy);
    ThenPlain(Between, [open] + body, tidy, [close]);
  }

  lemma {:induction false} ElementScan(e: Element)
    requires ElementsOk([e])
    ensures Ends(Scanned(Between, ElementBytes(e)), Strict(e.value))
    decreases e, 0
  {
    hide Scanned, Ends, Bytes, Strict;
    ValueScan(e.value);
    PlainScan(Between, e.before);
    ThenPart(Between, e.before, true, Bytes(e.value), Strict(e.value));
    ThenPlain(Between, e.before + Bytes(e.value), Strict(e.value), e.after);
  }

  /** A list: its first part, then nothing or a comma and the rest. */
  lemma ListScan(a: seq<Byte>, tidyA: bool, rest: seq<Byte>, tidyRest: bool)
    requires Ends(Scanned(Between, a), tidyA) && Ends(Scanned(Between, rest), tidyRest)
    ensures Ends(Scanned(Between, a + ([COMMA] + rest)), tidyA && tidyRest)
  {
    hide Scanned;
    ThenPlain(Between, a, tidyA, [COMMA]);
    ThenPart(Between, a + [COMMA], tidyA, rest, tidyRest);
    assert a + [COMMA] + rest == a + ([COMMA] + rest);
  }

  lemma {:induction false} ElementsScan(es: seq<Element>)
    requires ElementsOk(es)
    ensures Ends(Scanned(Between, ElementsBytes(es)), StrictElements(es))
    decreases es, 1, |es|
  {
    hide Scanned, Ends, ElementBytes, ElementsBytes, Strict;
    if |es| == 0 {
      PlainEnds([]);
      NoElements();
    } else {
      ElementsSplit(es);
      ElementScan(es[0]);
      if |es| == 1 {
        ElementsOne(es[0]);
        assert es == [es[0]];
      } else {
        ElementsScan(es[1..]);
        ElementsStep(es[0], es[1..]);
        assert es == [es[0]] + es[1..];
        ListScan(ElementBytes(es[0]), Strict(es[0].value), ElementsBytes(es[1..]), StrictElements(es[1..]));
      }
    }
  }

  lemma NoElements()
    ensures ElementsBytes([]) == [] && MembersBytes([]) == []
  {
  }

  lemma {:induction false} MemberScan(m: Member)
    requires MembersOk([m])
    ensures Ends(Scanned(Between, MemberBytes(m)), StrictPieces(m.name) && Strict(m.value))
    decreases m, 0
  {
    hide Scanned, Ends, Bytes, StringText, Strict, StrictPieces, PiecesOk, PiecesValue;
    var name := m.before + StringText(m.name);
    var colon := m.gap + [COLON] + m.lead;
    PlainScan(Between, m.before);
    StringScan(Between, m.name);
    StringEnds(m.name);
    ThenPart(Between, m.before, true, StringText(m.name), StrictPieces(m.name));
    ThenPlain(Between, name, StrictPieces(m.name), colon);
    StoppedThen(name, StrictPieces(m.name), colon);
    ValueScan(m.value);
    ThenPart(Between, name + colon, StrictPieces(m.name), Bytes(m.value), Strict(m.value));
    ThenPlain(Between, name + colon + Bytes(m.value), StrictPieces(m.name) && Strict(m.value), m.after);
    assert MemberBytes(m) == name + colon + Bytes(m.value) + m.after;
  }

  lemma StoppedThen(a: seq<Byte>, tidy: bool, bs: seq<Byte>)
    requires Ends(Scanned(Between, a), tidy)
    ensures !tidy ==> Scanned(Between, a + bs) == Stopped
  {
    hide Scanned;
    ScanConcat(Between, a, bs);
    ScanStopped(bs);
  }

  lemma {:induction false} MembersScan(ms: seq<Member>)
    requires MembersOk(ms)
    ensures Ends(Scanned(Between, MembersBytes(ms)), StrictMembers(ms))
    decreases ms, 1, |ms|
  {
    hide Scanned, Ends, MemberBytes, MembersBytes, Strict, StrictPieces;
    if |ms| == 0 {
      PlainEnds([]);
      NoElements();
    } else {
      MembersSplit(ms);
      MemberScan(ms[0]);
      if |ms| == 1 {
        MembersOne(ms[0]);
        assert ms == [ms[0]];
      } else {
        MembersScan(ms[1..]);
        MembersStep(ms[0], ms[1..]);
        assert ms == [ms[0]] + ms[1..];
        ListScan(MemberBytes(ms[0]), StrictPieces(ms[0].name) && Strict(ms[0].value),
          MembersBytes(ms[1..]), StrictMembers(ms[1..]));
      }
    }
  }

  /** The scan of an accepted text tells whether its reading is strict. */
  lemma TidyIsStrict(e: Element)
    requires ElementsOk([e])
    ensures Tidy(ElementBytes(e)) <==> Strict(e.value)
  {
    hide Scanned, Strict, ElementBytes;
    ElementScan(e);
  }
}
