/** The values that JSON can carry through the parser: for each of them a text
    is at hand. */
module JsonWriting {
  import opened Octets
  import opened JsonSyntax
  import opened JsonReader
  import opened JsonLaws
  import opened JsonRoundTrip
  import opened JsonUnicode
  import opened JsonValues
  import opened JsonGrammar
  import opened JsonScan
  import opened JsonStandard

  lemma {:induction false} ValidConcat(a: seq<Byte>, b: seq<Byte>)
    requires ValidUtf8(a) && ValidUtf8(b)
    ensures ValidUtf8(a + b)
    decreases |a|
  {
    hide CharLen;
    if |a| == 0 {
      assert a + b == b;
    } else {
      var n := CharLen(a);
      var c, rest := a[..n], a[n..] + b;
      ValidConcat(a[n..], b);
      assert a + b == c + rest && (c + rest)[..n] == c;
      SameChar(a, c + rest, n);
      PrependChar(c, rest);
    }
  }

  lemma ValidBetween(a: seq<Byte>, body: seq<Byte>, c: seq<Byte>)
    requires Ascii(a) && ValidUtf8(body) && Ascii(c)
    ensures ValidUtf8(a + body + c)
  {
    AsciiValid(a);
    AsciiValid(c);
    ValidConcat(a, body);
    ValidConcat(a + body, c);
  }

  // ----- strings

  lemma PieceOfText(b: Byte)
    requires b != 0
    ensures if b < 0x80 then Ascii(PieceText(PieceOf(b))) else PieceText(PieceOf(b)) == [b]
  {
  }

  /** Bytes beyond ASCII are written as they are. */
  lemma {:induction false} WrittenRun(s: seq<Byte>, n: nat)
    requires 0 !in s && n <= |s| && forall i :: 0 <= i < n ==> s[i] >= 0x80
    ensures PiecesText(PiecesOf(s)) == s[..n] + PiecesText(PiecesOf(s[n..]))
    decreases n
  {
    hide PieceText, PieceOf, PiecesText;
    if n == 0 {
      assert s[0..] == s;
    } else {
      PieceOfText(s[0]);
      WrittenRun(s[1..], n - 1);
      PiecesTextStep(PieceOf(s[0]), PiecesOf(s[1..]));
      assert s[1..][n - 1..] == s[n..];
      assert s[..n] == [s[0]] + s[1..][..n - 1];
    }
  }

  /** A string in valid UTF-8 is written in valid UTF-8. */
  lemma {:induction false} WrittenPieces(s: seq<Byte>)
    requires 0 !in s && ValidUtf8(s)
    ensures ValidUtf8(PiecesText(PiecesOf(s)))
    decreases |s|
  {
    hide PieceText, PieceOf, CharLen;
    if |s| > 0 {
      var n := CharLen(s);
      WrittenPieces(s[n..]);
      if s[0] < 0x80 {
        OneByteChar(s);
        PieceOfText(s[0]);
        assert PiecesOf(s)[1..] == PiecesOf(s[1..]);
        AfterAscii(PieceText(PieceOf(s[0])), PiecesText(PiecesOf(s[1..])));
      } else {
        CharBeyondAscii(s);
        WrittenRun(s, n);
        var rest := PiecesText(PiecesOf(s[n..]));
        assert (s[..n] + rest)[..n] == s[..n];
        SameChar(s, s[..n] + rest, n);
        PrependChar(s[..n], rest);
      }
    }
  }

  lemma OneByteChar(s: seq<Byte>)
    requires |s| > 0 && s[0] < 0x80
    ensures CharLen(s) == 1
  {
  }

  lemma WrittenString(s: seq<Byte>)
    requires 0 !in s && ValidUtf8(s)
    ensures ValidUtf8(StringText(PiecesOf(s)))
  {
    hide ValidUtf8, PiecesOf, PiecesText;
    WrittenPieces(s);
    ValidBetween([QUOTE], PiecesText(PiecesOf(s)), [QUOTE]);
  }

  // ----- values

  lemma WrittenNumber(n: int)
    ensures Ascii(Bytes(NumberText(n < 0, DigitsOf(if n < 0 then -n else n))))
  {
    hide DigitsOf;
  }

  lemma {:induction false} WrittenValid(v: Json)
    requires Representable(v) && StringsValid(v)
    ensures ValidUtf8(Bytes(Render(v)))
    decreases v, 1, 0
  {
    hide ValidUtf8, StringText, PiecesOf, ElementsBytes, MembersBytes, DigitsOf;
    match v
    case Null => AsciiValid(NULL);
    case Bool(b) => AsciiValid(if b then TRUE else FALSE);
    case Int(n) =>
      WrittenNumber(n);
      AsciiValid(Bytes(Render(v)));
    case Str(s) => WrittenString(s);
    case Array(vs) =>
      if |vs| > 0 {
        WrittenItems(v, |vs|);
        ValidBetween([LBRACKET], ElementsBytes(RenderItems(v, |vs|)), [RBRACKET]);
      } else {
        assert Bytes(Render(v)) == [LBRACKET, RBRACKET];
        AsciiValid([LBRACKET, RBRACKET]);
      }
    case Object(ms) =>
      if |ms| > 0 {
        WrittenMembers(v, |ms|);
        ValidBetween([LBRACE], MembersBytes(RenderMembers(v, |ms|)), [RBRACE]);
      } else {
        assert Bytes(Render(v)) == [LBRACE, RBRACE];
        AsciiValid([LBRACE, RBRACE]);
      }
  }

  lemma {:induction false} WrittenItems(v: Json, n: nat)
    requires v.Array? && Representable(v) && StringsValid(v) && n <= |v.items|
    ensures ValidUtf8(ElementsBytes(RenderItems(v, n)))
    decreases v, 0, n
  {
    hide ValidUtf8, Bytes, Render, ElementsBytes;
    if n == 0 {
      NoLists();
    } else {
      var e, rest := Element([], Render(v.items[|v.items| - n]), []), RenderItems(v, n - 1);
      WrittenValid(v.items[|v.items| - n]);
      assert ElementBytes(e) == Bytes(e.value);
      if n == 1 {
        ElementsOne(e);
        assert RenderItems(v, n) == [e];
      } else {
        WrittenItems(v, n - 1);
        ElementsStep(e, rest);
        ValidAround(ElementBytes(e), COMMA, ElementsBytes(rest));
      }
    }
  }

  lemma NoLists()
    ensures ElementsBytes([]) == [] && MembersBytes([]) == [] && ValidUtf8([])
  {
  }

  /** Two parts with an ASCII byte between them. */
  lemma ValidAround(a: seq<Byte>, c: Byte, b: seq<Byte>)
    requires ValidUtf8(a) && c < 0x80 && ValidUtf8(b)
    ensures ValidUtf8(a + ([c] + b))
  {
    hide ValidUtf8;
    AfterAscii([c], b);
    ValidConcat(a, [c] + b);
  }

  lemma {:induction false} WrittenMembers(v: Json, n: nat)
    requires v.Object? && Representable(v) && StringsValid(v) && n <= |v.members|
    ensures ValidUtf8(MembersBytes(RenderMembers(v, n)))
    decreases v, 0, n
  {
    hide ValidUtf8, Bytes, Render, MembersBytes, StringText, PiecesOf;
    if n == 0 {
      NoLists();
    } else {
      var p, rest := v.members[|v.members| - n], RenderMembers(v, n - 1);
      var m := Member([], PiecesOf(p.0), [], [], Render(p.1), []);
      WrittenString(p.0);
      WrittenValid(p.1);
      assert MemberBytes(m) == StringText(m.name) + ([COLON] + Bytes(m.value));
      ValidAround(StringText(m.name), COLON, Bytes(m.value));
      if n == 1 {
        MembersOne(m);
        assert RenderMembers(v, n) == [m];
      } else {
        WrittenMembers(v, n - 1);
        MembersStep(m, rest);
        ValidAround(MemberBytes(m), COMMA, MembersBytes(rest));
      }
    }
  }

  /** The values that JSON texts are read as are exactly those within an
      `i64`, free of NUL and in valid UTF-8. */
  lemma JsonCarries(v: Json)
    ensures Representable(v) && StringsValid(v) <==>
      exists b :: RfcDocument(b) && ReadDocument(b).Got? && Value(ReadDocument(b).val.value) == v
  {
    hide Representable, StringsValid, ReadElement, Render, RfcElements, ValidUtf8, Tidy;
    if Representable(v) && StringsValid(v) {
      RenderDenotes(v);
      var e := Element([], Render(v), []);
      var b := ElementBytes(e);
      DocumentExactly(b, e);
      assert b == Bytes(Render(v));
      WrittenValid(v);
      TidyIsStrict(e);
      AcceptedIsJson(b);
    }
    forall b | RfcDocument(b) && ReadDocument(b).Got? && Value(ReadDocument(b).val.value) == v
      ensures Representable(v) && StringsValid(v)
    {
      ValueRepresentable(ReadDocument(b).val.value);
      AcceptedStringsValid(b);
    }
  }
}
