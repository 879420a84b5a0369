/** The recursive-descent parser: an object that walks a byte slice, tracking
    line and column, and builds the value tree. */
module JsonParser {
  import opened Octets
  import opened JsonSyntax
  import opened JsonReader
  import opened JsonLaws
  import opened JsonRoundTrip

  /** A parse result; an error carries the position the parser had reached. */
  datatype Parsed<+T> = Ok(value: T) | Err(fault: Fault, line: nat, col: nat)

  // ----- positions

  function LineAt(b: seq<Byte>, pos: nat): nat
    requires pos <= |b|
  {
    if pos == 0 then 1 else LineAt(b, pos - 1) + if b[pos - 1] == NEWLINE then 1 else 0
  }

  function ColAt(b: seq<Byte>, pos: nat): nat
    requires pos <= |b|
  {
    if pos == 0 || b[pos - 1] == NEWLINE then 1 else ColAt(b, pos - 1) + 1
  }

  /** What a column says: that many bytes back, less one, a line starts, and
      no line ends in between. */
  lemma {:induction false} ColumnMeaning(b: seq<Byte>, pos: nat)
    requires pos <= |b|
    ensures var start := pos - (ColAt(b, pos) - 1);
      && 0 <= start <= pos
      && (start == 0 || b[start - 1] == 0x0A)
      && 0x0A !in b[start..pos]
      && LineAt(b, start) == LineAt(b, pos)
    decreases pos
  {
    if pos > 0 && b[pos - 1] != NEWLINE {
      ColumnMeaning(b, pos - 1);
      var start := pos - (ColAt(b, pos) - 1);
      assert b[start..pos] == b[start..pos - 1] + [b[pos - 1]];
    }
  }

  /** A line number is one more than the line feeds before it. */
  lemma {:induction false} LineMeaning(b: seq<Byte>, pos: nat)
    requires pos <= |b|
    ensures LineAt(b, pos) == 1 + multiset(b[..pos])[0x0A]
    decreases pos
  {
    if pos > 0 {
      LineMeaning(b, pos - 1);
      assert b[..pos] == b[..pos - 1] + [b[pos - 1]];
    }
  }

  // ----- what the reading functions say about values

  function Prepend<T>(xs: seq<T>, r: Read<seq<T>>): Read<seq<T>> {
    match r
    case Got(ys, next) => Got(xs + ys, next)
    case Fail(f, at) => Fail(f, at)
  }

  lemma PrependTwice<T>(xs: seq<T>, ys: seq<T>, r: Read<seq<T>>)
    ensures Prepend(xs, Prepend(ys, r)) == Prepend(xs + ys, r)
    ensures Prepend([], r) == r
  {
    if r.Got? {
      assert xs + (ys + r.val) == xs + ys + r.val;
      assert [] + r.val == r.val;
    }
  }

  function PiecesAt(b: seq<Byte>, pos: nat): Read<seq<Byte>>
    requires pos <= |b|
  {
    match ReadPieces(b, pos)
    case Got(ps, next) => Got(PiecesValue(ps), next)
    case Fail(f, at) => Fail(f, at)
  }

  function StringAt(b: seq<Byte>, pos: nat): Read<seq<Byte>>
    requires pos <= |b|
  {
    match ReadString(b, pos)
    case Got(ps, next) => Got(PiecesValue(ps), next)
    case Fail(f, at) => Fail(f, at)
  }

  function ValueAt(b: seq<Byte>, pos: nat): Read<Json>
    requires pos <= |b|
  {
    match ReadValue(b, pos)
    case Got(t, next) => Got(Value(t), next)
    case Fail(f, at) => Fail(f, at)
  }

  function ElementsAt(b: seq<Byte>, pos: nat): Read<seq<Json>>
    requires pos <= |b|
  {
    match ReadElements(b, pos)
    case Got(es, next) => Got(ElementValues(es), next)
    case Fail(f, at) => Fail(f, at)
  }

  function MembersAt(b: seq<Byte>, pos: nat): Read<seq<(seq<Byte>, Json)>>
    requires pos <= |b|
  {
    match ReadMembers(b, pos)
    case Got(ms, next) => Got(MemberValues(ms), next)
    case Fail(f, at) => Fail(f, at)
  }

  function NumberAt(b: seq<Byte>, pos: nat): Read<Json>
    requires pos < |b|
  {
    match ReadNumber(b, pos)
    case Got(t, next) => Got(Value(t), next)
    case Fail(f, at) => Fail(f, at)
  }

  function Hex4At(b: seq<Byte>, pos: nat): Read<nat>
    requires pos <= |b|
  {
    match ReadHex(b, pos, 4)
    case Got(h, next) => Got(Hex4Value(h), next)
    case Fail(f, at) => Fail(f, at)
  }

  function PieceAt(b: seq<Byte>, pos: nat): (r: Read<seq<Byte>>)
    requires pos < |b| && b[pos] != QUOTE
    ensures r.Got? ==> pos < r.next <= |b|
  {
    match ReadPiece(b, pos)
    case Got(p, next) => Got(PieceValue(p), next)
    case Fail(f, at) => Fail(f, at)
  }

  function UnicodeAt(b: seq<Byte>, pos: nat): Read<seq<Byte>>
    requires pos <= |b|
  {
    match ReadUnicode(b, pos)
    case Got(p, next) => Got(PieceValue(p), next)
    case Fail(f, at) => Fail(f, at)
  }

  /** One character, then the rest. */
  function PiecesOnward(b: seq<Byte>, pos: nat): Read<seq<Byte>>
    requires pos <= |b|
  {
    if pos == |b| then Fail(UnterminatedString, pos)
    else if b[pos] == QUOTE then Got([], pos + 1)
    else if b[pos] == 0 then Fail(NulByte, pos + 1)
    else if b[pos] != BACKSLASH then Prepend([b[pos]], PiecesAt(b, pos + 1))
    else match PieceAt(b, pos)
      case Got(v, next) => Prepend(v, PiecesAt(b, next))
      case Fail(f, at) => Fail(f, at)
  }

  lemma PiecesAtStep(b: seq<Byte>, pos: nat)
    requires pos <= |b|
    ensures PiecesAt(b, pos) == PiecesOnward(b, pos)
  {
    hide ReadUnicode, Utf8;
    if pos < |b| && b[pos] != QUOTE {
      var p := ReadPiece(b, pos);
      if p.Got? && ReadPieces(b, p.next).Got? {
        var rest := ReadPieces(b, p.next).val;
        assert ([p.val] + rest)[1..] == rest;
      }
    }
  }

  lemma StringAtStep(b: seq<Byte>, pos: nat)
    requires pos <= |b|
    ensures StringAt(b, pos) ==
      if !At(b, pos, QUOTE) then Fail(Expected(QUOTE), pos)
      else match PiecesAt(b, pos + 1)
        case Got(v, next) => if 0 in v then Fail(InteriorNul, next) else Got(v, next)
        case Fail(f, at) => Fail(f, at)
  {
    hide ReadPieces, PiecesValue;
  }

  /** One element, then its delimiter, then the rest. */
  function ElementsOnward(b: seq<Byte>, pos: nat): Read<seq<Json>>
    requires pos <= |b|
  {
    match ValueAt(b, pos)
    case Fail(f, at) => Fail(f, at)
    case Got(v, next) =>
      var p := SkipWs(b, next);
      if p >= |b| then Fail(UnterminatedArray, p)
      else if b[p] == COMMA then Prepend([v], ElementsAt(b, p + 1))
      else if b[p] == RBRACKET then Got([v], p + 1)
      else Fail(ArrayDelimiter, p)
  }

  lemma ElementValuesCons(e: Element, rest: seq<Element>)
    requires ElementsOk([e]) && (|rest| > 0 ==> ElementsOk(rest))
    ensures ElementsOk(rest) && ElementsOk([e] + rest)
      && ElementValues([e] + rest) == [Value(e.value)] + ElementValues(rest)
    ensures ElementValues([e]) == [Value(e.value)]
  {
    hide Value, TextOk;
    assert ([e] + rest)[1..] == rest;
  }

  lemma ElementsAtStep(b: seq<Byte>, pos: nat)
    requires pos <= |b|
    ensures ElementsAt(b, pos) == ElementsOnward(b, pos)
  {
    hide Value, SkipWs, ReadValue, TextOk, ElementsOk, ElementValues;
    var e := ReadElement(b, pos);
    if e.Got? {
      ElementValuesCons(e.val, []);
      if At(b, e.next, COMMA) && ReadElements(b, e.next + 1).Got? {
        ElementValuesCons(e.val, ReadElements(b, e.next + 1).val);
      }
    }
  }

  /** White space before the first element does not matter. */
  lemma ElementsAtSkips(b: seq<Byte>, pos: nat)
    requires pos <= |b|
    ensures ElementsAt(b, pos) == ElementsAt(b, SkipWs(b, pos))
  {
    ReadValueSkips(b, pos);
    ElementsAtStep(b, pos);
    ElementsAtStep(b, SkipWs(b, pos));
  }

  /** A member as far as its value's end. */
  function MemberAt(b: seq<Byte>, pos: nat): (r: Read<(seq<Byte>, Json)>)
    requires pos <= |b|
    ensures r.Got? ==> pos < r.next <= |b|
  {
    match StringAt(b, SkipWs(b, pos))
    case Fail(f, at) => Fail(f, at)
    case Got(name, afterName) =>
      var colon := SkipWs(b, afterName);
      if !At(b, colon, COLON) then Fail(Expected(COLON), colon)
      else match ValueAt(b, colon + 1)
        case Fail(f, at) => Fail(f, at)
        case Got(v, next) => Got((name, v), next)
  }

  /** One member, then its delimiter, then the rest. */
  function MembersOnward(b: seq<Byte>, pos: nat): Read<seq<(seq<Byte>, Json)>>
    requires pos <= |b|
  {
    match MemberAt(b, pos)
    case Fail(f, at) => Fail(f, at)
    case Got(m, next) =>
      var q := SkipWs(b, next);
      if q >= |b| then Fail(UnterminatedObject, q)
      else if b[q] == COMMA then Prepend([m], MembersAt(b, q + 1))
      else if b[q] == RBRACE then Got([m], q + 1)
      else Fail(ObjectDelimiter, q)
  }

  lemma MemberValuesCons(m: Member, rest: seq<Member>)
    requires MembersOk([m]) && (|rest| > 0 ==> MembersOk(rest))
    ensures MembersOk(rest) && MembersOk([m] + rest)
    ensures MemberValues([m] + rest) == [(PiecesValue(m.name), Value(m.value))] + MemberValues(rest)
    ensures MemberValues([m]) == [(PiecesValue(m.name), Value(m.value))]
  {
    hide Value, TextOk, PiecesValue;
    assert ([m] + rest)[1..] == rest;
  }

  lemma MembersAtStep(b: seq<Byte>, pos: nat)
    requires pos <= |b|
    ensures MembersAt(b, pos) == MembersOnward(b, pos)
  {
    hide Value, SkipWs, ReadValue, ReadString, PiecesValue, TextOk, MembersOk, MemberValues;
    var m := ReadMember(b, pos);
    if m.Got? {
      MemberValuesCons(m.val, []);
      if At(b, m.next, COMMA) && ReadMembers(b, m.next + 1).Got? {
        MemberValuesCons(m.val, ReadMembers(b, m.next + 1).val);
      }
    }
  }

  lemma MembersAtSkips(b: seq<Byte>, pos: nat)
    requires pos <= |b|
    ensures MembersAt(b, pos) == MembersAt(b, SkipWs(b, pos))
  {
    hide StringAt, ValueAt, MembersAt, SkipWs, AllWs;
    SkipExactly(b, SkipWs(b, pos), SkipWs(b, pos));
    MembersAtStep(b, pos);
    MembersAtStep(b, SkipWs(b, pos));
  }

  function ArrayAt(b: seq<Byte>, pos: nat): Read<Json>
    requires pos < |b|
  {
    match ReadArray(b, pos)
    case Got(t, next) => Got(Value(t), next)
    case Fail(f, at) => Fail(f, at)
  }

  lemma ArrayAtStep(b: seq<Byte>, pos: nat)
    requires pos < |b|
    ensures ArrayAt(b, pos) ==
      var p := SkipWs(b, pos + 1);
      if At(b, p, RBRACKET) then Got(Array([]), p + 1)
      else match ElementsAt(b, p)
        case Got(vs, next) => Got(Array(vs), next)
        case Fail(f, at) => Fail(f, at)
  {
    hide SkipWs, ReadElements, ElementValues, ElementsOk, AllWs;
    ElementsAtSkips(b, pos + 1);
  }

  function ObjectAt(b: seq<Byte>, pos: nat): Read<Json>
    requires pos < |b|
  {
    match ReadObject(b, pos)
    case Got(t, next) => Got(Value(t), next)
    case Fail(f, at) => Fail(f, at)
  }

  lemma ObjectAtStep(b: seq<Byte>, pos: nat)
    requires pos < |b|
    ensures ObjectAt(b, pos) ==
      var p := SkipWs(b, pos + 1);
      if At(b, p, RBRACE) then Got(Object([]), p + 1)
      else match MembersAt(b, p)
        case Got(vs, next) => Got(Object(vs), next)
        case Fail(f, at) => Fail(f, at)
  {
    hide SkipWs, ReadMembers, MemberValues, MembersOk, AllWs;
    MembersAtSkips(b, pos + 1);
  }

  // ----- the parser

  class Parser {
    const bytes: seq<Byte>
    var pos: nat
    var line: nat
    var col: nat

    constructor (bytes: seq<Byte>)
      ensures Valid() && this.bytes == bytes && pos == 0
    {
      this.bytes := bytes;
      pos, line, col := 0, 1, 1;
    }

    ghost predicate Valid()
      reads this
    {
      pos <= |bytes| && line == LineAt(bytes, pos) && col == ColAt(bytes, pos)
    }

    /** The error a fault at `at` is reported as. */
    ghost function Reported(f: Fault, at: nat): (Fault, nat, nat)
      requires at <= |bytes|
    {
      (f, LineAt(bytes, at), ColAt(bytes, at))
    }

    /** A method's outcome is what the reading function says: the value and the
        new position, or the fault at the position where reading stopped. */
    ghost predicate Agrees<T>(r: Parsed<T>, want: Read<T>)
      reads this
    {
      match want
      case Got(v, next) => r == Ok(v) && pos == next
      case Fail(f, at) => r.Err? && at <= |bytes| && (r.fault, r.line, r.col) == Reported(f, at)
    }

    function Peek(): (r: int)
      requires pos <= |bytes|
      reads this
    {
      if pos < |bytes| then bytes[pos] else -1
    }

    method Bump() returns (r: int)
      requires Valid()
      modifies this
      ensures Valid()
      ensures if old(pos) < |bytes| then r == bytes[old(pos)] && pos == old(pos) + 1 else r == -1 && pos == old(pos)
    {
      if pos >= |bytes| {
        return -1;
      }
      r := bytes[pos];
      pos := pos + 1;
      if r == NEWLINE {
        line := line + 1;
        col := 1;
      } else {
        col := col + 1;
      }
    }

    method SkipWhite()
      requires Valid()
      modifies this
      ensures Valid() && pos == SkipWs(bytes, old(pos))
    {
      while pos < |bytes| && IsWs(bytes[pos])
        invariant Valid() && SkipWs(bytes, pos) == SkipWs(bytes, old(pos))
        decreases |bytes| - pos
      {
        var _ := Bump();
      }
    }

    method ParseByte(c: Byte) returns (r: Parsed<()>)
      requires Valid()
      modifies this
      ensures Valid() && Agrees(r, Expect(bytes, old(pos), c))
    {
      if Peek() == c {
        var _ := Bump();
        r := Ok(());
      } else {
        r := Err(Expected(c), line, col);
      }
    }

    method ParseLiteral(lit: seq<Byte>) returns (r: Parsed<()>)
      requires Valid()
      modifies this
      ensures Valid() && Agrees(r, Literal(bytes, old(pos), lit))
    {
      for i := 0 to |lit|
        invariant Valid() && Literal(bytes, pos, lit[i..]) == Literal(bytes, old(pos), lit)
      {
        assert lit[i..][1..] == lit[i + 1..];
        var c := Bump();
        if c != lit[i] {
          return Err(ExpectedLiteral, line, col);
        }
      }
      r := Ok(());
    }

    method ParseNumber() returns (r: Parsed<Json>)
      requires Valid() && pos < |bytes|
      modifies this
      ensures Valid() && Agrees(r, NumberAt(bytes, old(pos)))
    {
      hide LineAt, ColAt, DigitsValue;
      var neg := Peek() == MINUS;
      if neg {
        var _ := Bump();
      }
      var start := pos;
      ghost var to := SkipDigits(bytes, start);
      while pos < |bytes| && IsDigit(bytes[pos])
        invariant Valid() && start <= pos <= to && SkipDigits(bytes, pos) == to
        decreases |bytes| - pos
      {
        var _ := Bump();
      }
      if pos == start {
        return Err(InvalidNumber, line, col);
      }
      if Peek() == 46 || Peek() == 101 || Peek() == 69 {
        return Err(FloatNotSupported, line, col);
      }
      var digits := bytes[start..pos];
      var n := NumberValue(neg, digits);
      if !IsI64(n) {
        return Err(IntegerOverflow, line, col);
      }
      r := Ok(Int(n));
    }

    method ParseHex4() returns (r: Parsed<nat>)
      requires Valid()
      modifies this
      ensures Valid() && Agrees(r, Hex4At(bytes, old(pos)))
      ensures r.Ok? ==> r.value < 0x10000
    {
      hide LineAt, ColAt, HexValue, HexPrefix, Hex4Value, ReadHex;
      var cp: nat := 0;
      ghost var done: seq<Byte> := [];
      PrependTwice([], [], ReadHex(bytes, pos, 4));
      HexPrefixFull([]);
      for i := 0 to 4
        invariant Valid() && |done| == i && forall j :: 0 <= j < i ==> IsHex(done[j])
        invariant cp == HexPrefix(done)
        invariant ReadHex(bytes, old(pos), 4) == Prepend(done, ReadHex(bytes, pos, 4 - i))
      {
        HexStep(bytes, pos, 4 - i);
        var d := Bump();
        if d == -1 {
          return Err(UnterminatedUnicode, line, col);
        }
        if !IsHex(d) {
          return Err(InvalidHexDigit, line, col);
        }
        cp := cp * 16 + HexValue(d);
        HexPrefixStep(done, d);
        PrependTwice(done, [d], ReadHex(bytes, pos, 3 - i));
        done := done + [d];
      }
      HexPrefixFull(done);
      HexEnd(bytes, pos);
      assert done + [] == done;
      r := Ok(cp);
    }

    /** The escape after `\\u`. The code point that is encoded is always a
        scalar value, so `char::from_u32` does not fail on it. */
    method ParseUnicode() returns (r: Parsed<seq<Byte>>)
      requires Valid()
      modifies this
      ensures Valid() && Agrees(r, UnicodeAt(bytes, old(pos)))
    {
      hide LineAt, ColAt, ReadHex, Hex4Value, Utf8;
      var h := ParseHex4();
      if h.Err? {
        return Err(h.fault, h.line, h.col);
      }
      var cp := h.value;
      if 0xD800 <= cp <= 0xDBFF {
        var c := Bump();
        if c != BACKSLASH {
          return Err(NotFollowedByLow, line, col);
        }
        c := Bump();
        if c != LOWER_U {
          return Err(NotFollowedByLow, line, col);
        }
        var l := ParseHex4();
        if l.Err? {
          return Err(l.fault, l.line, l.col);
        }
        var low := l.value;
        if !(0xDC00 <= low <= 0xDFFF) {
          return Err(InvalidLow, line, col);
        }
        cp := 0x10000 + (cp - 0xD800) * 1024 + (low - 0xDC00);
      } else if 0xDC00 <= cp <= 0xDFFF {
        return Err(UnpairedLow, line, col);
      }
      assert IsScalar(cp);
      r := Ok(Utf8(cp));
    }

    /** The escape after a backslash. */
    method ParseEscape() returns (r: Parsed<seq<Byte>>)
      requires Valid() && 0 < pos && bytes[pos - 1] == BACKSLASH
      modifies this
      ensures Valid() && Agrees(r, PieceAt(bytes, old(pos) - 1))
    {
      hide LineAt, ColAt, ReadUnicode;
      var c := Bump();
      if c == -1 {
        return Err(UnterminatedEscape, line, col);
      }
      if c == LOWER_U {
        r := ParseUnicode();
      } else if c == QUOTE || c == BACKSLASH || c == SLASH {
        r := Ok([c]);
      } else if c == 110 {
        r := Ok([10]);
      } else if c == 116 {
        r := Ok([9]);
      } else if c == 114 {
        r := Ok([13]);
      } else if c == 98 {
        r := Ok([8]);
      } else if c == 102 {
        r := Ok([12]);
      } else {
        r := Err(InvalidEscape, line, col);
      }
    }

    method ParseString() returns (r: Parsed<seq<Byte>>)
      requires Valid()
      modifies this
      ensures Valid() && Agrees(r, StringAt(bytes, old(pos)))
    {
      hide LineAt, ColAt, PieceAt, PiecesAt, StringAt;
      StringAtStep(bytes, pos);
      var open := ParseByte(QUOTE);
      if open.Err? {
        return Err(open.fault, open.line, open.col);
      }
      var buf: seq<Byte> := [];
      PrependTwice([], [], PiecesAt(bytes, pos));
      while true
        invariant Valid() && old(pos) < pos
        invariant PiecesAt(bytes, old(pos) + 1) == Prepend(buf, PiecesAt(bytes, pos))
        decreases |bytes| - pos
      {
        PiecesAtStep(bytes, pos);
        var c := Bump();
        if c == -1 {
          return Err(UnterminatedString, line, col);
        } else if c == QUOTE {
          break;
        } else if c == BACKSLASH {
          var e := ParseEscape();
          if e.Err? {
            return Err(e.fault, e.line, e.col);
          }
          PrependTwice(buf, e.value, PiecesAt(bytes, pos));
          buf := buf + e.value;
        } else if c == 0 {
          return Err(NulByte, line, col);
        } else {
          PrependTwice(buf, [c], PiecesAt(bytes, pos));
          buf := buf + [c];
        }
      }
      assert buf + [] == buf;
      if 0 in buf {
        return Err(InteriorNul, line, col);
      }
      r := Ok(buf);
    }

    method ParseValue() returns (r: Parsed<Json>)
      requires Valid()
      modifies this
      ensures Valid() && Agrees(r, ValueAt(bytes, old(pos)))
      decreases |bytes| - pos, 1
    {
      hide LineAt, ColAt, ReadArray, ReadObject, ReadString, ReadNumber, Literal, SkipWs;
      SkipWhite();
      if pos >= |bytes| {
        r := Err(UnexpectedEof, line, col);
      } else if bytes[pos] == LBRACE {
        r := ParseObject();
      } else if bytes[pos] == LBRACKET {
        r := ParseArray();
      } else if bytes[pos] == QUOTE {
        var s := ParseString();
        r := if s.Ok? then Ok(Str(s.value)) else Err(s.fault, s.line, s.col);
      } else if bytes[pos] == 116 {
        var t := ParseLiteral(TRUE);
        r := if t.Ok? then Ok(Bool(true)) else Err(t.fault, t.line, t.col);
      } else if bytes[pos] == 102 {
        var t := ParseLiteral(FALSE);
        r := if t.Ok? then Ok(Bool(false)) else Err(t.fault, t.line, t.col);
      } else if bytes[pos] == 110 {
        var t := ParseLiteral(NULL);
        r := if t.Ok? then Ok(Null) else Err(t.fault, t.line, t.col);
      } else if bytes[pos] == MINUS || IsDigit(bytes[pos]) {
        r := ParseNumber();
      } else {
        r := Err(UnexpectedCharacter, line, col);
      }
    }

    method ParseArray() returns (r: Parsed<Json>)
      requires Valid() && At(bytes, pos, LBRACKET)
      modifies this
      ensures Valid() && Agrees(r, ArrayAt(bytes, old(pos)))
      decreases |bytes| - pos, 0
    {
      hide LineAt, ColAt, SkipWs, ArrayAt, ElementsAt, ValueAt;
      ArrayAtStep(bytes, pos);
      var _ := ParseByte(LBRACKET);
      var items: seq<Json> := [];
      SkipWhite();
      if Peek() == RBRACKET {
        var _ := Bump();
        return Ok(Array(items));
      }
      ghost var from := pos;
      PrependTwice([], [], ElementsAt(bytes, pos));
      while true
        invariant Valid() && old(pos) < from <= pos
        invariant ElementsAt(bytes, from) == Prepend(items, ElementsAt(bytes, pos))
        decreases |bytes| - pos
      {
        ElementsAtStep(bytes, pos);
        ValueAtMoves(bytes, pos);
        var v := ParseValue();
        if v.Err? {
          return v;
        }
        ghost var was := items;
        items := items + [v.value];
        SkipWhite();
        if Peek() == COMMA {
          var _ := Bump();
          PrependTwice(was, [v.value], ElementsAt(bytes, pos));
        } else if Peek() == RBRACKET {
          var _ := Bump();
          break;
        } else if pos < |bytes| {
          return Err(ArrayDelimiter, line, col);
        } else {
          return Err(UnterminatedArray, line, col);
        }
      }
      r := Ok(Array(items));
    }

    /** A name, its colon and its value. */
    method ParseMember() returns (r: Parsed<(seq<Byte>, Json)>)
      requires Valid()
      modifies this
      ensures Valid() && Agrees(r, MemberAt(bytes, old(pos)))
      decreases |bytes| - pos, 2
    {
      hide LineAt, ColAt, SkipWs, ValueAt, StringAt;
      SkipWhite();
      StringAtMoves(bytes, pos);
      var key := ParseString();
      if key.Err? {
        return Err(key.fault, key.line, key.col);
      }
      SkipWhite();
      var colon := ParseByte(COLON);
      if colon.Err? {
        return Err(colon.fault, colon.line, colon.col);
      }
      ValueAtMoves(bytes, pos);
      var v := ParseValue();
      r := if v.Ok? then Ok((key.value, v.value)) else Err(v.fault, v.line, v.col);
    }

    method ParseObject() returns (r: Parsed<Json>)
      requires Valid() && At(bytes, pos, LBRACE)
      modifies this
      ensures Valid() && Agrees(r, ObjectAt(bytes, old(pos)))
      decreases |bytes| - pos, 0
    {
      hide LineAt, ColAt, SkipWs, ObjectAt, MembersAt, MemberAt;
      ObjectAtStep(bytes, pos);
      var _ := ParseByte(LBRACE);
      var items: seq<(seq<Byte>, Json)> := [];
      SkipWhite();
      if Peek() == RBRACE {
        var _ := Bump();
        return Ok(Object(items));
      }
      ghost var from := pos;
      PrependTwice([], [], MembersAt(bytes, pos));
      while true
        invariant Valid() && old(pos) < from <= pos
        invariant MembersAt(bytes, from) == Prepend(items, MembersAt(bytes, pos))
        decreases |bytes| - pos
      {
        MembersAtStep(bytes, pos);
        var m := ParseMember();
        if m.Err? {
          return Err(m.fault, m.line, m.col);
        }
        ghost var was := items;
        items := items + [m.value];
        SkipWhite();
        if Peek() == COMMA {
          var _ := Bump();
          PrependTwice(was, [m.value], MembersAt(bytes, pos));
        } else if Peek() == RBRACE {
          var _ := Bump();
          break;
        } else if pos < |bytes| {
          return Err(ObjectDelimiter, line, col);
        } else {
          return Err(UnterminatedObject, line, col);
        }
      }
      r := Ok(Object(items));
    }

    method ParseDocument() returns (r: Parsed<Json>)
      requires Valid() && pos == 0
      modifies this
      ensures Valid() && r == DocumentResult(bytes)
    {
      hide LineAt, ColAt, SkipWs, ReadValue;
      var v := ParseValue();
      if v.Err? {
        return v;
      }
      SkipWhite();
      if pos < |bytes| {
        return Err(TrailingContent, line, col);
      }
      r := v;
    }
  }

  /** What `parse_document` returns: the value rendered, or the fault with the
      line and column of the position where reading stopped. */
  function DocumentResult(b: seq<Byte>): Parsed<Json> {
    match ReadDocument(b)
    case Got(e, _) => Ok(Value(e.value))
    case Fail(f, at) => Err(f, LineAt(b, at), ColAt(b, at))
  }

  lemma ValueAtMoves(b: seq<Byte>, pos: nat)
    requires pos <= |b|
    ensures ValueAt(b, pos).Got? ==> pos < ValueAt(b, pos).next <= |b|
  {
    hide ReadValue, Value;
  }

  lemma StringAtMoves(b: seq<Byte>, pos: nat)
    requires pos <= |b|
    ensures StringAt(b, pos).Got? ==> pos < StringAt(b, pos).next <= |b|
  {
    hide ReadString, PiecesValue;
  }

  /** `tyra_json_parse` up to the node tree. A rendering of a value parses to
      that value, whatever white space, digits and escapes it uses; a text
      that parses is a rendering of the result. */
  method Parse(text: seq<Byte>) returns (r: Parsed<Json>)
    ensures forall e :: ElementsOk([e]) && text == ElementBytes(e) ==> r == Ok(Value(e.value))
    ensures r.Ok? ==> exists e :: ElementsOk([e]) && text == ElementBytes(e) && r.value == Value(e.value)
    ensures r == DocumentResult(text)
  {
    hide ElementBytes, Value, TextOk;
    var p := new Parser(text);
    r := p.ParseDocument();
    forall e | ElementsOk([e]) && text == ElementBytes(e)
      ensures r == Ok(Value(e.value))
    {
      DocumentExactly(text, e);
    }
    if r.Ok? {
      DocumentExactly(text, ReadDocument(text).val);
    }
  }

  lemma HexStep(b: seq<Byte>, pos: nat, n: nat)
    requires pos <= |b| && n > 0
    ensures ReadHex(b, pos, n) ==
      if pos >= |b| then Fail(UnterminatedUnicode, pos)
      else if !IsHex(b[pos]) then Fail(InvalidHexDigit, pos + 1)
      else Prepend([b[pos]], ReadHex(b, pos + 1, n - 1))
  {
  }

  lemma HexEnd(b: seq<Byte>, pos: nat)
    requires pos <= |b|
    ensures ReadHex(b, pos, 0) == Got([], pos)
  {
  }

  function HexPrefix(h: seq<Byte>): nat
    requires forall j :: 0 <= j < |h| ==> IsHex(h[j])
  {
    if |h| == 0 then 0 else HexPrefix(h[..|h| - 1]) * 16 + HexValue(h[|h| - 1])
  }

  lemma HexPrefixStep(h: seq<Byte>, d: Byte)
    requires (forall j :: 0 <= j < |h| ==> IsHex(h[j])) && IsHex(d)
    ensures HexPrefix(h + [d]) == HexPrefix(h) * 16 + HexValue(d)
  {
    assert (h + [d])[..|h|] == h;
  }

  lemma HexPrefixFull(h: seq<Byte>)
    requires h == [] || IsHex4(h)
    ensures HexPrefix(h) == if h == [] then 0 else Hex4Value(h)
  {
    if h == [] {
      return;
    }
    assert h == [] + [h[0]] + [h[1]] + [h[2]] + [h[3]];
    HexPrefixStep([], h[0]);
    HexPrefixStep([] + [h[0]], h[1]);
    HexPrefixStep([] + [h[0]] + [h[1]], h[2]);
    HexPrefixStep([] + [h[0]] + [h[1]] + [h[2]], h[3]);
  }
}
