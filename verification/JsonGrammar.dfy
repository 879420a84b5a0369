/** JSON as RFC 8259 has it, apart from what the parser accepts: the grammar,
    what of it the parser cannot hold, and a scan of the bytes for what the
    parser lets through beyond it. */
module JsonGrammar {
  import opened Octets
  import opened JsonSyntax
  import opened JsonLaws
  import opened JsonRoundTrip
  import opened JsonUnicode

  // ----- the grammar (RFC 8259, sections 2 to 8)

  /** Section 7: `char`. Every `\u` escape stands alone. */
  predicate RfcPiece(p: Piece) {
    match p
    case Raw(b) => b >= 32 && b != QUOTE && b != BACKSLASH
    case Escaped(c) => IsEscape(c)
    case Unicode(h) => IsHex4(h)
    case Surrogates(_, _) => false
  }

  predicate RfcPieces(ps: seq<Piece>) {
    forall i :: 0 <= i < |ps| ==> RfcPiece(ps[i])
  }

  /** Section 6: `int`. */
  predicate RfcInt(ds: seq<Byte>) {
    |ds| > 0 && AllDigits(ds) && (|ds| > 1 ==> ds[0] != 48)
  }

  /** `frac`, or nothing. */
  predicate RfcFrac(f: seq<Byte>) {
    |f| > 0 ==> f[0] == 46 && |f| > 1 && AllDigits(f[1..])
  }

  /** `exp`, or nothing. */
  predicate RfcExp(x: seq<Byte>) {
    |x| > 0 ==>
      && (x[0] == 101 || x[0] == 69) && |x| > 1
      && var ds := if x[1] == 43 || x[1] == MINUS then x[2..] else x[1..]; |ds| > 0 && AllDigits(ds)
  }

  predicate Rfc(t: Text) {
    match t
    case NullText => true
    case TrueText => true
    case FalseText => true
    case NumberText(_, ds) => RfcInt(ds)
    case DecimalText(_, ds, frac, exp) => RfcInt(ds) && RfcFrac(frac) && RfcExp(exp) && |frac| + |exp| > 0
    case StrText(ps) => RfcPieces(ps)
    case EmptyArray(ws) => AllWs(ws)
    case ArrayText(es) => |es| > 0 && RfcElements(es)
    case EmptyObject(ws) => AllWs(ws)
    case ObjectText(ms) => |ms| > 0 && RfcMembers(ms)
  }

  predicate RfcElements(es: seq<Element>) {
    |es| == 0 || (AllWs(es[0].before) && Rfc(es[0].value) && AllWs(es[0].after) && RfcElements(es[1..]))
  }

  predicate RfcMembers(ms: seq<Member>) {
    |ms| == 0 ||
      (&& AllWs(ms[0].before) && RfcPieces(ms[0].name) && AllWs(ms[0].gap)
       && AllWs(ms[0].lead) && Rfc(ms[0].value) && AllWs(ms[0].after)
       && RfcMembers(ms[1..]))
  }

  /** Sections 2 and 8.1: a text in UTF-8 with one value. */
  ghost predicate RfcDocument(b: seq<Byte>) {
    ValidUtf8(b) && exists e :: RfcElements([e]) && ElementBytes(e) == b
  }

  // ----- what the parser cannot hold

  predicate HighUnit(p: Piece) {
    p.Unicode? && IsHex4(p.h) && IsHigh(Hex4Value(p.h))
  }

  predicate LowUnit(p: Piece) {
    p.Unicode? && IsHex4(p.h) && IsLow(Hex4Value(p.h))
  }

  /** Every surrogate escape has its other half beside it. */
  predicate Paired(ps: seq<Piece>) {
    && (forall i :: 0 <= i < |ps| && HighUnit(ps[i]) ==> i + 1 < |ps| && LowUnit(ps[i + 1]))
    && (forall i :: 0 <= i < |ps| && LowUnit(ps[i]) ==> i > 0 && HighUnit(ps[i - 1]))
  }

  predicate IsNul(p: Piece) {
    p.Unicode? && IsHex4(p.h) && Hex4Value(p.h) == 0
  }

  /** No escape stands for NUL. */
  predicate NulFree(ps: seq<Piece>) {
    forall i :: 0 <= i < |ps| ==> !IsNul(ps[i])
  }

  /** No fraction or exponent, no integer outside an `i64`, no surrogate
      without its other half, no NUL. */
  predicate Fits(t: Text)
    requires Rfc(t)
  {
    match t
    case NumberText(neg, ds) => IsI64(NumberValue(neg, ds))
    case DecimalText(_, _, _, _) => false
    case StrText(ps) => Paired(ps) && NulFree(ps)
    case ArrayText(es) => ElementsFit(es)
    case ObjectText(ms) => MembersFit(ms)
    case _ => true
  }

  predicate ElementsFit(es: seq<Element>)
    requires RfcElements(es)
  {
    |es| == 0 || (Fits(es[0].value) && ElementsFit(es[1..]))
  }

  predicate MembersFit(ms: seq<Member>)
    requires RfcMembers(ms)
  {
    |ms| == 0 || (Paired(ms[0].name) && NulFree(ms[0].name) && Fits(ms[0].value) && MembersFit(ms[1..]))
  }

  // ----- surrogate pairs as one piece, or as two

  datatype Form = Together | Apart

  function Spell(form: Form, ps: seq<Piece>): seq<Piece> {
    if |ps| == 0 then []
    else if form.Together? && |ps| > 1 && HighUnit(ps[0]) && LowUnit(ps[1]) then
      [Surrogates(ps[0].h, ps[1].h)] + Spell(form, ps[2..])
    else if form.Apart? && ps[0].Surrogates? then
      [Unicode(ps[0].high), Unicode(ps[0].low)] + Spell(form, ps[1..])
    else [ps[0]] + Spell(form, ps[1..])
  }

  function Recast(form: Form, t: Text): Text {
    match t
    case StrText(ps) => StrText(Spell(form, ps))
    case ArrayText(es) => ArrayText(RecastElements(form, es))
    case ObjectText(ms) => ObjectText(RecastMembers(form, ms))
    case _ => t
  }

  function RecastElements(form: Form, es: seq<Element>): (r: seq<Element>)
    ensures |r| == |es|
  {
    if |es| == 0 then []
    else [Element(es[0].before, Recast(form, es[0].value), es[0].after)] + RecastElements(form, es[1..])
  }

  function RecastMember(form: Form, m: Member): Member {
    Member(m.before, Spell(form, m.name), m.gap, m.lead, Recast(form, m.value), m.after)
  }

  function RecastMembers(form: Form, ms: seq<Member>): (r: seq<Member>)
    ensures |r| == |ms|
  {
    if |ms| == 0 then [] else [RecastMember(form, ms[0])] + RecastMembers(form, ms[1..])
  }

  lemma PiecesTextStep(p: Piece, ps: seq<Piece>)
    ensures PiecesText([p] + ps) == PieceText(p) + PiecesText(ps)
  {
    assert ([p] + ps)[1..] == ps;
  }

  /** Either way the bytes are the same. */
  lemma {:induction false} SpellText(form: Form, ps: seq<Piece>)
    ensures PiecesText(Spell(form, ps)) == PiecesText(ps)
    decreases |ps|
  {
    hide PiecesText, PieceText, HighUnit, LowUnit;
    if |ps| == 0 {
    } else if form.Together? && |ps| > 1 && HighUnit(ps[0]) && LowUnit(ps[1]) {
      SpellText(form, ps[2..]);
      UnitIsUnicode(ps[0], ps[1]);
      PairText(ps[0].h, ps[1].h, ps[2..]);
      assert ps == [ps[0], ps[1]] + ps[2..];
      PiecesTextStep(Surrogates(ps[0].h, ps[1].h), Spell(form, ps[2..]));
    } else if form.Apart? && ps[0].Surrogates? {
      SpellText(form, ps[1..]);
      PairText(ps[0].high, ps[0].low, Spell(form, ps[1..]));
      PiecesTextStep(ps[0], ps[1..]);
      assert ps == [ps[0]] + ps[1..];
    } else {
      SpellText(form, ps[1..]);
      PiecesTextStep(ps[0], ps[1..]);
      PiecesTextStep(ps[0], Spell(form, ps[1..]));
      assert ps == [ps[0]] + ps[1..];
    }
  }

  lemma UnitIsUnicode(p: Piece, q: Piece)
    requires HighUnit(p) && LowUnit(q)
    ensures p.Unicode? && q.Unicode?
  {
  }

  lemma PairText(h: seq<Byte>, l: seq<Byte>, ps: seq<Piece>)
    ensures PiecesText([Unicode(h), Unicode(l)] + ps) == PieceText(Surrogates(h, l)) + PiecesText(ps)
  {
    PiecesTextStep(Unicode(l), ps);
    PiecesTextStep(Unicode(h), [Unicode(l)] + ps);
    assert [Unicode(h)] + ([Unicode(l)] + ps) == [Unicode(h), Unicode(l)] + ps;
  }

  lemma {:induction false} RecastBytes(form: Form, t: Text)
    ensures Bytes(Recast(form, t)) == Bytes(t)
    decreases t, 0
  {
    hide ElementsBytes, MembersBytes, PiecesText, Spell;
    match t
    case StrText(ps) => SpellText(form, ps);
    case ArrayText(es) => RecastElementsBytes(form, es);
    case ObjectText(ms) => RecastMembersBytes(form, ms);
    case _ =>
  }

  lemma {:induction false} RecastElementsBytes(form: Form, es: seq<Element>)
    ensures ElementsBytes(RecastElements(form, es)) == ElementsBytes(es)
    decreases es, 1, |es|
  {
    hide Bytes, Recast;
    if |es| > 0 {
      RecastBytes(form, es[0].value);
      RecastElementsBytes(form, es[1..]);
      assert RecastElements(form, es)[1..] == RecastElements(form, es[1..]);
    }
  }

  lemma {:induction false} RecastMemberBytes(form: Form, m: Member)
    ensures MemberBytes(RecastMember(form, m)) == MemberBytes(m)
    decreases m, 1
  {
    hide Bytes, Recast, Spell, PiecesText;
    SpellText(form, m.name);
    RecastBytes(form, m.value);
  }

  lemma {:induction false} RecastMembersBytes(form: Form, ms: seq<Member>)
    ensures MembersBytes(RecastMembers(form, ms)) == MembersBytes(ms)
    decreases ms, 1, |ms|
  {
    hide MemberBytes, RecastMember, MembersBytes;
    if |ms| > 0 {
      RecastMemberBytes(form, ms[0]);
      RecastMembersBytes(form, ms[1..]);
      assert RecastMembers(form, ms)[1..] == RecastMembers(form, ms[1..]);
      MembersUnfold(ms);
      MembersUnfold(RecastMembers(form, ms));
    }
  }

  // ----- a scan for what the parser lets through

  /** Where a scan stands: outside strings, right after a leading zero, among
      other digits, inside a string, after a backslash, or stopped. */
  datatype Mode = Between | Zero | Digits | Inside | Escape | Stopped

  function ScanOutside(c: Byte): Mode {
    if c == QUOTE then Inside else if c == 48 then Zero else if IsDigit(c) then Digits else Between
  }

  function Scan(m: Mode, c: Byte): Mode {
    match m
    case Between => ScanOutside(c)
    case Zero => if IsDigit(c) then Stopped else ScanOutside(c)
    case Digits => if IsDigit(c) then Digits else ScanOutside(c)
    case Inside => if c == QUOTE then Between else if c == BACKSLASH then Escape else if c < 32 then Stopped else Inside
    case Escape => Inside
    case Stopped => Stopped
  }

  function Scanned(m: Mode, b: seq<Byte>): Mode
    decreases |b|
  {
    if |b| == 0 then m else Scanned(Scan(m, b[0]), b[1..])
  }

  /** The scan meets no leading zero, and no control character in a string. */
  predicate Tidy(b: seq<Byte>) {
    Scanned(Between, b) != Stopped
  }
}
