/** The challenge payload and its JSON text: as `json.Marshal` prints it, with
    fields in declaration order and empty `ctx` and `cid` omitted, and as
    `json.Unmarshal` reads it into the struct. */
module ChallengeJson {
  import opened GoBytes
  import opened Utf8
  import opened Json

  datatype Payload = Payload(ts: int64, exp: int64, diff: uint64, salt: Bytes, ctx: Bytes, cid: Bytes)

  const ZERO := Payload(0, 0, 0, [], [], [])

  const TS := Ascii("ts")
  const EXP := Ascii("exp")
  const DIFF := Ascii("diff")
  const SALT := Ascii("salt")
  const CTX := Ascii("ctx")
  const CID := Ascii("cid")

  // -------------------------------------------------------------- printing

  function HexDigit(v: nat): byte
    requires v < 16
  {
    if v < 10 then '0' as int + v else 'a' as int + v - 10
  }

  /** The letter of a two-character escape, or 0. */
  function ShortEscape(b: byte): byte {
    if b == QUOTE || b == BACKSLASH then b
    else if b == 8 then 'b' as int
    else if b == 9 then 't' as int
    else if b == 10 then 'n' as int
    else if b == 12 then 'f' as int
    else if b == 13 then 'r' as int
    else 0
  }

  /** An ASCII byte inside a JSON string; `<`, `>`, `&` and the remaining control
      characters take the six-character form. */
  function EscapeByte(b: byte): (s: Bytes)
    ensures |s| > 0
  {
    if ShortEscape(b) != 0 then [BACKSLASH, ShortEscape(b)]
    else if b < 32 || b == '<' as int || b == '>' as int || b == '&' as int then
      [BACKSLASH, 'u' as int, '0' as int, '0' as int, HexDigit(b / 16), HexDigit(b % 16)]
    else [b]
  }

  const REPLACED := Ascii("\\ufffd")
  const LINE_SEPARATOR: Bytes := [0xE2, 0x80, 0xA8]
  const PARAGRAPH_SEPARATOR: Bytes := [0xE2, 0x80, 0xA9]

  /** A rune past ASCII: two of them are escaped for JavaScript. */
  function EscapeRune(r: Bytes): Bytes {
    if r == LINE_SEPARATOR then Ascii("\\u2028")
    else if r == PARAGRAPH_SEPARATOR then Ascii("\\u2029")
    else r
  }

  function Escape(s: Bytes): (e: Bytes)
    ensures |e| >= |s|
  {
    if |s| == 0 then []
    else if s[0] < 0x80 then EscapeByte(s[0]) + Escape(s[1..])
    else if RuneLen(s) == 0 then REPLACED + Escape(s[1..])
    else EscapeRune(s[..RuneLen(s)]) + Escape(s[RuneLen(s)..])
  }

  function PrintString(s: Bytes): Bytes { [QUOTE] + (Escape(s) + [QUOTE]) }

  /** Payload fields are numbers and strings. */
  function PrintValue(v: Value): Bytes {
    match v
    case Number(t) => t
    case Text(s) => PrintString(s)
    case _ => Ascii("null")
  }

  function PrintMember(m: (Bytes, Value)): Bytes { PrintString(m.0) + ([COLON] + PrintValue(m.1)) }

  function PrintMembers(ms: seq<(Bytes, Value)>): Bytes {
    if |ms| == 0 then []
    else if |ms| == 1 then PrintMember(ms[0])
    else PrintMember(ms[0]) + ([COMMA] + PrintMembers(ms[1..]))
  }

  function Fields(p: Payload): seq<(Bytes, Value)> {
    [(TS, Number(Itoa(p.ts))), (EXP, Number(Itoa(p.exp))), (DIFF, Number(Decimal(p.diff))), (SALT, Text(p.salt))]
    + (if p.ctx == [] then [] else [(CTX, Text(p.ctx))])
    + (if p.cid == [] then [] else [(CID, Text(p.cid))])
  }

  /** `json.Marshal` of a payload. */
  function Marshal(p: Payload): Bytes { [OPEN] + (PrintMembers(Fields(p)) + [CLOSE]) }

  // --------------------------------------------------------------- reading

  /** Keys match without regard to case; U+017F folds to `s`. */
  function FoldKey(s: Bytes): Bytes {
    if |s| == 0 then []
    else if |s| >= 2 && s[0] == 0xC5 && s[1] == 0xBF then ['s' as int] + FoldKey(s[2..])
    else [LowerByte(s[0])] + FoldKey(s[1..])
  }

  const NAMES := [TS, EXP, DIFF, SALT, CTX, CID]

  /** The field among `names` that a key stands for, if any. */
  function FieldName(key: Bytes, names: seq<Bytes>): Bytes { if key in names then key else FoldKey(key) }

  function IntField(v: Value, current: int64): Option<int64> {
    match v
    case Null => Some(current)
    case Number(t) => ParseInt(t)
    case _ => None
  }

  function UintField(v: Value, current: uint64): Option<uint64> {
    match v
    case Null => Some(current)
    case Number(t) => (match ParseUint(t, U64) case Some(n) => Some(n) case None => None)
    case _ => None
  }

  function StringField(v: Value, current: Bytes): Option<Bytes> {
    match v
    case Null => Some(current)
    case Text(s) => Some(s)
    case _ => None
  }

  /** One member into the struct: `null` leaves a field as it is, a value of the
      wrong type is an error, an unknown key is ignored. */
  function Assign(p: Payload, key: Bytes, v: Value): Option<Payload> {
    var name := FieldName(key, NAMES);
    if name == TS then
      var x :- IntField(v, p.ts);
      Some(p.(ts := x))
    else if name == EXP then
      var x :- IntField(v, p.exp);
      Some(p.(exp := x))
    else if name == DIFF then
      var x :- UintField(v, p.diff);
      Some(p.(diff := x))
    else if name == SALT then
      var x :- StringField(v, p.salt);
      Some(p.(salt := x))
    else if name == CTX then
      var x :- StringField(v, p.ctx);
      Some(p.(ctx := x))
    else if name == CID then
      var x :- StringField(v, p.cid);
      Some(p.(cid := x))
    else Some(p)
  }

  function AssignAll(p: Payload, ms: seq<(Bytes, Value)>): Option<Payload>
    decreases |ms|
  {
    if |ms| == 0 then Some(p)
    else
      var q :- Assign(p, ms[0].0, ms[0].1);
      AssignAll(q, ms[1..])
  }

  /** `json.Unmarshal` into an empty payload; None stands for any error. */
  function Unmarshal(b: Bytes): Option<Payload> {
    var v :- Parse(b);
    match v
    case Null => Some(ZERO)
    case Object(fields) => AssignAll(ZERO, fields)
    case _ => None
  }

  // ------------------------------------------------------ strings read back

  lemma TakeEscapedByte(b: byte, rest: Bytes)
    requires b < 0x80
    ensures TakeChar(EscapeByte(b) + rest) == Some(([b], |EscapeByte(b)|))
    ensures EscapeByte(b)[0] != QUOTE
  {
    var e := EscapeByte(b);
    if |e| == 6 {
      var s := e + rest;
      assert b / 16 * 16 + b % 16 == b;
      assert CodeUnit(s) == b;
      assert EncodeRune(b) == [b];
    }
  }

  lemma TakeReplaced(rest: Bytes)
    ensures TakeChar(REPLACED + rest) == Some((REPLACEMENT, 6)) && |REPLACED| == 6 && REPLACED[0] != QUOTE
  {
    var s := REPLACED + rest;
    assert CodeUnit(s) == 0xFFFD;
    assert EncodeRune(0xFFFD) == REPLACEMENT;
  }

  lemma TakeSeparators(rest: Bytes)
    ensures TakeChar(Ascii("\\u2028") + rest) == Some((LINE_SEPARATOR, 6))
    ensures TakeChar(Ascii("\\u2029") + rest) == Some((PARAGRAPH_SEPARATOR, 6))
  {
    assert CodeUnit(Ascii("\\u2028") + rest) == 0x2028 && CodeUnit(Ascii("\\u2029") + rest) == 0x2029;
  }

  /** One character and then the rest of a body. */
  lemma TakeOne(e: Bytes, b: Bytes, rest: Bytes)
    requires |e| > 0 && e[0] != QUOTE && TakeChar(e + rest) == Some((b, |e|))
    ensures TakeBody(e + rest) == match TakeBody(rest) case None => None case Some(r) => Some((b + r.0, r.1))
  {
    hide TakeChar;
    var s := e + rest;
    assert s[|e|..] == rest && s[0] == e[0];
  }

  lemma {:induction false} TakeRaw(r: Bytes, rest: Bytes)
    requires forall i :: 0 <= i < |r| ==> r[i] >= 0x80
    ensures TakeBody(r + rest) == match TakeBody(rest) case None => None case Some(t) => Some((r + t.0, t.1))
  {
    if |r| == 0 {
      assert r + rest == rest;
      assert forall t: Bytes :: r + t == t;
    } else {
      assert r + rest == [r[0]] + (r[1..] + rest);
      TakeOne([r[0]], [r[0]], r[1..] + rest);
      TakeRaw(r[1..], rest);
      assert forall t: Bytes {:trigger r + t} :: [r[0]] + (r[1..] + t) == r + t;
    }
  }

  lemma RuneBytes(s: Bytes)
    requires |s| > 0 && s[0] >= 0x80
    ensures forall i :: 0 <= i < RuneLen(s) ==> s[i] >= 0x80
  {
  }

  lemma TakeEscapedRune(r: Bytes, rest: Bytes)
    requires |r| > 0 && forall i :: 0 <= i < |r| ==> r[i] >= 0x80
    ensures TakeBody(EscapeRune(r) + rest) == match TakeBody(rest) case None => None case Some(t) => Some((r + t.0, t.1))
  {
    hide TakeBody, TakeChar;
    if r == LINE_SEPARATOR || r == PARAGRAPH_SEPARATOR {
      TakeSeparators(rest);
      TakeOne(EscapeRune(r), r, rest);
    } else {
      TakeRaw(r, rest);
    }
  }

  /** An escaped string reads back as its clean form. */
  lemma {:induction false} TakeEscaped(s: Bytes, rest: Bytes)
    ensures TakeBody(Escape(s) + ([QUOTE] + rest)) == Some((Clean(s), rest))
  {
    hide TakeChar, EscapeByte, EscapeRune, RuneLen, TakeBody, REPLACED;
    if |s| == 0 {
      EmptyBody(rest);
    } else if s[0] < 0x80 {
      var e, tail := EscapeByte(s[0]), Escape(s[1..]) + ([QUOTE] + rest);
      Appended(e, Escape(s[1..]), [QUOTE] + rest);
      TakeEscapedByte(s[0], tail);
      TakeOne(e, [s[0]], tail);
      TakeEscaped(s[1..], rest);
      AsciiRune(s);
      assert s[..1] == [s[0]];
    } else if RuneLen(s) == 0 {
      var tail := Escape(s[1..]) + ([QUOTE] + rest);
      Appended(REPLACED, Escape(s[1..]), [QUOTE] + rest);
      TakeReplaced(tail);
      TakeOne(REPLACED, REPLACEMENT, tail);
      TakeEscaped(s[1..], rest);
    } else {
      var r, t := s[..RuneLen(s)], s[RuneLen(s)..];
      var tail := Escape(t) + ([QUOTE] + rest);
      Appended(EscapeRune(r), Escape(t), [QUOTE] + rest);
      RuneBytes(s);
      TakeEscapedRune(r, tail);
      TakeEscaped(t, rest);
    }
  }

  lemma Appended(a: Bytes, b: Bytes, c: Bytes)
    ensures a + b + c == a + (b + c)
  {
  }

  lemma EmptyBody(rest: Bytes)
    ensures TakeBody([] + ([QUOTE] + rest)) == Some(([], rest))
  {
    assert [] + ([QUOTE] + rest) == [QUOTE] + rest;
  }

  lemma AsciiRune(s: Bytes)
    requires |s| > 0 && s[0] < 0x80
    ensures RuneLen(s) == 1
  {
  }

  lemma TakePrinted(s: Bytes, rest: Bytes)
    ensures PrintString(s) + rest == [QUOTE] + (Escape(s) + ([QUOTE] + rest))
    ensures TakeString(Escape(s) + ([QUOTE] + rest)) == Some((Clean(s), rest))
  {
    hide TakeBody, Escape;
    TakeEscaped(s, rest);
    CleanTwice(s);
  }

  // ------------------------------------------------------- text read back

  lemma {:induction false} LeadingDigit(n: nat)
    ensures Decimal(n)[0] == 48 <==> n == 0
    ensures n == 0 ==> |Decimal(n)| == 1
  {
    if n >= 10 {
      LeadingDigit(n / 10);
    }
  }

  lemma CountDigits(d: Bytes, rest: Bytes)
    requires AllDigits(d) && (|rest| == 0 || !IsDigit(rest[0]))
    ensures DigitCount(d + rest) == |d|
  {
    var s, k := d + rest, DigitCount(d + rest);
    assert forall i :: 0 <= i < |d| ==> s[i] == d[i];
    assert |rest| > 0 ==> s[|d|] == rest[0];
  }

  /** What ends a printed number. */
  predicate EndsValue(rest: Bytes) { |rest| > 0 && (rest[0] == COMMA || rest[0] == CLOSE) }

  lemma DecimalLength(n: nat, rest: Bytes)
    requires EndsValue(rest)
    ensures IntLen(Decimal(n) + rest) == |Decimal(n)|
  {
    hide Decimal;
    var d := Decimal(n);
    LeadingDigit(n);
    CountDigits(d, rest);
    assert (d + rest)[0] == d[0];
  }

  lemma NumberEnds(rest: Bytes)
    requires EndsValue(rest)
    ensures FractionLen(rest) == Some(0) && ExponentLen(rest) == Some(0)
  {
    hide DigitCount;
  }

  /** The length of a number with nothing after its integer part. */
  lemma IntegerLen(s: Bytes, a: nat, b: nat)
    requires |s| > 0 && a == (if s[0] == '-' as int then 1 else 0) && a + b <= |s|
    requires b > 0 && IntLen(s[a..]) == b && EndsValue(s[a + b..])
    ensures NumberLen(s) == Some(a + b)
  {
    hide IntLen, FractionLen, ExponentLen;
    NumberEnds(s[a + b..]);
  }

  lemma TakeItoa(x: int, rest: Bytes)
    requires EndsValue(rest)
    ensures TakeNumber(Itoa(x) + rest) == Some((Itoa(x), rest))
  {
    hide Decimal, IntLen, NumberLen;
    var n := if x < 0 then -x else x;
    var d, t := Decimal(n), Itoa(x);
    var s := t + rest;
    assert IsDigit(d[0]) && s[0] == t[0];
    DecimalLength(n, rest);
    var a := if x < 0 then 1 else 0;
    assert s[a..] == d + rest;
    assert s[|t|..] == rest && s[..|t|] == t;
    IntegerLen(s, a, |d|);
  }

  lemma TakeNumberValue(x: int, rest: Bytes)
    requires EndsValue(rest)
    ensures TakeValue(Itoa(x) + rest) == Some((Number(Itoa(x)), rest))
  {
    hide Decimal, TakeNumber;
    var s := Itoa(x) + rest;
    assert IsDigit(Decimal(if x < 0 then -x else x)[0]);
    assert s[0] == Itoa(x)[0];
    PlainFront(s);
    TakeItoa(x, rest);
  }

  lemma TakeTextValue(t: Bytes, rest: Bytes)
    ensures TakeValue(PrintString(t) + rest) == Some((Text(Clean(t)), rest))
  {
    hide TakeString, Escape;
    TakePrinted(t, rest);
    var s := PrintString(t) + rest;
    PlainFront(s);
    assert s[1..] == Escape(t) + ([QUOTE] + rest);
  }

  ghost predicate Printable(v: Value) { v.Text? || (v.Number? && exists x :: v.text == Itoa(x)) }

  function CleanValue(v: Value): Value { if v.Text? then Text(Clean(v.chars)) else v }

  lemma TakePrintedMember(m: (Bytes, Value), rest: Bytes)
    requires Printable(m.1) && EndsValue(rest)
    ensures TakeMember(PrintMember(m) + rest) == Some(((Clean(m.0), CleanValue(m.1)), rest))
  {
    hide TakeString, Escape, TakeValue, Itoa;
    var v := PrintValue(m.1) + rest;
    var tail := [COLON] + v;
    TakePrinted(m.0, tail);
    var s := PrintMember(m) + rest;
    assert s == PrintString(m.0) + tail;
    assert s[0] == QUOTE && s[1..] == Escape(m.0) + ([QUOTE] + tail);
    PlainFront(tail);
    assert tail[1..] == v;
    if m.1.Text? {
      TakeTextValue(m.1.chars, rest);
    } else {
      var x :| m.1.text == Itoa(x);
      TakeNumberValue(x, rest);
    }
    PlainFront(rest);
  }

  function CleanMembers(ms: seq<(Bytes, Value)>): seq<(Bytes, Value)> {
    seq(|ms|, i requires 0 <= i < |ms| => (Clean(ms[i].0), CleanValue(ms[i].1)))
  }

  lemma {:induction false} TakePrintedMembers(ms: seq<(Bytes, Value)>, rest: Bytes)
    requires |ms| > 0 && forall i :: 0 <= i < |ms| ==> Printable(ms[i].1)
    ensures TakeMembers(PrintMembers(ms) + ([CLOSE] + rest)) == Some((CleanMembers(ms), rest))
    decreases |ms|
  {
    hide PrintMember, TakeMember, TakeMembers, SkipWhite, Clean, CleanValue, Printable;
    var m, tail := ms[0], [CLOSE] + rest;
    var c := (Clean(m.0), CleanValue(m.1));
    assert tail[1..] == rest;
    if |ms| == 1 {
      TakePrintedMember(m, tail);
      LastMember(PrintMember(m) + tail, c, tail);
      assert CleanMembers(ms) == [c];
    } else {
      var more := PrintMembers(ms[1..]) + tail;
      var after := [COMMA] + more;
      assert PrintMembers(ms) + tail == PrintMember(m) + after;
      TakePrintedMember(m, after);
      assert after[1..] == more;
      MembersStartPlain(ms[1..], tail);
      TakePrintedMembers(ms[1..], rest);
      MoreMembers(PrintMember(m) + after, c, after, CleanMembers(ms[1..]), rest);
      assert CleanMembers(ms) == [c] + CleanMembers(ms[1..]);
    }
  }

  lemma MembersStartPlain(ms: seq<(Bytes, Value)>, tail: Bytes)
    requires |ms| > 0
    ensures SkipWhite(PrintMembers(ms) + tail) == PrintMembers(ms) + tail
    ensures |PrintMembers(ms)| > 0 && PrintMembers(ms)[0] == QUOTE
  {
    hide Escape;
    PlainFront(PrintMembers(ms) + tail);
  }

  // ------------------------------------------------------ payload read back

  function Cleaned(p: Payload): Payload { p.(salt := Clean(p.salt), ctx := Clean(p.ctx), cid := Clean(p.cid)) }

  lemma FieldsArePrintable(p: Payload)
    ensures forall i :: 0 <= i < |Fields(p)| ==> Printable(Fields(p)[i].1)
  {
    hide Decimal, Itoa;
    assert Decimal(p.diff) == Itoa(p.diff) by {
      ItoaOfNat(p.diff);
    }
    assert Printable(Number(Itoa(p.ts))) && Printable(Number(Itoa(p.exp))) && Printable(Number(Itoa(p.diff)));
  }

  lemma ItoaOfNat(n: nat)
    ensures Itoa(n) == Decimal(n)
  {
  }

  lemma NamesAreValid()
    ensures Valid(TS) && Valid(EXP) && Valid(DIFF) && Valid(SALT) && Valid(CTX) && Valid(CID)
  {
    hide Clean;
    AsciiIsValid(TS);
    AsciiIsValid(EXP);
    AsciiIsValid(DIFF);
    AsciiIsValid(SALT);
    AsciiIsValid(CTX);
    AsciiIsValid(CID);
  }

  lemma NamesAreDistinct()
    ensures TS != EXP && TS != DIFF && TS != SALT && TS != CTX && TS != CID
    ensures EXP != DIFF && EXP != SALT && EXP != CTX && EXP != CID
    ensures DIFF != SALT && DIFF != CTX && DIFF != CID && SALT != CTX && SALT != CID && CTX != CID
  {
    assert EXP[0] == 101 && CTX[0] == 99 && CID[0] == 99 && CTX[1] == 116 && CID[1] == 105;
    assert DIFF[0] == 100 && SALT[0] == 115;
  }

  lemma NamesAreKnown()
    ensures TS in NAMES && EXP in NAMES && DIFF in NAMES && SALT in NAMES && CTX in NAMES && CID in NAMES
  {
    hide Ascii;
    assert TS == NAMES[0] && EXP == NAMES[1] && DIFF == NAMES[2] && SALT == NAMES[3] && CTX == NAMES[4] && CID == NAMES[5];
  }

  lemma AssignNumbers(p: Payload, x: int64, n: uint64)
    ensures Assign(p, TS, Number(Itoa(x))) == Some(p.(ts := x))
    ensures Assign(p, EXP, Number(Itoa(x))) == Some(p.(exp := x))
    ensures Assign(p, DIFF, Number(Decimal(n))) == Some(p.(diff := n))
  {
    hide Decimal, Itoa, ParseInt, ParseUint, Ascii, FoldKey, NAMES;
    NamesAreDistinct();
    NamesAreKnown();
    ParseItoa(x);
    ParseDecimal(n, U64);
  }

  lemma AssignText(p: Payload, t: Bytes)
    ensures Assign(p, SALT, Text(t)) == Some(p.(salt := t))
    ensures Assign(p, CTX, Text(t)) == Some(p.(ctx := t))
    ensures Assign(p, CID, Text(t)) == Some(p.(cid := t))
  {
    hide Ascii, FoldKey, NAMES;
    NamesAreDistinct();
    NamesAreKnown();
  }

  lemma AssignCons(p: Payload, m: (Bytes, Value), ms: seq<(Bytes, Value)>, q: Payload)
    requires Assign(p, m.0, m.1) == Some(q)
    ensures AssignAll(p, [m] + ms) == AssignAll(q, ms)
  {
    hide Assign;
    assert ([m] + ms)[1..] == ms;
  }

  function OptionalText(name: Bytes, t: Bytes): seq<(Bytes, Value)> { if t == [] then [] else [(name, Text(t))] }

  lemma CleanFields(p: Payload)
    ensures CleanMembers(Fields(p))
            == [(TS, Number(Itoa(p.ts)))] + ([(EXP, Number(Itoa(p.exp)))] + ([(DIFF, Number(Decimal(p.diff)))]
               + ([(SALT, Text(Clean(p.salt)))] + (OptionalText(CTX, Clean(p.ctx)) + OptionalText(CID, Clean(p.cid))))))
  {
    hide Clean, Itoa, Decimal, Ascii;
    NamesAreValid();
    CleanEmpty(p.ctx);
    CleanEmpty(p.cid);
  }

  lemma AssignFields(p: Payload)
    ensures AssignAll(ZERO, CleanMembers(Fields(p))) == Some(Cleaned(p))
  {
    hide Assign, AssignAll, Clean, Itoa, Decimal, Ascii, Fields, CleanMembers, OptionalText;
    CleanFields(p);
    var tail := OptionalText(CTX, Clean(p.ctx)) + OptionalText(CID, Clean(p.cid));
    var p1 := ZERO.(ts := p.ts);
    var p2 := p1.(exp := p.exp);
    var p3 := p2.(diff := p.diff);
    var p4 := p3.(salt := Clean(p.salt));
    AssignNumbers(ZERO, p.ts, p.diff);
    AssignNumbers(p1, p.exp, p.diff);
    AssignNumbers(p2, p.exp, p.diff);
    AssignText(p3, Clean(p.salt));
    var m1, m2 := (TS, Number(Itoa(p.ts))), (EXP, Number(Itoa(p.exp)));
    var m3, m4 := (DIFF, Number(Decimal(p.diff))), (SALT, Text(Clean(p.salt)));
    AssignCons(ZERO, m1, [m2] + ([m3] + ([m4] + tail)), p1);
    AssignCons(p1, m2, [m3] + ([m4] + tail), p2);
    AssignCons(p2, m3, [m4] + tail, p3);
    AssignCons(p3, m4, tail, p4);
    AssignTail(p4, Clean(p.ctx), Clean(p.cid));
  }

  lemma AssignTail(p: Payload, ctx: Bytes, cid: Bytes)
    requires p.ctx == [] && p.cid == []
    ensures AssignAll(p, OptionalText(CTX, ctx) + OptionalText(CID, cid)) == Some(p.(ctx := ctx, cid := cid))
  {
    hide Assign, Ascii;
    AssignText(p, ctx);
    var q := p.(ctx := ctx);
    AssignText(q, cid);
    var b := OptionalText(CID, cid);
    if cid != [] {
      AssignCons(q, (CID, Text(cid)), [], q.(cid := cid));
      assert [(CID, Text(cid))] + [] == b;
    }
    if ctx == [] {
      assert [] + b == b;
    } else {
      AssignCons(p, (CTX, Text(ctx)), b, q);
    }
  }

  /** Parsing undoes printing, up to the replacement of bytes that are not UTF-8. */
  lemma PayloadRoundTrip(p: Payload)
    ensures Unmarshal(Marshal(p)) == Some(Cleaned(p))
  {
    hide Parse, TakeMembers, PrintMembers, Fields, AssignAll, CleanMembers, Cleaned;
    var ms := Fields(p);
    FieldCount(p);
    FieldsArePrintable(p);
    TakePrintedMembers(ms, []);
    MembersStartPlain(ms, [CLOSE]);
    var body := PrintMembers(ms) + ([CLOSE] + []);
    assert Marshal(p) == [OPEN] + body;
    ParseObject(body, CleanMembers(ms));
    AssignFields(p);
  }

  lemma FieldCount(p: Payload)
    ensures |Fields(p)| >= 4
  {
  }

  /** The text of a payload is one JSON object. */
  lemma MarshalIsObject(p: Payload)
    ensures |Marshal(p)| > 24 && Marshal(p)[0] == OPEN
    ensures Marshal(p)[|Marshal(p)| - 1] == CLOSE
  {
    hide PrintMembers;
    var ms := Fields(p);
    LongEnough(ms);
  }

  lemma LongEnough(ms: seq<(Bytes, Value)>)
    requires |ms| >= 4 && forall i :: 0 <= i < 4 ==> |ms[i].0| >= 2
    ensures |PrintMembers(ms)| >= 4 * 5 + 3
  {
    hide Escape, PrintValue;
    assert |PrintMembers(ms[3..])| >= 5 by {
      FirstMember(ms[3..]);
    }
    assert ms[1..][1..] == ms[2..] && ms[2..][1..] == ms[3..];
    FirstMember(ms);
    FirstMember(ms[1..]);
    FirstMember(ms[2..]);
  }

  lemma FirstMember(ms: seq<(Bytes, Value)>)
    requires |ms| > 0
    ensures |PrintMembers(ms)| >= 3 + |ms[0].0| + (if |ms| == 1 then 0 else 1 + |PrintMembers(ms[1..])|)
  {
    hide Escape, PrintValue;
  }

  /** Text that parses starts with white space, a brace, or the `n` of `null`. */
  lemma ParsedStart(b: Bytes)
    requires Unmarshal(b).Some?
    ensures |b| > 0 && (IsWhite(b[0]) || b[0] == OPEN || b[0] == 'n' as int)
  {
    hide TakeValue, SkipWhite, AssignAll;
    NothingToTake();
    if |b| > 0 && !IsWhite(b[0]) {
      ValueStart(b);
    }
  }

  // ---------------------------------------------------- the format, outright

  predicate Letters(s: Bytes) { forall i :: 0 <= i < |s| ==> 'a' as int <= s[i] <= 'z' as int }

  lemma {:induction false} PlainLetters(s: Bytes)
    requires Letters(s)
    ensures Escape(s) == s
  {
    hide EscapeByte, EscapeRune, RuneLen;
    if |s| > 0 {
      PlainLetters(s[1..]);
      PlainLetter(s[0]);
      assert s == [s[0]] + s[1..];
    }
  }

  lemma PlainLetter(b: byte)
    requires 'a' as int <= b <= 'z' as int
    ensures EscapeByte(b) == [b]
  {
  }

  /** A key and its colon. */
  function KeyOf(key: Bytes): Bytes { [QUOTE] + key + [QUOTE, COLON] }

  lemma KeyText(key: Bytes, v: Bytes)
    requires Letters(key)
    ensures PrintString(key) + ([COLON] + v) == KeyOf(key) + v
  {
    hide Escape;
    PlainLetters(key);
  }

  /** What comes after a member. */
  function MembersEnd(ms: seq<(Bytes, Value)>): Bytes { if |ms| == 0 then [CLOSE] else [COMMA] + (PrintMembers(ms) + [CLOSE]) }

  lemma MemberThen(o: Bytes, m: (Bytes, Value), ms: seq<(Bytes, Value)>)
    ensures o + (PrintMembers([m] + ms) + [CLOSE]) == o + (PrintMember(m) + MembersEnd(ms))
  {
    hide PrintMember;
    if |ms| == 0 {
      assert [m] + ms == [m];
    } else {
      assert ([m] + ms)[1..] == ms;
      assert PrintMember(m) + ([COMMA] + PrintMembers(ms)) + [CLOSE] == PrintMember(m) + ([COMMA] + (PrintMembers(ms) + [CLOSE]));
    }
  }

  lemma NumberThen(o: Bytes, key: Bytes, a: Bytes, ms: seq<(Bytes, Value)>)
    requires Letters(key)
    ensures o + (PrintMembers([(key, Number(a))] + ms) + [CLOSE]) == (o + KeyOf(key)) + (a + MembersEnd(ms))
  {
    hide PrintMembers, PrintString, MembersEnd, KeyOf;
    KeyText(key, a);
    MemberThen(o, (key, Number(a)), ms);
    Regroup(o, KeyOf(key), a, MembersEnd(ms));
  }

  lemma Regroup(o: Bytes, k: Bytes, a: Bytes, r: Bytes)
    ensures o + ((k + a) + r) == (o + k) + (a + r)
  {
  }

  lemma TextThen(o: Bytes, key: Bytes, t: Bytes, ms: seq<(Bytes, Value)>)
    requires Letters(key)
    ensures o + (PrintMembers([(key, Text(t))] + ms) + [CLOSE]) == (o + KeyOf(key) + [QUOTE]) + (Escape(t) + ([QUOTE] + MembersEnd(ms)))
  {
    hide PrintMembers, Escape, MembersEnd, KeyOf;
    KeyText(key, PrintString(t));
    MemberThen(o, (key, Text(t)), ms);
    RegroupText(o, KeyOf(key), Escape(t), MembersEnd(ms));
  }

  lemma RegroupText(o: Bytes, k: Bytes, t: Bytes, r: Bytes)
    ensures o + ((k + ([QUOTE] + (t + [QUOTE]))) + r) == (o + k + [QUOTE]) + (t + ([QUOTE] + r))
  {
  }

  /** The optional fields at the end of a payload's text. */
  function CidText(cid: Bytes): Bytes {
    if cid == [] then Ascii("}") else Ascii(",\"cid\":\"") + (Escape(cid) + Ascii("\"}"))
  }

  function CtxText(ctx: Bytes, cid: Bytes): Bytes {
    if ctx == [] then CidText(cid) else Ascii(",\"ctx\":\"") + (Escape(ctx) + (Ascii("\"") + CidText(cid)))
  }

  lemma KeyLiterals()
    ensures Ascii("{\"ts\":") == [OPEN] + KeyOf(TS) && Ascii(",\"exp\":") == [COMMA] + KeyOf(EXP)
    ensures Ascii(",\"diff\":") == [COMMA] + KeyOf(DIFF) && Ascii(",\"salt\":\"") == [COMMA] + KeyOf(SALT) + [QUOTE]
  {
  }

  lemma OptionalKeyLiterals()
    ensures Ascii(",\"ctx\":\"") == [COMMA] + KeyOf(CTX) + [QUOTE] && Ascii(",\"cid\":\"") == [COMMA] + KeyOf(CID) + [QUOTE]
    ensures Ascii("\"") == [QUOTE] && Ascii("}") == [CLOSE] && Ascii("\"}") == [QUOTE] + [CLOSE]
  {
  }

  lemma KeysAreLetters()
    ensures Letters(TS) && Letters(EXP) && Letters(DIFF) && Letters(SALT) && Letters(CTX) && Letters(CID)
  {
  }

  lemma CidIsText(cid: Bytes)
    ensures MembersEnd(OptionalText(CID, cid)) == CidText(cid)
  {
    hide Escape, Ascii, KeyOf;
    OptionalKeyLiterals();
    KeysAreLetters();
    if cid != [] {
      TextThen([COMMA], CID, cid, []);
      assert [(CID, Text(cid))] + [] == [(CID, Text(cid))];
    }
  }

  lemma CtxIsText(ctx: Bytes, cid: Bytes)
    ensures MembersEnd(OptionalText(CTX, ctx) + OptionalText(CID, cid)) == CtxText(ctx, cid)
  {
    hide Escape, Ascii, KeyOf, PrintMembers;
    OptionalKeyLiterals();
    KeysAreLetters();
    CidIsText(cid);
    var last := OptionalText(CID, cid);
    if ctx == [] {
      assert [] + last == last;
    } else {
      TextThen([COMMA], CTX, ctx, last);
    }
  }

  /** The text of a payload, field by field. */
  lemma MarshalText(p: Payload)
    ensures Marshal(p)
            == Ascii("{\"ts\":") + (Itoa(p.ts) + (Ascii(",\"exp\":") + (Itoa(p.exp) + (Ascii(",\"diff\":") + (Itoa(p.diff)
               + (Ascii(",\"salt\":\"") + (Escape(p.salt) + (Ascii("\"") + CtxText(p.ctx, p.cid)))))))))
  {
    hide Escape, Itoa, Decimal, PrintMembers, Ascii, KeyOf, OptionalText, CtxText;
    ItoaOfNat(p.diff);
    KeyLiterals();
    OptionalKeyLiterals();
    KeysAreLetters();
    var tail := OptionalText(CTX, p.ctx) + OptionalText(CID, p.cid);
    CtxIsText(p.ctx, p.cid);
    var a, b, c := (TS, Number(Itoa(p.ts))), (EXP, Number(Itoa(p.exp))), (DIFF, Number(Itoa(p.diff)));
    var d := (SALT, Text(p.salt));
    FieldsInOrder(p);
    NumberThen([OPEN], TS, Itoa(p.ts), [b] + ([c] + ([d] + tail)));
    NumberThen([COMMA], EXP, Itoa(p.exp), [c] + ([d] + tail));
    NumberThen([COMMA], DIFF, Itoa(p.diff), [d] + tail);
    TextThen([COMMA], SALT, p.salt, tail);
  }

  lemma FieldsInOrder(p: Payload)
    ensures Fields(p) == [(TS, Number(Itoa(p.ts)))] + ([(EXP, Number(Itoa(p.exp)))] + ([(DIFF, Number(Itoa(p.diff)))]
                         + ([(SALT, Text(p.salt))] + (OptionalText(CTX, p.ctx) + OptionalText(CID, p.cid)))))
  {
    hide Itoa, Decimal, Ascii;
    ItoaOfNat(p.diff);
  }

  /** How characters are written: five short escapes, quote and backslash. */
  lemma ShortEscapes()
    ensures EscapeByte(8) == Ascii("\\b") && EscapeByte(9) == Ascii("\\t") && EscapeByte(10) == Ascii("\\n")
    ensures EscapeByte(12) == Ascii("\\f") && EscapeByte(13) == Ascii("\\r")
    ensures EscapeByte(34) == Ascii("\\\"") && EscapeByte(92) == Ascii("\\\\")
  {
  }

  /** The other control characters and `<`, `>`, `&` in the six-character form; the
      rest as they are. */
  lemma LongEscapes()
    ensures EscapeByte(60) == Ascii("\\u003c") && EscapeByte(62) == Ascii("\\u003e") && EscapeByte(38) == Ascii("\\u0026")
    ensures EscapeByte(0) == Ascii("\\u0000") && EscapeByte(31) == Ascii("\\u001f")
    ensures EscapeByte(32) == Ascii(" ") && EscapeByte(47) == Ascii("/") && EscapeByte(127) == [127]
  {
  }

  // ------------------------------------------------- what a member can say

  lemma {:induction false} FoldsLikeLower(s: Bytes)
    ensures FoldKey(Lower(s)) == FoldKey(s)
  {
    if |s| > 0 {
      assert Lower(s)[1..] == Lower(s[1..]);
      FoldsLikeLower(s[1..]);
      if |s| >= 2 {
        assert Lower(s)[2..] == Lower(s[2..]);
        FoldsLikeLower(s[2..]);
      }
    }
  }

  lemma NamesFold(key: Bytes)
    requires key in NAMES
    ensures FoldKey(key) == key
  {
    NameLetters();
    assert forall i :: 0 <= i < |key| ==> 'a' as int <= key[i] <= 'z' as int;
    LettersFold(key);
  }

  lemma NameLetters()
    ensures forall key, i {:trigger key[i]} :: key in NAMES && 0 <= i < |key| ==> 'a' as int <= key[i] <= 'z' as int
  {
  }

  lemma {:induction false} LettersFold(s: Bytes)
    requires forall i :: 0 <= i < |s| ==> 'a' as int <= s[i] <= 'z' as int
    ensures FoldKey(s) == s
  {
    if |s| > 0 {
      LettersFold(s[1..]);
    }
  }

  /** Whatever the case of a key's letters, it stands for the same field; a null
      leaves every field as it is. */
  lemma KeysIgnoreCase(p: Payload, key: Bytes, v: Value)
    ensures Assign(p, Lower(key), v) == Assign(p, key, v) && Assign(p, key, Null) == Some(p)
  {
    hide FoldKey, Ascii, Lower, ParseInt, ParseUint;
    FoldsLikeLower(key);
    if key in NAMES {
      NamesFold(key);
    }
    if Lower(key) in NAMES {
      NamesFold(Lower(key));
    }
  }

  /** Numbers do not fill text fields, nor text the others. */
  lemma TypesMustMatch(p: Payload, t: Bytes, n: nat)
    requires n < U64
    ensures Assign(p, Ascii("ctx"), Number(t)) == None && Assign(p, Ascii("cid"), Number(t)) == None
    ensures Assign(p, Ascii("exp"), Text(t)) == None && Assign(p, Ascii("diff"), Text(t)) == None
    ensures Assign(p, Ascii("ctx"), Text(t)) == Some(p.(ctx := t)) && Assign(p, Ascii("cid"), Text(t)) == Some(p.(cid := t))
    ensures Assign(p, Ascii("diff"), Number(Decimal(n))) == Some(p.(diff := n))
  {
    hide FoldKey, Decimal, ParseUint;
    NamesApart();
    hide Ascii;
    ParseDecimal(n, U64);
  }

  lemma NamesApart()
    ensures TS == Ascii("ts") && EXP == Ascii("exp") && DIFF == Ascii("diff") && SALT == Ascii("salt")
            && CTX == Ascii("ctx") && CID == Ascii("cid")
    ensures |TS| == 2 && |EXP| == |CTX| == |CID| == 3 && |DIFF| == |SALT| == 4
    ensures EXP[0] == 'e' as int && CTX[1] == 't' as int && CID[1] == 'i' as int && CTX[0] == CID[0] == 'c' as int
    ensures DIFF[0] == 'd' as int && SALT[0] == 's' as int
  {
  }
}
