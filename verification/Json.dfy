/** JSON text as encoding/json reads it (RFC 8259): white space between tokens,
    any nesting, escapes, and invalid UTF-8 in strings replaced. */
module Json {
  import opened GoBytes
  import opened Utf8

  datatype Value =
    | Null
    | Bool(flag: bool)
    | Number(text: Bytes)
    | Text(chars: Bytes)
    | Array(items: seq<Value>)
    | Object(fields: seq<(Bytes, Value)>)

  const QUOTE: byte := '"' as int
  const BACKSLASH: byte := '\\' as int
  const OPEN: byte := '{' as int
  const CLOSE: byte := '}' as int
  const COLON: byte := ':' as int
  const COMMA: byte := ',' as int

  predicate IsWhite(b: byte) { b == 32 || b == 9 || b == 10 || b == 13 }

  function SkipWhite(s: Bytes): (t: Bytes)
    ensures |t| <= |s| && t == s[|s| - |t|..]
    ensures |t| == 0 || !IsWhite(t[0])
  {
    if |s| > 0 && IsWhite(s[0]) then SkipWhite(s[1..]) else s
  }

  // --------------------------------------------------------------- strings

  function HexValue(c: byte): int {
    if '0' as int <= c <= '9' as int then c - '0' as int
    else if 'a' as int <= c <= 'f' as int then c - 'a' as int + 10
    else if 'A' as int <= c <= 'F' as int then c - 'A' as int + 10
    else -1
  }

  /** The byte a two-character escape stands for, or -1. */
  function FromShortEscape(c: byte): int {
    if c == QUOTE || c == BACKSLASH || c == '/' as int then c
    else if c == 'b' as int then 8
    else if c == 'f' as int then 12
    else if c == 'n' as int then 10
    else if c == 'r' as int then 13
    else if c == 't' as int then 9
    else -1
  }

  /** The code unit of a six-character escape at the front, or -1. */
  function CodeUnit(s: Bytes): int {
    if |s| < 6 || s[0] != BACKSLASH || s[1] != 'u' as int then -1
    else
      var a, b, c, d := HexValue(s[2]), HexValue(s[3]), HexValue(s[4]), HexValue(s[5]);
      if a < 0 || b < 0 || c < 0 || d < 0 then -1 else ((a * 16 + b) * 16 + c) * 16 + d
  }

  /** One character of a string body: its bytes and the number of bytes read. A
      surrogate pair is one character; a lone surrogate is U+FFFD. */
  function TakeChar(s: Bytes): (r: Option<(Bytes, nat)>)
    ensures r.Some? ==> 0 < r.value.1 <= |s|
  {
    if |s| == 0 || s[0] < 32 || s[0] == QUOTE then None
    else if s[0] != BACKSLASH then Some(([s[0]], 1))
    else if |s| >= 2 && FromShortEscape(s[1]) >= 0 then
      var b: Bytes := [FromShortEscape(s[1])];
      Some((b, 2))
    else
      var u := CodeUnit(s);
      if u < 0 then None
      else
        var v := CodeUnit(s[6..]);
        if 0xD800 <= u < 0xDC00 && 0xDC00 <= v < 0xE000 then
          Some((EncodeRune(0x1_0000 + (u - 0xD800) * 0x400 + (v - 0xDC00)), 12))
        else Some((EncodeRune(u), 6))
  }

  /** A string body up to its closing quote, unescaped, and what follows. */
  function TakeBody(s: Bytes): (r: Option<(Bytes, Bytes)>)
    ensures r.Some? ==> |r.value.1| < |s|
  {
    if |s| > 0 && s[0] == QUOTE then Some(([], s[1..]))
    else
      var (b, n) :- TakeChar(s);
      var (t, rest) :- TakeBody(s[n..]);
      Some((b + t, rest))
  }

  /** The string after an opening quote. */
  function TakeString(s: Bytes): (r: Option<(Bytes, Bytes)>)
    ensures r.Some? ==> |r.value.1| < |s|
  {
    var (t, rest) :- TakeBody(s);
    Some((Clean(t), rest))
  }

  // --------------------------------------------------------------- numbers

  function DigitCount(s: Bytes): (n: nat)
    ensures n <= |s| && forall i :: 0 <= i < n ==> IsDigit(s[i])
    ensures n < |s| ==> !IsDigit(s[n])
  {
    if |s| > 0 && IsDigit(s[0]) then 1 + DigitCount(s[1..]) else 0
  }

  /** The length of an integer part: digits without a leading zero. */
  function IntLen(s: Bytes): nat {
    if |s| > 0 && s[0] == 48 then 1 else DigitCount(s)
  }

  function FractionLen(s: Bytes): Option<nat> {
    if |s| == 0 || s[0] != '.' as int then Some(0)
    else if DigitCount(s[1..]) == 0 then None
    else Some(1 + DigitCount(s[1..]))
  }

  function ExponentLen(s: Bytes): Option<nat> {
    if |s| == 0 || (s[0] != 'e' as int && s[0] != 'E' as int) then Some(0)
    else
      var sign := if |s| > 1 && (s[1] == '+' as int || s[1] == '-' as int) then 1 else 0;
      if DigitCount(s[1 + sign..]) == 0 then None else Some(1 + sign + DigitCount(s[1 + sign..]))
  }

  /** The length of a number at the front. */
  function NumberLen(s: Bytes): (n: Option<nat>)
    ensures n.Some? ==> 0 < n.value <= |s|
  {
    var a := if |s| > 0 && s[0] == '-' as int then 1 else 0;
    var b := IntLen(s[a..]);
    if b == 0 then None
    else
      var c := FractionLen(s[a + b..]);
      if c.None? then None
      else
        var d := ExponentLen(s[a + b + c.value..]);
        if d.None? then None else Some(a + b + c.value + d.value)
  }

  function TakeNumber(s: Bytes): (r: Option<(Bytes, Bytes)>)
    ensures r.Some? ==> |r.value.1| < |s|
  {
    var n :- NumberLen(s);
    Some((s[..n], s[n..]))
  }

  // ---------------------------------------------------------------- values

  function TakeLiteral(lit: Bytes, v: Value, s: Bytes): (r: Option<(Value, Bytes)>)
    requires |lit| > 0
    ensures r.Some? ==> r.value.0 == v && |r.value.1| < |s|
  {
    if lit <= s then Some((v, s[|lit|..])) else None
  }

  function TakeValue(s: Bytes): (r: Option<(Value, Bytes)>)
    ensures r.Some? ==> |r.value.1| < |s|
    decreases |s|, 1
  {
    var t := SkipWhite(s);
    if |t| == 0 then None
    else if t[0] == QUOTE then
      var (b, rest) :- TakeString(t[1..]);
      Some((Text(b), rest))
    else if t[0] == OPEN then
      var u := SkipWhite(t[1..]);
      if |u| > 0 && u[0] == CLOSE then Some((Object([]), u[1..]))
      else
        var (fields, rest) :- TakeMembers(u);
        Some((Object(fields), rest))
    else if t[0] == '[' as int then
      var u := SkipWhite(t[1..]);
      if |u| > 0 && u[0] == ']' as int then Some((Array([]), u[1..]))
      else
        var (items, rest) :- TakeElements(u);
        Some((Array(items), rest))
    else if t[0] == 't' as int then TakeLiteral(Ascii("true"), Bool(true), t)
    else if t[0] == 'f' as int then TakeLiteral(Ascii("false"), Bool(false), t)
    else if t[0] == 'n' as int then TakeLiteral(Ascii("null"), Null, t)
    else
      var (n, rest) :- TakeNumber(t);
      Some((Number(n), rest))
  }

  /** `"key" : value`, and what follows the value. */
  function TakeMember(s: Bytes): (r: Option<((Bytes, Value), Bytes)>)
    ensures r.Some? ==> |r.value.1| < |s|
    decreases |s|, 0
  {
    if |s| == 0 || s[0] != QUOTE then None
    else
      var (key, t) :- TakeString(s[1..]);
      var u := SkipWhite(t);
      if |u| == 0 || u[0] != COLON then None
      else
        var (v, rest) :- TakeValue(u[1..]);
        Some(((key, v), SkipWhite(rest)))
  }

  function TakeMembers(s: Bytes): (r: Option<(seq<(Bytes, Value)>, Bytes)>)
    ensures r.Some? ==> |r.value.1| < |s|
    decreases |s|, 1
  {
    var (m, t) :- TakeMember(s);
    if |t| > 0 && t[0] == CLOSE then Some(([m], t[1..]))
    else if |t| > 0 && t[0] == COMMA then
      var (ms, rest) :- TakeMembers(SkipWhite(t[1..]));
      Some(([m] + ms, rest))
    else None
  }

  function TakeElements(s: Bytes): (r: Option<(seq<Value>, Bytes)>)
    ensures r.Some? ==> |r.value.1| < |s|
    decreases |s|, 2
  {
    var (v, after) :- TakeValue(s);
    var t := SkipWhite(after);
    if |t| > 0 && t[0] == ']' as int then Some(([v], t[1..]))
    else if |t| > 0 && t[0] == COMMA then
      var (vs, rest) :- TakeElements(t[1..]);
      Some(([v] + vs, rest))
    else None
  }

  /** A whole text: one value with white space around it. */
  function Parse(s: Bytes): Option<Value> {
    var (v, rest) :- TakeValue(s);
    if SkipWhite(rest) == [] then Some(v) else None
  }

  lemma PlainFront(s: Bytes)
    requires |s| > 0 && !IsWhite(s[0])
    ensures SkipWhite(s) == s
  {
  }

  /** What an object and `null` start with. */
  lemma ValueStart(s: Bytes)
    requires |s| > 0 && !IsWhite(s[0]) && TakeValue(s).Some?
    ensures TakeValue(s).value.0.Object? ==> s[0] == OPEN
    ensures TakeValue(s).value.0.Null? ==> s[0] == 'n' as int
  {
    hide TakeMembers, TakeElements, TakeString, TakeNumber, SkipWhite, TakeLiteral, Ascii;
    PlainFront(s);
  }

  lemma LastMember(s: Bytes, m: (Bytes, Value), t: Bytes)
    requires TakeMember(s) == Some((m, t)) && |t| > 0 && t[0] == CLOSE
    ensures TakeMembers(s) == Some(([m], t[1..]))
  {
    hide TakeMember;
  }

  lemma MoreMembers(s: Bytes, m: (Bytes, Value), t: Bytes, ms: seq<(Bytes, Value)>, rest: Bytes)
    requires TakeMember(s) == Some((m, t)) && |t| > 0 && t[0] == COMMA
    requires TakeMembers(SkipWhite(t[1..])) == Some((ms, rest))
    ensures TakeMembers(s) == Some(([m] + ms, rest))
  {
    hide TakeMember, SkipWhite;
  }

  lemma NothingToTake()
    ensures TakeValue([]).None?
  {
  }

  /** An object with members and nothing after it. */
  lemma ParseObject(body: Bytes, ms: seq<(Bytes, Value)>)
    requires |body| > 0 && body[0] == QUOTE && TakeMembers(body) == Some((ms, []))
    ensures Parse([OPEN] + body) == Some(Object(ms))
  {
    hide TakeMembers, TakeElements, TakeString, TakeNumber;
    var s := [OPEN] + body;
    assert s[1..] == body;
    PlainFront(s);
    PlainFront(body);
    assert SkipWhite([]) == [];
  }

  // ---------------------------------------------------- the format, outright

  lemma TrueIsRead()
    ensures TakeValue(Ascii("true")) == Some((Bool(true), []))
  {
    hide TakeMembers, TakeElements, TakeString, TakeNumber, SkipWhite;
    WholeLiteral("true");
  }

  lemma FalseIsRead()
    ensures TakeValue(Ascii("false")) == Some((Bool(false), []))
  {
    hide TakeMembers, TakeElements, TakeString, TakeNumber, SkipWhite;
    WholeLiteral("false");
  }

  lemma NullIsRead()
    ensures TakeValue(Ascii("null")) == Some((Null, []))
  {
    hide TakeMembers, TakeElements, TakeString, TakeNumber, SkipWhite;
    WholeLiteral("null");
  }

  lemma WholeLiteral(lit: string)
    requires |lit| > 0 && 32 < lit[0] as int < 127
    ensures SkipWhite(Ascii(lit)) == Ascii(lit) && Ascii(lit)[|lit|..] == []
  {
    PlainFront(Ascii(lit));
  }

  /** White space is space, tab, line feed and carriage return. */
  lemma WhiteSpace(b: byte)
    ensures IsWhite(b) <==> b in Ascii(" \t\n\r")
  {
    assert Ascii(" \t\n\r") == [32, 9, 10, 13];
  }

  /** The two-character escapes. */
  lemma EscapesRead(rest: Bytes)
    ensures TakeChar(Ascii("\\b") + rest) == Some(([8], 2)) && TakeChar(Ascii("\\t") + rest) == Some(([9], 2))
    ensures TakeChar(Ascii("\\n") + rest) == Some(([10], 2)) && TakeChar(Ascii("\\f") + rest) == Some(([12], 2))
    ensures TakeChar(Ascii("\\r") + rest) == Some(([13], 2)) && TakeChar(Ascii("\\/") + rest) == Some((Ascii("/"), 2))
    ensures TakeChar(Ascii("\\\"") + rest) == Some((Ascii("\""), 2)) && TakeChar(Ascii("\\\\") + rest) == Some((Ascii("\\"), 2))
  {
    assert Ascii("/") == [47] && Ascii("\"") == [34] && Ascii("\\") == [92];
    EscapeRead("\\b", rest);
    EscapeRead("\\t", rest);
    EscapeRead("\\n", rest);
    EscapeRead("\\f", rest);
    EscapeRead("\\r", rest);
    EscapeRead("\\/", rest);
    EscapeRead("\\\"", rest);
    EscapeRead("\\\\", rest);
  }

  lemma EscapeRead(e: string, rest: Bytes)
    requires |e| == 2 && e[0] == '\\' && e[1] as int < 128 && FromShortEscape(e[1] as int) >= 0
    ensures TakeChar(Ascii(e) + rest) == Some(([FromShortEscape(e[1] as int)], 2))
  {
  }

  /** A six-character escape is a code unit; two that are a surrogate pair make one
      character, and a lone one is replaced. */
  lemma CodeUnitsRead()
    ensures CodeUnit(Ascii("\\u20ac")) == 0x20AC && CodeUnit(Ascii("\\u20AC")) == 0x20AC && CodeUnit(Ascii("\\u20ag")) == -1
    ensures TakeChar(Ascii("\\ud834\\udd1e")) == Some(([0xF0, 0x9D, 0x84, 0x9E], 12))
    ensures TakeChar(Ascii("\\ud834")) == Some((REPLACEMENT, 6))
  {
    PairRead();
    assert CodeUnit(Ascii("\\ud834")) == 0xD834 && CodeUnit([]) == -1;
    assert Ascii("\\ud834")[6..] == [];
  }

  lemma PairRead()
    ensures TakeChar(Ascii("\\ud834\\udd1e")) == Some(([0xF0, 0x9D, 0x84, 0x9E], 12))
  {
    var s := Ascii("\\ud834\\udd1e");
    assert CodeUnit(s) == 0xD834;
    assert s[6..] == Ascii("\\udd1e");
    assert CodeUnit(Ascii("\\udd1e")) == 0xDD1E;
    assert EncodeRune(0x1D11E) == [0xF0, 0x9D, 0x84, 0x9E];
  }

  /** Numbers have no leading zero, plus sign or bare point. */
  lemma NumbersRead()
    ensures NumberLen(Ascii("0")) == Some(1) && NumberLen(Ascii("01")) == Some(1) && NumberLen(Ascii("-1")) == Some(2)
    ensures NumberLen(Ascii("+1")) == None && NumberLen(Ascii("-")) == None && NumberLen(Ascii(".5")) == None
    ensures NumberLen(Ascii("1.")) == None && NumberLen(Ascii("1e")) == None && NumberLen(Ascii("1.5e+3")) == Some(6)
  {
    hide DigitCount;
    DigitRun([]);
    DigitRun(Ascii("0"));
    DigitRun(Ascii("1"));
    DigitRun(Ascii("1."));
    DigitRun(Ascii("1e"));
    DigitRun(Ascii("+1"));
    DigitRun(Ascii("-"));
    DigitRun(Ascii(".5"));
    DigitRun(Ascii("3"));
    DigitRun(Ascii("5e+3"));
    DigitRun(Ascii("1.5e+3"));
    NumberTails();
  }

  /** The digits at the front, counted. */
  lemma DigitRun(s: Bytes)
    ensures |s| == 0 || !IsDigit(s[0]) ==> DigitCount(s) == 0
    ensures |s| > 0 && IsDigit(s[0]) && (|s| == 1 || !IsDigit(s[1])) ==> DigitCount(s) == 1
  {
  }

  lemma NumberTails()
    ensures Ascii("0")[0..] == Ascii("0") && Ascii("0")[1..] == [] && Ascii("01")[0..] == Ascii("01") && Ascii("01")[1..] == Ascii("1")
    ensures Ascii("-1")[1..] == Ascii("1") && Ascii("-1")[2..] == [] && Ascii("+1")[0..] == Ascii("+1") && Ascii("-")[1..] == []
    ensures Ascii(".5")[0..] == Ascii(".5") && Ascii("1.")[0..] == Ascii("1.") && Ascii("1.")[1..][1..] == []
    ensures Ascii("1e")[0..] == Ascii("1e") && Ascii("1e")[1..][1..] == [] && Ascii("1e")[1..] == Ascii("e")
    ensures Ascii("1.5e+3")[0..] == Ascii("1.5e+3") && Ascii("1.5e+3")[1..][1..] == Ascii("5e+3")
    ensures Ascii("1.5e+3")[3..] == Ascii("e+3") && Ascii("e+3")[2..] == Ascii("3")
  {
  }
}
