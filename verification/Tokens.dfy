/** Challenge and clearance tokens (crypt.go): their layouts, what the verifiers
    accept, and why the two kinds signed under one key cannot be confused.
    Time, randomness and the keyed HMAC are parameters. */
module Tokens {
  import opened GoBytes
  import opened Base64Url
  import opened Utf8
  import opened Json
  import opened ChallengeJson
  import opened PowCheck
  import Sha256

  const DEFAULT_DIFFICULTY := 18
  const CHALLENGE_LIFETIME := 60
  const CLEARANCE_LIFETIME := 1800
  const SALT_LEN := 16
  const FIXED_PREFIX := 24

  /** Unix seconds, far from the end of int64. */
  type Clock = n: int | 0 <= n < 0x100_0000_0000_0000 - CLEARANCE_LIFETIME

  const DOT: byte := '.' as int

  datatype ClientContext = ClientContext(ip: Bytes, connId: Bytes)

  datatype SignedChallenge = SignedChallenge(challenge: Bytes, signature: Bytes)

  datatype Solution = Solution(challenge: Bytes, signature: Bytes, nonce: uint64)

  datatype TokenError = InvalidToken | Expired | BadSignature | BadPoW | ContextMismatch | RandomFailed

  /** HMAC-SHA256 under the configured secret. */
  type Mac = Bytes -> Bytes

  ghost predicate IsMac(mac: Mac) { forall m :: |mac(m)| == 32 }

  // ------------------------------------------------------------ challenges

  function NewPayload(difficulty: uint64, client: ClientContext, now: Clock, salt: Bytes): Payload {
    Payload(now, now + CHALLENGE_LIFETIME, if difficulty < 1 then DEFAULT_DIFFICULTY else difficulty,
            Encode(salt), client.ip, client.connId)
  }

  function ChallengeText(p: Payload): Bytes { Encode(Marshal(p)) }

  function Sign(mac: Mac, text: Bytes): Bytes { Encode(mac(text)) }

  /** `salt` is None when the random source fails. */
  function GenerateChallenge(mac: Mac, difficulty: uint64, client: ClientContext, now: Clock, salt: Option<Bytes>)
    : Result<SignedChallenge, TokenError>
  {
    if salt.None? then Err(RandomFailed)
    else
      var c := ChallengeText(NewPayload(difficulty, client, now, salt.value));
      Ok(SignedChallenge(c, Sign(mac, c)))
  }

  function MatchContext(tokenIP: Bytes, tokenCID: Bytes, expected: ClientContext): Result<(), TokenError> {
    if expected.ip != [] && (tokenIP == [] || tokenIP != expected.ip) then Err(ContextMismatch)
    else if tokenCID != [] && expected.connId != [] && tokenCID != expected.connId then Err(ContextMismatch)
    else Ok(())
  }

  /** The bytes hashed for a nonce: the decoded challenge, then the nonce. */
  function PowInput(raw: Bytes, nonce: nat): Bytes { raw + ToBE(nonce, 8) }

  predicate PowOk(raw: Bytes, nonce: nat, difficulty: nat) {
    LeadingZeros(Sha256.Hash(PowInput(raw, nonce)), difficulty)
  }

  function VerifySolution(mac: Mac, sol: Solution, expected: ClientContext, now: int): Result<(), TokenError> {
    if sol.challenge == [] || sol.signature == [] then Err(InvalidToken)
    else
      var raw := Decode(sol.challenge);
      if raw.None? then Err(InvalidToken)
      else
        var payload := Unmarshal(raw.value);
        if payload.None? then Err(InvalidToken)
        else if now > payload.value.exp then Err(Expired)
        else
          var sig := Decode(sol.signature);
          if sig.None? || mac(sol.challenge) != sig.value then Err(BadSignature)
          else if !PowOk(raw.value, sol.nonce, payload.value.diff) then Err(BadPoW)
          else MatchContext(payload.value.ctx, payload.value.cid, expected)
  }

  // --------------------------------------------- the challenge-token header

  const C := Ascii("c")
  const S := Ascii("s")
  const N := Ascii("n")

  const NO_SOLUTION := Solution([], [], 0)

  function AssignSolution(sol: Solution, key: Bytes, v: Value): Option<Solution> {
    var name := FieldName(key, [C, S, N]);
    if name == C then
      var x :- StringField(v, sol.challenge);
      Some(sol.(challenge := x))
    else if name == S then
      var x :- StringField(v, sol.signature);
      Some(sol.(signature := x))
    else if name == N then
      var x :- UintField(v, sol.nonce);
      Some(sol.(nonce := x))
    else Some(sol)
  }

  function AssignSolutions(sol: Solution, ms: seq<(Bytes, Value)>): Option<Solution>
    decreases |ms|
  {
    if |ms| == 0 then Some(sol)
    else
      var next :- AssignSolution(sol, ms[0].0, ms[0].1);
      AssignSolutions(next, ms[1..])
  }

  /** `json.Unmarshal` of the header into an empty solution. */
  function UnmarshalSolution(b: Bytes): Option<Solution> {
    var v :- Parse(b);
    match v
    case Null => Some(NO_SOLUTION)
    case Object(fields) => AssignSolutions(NO_SOLUTION, fields)
    case _ => None
  }

  /** What `powcli` prints of a solution: a map's keys in order. */
  function PrintSolution(sol: Solution): Bytes {
    [OPEN] + (PrintMembers([(C, Text(sol.challenge)), (N, Number(Decimal(sol.nonce))), (S, Text(sol.signature))]) + [CLOSE])
  }

  lemma LettersDiffer()
    ensures C == [99] && S == [115] && N == [110] && Valid(C) && Valid(S) && Valid(N)
  {
    AsciiIsValid(C);
    AsciiIsValid(S);
    AsciiIsValid(N);
  }

  lemma AssignLetters(sol: Solution, t: Bytes, n: uint64)
    ensures AssignSolution(sol, C, Text(t)) == Some(sol.(challenge := t))
    ensures AssignSolution(sol, S, Text(t)) == Some(sol.(signature := t))
    ensures AssignSolution(sol, N, Number(Decimal(n))) == Some(sol.(nonce := n))
  {
    hide Decimal, ParseUint, FoldKey, Ascii;
    LettersDiffer();
    ParseDecimal(n, U64);
    assert C in [C, S, N] && S in [C, S, N] && N in [C, S, N];
  }

  lemma AssignSolutionCons(sol: Solution, m: (Bytes, Value), ms: seq<(Bytes, Value)>, next: Solution)
    requires AssignSolution(sol, m.0, m.1) == Some(next)
    ensures AssignSolutions(sol, [m] + ms) == AssignSolutions(next, ms)
  {
    hide AssignSolution;
    assert ([m] + ms)[1..] == ms;
  }

  /** A printed solution is the one the filter reads from the header. */
  lemma SolutionRoundTrip(sol: Solution)
    requires Valid(sol.challenge) && Valid(sol.signature)
    ensures UnmarshalSolution(PrintSolution(sol)) == Some(sol)
  {
    hide Parse, PrintMembers, CleanMembers, TakeMembers, AssignSolution, AssignSolutions, Decimal, Itoa, Clean, Ascii;
    var a, b, c := (C, Text(sol.challenge)), (N, Number(Decimal(sol.nonce))), (S, Text(sol.signature));
    var ms := [a, b, c];
    ItoaOfNat(sol.nonce);
    assert Printable(a.1) && Printable(b.1) && Printable(c.1);
    LettersDiffer();
    TakePrintedMembers(ms, []);
    MembersStartPlain(ms, [CLOSE]);
    var body := PrintMembers(ms) + ([CLOSE] + []);
    assert PrintSolution(sol) == [OPEN] + body;
    ParseObject(body, CleanMembers(ms));
    assert CleanMembers(ms) == ms by {
      CleanThree(a, b, c);
    }
    var s1 := NO_SOLUTION.(challenge := sol.challenge);
    var s2 := s1.(nonce := sol.nonce);
    AssignLetters(NO_SOLUTION, sol.challenge, sol.nonce);
    AssignLetters(s1, sol.challenge, sol.nonce);
    AssignLetters(s2, sol.signature, sol.nonce);
    AssignSolutionCons(NO_SOLUTION, a, [b, c], s1);
    AssignSolutionCons(s1, b, [c], s2);
    AssignSolutionCons(s2, c, [], sol);
    assert [a] + [b, c] == ms && [b] + [c] == [b, c] && [c] + [] == [c];
    NothingAssigned(sol);
  }

  lemma NothingAssigned(sol: Solution)
    ensures AssignSolutions(sol, []) == Some(sol)
  {
  }

  lemma CleanThree(a: (Bytes, Value), b: (Bytes, Value), c: (Bytes, Value))
    requires Clean(a.0) == a.0 && Clean(b.0) == b.0 && Clean(c.0) == c.0
    requires CleanValue(a.1) == a.1 && CleanValue(b.1) == b.1 && CleanValue(c.1) == c.1
    ensures CleanMembers([a, b, c]) == [a, b, c]
  {
    hide Clean, CleanValue;
  }

  // ------------------------------------------------------------ clearances

  /** `copy` into a zeroed buffer of `n` bytes. */
  function Fit(s: Bytes, n: nat): (r: Bytes)
    ensures |r| == n && (|s| == n ==> r == s)
  {
    if |s| >= n then s[..n] else s + seq(n - |s|, _ => 0)
  }

  /** `exp || salt || ip`, the expiry as a big-endian uint64. */
  function ClearanceRaw(exp: int, salt: Bytes, ip: Bytes): Bytes {
    ToBE(ToUint64(exp), 8) + Fit(salt, SALT_LEN) + ip
  }

  function ClearanceBody(exp: int, salt: Bytes, ip: Bytes): Bytes { Encode(ClearanceRaw(exp, salt, ip)) }

  function Token(mac: Mac, body: Bytes): Bytes { body + [DOT] + Sign(mac, body) }

  function GenerateClearance(mac: Mac, ip: Bytes, now: int, salt: Option<Bytes>): Result<Bytes, TokenError> {
    if salt.None? then Err(RandomFailed)
    else Ok(Token(mac, ClearanceBody(now + CLEARANCE_LIFETIME, salt.value, ip)))
  }

  function DecodeClearanceBody(body: Bytes): Result<(int, Bytes), TokenError> {
    var raw := Decode(body);
    if raw.None? || |raw.value| < FIXED_PREFIX then Err(InvalidToken)
    else
      BEBound(raw.value[..8]);
      Pow2Values();
      Ok((ToInt64(BE(raw.value[..8])), raw.value[FIXED_PREFIX..]))
  }

  /** The two sides of a token's first dot, when both are non-empty. */
  function CutToken(token: Bytes): Option<(Bytes, Bytes)> {
    var i := IndexByte(token, DOT);
    if i <= 0 || i == |token| - 1 then None else Some((token[..i], token[i + 1..]))
  }

  function ParseClearance(mac: Mac, token: Bytes, expectedIP: Bytes): Result<int, TokenError> {
    var parts := CutToken(token);
    if parts.None? then Err(InvalidToken)
    else
      var (body, sig) := parts.value;
      var sigBytes := Decode(sig);
      if sigBytes.None? || mac(body) != sigBytes.value then Err(BadSignature)
      else
        var (exp, tokenIP) :- DecodeClearanceBody(body);
        if expectedIP != [] && (tokenIP == [] || tokenIP != expectedIP) then Err(ContextMismatch)
        else Ok(exp)
  }

  function VerifyClearance(mac: Mac, token: Bytes, expectedIP: Bytes, now: int): Result<(), TokenError> {
    var exp :- ParseClearance(mac, token, expectedIP);
    if now > exp then Err(Expired) else Ok(())
  }

  predicate ShouldRenew(exp: int, now: int, window: int) {
    window > 0 && now > exp && now - exp <= window
  }

  // ---------------------------------------------------- what is recovered

  lemma ClearanceFields(exp: int, salt: Bytes, ip: Bytes)
    requires Int64(exp)
    ensures DecodeClearanceBody(ClearanceBody(exp, salt, ip)) == Ok((exp, ip))
  {
    hide Encode, Decode, ToBE, BE;
    var raw := ClearanceRaw(exp, salt, ip);
    RoundTrip(raw);
    var e := ToBE(ToUint64(exp), 8);
    assert raw[..8] == e && raw[FIXED_PREFIX..] == ip;
    Pow2Values();
    BEToBE(ToUint64(exp), 8);
  }

  lemma CutSigned(body: Bytes, sig: Bytes)
    requires body != [] && sig != [] && InUrlAlphabet(body)
    ensures CutToken(body + [DOT] + sig) == Some((body, sig))
  {
    var t := body + [DOT] + sig;
    assert DOT !in body by {
      forall i | 0 <= i < |body|
        ensures body[i] != DOT
      {
        UrlAlphabetIsPlain(body, i);
      }
    }
    IndexByteAt(body, DOT, sig);
    assert t[..|body|] == body && t[|body| + 1..] == sig;
  }

  /** A token parses as its body and verified signature say. */
  lemma ParseSigned(mac: Mac, body: Bytes, expectedIP: Bytes)
    requires IsMac(mac) && body != [] && InUrlAlphabet(body)
    ensures CutToken(Token(mac, body)) == Some((body, Sign(mac, body)))
    ensures ParseClearance(mac, Token(mac, body), expectedIP)
            == var d := DecodeClearanceBody(body);
               if d.Err? then Err(d.error)
               else if expectedIP != [] && (d.value.1 == [] || d.value.1 != expectedIP) then Err(ContextMismatch)
               else Ok(d.value.0)
  {
    hide Encode, Decode, DecodeClearanceBody, CutToken;
    var sig := Sign(mac, body);
    RoundTrip(mac(body));
    assert sig != [] by {
      assert |mac(body)| == 32;
    }
    CutSigned(body, sig);
  }

  /** A minted clearance yields its int64 expiry to the client it is bound to,
      and to a verifier that does not know the client; every other client is refused. */
  lemma MintedClearanceParses(mac: Mac, exp: int, salt: Bytes, ip: Bytes, expectedIP: Bytes)
    requires IsMac(mac) && Int64(exp)
    ensures ParseClearance(mac, Token(mac, ClearanceBody(exp, salt, ip)), expectedIP)
            == if expectedIP == [] || expectedIP == ip then Ok(exp) else Err(ContextMismatch)
  {
    hide Encode, DecodeClearanceBody, ParseClearance, Token;
    assert |ClearanceRaw(exp, salt, ip)| > 0;
    ClearanceFields(exp, salt, ip);
    ParseSigned(mac, ClearanceBody(exp, salt, ip), expectedIP);
  }

  /** The bytes of a token's body, before it was encoded. */
  function BodyBytes(token: Bytes): Option<Bytes> {
    var parts :- CutToken(token);
    Decode(parts.0)
  }

  /** What a minted token holds, byte for byte: the time half an hour on as a
      64-bit big-endian number, the random salt, and the address. */
  lemma MintedBytes(mac: Mac, ip: Bytes, now: Clock, salt: Bytes)
    requires IsMac(mac) && |salt| == 16
    ensures var token := GenerateClearance(mac, ip, now, Some(salt));
            && token.Ok? && BodyBytes(token.value).Some?
            && var b := BodyBytes(token.value).value;
               |b| == 24 + |ip| && BE(b[..8]) == now + 1800 && b[8..24] == salt && b[24..] == ip
  {
    hide Encode, Decode, CutToken, ToBE, BE, InUrlAlphabet, ClearanceRaw, ParseClearance, Token;
    var raw := ClearanceRaw(now + CLEARANCE_LIFETIME, salt, ip);
    RawFields(now, salt, ip);
    RoundTrip(raw);
    assert Encode(raw) != [] by {
      EmptyDecodes();
    }
    ParseSigned(mac, Encode(raw), ip);
  }

  lemma RawFields(now: Clock, salt: Bytes, ip: Bytes)
    requires |salt| == 16
    ensures var b := ClearanceRaw(now + CLEARANCE_LIFETIME, salt, ip);
            |b| == 24 + |ip| && BE(b[..8]) == now + 1800 && b[8..24] == salt && b[24..] == ip
  {
    hide ToBE, BE;
    Pow2Values();
    BEToBE(now + CLEARANCE_LIFETIME, 8);
    var raw := ClearanceRaw(now + CLEARANCE_LIFETIME, salt, ip);
    assert raw[..8] == ToBE(now + CLEARANCE_LIFETIME, 8) && raw[8..24] == salt && raw[24..] == ip;
  }

  lemma EmptyDecodes()
    ensures Decode([]) == Some([])
  {
  }

  /** Tokens minted in one second for one address are equal only if their salts are. */
  lemma SaltsTellTokensApart(mac: Mac, ip: Bytes, now: Clock, salt: Bytes, salt': Bytes)
    requires IsMac(mac) && |salt| == 16 && |salt'| == 16
    requires GenerateClearance(mac, ip, now, Some(salt)) == GenerateClearance(mac, ip, now, Some(salt'))
    ensures salt == salt'
  {
    hide GenerateClearance, BodyBytes;
    MintedBytes(mac, ip, now, salt);
    MintedBytes(mac, ip, now, salt');
  }

  /** A minted clearance verifies for its client until its expiry, and may be
      renewed by it in the window after that: never both, and for no one else. */
  lemma VerifyOrRenew(mac: Mac, exp: int64, salt: Bytes, ip: Bytes, expectedIP: Bytes, now: int, window: int)
    requires IsMac(mac)
    ensures var token := Token(mac, ClearanceBody(exp, salt, ip));
            var bound := expectedIP == [] || expectedIP == ip;
            && (VerifyClearance(mac, token, expectedIP, now).Ok? <==> bound && now <= exp)
            && (bound && !VerifyClearance(mac, token, expectedIP, now).Ok? && ShouldRenew(exp, now, window)
                <==> bound && exp < now <= exp + window)
            && (VerifyClearance(mac, token, expectedIP, now) == Err(Expired) <==> bound && now > exp)
  {
    hide ParseClearance, Token;
    MintedClearanceParses(mac, exp, salt, ip, expectedIP);
  }

  /** What the verifier says of a solution to an issued challenge. The identity went
      through JSON, which keeps valid UTF-8 only. */
  lemma IssuedChallengeVerdict(mac: Mac, p: Payload, nonce: uint64, expected: ClientContext, now: int)
    requires IsMac(mac)
    ensures VerifySolution(mac, Solution(ChallengeText(p), Sign(mac, ChallengeText(p)), nonce), expected, now)
            == if now > p.exp then Err(Expired)
               else if !PowOk(Marshal(p), nonce, p.diff) then Err(BadPoW)
               else MatchContext(Clean(p.ctx), Clean(p.cid), expected)
  {
    hide Encode, Decode, PowOk, Unmarshal, Marshal, MatchContext, Clean;
    var text := ChallengeText(p);
    assert |mac(text)| == 32;
    MarshalIsObject(p);
    RoundTrip(Marshal(p));
    RoundTrip(mac(text));
    PayloadRoundTrip(p);
  }

  /** Context binding, spelled out. */
  lemma ContextBinding(tokenIP: Bytes, tokenCID: Bytes, expected: ClientContext)
    ensures MatchContext(tokenIP, tokenCID, expected).Ok? <==>
            && (expected.ip == [] || tokenIP == expected.ip)
            && (tokenCID == [] || expected.connId == [] || tokenCID == expected.connId)
  {
  }

  // -------------------------------------- the two kinds under the one key

  /** Text that no address contains: `net.IP.String` prints digits, `a`-`f`, dots and colons. */
  predicate AddressText(ip: Bytes) {
    forall i :: 0 <= i < |ip| ==>
      IsDigit(ip[i]) || 'a' as int <= ip[i] <= 'f' as int || ip[i] == DOT || ip[i] == ':' as int
  }

  /** A signed challenge offered as a clearance. The signature is right and the
      body is long enough to decode, so the IP check alone stands in the way: it
      refuses every client with a known address, and does not run for a client
      whose address is unknown. */
  lemma ChallengeAsClearance(mac: Mac, p: Payload, ip: Bytes)
    requires IsMac(mac) && AddressText(ip)
    ensures ParseClearance(mac, Token(mac, ChallengeText(p)), ip).Ok? <==> ip == []
    ensures ip != [] ==> ParseClearance(mac, Token(mac, ChallengeText(p)), ip) == Err(ContextMismatch)
  {
    hide Encode, Decode, Marshal, ParseClearance, Token, ToInt64, BE;
    var raw := Marshal(p);
    MarshalIsObject(p);
    RoundTrip(raw);
    ParseSigned(mac, ChallengeText(p), ip);
    var tail := raw[FIXED_PREFIX..];
    assert tail[|tail| - 1] == raw[|raw| - 1] == '}' as int;
    assert ip != [] ==> tail != ip;
  }

  /** A signed clearance offered as a challenge does not parse: its expiry
      begins with a zero byte, which no JSON text does. */
  lemma ClearanceAsChallenge(mac: Mac, exp: int, salt: Bytes, ip: Bytes, sig: Bytes, nonce: uint64,
                             expected: ClientContext, now: int)
    requires 0 <= exp < 0x100_0000_0000_0000
    ensures Unmarshal(ClearanceRaw(exp, salt, ip)).None?
    ensures VerifySolution(mac, Solution(ClearanceBody(exp, salt, ip), sig, nonce), expected, now) == Err(InvalidToken)
  {
    hide Encode, Decode, Unmarshal, ClearanceRaw, PowOk, MatchContext;
    var raw := ClearanceRaw(exp, salt, ip);
    ClearanceStartsWithZero(exp, salt, ip);
    if Unmarshal(raw).Some? {
      ParsedStart(raw);
      assert false;
    }
    RoundTrip(raw);
  }

  lemma ClearanceStartsWithZero(exp: int, salt: Bytes, ip: Bytes)
    requires 0 <= exp < 0x100_0000_0000_0000
    ensures |ClearanceRaw(exp, salt, ip)| > 0 && ClearanceRaw(exp, salt, ip)[0] == 0
  {
    hide ToBE;
    TopByteZero(exp);
    assert ClearanceRaw(exp, salt, ip)[0] == ToBE(exp, 8)[0];
  }

  lemma TopByteZero(n: nat)
    requires n < 0x100_0000_0000_0000
    ensures ToBE(n, 8)[0] == 0
  {
    Pow2Values();
    BEToBE(n, 8);
    var b := ToBE(n, 8);
    assert b == [b[0]] + b[1..];
    BEConcat([b[0]], b[1..]);
    assert BE([b[0]]) == b[0];
    Pow2Add(32, 24);
    Scale(b[0], Pow2(56));
  }

  /** The signed texts of the two kinds are different strings. */
  lemma KindsDiffer(p: Payload, exp: int, salt: Bytes, ip: Bytes)
    requires 0 <= exp < 0x100_0000_0000_0000
    ensures ChallengeText(p) != ClearanceBody(exp, salt, ip)
  {
    hide Encode, Decode, Unmarshal, Marshal;
    RoundTrip(Marshal(p));
    RoundTrip(ClearanceRaw(exp, salt, ip));
    PayloadRoundTrip(p);
    ClearanceAsChallenge(m => m, exp, salt, ip, [], 0, ClientContext([], []), 0);
  }

  /** Accepting a clearance means its body was signed, by the caller's reading of `mac`. */
  lemma AcceptedClearance(mac: Mac, token: Bytes, expectedIP: Bytes)
    requires ParseClearance(mac, token, expectedIP).Ok?
    ensures CutToken(token).Some?
    ensures var (body, sig) := CutToken(token).value;
            && Decode(sig) == Some(mac(body))
            && DecodeClearanceBody(body).Ok?
            && ParseClearance(mac, token, expectedIP).value == DecodeClearanceBody(body).value.0
            && (expectedIP != [] ==> DecodeClearanceBody(body).value.1 == expectedIP)
  {
  }

  // ---------------------------------------------------- the format, outright

  /** The text of a solution in the header, as powcli prints it. */
  lemma SolutionText(sol: Solution)
    ensures PrintSolution(sol)
            == Ascii("{\"c\":\"") + (Escape(sol.challenge) + (Ascii("\",\"n\":") + (Itoa(sol.nonce)
               + (Ascii(",\"s\":\"") + (Escape(sol.signature) + Ascii("\"}"))))))
  {
    hide Escape, Itoa, Decimal, PrintMembers, Ascii, KeyOf;
    LettersDiffer();
    SolutionKeys();
    ItoaOfNat(sol.nonce);
    var b, c := (N, Number(Itoa(sol.nonce))), (S, Text(sol.signature));
    TextThen([OPEN], C, sol.challenge, [b] + [c]);
    NumberThen([COMMA], N, Itoa(sol.nonce), [c]);
    TextThen([COMMA], S, sol.signature, []);
    assert [b] + [c] == [b, c] && [c] + [] == [c];
    assert [(C, Text(sol.challenge))] + [b, c] == [(C, Text(sol.challenge)), b, c];
    QuoteThen([COMMA] + KeyOf(N), Itoa(sol.nonce) + MembersEnd([c]));
  }

  lemma QuoteThen(k: Bytes, rest: Bytes)
    ensures [QUOTE] + (k + rest) == [QUOTE] + k + rest
  {
  }

  lemma SolutionKeys()
    ensures Ascii("{\"c\":\"") == [OPEN] + KeyOf(C) + [QUOTE] && Ascii("\",\"n\":") == [QUOTE] + ([COMMA] + KeyOf(N))
    ensures Ascii(",\"s\":\"") == [COMMA] + KeyOf(S) + [QUOTE] && Ascii("\"}") == [QUOTE] + [CLOSE]
  {
  }

  /** A difficulty of 0 stands for 18; every challenge lasts 60 seconds. */
  lemma NewPayloadFields(difficulty: uint64, client: ClientContext, now: Clock, salt: Bytes)
    ensures var p := NewPayload(difficulty, client, now, salt);
            && p.diff == (if difficulty == 0 then 18 else difficulty)
            && p.ts == now && p.exp == now + 60
            && p.ctx == client.ip && p.cid == client.connId && Decode(p.salt) == Some(salt)
  {
    hide Encode, Decode;
    RoundTrip(salt);
  }

  /** A token is its body, a dot, and the MAC of the body in base64url. */
  lemma TokenText(mac: Mac, body: Bytes)
    requires IsMac(mac)
    ensures Token(mac, body)[..|body| + 1] == body + Ascii(".")
    ensures Decode(Token(mac, body)[|body| + 1..]) == Some(mac(body))
  {
    hide Encode, Decode;
    RoundTrip(mac(body));
    var t := Token(mac, body);
    assert Ascii(".") == ['.' as int];
    assert t[..|body| + 1] == body + [DOT] && t[|body| + 1..] == Sign(mac, body);
  }

  /** What is hashed for a nonce: the challenge's bytes, then the nonce as a 64-bit
      big-endian number. */
  lemma PowInputBytes(raw: Bytes, nonce: uint64)
    ensures var b := PowInput(raw, nonce);
            |b| == |raw| + 8 && b[..|raw|] == raw && BE(b[|raw|..]) == nonce
  {
    hide ToBE, BE;
    Pow2Values();
    BEToBE(nonce, 8);
    assert PowInput(raw, nonce)[|raw|..] == ToBE(nonce, 8);
  }

  // ------------------------------------------------------ which error it is

  /** Both fields, and a challenge that decodes to a payload. */
  predicate Readable(sol: Solution) {
    && sol.challenge != [] && sol.signature != []
    && Decode(sol.challenge).Some? && Unmarshal(Decode(sol.challenge).value).Some?
  }

  /** The verdict on any solution whatever: form, expiry, signature, work and binding
      are looked at in this order, and the first that fails is the one reported. */
  lemma SolutionErrors(mac: Mac, sol: Solution, expected: ClientContext, now: int)
    ensures var v := VerifySolution(mac, sol, expected, now);
            && (v == Err(InvalidToken) <==> !Readable(sol))
            && (Readable(sol) ==>
                  var raw := Decode(sol.challenge).value;
                  var p := Unmarshal(raw).value;
                  var late, signed, worked := now > p.exp, Decode(sol.signature) == Some(mac(sol.challenge)), PowOk(raw, sol.nonce, p.diff);
                  && (v == Err(Expired) <==> late)
                  && (v == Err(BadSignature) <==> !late && !signed)
                  && (v == Err(BadPoW) <==> !late && signed && !worked)
                  && (v == Err(ContextMismatch) <==> !late && signed && worked && MatchContext(p.ctx, p.cid, expected).Err?)
                  && (v == Ok(()) <==> !late && signed && worked && MatchContext(p.ctx, p.cid, expected).Ok?))
  {
    hide Decode, Unmarshal, PowOk;
  }

  /** The first dot has text on both sides. */
  predicate Dotted(token: Bytes) {
    exists i :: 0 < i < |token| - 1 && token[i] == DOT && DOT !in token[..i]
  }

  lemma CutsAtFirstDot(token: Bytes)
    ensures CutToken(token).Some? <==> Dotted(token)
    ensures CutToken(token).Some? ==>
              var (body, sig) := CutToken(token).value;
              body != [] && sig != [] && DOT !in body && token == body + [DOT] + sig
  {
    hide IndexByte;
    var i := IndexByte(token, DOT);
    assert Dotted(token) ==> i >= 0;
    if 0 < i < |token| - 1 {
      assert token == token[..i] + [DOT] + token[i + 1..];
    }
  }

  /** The verdict on any clearance whatever: only a body whose MAC is right is
      decoded, and only then is the address looked at. */
  lemma ClearanceErrors(mac: Mac, token: Bytes, expectedIP: Bytes)
    ensures var v := ParseClearance(mac, token, expectedIP);
            && (!Dotted(token) ==> v == Err(InvalidToken))
            && (Dotted(token) ==>
                  var (body, sig) := CutToken(token).value;
                  var signed := Decode(sig) == Some(mac(body));
                  var long := Decode(body).Some? && |Decode(body).value| >= 24;
                  var theirs := expectedIP == [] || (long && Decode(body).value[24..] == expectedIP);
                  && (v == Err(BadSignature) <==> !signed)
                  && (v == Err(InvalidToken) <==> signed && !long)
                  && (v == Err(ContextMismatch) <==> signed && long && !theirs)
                  && (v.Ok? <==> signed && long && theirs))
  {
    hide Decode, CutToken, ToInt64, BE;
    CutsAtFirstDot(token);
    hide Dotted;
  }
}
