/** The token operations as crypt.go runs them: on one keyed digester and one
    32-byte sum buffer, both reused by every call. Each method returns what the
    functions of `Tokens` say for its own inputs, whatever earlier calls left in
    the digester and the buffer. */
module TokenOps {
  import opened GoBytes
  import opened Base64Url
  import opened ChallengeJson
  import opened PowCheck
  import opened Tokens
  import Sha256

  /** `hash.Hash` for HMAC-SHA256: the bytes written since the last reset. */
  class Hmac {
    const keyed: Mac
    var fed: Bytes

    constructor (keyed: Mac)
      ensures this.keyed == keyed && fed == []
    {
      this.keyed := keyed;
      fed := [];
    }

    method Reset()
      modifies this`fed
      ensures fed == []
    {
      fed := [];
    }

    method Write(p: Bytes)
      modifies this`fed
      ensures fed == old(fed) + p
    {
      fed := fed + p;
    }

    /** `mac.Sum(buf[:0])`: the digest is written over the buffer. */
    method Sum(buf: array<byte>)
      requires buf.Length == |keyed(fed)|
      modifies buf
      ensures buf[..] == keyed(fed)
    {
      var d := keyed(fed);
      forall i | 0 <= i < buf.Length {
        buf[i] := d[i];
      }
    }
  }

  method SumOf(mac: Hmac, sumBuf: array<byte>, text: Bytes)
    requires IsMac(mac.keyed) && sumBuf.Length == 32
    modifies mac, sumBuf
    ensures sumBuf[..] == mac.keyed(text)
  {
    mac.Reset();
    mac.Write(text);
    assert mac.fed == text;
    mac.Sum(sumBuf);
  }

  method GenerateChallengeMAC(mac: Hmac, sumBuf: array<byte>, difficulty: uint64, client: ClientContext,
                              now: Clock, salt: Option<Bytes>)
    returns (r: Result<SignedChallenge, TokenError>)
    requires IsMac(mac.keyed) && sumBuf.Length == 32
    modifies mac, sumBuf
    ensures r == GenerateChallenge(mac.keyed, difficulty, client, now, salt)
  {
    hide Encode, Marshal;
    var d := difficulty;
    if d < 1 {
      d := DEFAULT_DIFFICULTY;
    }
    if salt.None? {
      return Err(RandomFailed);
    }
    var payload := Payload(now, now + CHALLENGE_LIFETIME, d, Encode(salt.value), client.ip, client.connId);
    var challenge := Encode(Marshal(payload));
    SumOf(mac, sumBuf, challenge);
    return Ok(SignedChallenge(challenge, Encode(sumBuf[..])));
  }

  /** Packs `exp || salt || ip` into one buffer, in place. */
  method EncodeClearanceBody(exp: int, salt: Bytes, ip: Bytes) returns (body: Bytes)
    ensures body == ClearanceBody(exp, salt, ip)
  {
    hide Encode, ToBE;
    var raw := new byte[FIXED_PREFIX + |ip|](_ => 0);
    var e := ToBE(ToUint64(exp), 8);
    forall i | 0 <= i < 8 {
      raw[i] := e[i];
    }
    var n := if |salt| < SALT_LEN then |salt| else SALT_LEN;
    forall i | 0 <= i < n {
      raw[8 + i] := salt[i];
    }
    forall i | 0 <= i < |ip| {
      raw[FIXED_PREFIX + i] := ip[i];
    }
    assert raw[..8] == e && raw[8..FIXED_PREFIX] == Fit(salt, SALT_LEN) && raw[FIXED_PREFIX..] == ip;
    assert raw[..] == raw[..8] + raw[8..FIXED_PREFIX] + raw[FIXED_PREFIX..];
    body := Encode(raw[..]);
  }

  method GenerateClearanceMAC(mac: Hmac, sumBuf: array<byte>, context: Bytes, now: int, salt: Option<Bytes>)
    returns (r: Result<Bytes, TokenError>)
    requires IsMac(mac.keyed) && sumBuf.Length == 32
    modifies mac, sumBuf
    ensures r == GenerateClearance(mac.keyed, context, now, salt)
    ensures r.Ok? <==> salt.Some?
    ensures salt.Some? && |salt.value| == 16 && 0 <= now < 0x100_0000_0000_0000 - 1800 ==>
              && BodyBytes(r.value).Some?
              && var b := BodyBytes(r.value).value;
                 |b| == 24 + |context| && BE(b[..8]) == now + 1800 && b[8..24] == salt.value && b[24..] == context
  {
    hide BodyBytes, BE;
    if salt.None? {
      return Err(RandomFailed);
    }
    var body := EncodeClearanceBody(now + CLEARANCE_LIFETIME, salt.value, context);
    SumOf(mac, sumBuf, body);
    if |salt.value| == 16 && 0 <= now < 0x100_0000_0000_0000 - 1800 {
      MintedBytes(mac.keyed, context, now, salt.value);
    }
    return Ok(body + [DOT] + Encode(sumBuf[..]));
  }

  method VerifySolutionMAC(mac: Hmac, sumBuf: array<byte>, sol: Solution, expected: ClientContext, now: int)
    returns (r: Result<(), TokenError>)
    requires IsMac(mac.keyed) && sumBuf.Length == 32
    modifies mac, sumBuf
    ensures r == VerifySolution(mac.keyed, sol, expected, now)
  {
    hide Decode, Unmarshal, LeadingZeros;
    if sol.challenge == [] || sol.signature == [] {
      return Err(InvalidToken);
    }
    var chBytes := Decode(sol.challenge);
    if chBytes.None? {
      return Err(InvalidToken);
    }
    var payload := Unmarshal(chBytes.value);
    if payload.None? {
      return Err(InvalidToken);
    }
    if now > payload.value.exp {
      return Err(Expired);
    }
    SumOf(mac, sumBuf, sol.challenge);
    var sigBytes := Decode(sol.signature);
    if sigBytes.None? {
      return Err(BadSignature);
    }
    if sumBuf[..] != sigBytes.value {
      return Err(BadSignature);
    }
    var sum := Sha256.Hash(chBytes.value + ToBE(sol.nonce, 8));
    var solved := HasLeadingZeroBits(sum, payload.value.diff);
    if !solved {
      return Err(BadPoW);
    }
    r := MatchContext(payload.value.ctx, payload.value.cid, expected);
  }

  method ParseClearanceMAC(mac: Hmac, sumBuf: array<byte>, token: Bytes, expectedIP: Bytes)
    returns (r: Result<int, TokenError>)
    requires IsMac(mac.keyed) && sumBuf.Length == 32
    modifies mac, sumBuf
    ensures r == ParseClearance(mac.keyed, token, expectedIP)
  {
    hide Decode, DecodeClearanceBody, CutToken;
    var parts := CutToken(token);
    if parts.None? {
      return Err(InvalidToken);
    }
    var (body, sig) := parts.value;
    SumOf(mac, sumBuf, body);
    var sigBytes := Decode(sig);
    if sigBytes.None? {
      return Err(BadSignature);
    }
    if sumBuf[..] != sigBytes.value {
      return Err(BadSignature);
    }
    var decoded := DecodeClearanceBody(body);
    if decoded.Err? {
      return Err(decoded.error);
    }
    var (exp, tokenIP) := decoded.value;
    if expectedIP != [] {
      if tokenIP == [] || tokenIP != expectedIP {
        return Err(ContextMismatch);
      }
    }
    return Ok(exp);
  }

  method VerifyClearanceMAC(mac: Hmac, sumBuf: array<byte>, token: Bytes, expectedIP: Bytes, now: int)
    returns (r: Result<(), TokenError>)
    requires IsMac(mac.keyed) && sumBuf.Length == 32
    modifies mac, sumBuf
    ensures r == VerifyClearance(mac.keyed, token, expectedIP, now)
  {
    hide ParseClearance;
    var exp := ParseClearanceMAC(mac, sumBuf, token, expectedIP);
    if exp.Err? {
      return Err(exp.error);
    }
    if now > exp.value {
      return Err(Expired);
    }
    return Ok(());
  }

  // ------------------------------------------------- reuse is invisible

  datatype Call =
    | MakeChallenge(difficulty: uint64, client: ClientContext, at: Clock, salt: Option<Bytes>)
    | MakeClearance(context: Bytes, at: Clock, salt: Option<Bytes>)
    | CheckSolution(sol: Solution, client: ClientContext, at: Clock)
    | CheckClearance(token: Bytes, expectedIP: Bytes)

  datatype Reply =
    | Challenged(challenge: Result<SignedChallenge, TokenError>)
    | Minted(token: Result<Bytes, TokenError>)
    | Judged(verdict: Result<(), TokenError>)
    | Parsed(expiry: Result<int, TokenError>)

  method Answer(mac: Hmac, sumBuf: array<byte>, call: Call) returns (r: Reply)
    requires IsMac(mac.keyed) && sumBuf.Length == 32
    modifies mac, sumBuf
    ensures call.MakeChallenge? ==>
              r == Challenged(GenerateChallenge(mac.keyed, call.difficulty, call.client, call.at, call.salt))
    ensures call.MakeClearance? ==> r == Minted(GenerateClearance(mac.keyed, call.context, call.at, call.salt))
    ensures call.CheckSolution? ==> r == Judged(VerifySolution(mac.keyed, call.sol, call.client, call.at))
    ensures call.CheckClearance? ==> r == Parsed(ParseClearance(mac.keyed, call.token, call.expectedIP))
  {
    hide GenerateChallenge, GenerateClearance, VerifySolution, ParseClearance;
    match call
    case MakeChallenge(d, c, now, salt) =>
      var v := GenerateChallengeMAC(mac, sumBuf, d, c, now, salt);
      return Challenged(v);
    case MakeClearance(ip, now, salt) =>
      var v := GenerateClearanceMAC(mac, sumBuf, ip, now, salt);
      return Minted(v);
    case CheckSolution(sol, c, now) =>
      var v := VerifySolutionMAC(mac, sumBuf, sol, c, now);
      return Judged(v);
    case CheckClearance(token, ip) =>
      var v := ParseClearanceMAC(mac, sumBuf, token, ip);
      return Parsed(v);
  }

  /** Over any sequence of calls, one shared digester and buffer give the same
      replies as a fresh digester and buffer for every call. */
  method SharedEqualsFresh(mac: Hmac, sumBuf: array<byte>, calls: seq<Call>)
    returns (shared: seq<Reply>, apart: seq<Reply>)
    requires IsMac(mac.keyed) && sumBuf.Length == 32
    modifies mac, sumBuf
    ensures |shared| == |calls| && shared == apart
  {
    hide GenerateChallenge, GenerateClearance, VerifySolution, ParseClearance;
    shared, apart := [], [];
    for i := 0 to |calls|
      invariant |shared| == i && shared == apart
    {
      var reply := Answer(mac, sumBuf, calls[i]);
      var newMac := new Hmac(mac.keyed);
      var newBuf := new byte[32];
      var freshReply := Answer(newMac, newBuf, calls[i]);
      shared, apart := shared + [reply], apart + [freshReply];
    }
  }
}
