/** The two solvers, the challenge page's and `powcli`'s, against the verifier. */
module PowSolver {
  import opened GoBytes
  import opened Base64Url
  import opened Utf8
  import opened ChallengeJson
  import opened PowCheck
  import opened Tokens
  import opened PageSha256
  import Sha256

  const PAGE_TRIES := 80_000_000

  datatype SolveError = Malformed | Unsolved

  /** `n` is the least nonce that meets the difficulty. */
  predicate Least(raw: Bytes, n: nat, difficulty: nat) {
    PowOk(raw, n, difficulty) && NoneBelow(raw, n, difficulty)
  }

  predicate NoneBelow(raw: Bytes, n: nat, difficulty: nat) {
    forall k :: 0 <= k < n ==> !PowOk(raw, k, difficulty)
  }

  /** `powcli`'s search: the nonce is written over the last eight bytes of one buffer. */
  method SolvePoW(challengeB64: Bytes, maxNonce: nat) returns (r: Result<nat, SolveError>)
    requires maxNonce < U64 - 1
    ensures r == Err(Malformed) <==> Decode(challengeB64).None? || Unmarshal(Decode(challengeB64).value).None?
    ensures r.Ok? ==> r.value <= maxNonce
    ensures r.Ok? ==> Least(Decode(challengeB64).value, r.value, Unmarshal(Decode(challengeB64).value).value.diff)
    ensures r == Err(Unsolved) ==>
              NoneBelow(Decode(challengeB64).value, maxNonce + 1, Unmarshal(Decode(challengeB64).value).value.diff)
  {
    hide Decode, Unmarshal, LeadingZeros, ToBE, Sha256.Hash;
    var decoded := Decode(challengeB64);
    if decoded.None? {
      return Err(Malformed);
    }
    var raw := decoded.value;
    var payload := Unmarshal(raw);
    if payload.None? {
      return Err(Malformed);
    }
    var diff := payload.value.diff;
    var nonce := 0;
    var data := new byte[|raw| + 8](_ => 0);
    forall i | 0 <= i < |raw| {
      data[i] := raw[i];
    }
    while true
      invariant data[..|raw|] == raw
      invariant nonce <= maxNonce && NoneBelow(raw, nonce, diff)
      decreases maxNonce - nonce
    {
      var nb := ToBE(nonce, 8);
      forall i | 0 <= i < 8 {
        data[|raw| + i] := nb[i];
      }
      assert data[..] == data[..|raw|] + data[|raw|..];
      assert data[|raw|..] == nb;
      assert data[..] == PowInput(raw, nonce);
      var solved := HasLeadingZeroBits(Sha256.Hash(data[..]), diff);
      assert solved <==> PowOk(raw, nonce, diff);
      if solved {
        return Ok(nonce);
      }
      nonce := nonce + 1;
      if nonce > maxNonce {
        return Err(Unsolved);
      }
    }
  }

  /** The page's difficulty: an absent or zero field counts as 18. */
  function PageDifficulty(p: Payload): nat { if p.diff == 0 then 18 else p.diff }

  /** The page's search, on every challenge the filter can issue. */
  method PageSolve(cb: Bytes, sb: Bytes) returns (r: Result<Solution, SolveError>)
    requires 8 * (|cb| + 16) < U64
    ensures forall p {:trigger ChallengeText(p)} :: cb == ChallengeText(p) && sb != [] ==>
              var bits := if p.diff == 0 then 18 else if p.diff > 256 then 256 else p.diff;
              if r.Ok? then
                && r.value == Solution(cb, sb, r.value.nonce) && r.value.nonce < 80_000_000
                && Least(Marshal(p), r.value.nonce, bits)
              else NoneBelow(Marshal(p), 80_000_000, bits)
  {
    hide Encode, Unmarshal, Marshal, LeadingZeros, ToBE, Sha256.Hash;
    if cb == [] || sb == [] {
      assert forall p {:trigger ChallengeText(p)} :: ChallengeText(p) != [] by {
        forall p
          ensures ChallengeText(p) != []
        {
          MarshalIsObject(p);
        }
      }
      return Err(Malformed);
    }
    var decoded := PageDecode(cb);
    if decoded.None? {
      return Err(Malformed);
    }
    var pb := decoded.value;
    var pt := Unmarshal(pb);
    forall p | cb == ChallengeText(p)
      ensures pb == Marshal(p) && pt == Some(Cleaned(p))
    {
      PayloadRoundTrip(p);
    }
    if pt.None? {
      return Err(Malformed);
    }
    var df := PageDifficulty(pt.value);
    ghost var bits := if df <= 256 then df else 256;
    var non := 0;
    var i := 0;
    while i < PAGE_TRIES
      invariant 0 <= i <= PAGE_TRIES && non == i
      invariant NoneBelow(pb, non, bits)
    {
      var nb := ToBE(non, 8);
      var da := pb + nb;
      var ha := PageHash(da);
      var solved := HasZ(ha[..], df);
      if solved {
        return Ok(Solution(cb, sb, non));
      }
      non := non + 1;
      i := i + 1;
    }
    return Err(Unsolved);
  }

  /** A least nonce is a solution the filter accepts, from the client the
      challenge names, until the challenge expires. */
  lemma SolutionIsAccepted(mac: Mac, p: Payload, n: uint64, client: ClientContext, now: int)
    requires IsMac(mac) && Least(Marshal(p), n, p.diff) && now <= p.exp
    requires MatchContext(Clean(p.ctx), Clean(p.cid), client).Ok?
    ensures VerifySolution(mac, Solution(ChallengeText(p), Sign(mac, ChallengeText(p)), n), client, now) == Ok(())
  {
    hide VerifySolution, PowOk, Marshal;
    IssuedChallengeVerdict(mac, p, n, client, now);
  }

  /** The challenge a client was given matches that client, exactly when what is
      known of it is valid UTF-8. */
  lemma OwnContextMatches(client: ClientContext)
    ensures MatchContext(Clean(client.ip), Clean(client.connId), client).Ok? <==> Valid(client.ip) && Valid(client.connId)
  {
    hide Clean;
    CleanEmpty(client.ip);
    CleanEmpty(client.connId);
  }

  /** `powcli`'s own verifier: no context check, and no separate test for empty cookies. */
  function CliVerify(mac: Mac, challenge: Bytes, signature: Bytes, nonce: uint64, now: int): bool {
    var raw := Decode(challenge);
    raw.Some? &&
    var payload := Unmarshal(raw.value);
    payload.Some? && now <= payload.value.exp
    && Decode(signature) == Some(mac(challenge))
    && PowOk(raw.value, nonce, payload.value.diff)
  }

  /** It accepts exactly what the filter accepts from a client it knows nothing about. */
  lemma CliVerifyIsUnboundVerify(mac: Mac, challenge: Bytes, signature: Bytes, nonce: uint64, now: int)
    requires IsMac(mac)
    ensures CliVerify(mac, challenge, signature, nonce, now)
            <==> VerifySolution(mac, Solution(challenge, signature, nonce), ClientContext([], []), now).Ok?
  {
    hide PowOk, Unmarshal;
    assert Decode([]) == Some([]);
    assert Unmarshal([]).None? by {
      if Unmarshal([]).Some? {
        ParsedStart([]);
        assert false;
      }
    }
    assert |mac(challenge)| == 32;
  }
}
