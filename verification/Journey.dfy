/** One client's way through the filter: the challenge it is given, the request
    that brings the solution, and the later requests that bring the clearance. */
module Journey {
  import opened GoBytes
  import opened Base64Url
  import opened Utf8
  import opened ChallengeJson
  import opened CookieJar
  import opened PageCookies
  import opened Tokens
  import opened Cookies
  import opened Gate
  import opened PowSolver
  import opened Run

  /** The 403 to a request leaves the client with the text and signature of its
      challenge, where the page's script can read them. */
  lemma ReplyIsKept(jar: Jar, mac: Mac, req: Request, p: Payload)
    ensures var reply := ReplyTo(mac, req, Challenged(p));
            && reply.Some?
            && ReceiveAll(jar, reply.value) == ChallengedJar(jar, SignedFor(mac, p), req.https)
            && var seen := Visible(ReceiveAll(jar, reply.value));
               && Ascii("challenge") in seen && seen[Ascii("challenge")] == ChallengeText(p)
               && Ascii("challenge-sig") in seen && seen[Ascii("challenge-sig")] == Sign(mac, ChallengeText(p))
  {
    hide ReceiveAll, ChallengeReply, ChallengedJar, CookieValue, Visible, ChallengeText, Sign;
    TextsAreValues(mac, p);
    ChallengeIsKept(jar, SignedFor(mac, p), req.https);
    ScriptSeesChallenge(jar, SignedFor(mac, p), req.https);
  }

  lemma TextsAreValues(mac: Mac, p: Payload)
    ensures CookieValue(ChallengeText(p)) && CookieValue(Sign(mac, ChallengeText(p)))
  {
    hide CookieValue;
    AlphabetIsValue(ChallengeText(p));
    AlphabetIsValue(Sign(mac, ChallengeText(p)));
  }

  lemma AlphabetIsValue(s: Bytes)
    requires InUrlAlphabet(s)
    ensures CookieValue(s)
  {
    forall i | 0 <= i < |s|
      ensures CookieOctet(s[i])
    {
      UrlAlphabetIsPlain(s, i);
    }
    assert Octets(s);
  }

  /** A cookie jar whose four names of interest hold these values. */
  predicate Holds(jar: seq<Pair>, clearance: Bytes, challenge: Bytes, signature: Bytes, nonce: Bytes) {
    && WellFormed(jar)
    && LastValue(jar, CLEARANCE) == clearance && LastValue(jar, CHALLENGE) == challenge
    && LastValue(jar, SIGNATURE) == signature && LastValue(jar, NONCE) == nonce
  }

  lemma JarIsRead(jar: seq<Pair>, clearance: Bytes, challenge: Bytes, signature: Bytes, nonce: Bytes)
    requires Holds(jar, clearance, challenge, signature, nonce)
    ensures Scan(CookieString(jar), NO_COOKIES) == ChallengeCookies(clearance, challenge, signature, nonce)
  {
    hide Scan, CookieString, WellFormed, LastValue;
    ScannerTakesLast(jar, CLEARANCE);
    ScannerTakesLast(jar, CHALLENGE);
    ScannerTakesLast(jar, SIGNATURE);
    ScannerTakesLast(jar, NONCE);
    NamesDiffer();
  }

  /** A client that was challenged and found a nonce, by either solver, is admitted
      when it brings the cookies back before the challenge expires, whatever other
      cookies it sends and whatever state the instance it reaches is in. */
  lemma SolverIsAdmitted(mac: Mac, cfg: Config, vm: VmState, shared: Bytes, p: Payload, n: uint64, jar: seq<Pair>,
                         req: Request, t: Times, salt: Option<Bytes>, verdict: Bytes)
    requires IsMac(mac) && Least(Marshal(p), n, p.diff)
    requires Holds(jar, [], ChallengeText(p), Sign(mac, ChallengeText(p)), Decimal(n)) && req.cookie == CookieString(jar)
    requires Guarded(cfg, req) && t.cookie <= p.exp
    requires p.ctx == req.client.ip && p.cid == req.client.connId && Valid(p.ctx) && Valid(p.cid)
    ensures Decide(mac, cfg, vm, shared, req, t, salt, verdict)
            == Solved(Solution(ChallengeText(p), Sign(mac, ChallengeText(p)), n), t.cookie)
  {
    hide Scan, CookieString, VerifySolution, Marshal, PowOk, Sign, ChallengeText, Guarded, ParseClearance, ParseUint, Decimal, Holds;
    var text := ChallengeText(p);
    JarIsRead(jar, [], text, Sign(mac, text), Decimal(n));
    ParseDecimal(n, U64);
    OwnContextMatches(req.client);
    SolutionIsAccepted(mac, p, n, req.client, t.cookie);
    EncodedText(p);
    assert Sign(mac, text) != [] by {
      SignatureIsText(mac, text);
    }
  }

  lemma SignatureIsText(mac: Mac, text: Bytes)
    requires IsMac(mac)
    ensures Sign(mac, text) != []
  {
    hide Encode, Decode;
    RoundTrip(mac(text));
    assert Decode([]) == Some([]) by {
      DecodeEmpty();
    }
    assert |mac(text)| == 32;
  }

  lemma DecodeEmpty()
    ensures Decode([]) == Some([])
  {
  }

  // ------------------------------------------------- the page, cookie by cookie

  /** After the 403 the page finds the challenge and its signature, whatever other
      cookies it sees, in whatever order. */
  lemma PageFindsChallenge(before: Jar, mac: Mac, req: Request, p: Payload, visible: seq<Pair>)
    requires Lists(visible, Visible(ReceiveAll(before, ReplyTo(mac, req, Challenged(p)).value)))
    ensures Gc(CookieString(visible), Ascii("challenge")) == Some(ChallengeText(p))
    ensures Gc(CookieString(visible), Ascii("challenge-sig")) == Some(Sign(mac, ChallengeText(p)))
  {
    hide ReceiveAll, ReplyTo, Visible, Gc, CookieString, ChallengeText, Sign, CookieName, Count, FirstValue, WellFormed, Lists, LastValue;
    ReplyIsKept(before, mac, req, p);
    NamesDiffer();
    var seen := Visible(ReceiveAll(before, ReplyTo(mac, req, Challenged(p)).value));
    ListedAreWellFormed(visible, seen);
    ListedOnce(visible, seen, CHALLENGE);
    ListedOnce(visible, seen, SIGNATURE);
    GcFindsUnique(visible, CHALLENGE);
    GcFindsUnique(visible, SIGNATURE);
  }

  lemma ListedAreWellFormed(pairs: seq<Pair>, cookies: map<Bytes, Bytes>)
    requires Lists(pairs, cookies)
    ensures WellFormed(pairs)
  {
  }

  /** The cookie that the page writes when it has found `n`. */
  function WithNonce(jar: Jar, n: nat): Jar { jar[Ascii("challenge-nonce") := Kept(Decimal(n), 60, false, false)] }

  lemma NonceIsKept(jar: Jar, n: nat)
    ensures Receive(jar, Sc(NONCE, Decimal(n), CHALLENGE_LIFETIME)) == WithNonce(jar, n)
  {
    hide Receive, Sc, CookieName, CookieValue, Decimal, Kept, Ascii;
    NamesDiffer();
    DecimalIsValue(n);
    ScIsKept(jar, Pair(NONCE, Decimal(n)), CHALLENGE_LIFETIME);
  }

  ghost predicate PageFound(p: Payload, bits: nat, jar: Jar, after: Jar) {
    exists n: nat :: n < 80_000_000 && Least(Marshal(p), n, bits) && after == WithNonce(jar, n)
  }

  /** The page from its cookies to the cookie it leaves behind: `jar` is what the
      403 left the client with, `visible` what of it the page is shown. */
  method RunPage(jar: Jar, visible: seq<Pair>, ghost before: Jar, ghost mac: Mac, ghost req: Request, ghost p: Payload)
    returns (r: Result<Jar, SolveError>)
    requires IsMac(mac) && 8 * (|ChallengeText(p)| + 16) < U64
    requires jar == ReceiveAll(before, ReplyTo(mac, req, Challenged(p)).value) && Lists(visible, Visible(jar))
    ensures var bits := if p.diff == 0 then 18 else if p.diff > 256 then 256 else p.diff;
            if r.Ok? then PageFound(p, bits, jar, r.value) else NoneBelow(Marshal(p), 80_000_000, bits)
  {
    hide ReceiveAll, ReplyTo, Visible, Gc, CookieString, ChallengeText, Sign, Least, NoneBelow, Marshal, Lists, WithNonce;
    PageFindsChallenge(before, mac, req, p, visible);
    SignatureIsText(mac, ChallengeText(p));
    var c, s := Gc(CookieString(visible), CHALLENGE), Gc(CookieString(visible), SIGNATURE);
    var cb := if c.Some? then c.value else [];
    var sb := if s.Some? then s.value else [];
    var sol := PageSolve(cb, sb);
    if sol.Err? {
      return Err(sol.error);
    }
    NonceIsKept(jar, sol.value.nonce);
    return Ok(Receive(jar, Sc(NONCE, Decimal(sol.value.nonce), CHALLENGE_LIFETIME)));
  }

  lemma SentByPage(before: Jar, mac: Mac, first: Request, p: Payload, n: nat, https: bool)
    requires first.https ==> https
    ensures var sent := Sent(WithNonce(ReceiveAll(before, ReplyTo(mac, first, Challenged(p)).value), n), https);
            && CLEARANCE !in sent
            && CHALLENGE in sent && sent[CHALLENGE] == ChallengeText(p)
            && SIGNATURE in sent && sent[SIGNATURE] == Sign(mac, ChallengeText(p))
            && NONCE in sent && sent[NONCE] == Decimal(n)
  {
    hide ReceiveAll, ReplyTo, Visible, ChallengeText, Sign, CookieName, Decimal, Ascii;
    ReplyIsKept(before, mac, first, p);
    NamesDiffer();
  }

  /** The whole way: a client with any cookies is challenged, its page finds a nonce
      and writes it, and the request that carries its cookies, in any order, before
      the challenge expires, is taken as solved. */
  lemma PageIsAdmitted(before: Jar, mac: Mac, cfg: Config, first: Request, p: Payload, n: uint64, cookies: seq<Pair>,
                       vm: VmState, shared: Bytes, req: Request, t: Times, salt: Option<Bytes>, verdict: Bytes)
    requires IsMac(mac) && Least(Marshal(p), n, p.diff)
    requires first.https ==> req.https
    requires Lists(cookies, Sent(WithNonce(ReceiveAll(before, ReplyTo(mac, first, Challenged(p)).value), n), req.https))
    requires req.cookie == CookieString(cookies) && Guarded(cfg, req) && t.cookie <= p.exp
    requires p.ctx == req.client.ip && p.cid == req.client.connId && Valid(p.ctx) && Valid(p.cid)
    ensures Decide(mac, cfg, vm, shared, req, t, salt, verdict)
            == Solved(Solution(ChallengeText(p), Sign(mac, ChallengeText(p)), n), t.cookie)
  {
    hide ReceiveAll, Sent, WithNonce, CookieString, Decide, Guarded, Least, ChallengeText, Sign, Decimal, LastValue, Lists, WellFormed;
    SentByPage(before, mac, first, p, n, req.https);
    var sent := Sent(WithNonce(ReceiveAll(before, ReplyTo(mac, first, Challenged(p)).value), n), req.https);
    ListedAreWellFormed(cookies, sent);
    ListedOnce(cookies, sent, CLEARANCE);
    ListedOnce(cookies, sent, CHALLENGE);
    ListedOnce(cookies, sent, SIGNATURE);
    ListedOnce(cookies, sent, NONCE);
    SolverIsAdmitted(mac, cfg, vm, shared, p, n, cookies, req, t, salt, verdict);
  }

  /** A client that brings back a minted clearance is let through until it expires
      and renewed within the window after that; later it is as good as none. */
  lemma ClearanceIsHonoured(mac: Mac, cfg: Config, vm: VmState, shared: Bytes, m: Mint, jar: seq<Pair>,
                            challenge: Bytes, signature: Bytes, nonce: Bytes,
                            req: Request, t: Times, salt: Option<Bytes>, verdict: Bytes)
    requires IsMac(mac) && Int64(MintExpiry(m)) && m.ip == req.client.ip
    requires Holds(jar, Token(mac, MintBody(m)), challenge, signature, nonce) && req.cookie == CookieString(jar)
    requires Guarded(cfg, req)
    ensures Decide(mac, cfg, vm, shared, req, t, salt, verdict)
            == if t.clearance <= MintExpiry(m) then Cleared(MintExpiry(m))
               else if t.clearance <= MintExpiry(m) + cfg.window then Renewing(MintExpiry(m))
               else DecideUncleared(mac, cfg, vm, shared, req, t, salt, verdict)
  {
    hide Scan, CookieString, ParseClearance, ClearanceBody, Guarded, DecideUncleared, Holds, Token;
    JarIsRead(jar, Token(mac, MintBody(m)), challenge, signature, nonce);
    MintedClearanceParses(mac, MintExpiry(m), m.salt, m.ip, req.client.ip);
    assert Token(mac, MintBody(m)) != [] by {
      TokenIsText(mac, MintBody(m));
    }
  }

  lemma TokenIsText(mac: Mac, body: Bytes)
    ensures Token(mac, body) != []
  {
  }

  function At(now: Clock): Times { Times(now, now, now, now) }

  /** The documentation gives a renewed clearance the lifetime `renewal_ttl`. The
      clearance admits for 1800 seconds after it was minted, so the two agree, for
      every time of presentation, exactly when `renewal_ttl` is 1800. */
  lemma RenewedLifetime(mac: Mac, cfg: Config, vm: VmState, shared: Bytes, m: Mint, jar: seq<Pair>,
                        challenge: Bytes, signature: Bytes, nonce: Bytes, req: Request, salt: Option<Bytes>, verdict: Bytes)
    requires IsMac(mac) && m.ip == req.client.ip && Guarded(cfg, req)
    requires Holds(jar, Token(mac, MintBody(m)), challenge, signature, nonce) && req.cookie == CookieString(jar)
    requires m.at + CLEARANCE_LIFETIME < 0x100_0000_0000_0000 - CLEARANCE_LIFETIME - 1
    ensures (forall now: Clock :: Decide(mac, cfg, vm, shared, req, At(now), salt, verdict).Cleared? <==> now <= m.at + cfg.renewalTTL)
            <==> cfg.renewalTTL == CLEARANCE_LIFETIME
  {
    hide Decide, Guarded, Holds, Token, MintBody, CookieString;
    forall now: Clock
      ensures Decide(mac, cfg, vm, shared, req, At(now), salt, verdict).Cleared? <==> now <= m.at + CLEARANCE_LIFETIME
    {
      ClearanceIsHonoured(mac, cfg, vm, shared, m, jar, challenge, signature, nonce, req, At(now), salt, verdict);
      NeverCleared(mac, cfg, vm, shared, req, At(now), salt, verdict);
    }
    var last: Clock := m.at + CLEARANCE_LIFETIME;
    var next: Clock := last + 1;
    assert Decide(mac, cfg, vm, shared, req, At(last), salt, verdict).Cleared?;
    assert !Decide(mac, cfg, vm, shared, req, At(next), salt, verdict).Cleared?;
  }

  lemma NeverCleared(mac: Mac, cfg: Config, vm: VmState, shared: Bytes, req: Request, t: Times, salt: Option<Bytes>, verdict: Bytes)
    ensures !DecideUncleared(mac, cfg, vm, shared, req, t, salt, verdict).Cleared?
  {
    hide Solves, CookieSolution, ChallengeDifficulty, Decision, NewPayload;
  }

  // ----------------------------------------------------------- a whole run

  lemma RunMore(w: World, run: seq<Input>, i: Input)
    requires Possible(w, run) && Allowed(w, After(w, run), i)
    ensures Possible(w, run + [i]) && After(w, run + [i]) == Next(w, After(w, run), i)
  {
    hide Allowed, Next;
    assert (run + [i])[..|run|] == run;
  }

  /** Three requests of one client: the first is challenged, the second brings the
      solution in its cookies, the third the clearance minted for the second. */
  datatype Trip = Trip(authority: Bytes, path: Bytes, client: ClientContext, https: bool, start: Clock, salt: Bytes,
                       verdict: Bytes, nonce: uint64, mintSalt: Bytes)

  function Req(x: Trip, cookie: Bytes): Request { Request(x.authority, x.path, cookie, x.client, x.https, [], []) }

  function FirstPayload(w: World, x: Trip): Payload {
    NewPayload(ChallengeDifficulty(w.cfg, Req(x, []), VmState(0, 0), [], x.verdict), x.client, x.start, x.salt)
  }

  function SolutionJar(w: World, x: Trip): seq<Pair> {
    var text := ChallengeText(FirstPayload(w, x));
    [Pair(CHALLENGE, text), Pair(SIGNATURE, Sign(w.mac, text)), Pair(NONCE, Decimal(x.nonce))]
  }

  function TripMint(x: Trip): Mint { Mint(x.start, x.mintSalt, x.client.ip) }

  function ClearanceJar(w: World, x: Trip): seq<Pair> { [Pair(CLEARANCE, Token(w.mac, MintBody(TripMint(x))))] }

  function TripInputs(w: World, x: Trip): seq<Input> {
    [Start, Ask(0, Req(x, []), At(x.start), Some(x.salt), x.verdict),
     Ask(0, Req(x, CookieString(SolutionJar(w, x))), At(x.start), None, []),
     Answer(1, MintInputs(x.start, Some(x.mintSalt), x.start, None)),
     Ask(0, Req(x, CookieString(ClearanceJar(w, x))), At(x.start), None, [])]
  }

  ghost predicate Feasible(w: World, x: Trip) {
    && IsMac(w.mac) && w.cfg.protectAll && AddressText(x.client.ip) && Valid(x.client.connId)
    && !Decision(w.cfg, x.verdict).Pass?
    && Least(Marshal(FirstPayload(w, x)), x.nonce, FirstPayload(w, x).diff)
  }

  lemma EmptyCookie()
    ensures Scan([], NO_COOKIES) == NO_COOKIES && CutToken([]).None?
  {
    hide Scan;
    ScanEmpty(NO_COOKIES);
  }

  lemma NothingIsHonest(w: World, log: seq<Event>)
    requires IsMac(w.mac)
    ensures Honest(w, log, [], [])
  {
    DecodeEmpty();
    assert |w.mac([])| == 32;
  }

  lemma FirstAsk(w: World, x: Trip)
    requires Feasible(w, x)
    ensures Unforged(w, [], Req(x, []))
    ensures Decide(w.mac, w.cfg, VmState(0, 0), [], Req(x, []), At(x.start), Some(x.salt), x.verdict) == Challenged(FirstPayload(w, x))
  {
    hide Scan, Honest, VerifySolution, Least, AddressText, ChallengeDifficulty, Decision, Marshal, NewPayload;
    EmptyCookie();
    NothingIsHonest(w, []);
  }

  lemma DecimalIsValue(n: nat)
    ensures CookieValue(Decimal(n))
  {
    var s := Decimal(n);
    assert Octets(s);
  }

  lemma SolutionJarHolds(w: World, x: Trip)
    ensures var text := ChallengeText(FirstPayload(w, x));
            Holds(SolutionJar(w, x), [], text, Sign(w.mac, text), Decimal(x.nonce))
  {
    hide CookieName, CookieValue, ChallengeText, Sign, Decimal, FirstPayload;
    NamesDiffer();
    TextsAreValues(w.mac, FirstPayload(w, x));
    DecimalIsValue(x.nonce);
    var a, b, c := SolutionJar(w, x)[0], SolutionJar(w, x)[1], SolutionJar(w, x)[2];
    ThreePairs(a, b, c);
  }

  lemma OnePair(p: Pair, name: Bytes)
    ensures LastValue([p], name) == if name == p.name then p.value else []
  {
    assert [p][..0] == [];
  }

  lemma ThreePairs(a: Pair, b: Pair, c: Pair)
    requires |a.name| != |b.name| && |b.name| != |c.name| && |a.name| != |c.name|
    ensures LastValue([a, b, c], a.name) == a.value
    ensures LastValue([a, b, c], b.name) == b.value
    ensures LastValue([a, b, c], c.name) == c.value
    ensures forall name: Bytes :: name != a.name && name != b.name && name != c.name ==> LastValue([a, b, c], name) == []
  {
    forall name: Bytes
      ensures LastValue([a, b, c], name)
              == if name == c.name then c.value else if name == b.name then b.value else if name == a.name then a.value else []
    {
      OnePair(a, name);
      assert [a, b, c][..2] == [a, b] && [a, b][..1] == [a];
      assert LastValue([a, b], name) == if name == b.name then b.value else LastValue([a], name);
    }
  }

  lemma AddressIsValid(ip: Bytes)
    requires AddressText(ip)
    ensures Valid(ip)
  {
    AsciiIsValid(ip);
  }

  lemma SecondAsk(w: World, x: Trip)
    requires Feasible(w, x)
    ensures var req, p := Req(x, CookieString(SolutionJar(w, x))), FirstPayload(w, x);
            var log := [Asked(0, Req(x, []), At(x.start), Challenged(p))];
            && Unforged(w, log, req)
            && forall vm :: Decide(w.mac, w.cfg, vm, [], req, At(x.start), None, [])
                            == Solved(Solution(ChallengeText(p), Sign(w.mac, ChallengeText(p)), x.nonce), x.start)
  {
    hide Scan, Decide, ChallengeText, Sign, Decimal, AddressText, ChallengeDifficulty, Decision, Marshal, CookieString, Least, Holds, SolutionJar;
    var req, p := Req(x, CookieString(SolutionJar(w, x))), FirstPayload(w, x);
    var log := [Asked(0, Req(x, []), At(x.start), Challenged(p))];
    var text := ChallengeText(p);
    SolutionJarHolds(w, x);
    JarIsRead(SolutionJar(w, x), [], text, Sign(w.mac, text), Decimal(x.nonce));
    EmptyCookie();
    assert Signs(log[0], text);
    forall vm
      ensures Decide(w.mac, w.cfg, vm, [], req, At(x.start), None, []) == Solved(Solution(text, Sign(w.mac, text), x.nonce), x.start)
    {
      AddressIsValid(x.client.ip);
      SolverIsAdmitted(w.mac, w.cfg, vm, [], p, x.nonce, SolutionJar(w, x), req, At(x.start), None, []);
    }
  }

  lemma ClearanceJarHolds(w: World, x: Trip)
    ensures Holds(ClearanceJar(w, x), Token(w.mac, MintBody(TripMint(x))), [], [], [])
  {
    hide CookieName, CookieValue, Token, ClearanceBody, InUrlAlphabet;
    NamesDiffer();
    var m := TripMint(x);
    EncodedBody(MintExpiry(m), m.salt, m.ip);
    TokenIsCookieValue(w.mac, MintBody(m));
    var p := Pair(CLEARANCE, Token(w.mac, MintBody(m)));
    OnePair(p, CLEARANCE);
    OnePair(p, CHALLENGE);
    OnePair(p, SIGNATURE);
    OnePair(p, NONCE);
  }

  lemma ThirdAsk(w: World, x: Trip, before: seq<Event>)
    requires Feasible(w, x)
    ensures var req, m := Req(x, CookieString(ClearanceJar(w, x))), TripMint(x);
            && Unforged(w, before + [Answered(1, [m])], req)
            && forall vm :: Decide(w.mac, w.cfg, vm, [], req, At(x.start), None, []) == Cleared(MintExpiry(m))
  {
    hide Scan, Decide, Token, MintBody, AddressText, Decision, Marshal, CookieString, Least, Holds, ClearanceJar, FirstPayload, CutToken, ParseClearance;
    var req, m := Req(x, CookieString(ClearanceJar(w, x))), TripMint(x);
    var log := before + [Answered(1, [m])];
    ClearanceJarHolds(w, x);
    JarIsRead(ClearanceJar(w, x), Token(w.mac, MintBody(m)), [], [], []);
    NothingIsHonest(w, log);
    MintedCut(w, m);
    assert log[|before|].mints[0] == m;
    assert Signs(log[|before|], MintBody(m));
    forall vm
      ensures Decide(w.mac, w.cfg, vm, [], req, At(x.start), None, []) == Cleared(MintExpiry(m))
    {
      ClearanceIsHonoured(w.mac, w.cfg, vm, [], m, ClearanceJar(w, x), [], [], [], req, At(x.start), None, []);
    }
  }

  lemma MintedCut(w: World, m: Mint)
    requires IsMac(w.mac)
    ensures CutToken(Token(w.mac, MintBody(m))) == Some((MintBody(m), Sign(w.mac, MintBody(m))))
  {
    hide CutToken, Token, Encode, InUrlAlphabet;
    var raw := ClearanceRaw(MintExpiry(m), m.salt, m.ip);
    assert |raw| > 0;
    RoundTrip(raw);
    DecodeEmpty();
    EncodedBody(MintExpiry(m), m.salt, m.ip);
    ParseSigned(w.mac, MintBody(m), m.ip);
  }

  /** What the trip logs. */
  function TripLog(w: World, x: Trip): seq<Event> {
    var p, now := FirstPayload(w, x), At(x.start);
    [Asked(0, Req(x, []), now, Challenged(p)),
     Asked(0, Req(x, CookieString(SolutionJar(w, x))), now,
           Solved(Solution(ChallengeText(p), Sign(w.mac, ChallengeText(p)), x.nonce), x.start)),
     Answered(1, [TripMint(x)]),
     Asked(0, Req(x, CookieString(ClearanceJar(w, x))), now, Cleared(MintExpiry(TripMint(x))))]
  }

  predicate Reached(w: World, x: Trip, s: State, n: nat)
    requires n <= 4
  {
    s.now <= x.start && |s.vms| == 1 && s.shared == [] && s.log == TripLog(w, x)[..n]
  }

  lemma TripBegins(w: World, x: Trip) returns (run: seq<Input>)
    requires Feasible(w, x)
    ensures run == TripInputs(w, x)[..2] && Possible(w, run) && Reached(w, x, After(w, run), 1)
  {
    hide Decide, Unforged, VmAfter, AfterRequest, FirstPayload, AddressText, Decision, Least, CookieString, SolutionJar, ClearanceJar, Possible, After;
    var i := TripInputs(w, x);
    RunAtStart(w);
    RunMore(w, [], i[0]);
    assert [] + [i[0]] == [i[0]];
    FirstAsk(w, x);
    RunMore(w, [i[0]], i[1]);
    run := [i[0]] + [i[1]];
    assert TripLog(w, x)[..1] == [TripLog(w, x)[0]];
  }

  lemma TripSolves(w: World, x: Trip, before: seq<Input>) returns (run: seq<Input>)
    requires Feasible(w, x)
    requires before == TripInputs(w, x)[..2] && Possible(w, before) && Reached(w, x, After(w, before), 1)
    ensures run == TripInputs(w, x)[..3] && Possible(w, run) && Reached(w, x, After(w, run), 2)
    ensures var e := After(w, run).exchanges;
            1 in e && e[1].client == x.client && e[1].issueClearance && !e[1].renewClearance
  {
    hide Decide, Unforged, VmAfter, FirstPayload, AddressText, Decision, Least, CookieString, SolutionJar, ClearanceJar, Possible, After;
    var i := TripInputs(w, x)[2];
    SecondAsk(w, x);
    assert TripLog(w, x)[..1] == [TripLog(w, x)[0]];
    RunMore(w, before, i);
    run := before + [i];
    assert TripLog(w, x)[..2] == TripLog(w, x)[..1] + [TripLog(w, x)[1]];
  }

  lemma AnswerMints(w: World, s: State, ctx: nat, now: Clock, salt: Bytes)
    requires ctx in s.exchanges && s.exchanges[ctx].issueClearance && !s.exchanges[ctx].renewClearance
    requires s.now <= now
    ensures var i := Answer(ctx, MintInputs(now, Some(salt), now, None));
            && Allowed(w, s, i)
            && var s' := Next(w, s, i);
               && s'.now == now && s'.vms == s.vms && s'.shared == s.shared
               && s'.log == s.log + [Answered(ctx, [Mint(now, salt, s.exchanges[ctx].client.ip)])]
  {
    var k := Mint(now, salt, s.exchanges[ctx].client.ip);
    assert [k] + [] == [k];
  }

  lemma TripMints(w: World, x: Trip, before: seq<Input>) returns (run: seq<Input>)
    requires before == TripInputs(w, x)[..3] && Possible(w, before) && Reached(w, x, After(w, before), 2)
    requires var e := After(w, before).exchanges;
             1 in e && e[1].client == x.client && e[1].issueClearance && !e[1].renewClearance
    ensures run == TripInputs(w, x)[..4] && Possible(w, run) && Reached(w, x, After(w, run), 3)
  {
    hide FirstPayload, CookieString, SolutionJar, ClearanceJar, Possible, After, Next, Allowed, ChallengeText, Sign;
    var i := TripInputs(w, x)[3];
    AnswerMints(w, After(w, before), 1, x.start, x.mintSalt);
    RunMore(w, before, i);
    run := before + [i];
    assert TripLog(w, x)[..3] == TripLog(w, x)[..2] + [TripLog(w, x)[2]];
  }

  /** The safety theorems speak of something: for any client whose challenge has a
      solution, the run in which it is challenged, solves, is given a clearance and
      comes back with it is possible, and ends with its admission. */
  lemma TripIsPossible(w: World, x: Trip)
    requires Feasible(w, x)
    ensures Possible(w, TripInputs(w, x)) && After(w, TripInputs(w, x)).log == TripLog(w, x)
  {
    hide Decide, Unforged, VmAfter, FirstPayload, AddressText, Decision, Least, CookieString, SolutionJar, ClearanceJar, Possible, After;
    var run := TripBegins(w, x);
    run := TripSolves(w, x, run);
    run := TripMints(w, x, run);
    var i := TripInputs(w, x)[4];
    var log := TripLog(w, x);
    ThirdAsk(w, x, log[..2]);
    assert log[..3] == log[..2] + [log[2]] && log == log[..3] + [log[3]];
    RunMore(w, run, i);
    assert TripInputs(w, x) == run + [i];
  }

  lemma RunAtStart(w: World)
    ensures Possible(w, []) && After(w, []) == START
  {
  }
}
