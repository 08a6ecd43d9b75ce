/** What the filter decides for one request and does for its response
    (main.go), as functions of the inputs and of the two states it keeps: per
    plugin instance and per exchange. */
module Gate {
  import opened GoBytes
  import opened Tokens
  import opened Cookies
  import opened Difficulty
  import opened Utf8
  import opened Json
  import opened ChallengeJson
  import opened CookieJar
  import opened Base64Url
  import Protected

  // ---------------------------------------------------------- configuration

  datatype Mode = NoMode | ChallengeMode | DifficultyMode

  datatype Intel = Intel(enabled: bool, mode: Mode, categories: set<Bytes>, target: uint64)

  /** The plugin's configuration after `OnPluginStart`; `extra` is the response
      header it injects, of an empty name for none. */
  datatype Config = Config(rules: seq<Protected.ProtectedRule>, protectAll: bool, bounds: Bounds,
                           window: int, renewalTTL: int, intel: Intel, extra: Header)

  datatype Header = Header(name: Bytes, value: Bytes)

  // ----------------------------------------------------------------- inputs

  /** A request as the handler sees it. `client` is the resolved identity, `token`
      the `challenge-token` header. */
  datatype Request = Request(authority: Bytes, path: Bytes, cookie: Bytes, client: ClientContext, https: bool,
                             token: Bytes, override: Bytes)

  /** The clock at the four places the handler may read it, in that order. */
  datatype Times = Times(clearance: Clock, cookie: Clock, header: Clock, issue: Clock)

  predicate Ticking(t: Times) { t.clearance <= t.cookie <= t.header <= t.issue }

  // ---------------------------------------------------------------- states

  /** The fields of `pluginContext` that requests change. */
  datatype VmState = VmState(challengeCounter: nat, currentDiff: uint64)

  /** The fields of `httpHeaders`. */
  datatype Exchange = Exchange(client: ClientContext, secureCookie: bool, issueClearance: bool, renewClearance: bool,
                               ipintelDifficulty: uint64)

  const NEW_EXCHANGE := Exchange(ClientContext([], []), false, false, false, 0)

  // --------------------------------------------------------------- outcomes

  datatype Outcome =
    | Bypassed
    | Cleared(exp: int)
    | Renewing(exp: int)
    | Solved(sol: Solution, at: nat)
    | Passed
    | FailedOpen
    | Challenged(payload: Payload)

  datatype IntelDecision = Pass | NormalChallenge | Elevate(target: uint64)

  /** `decideIPIntel`. */
  function DecideIntel(i: Intel, verdict: Bytes): IntelDecision {
    if i.mode == NoMode || i.categories == {} || verdict == [] then NormalChallenge
    else if verdict !in i.categories then (if i.mode == DifficultyMode then NormalChallenge else Pass)
    else if i.mode == DifficultyMode && i.target > 0 then Elevate(i.target)
    else NormalChallenge
  }

  function Decision(cfg: Config, verdict: Bytes): IntelDecision {
    if cfg.intel.enabled then DecideIntel(cfg.intel, verdict) else NormalChallenge
  }

  /** `ctx.ipintelDifficulty`; 0 when the address is not singled out. */
  function TargetFor(cfg: Config, verdict: Bytes): uint64 {
    var d := Decision(cfg, verdict);
    if d.Elevate? then d.target else 0
  }

  ghost predicate Guarded(cfg: Config, req: Request) {
    cfg.protectAll || Protected.AnyRuleMatches(cfg.rules, req.authority, req.path)
  }

  /** The solution in the cookies, when all three are present and the nonce is a number. */
  function CookieSolution(c: ChallengeCookies): Option<Solution> {
    var nonce := ParseUint(c.nonce, U64);
    if c.challenge == [] || c.signature == [] || c.nonce == [] || nonce.None? then None
    else Some(Solution(c.challenge, c.signature, nonce.value))
  }

  /** The solution in the header, when it holds one. */
  function TokenSolution(token: Bytes): Option<Solution> { if token == [] then None else UnmarshalSolution(token) }

  /** The expiry of a clearance this client may present. */
  function PresentedExpiry(mac: Mac, req: Request): Option<int> {
    var token := Scan(req.cookie, NO_COOKIES).clearance;
    if token == [] then None
    else
      var exp := ParseClearance(mac, token, req.client.ip);
      if exp.Ok? then Some(exp.value) else None
  }

  predicate Solves(mac: Mac, sol: Option<Solution>, client: ClientContext, now: nat) {
    sol.Some? && VerifySolution(mac, sol.value, client, now).Ok?
  }

  function ChallengeDifficulty(cfg: Config, req: Request, vm: VmState, shared: Bytes, verdict: Bytes): uint64 {
    Elevated(TargetFor(cfg, verdict), Effective(cfg.bounds, req.override, vm.currentDiff, shared).difficulty, cfg.bounds.max)
  }

  /** What happens to a request. `salt` is None when the random source fails. */
  ghost function Decide(mac: Mac, cfg: Config, vm: VmState, shared: Bytes, req: Request, t: Times, salt: Option<Bytes>,
                        verdict: Bytes): Outcome
  {
    var exp := PresentedExpiry(mac, req);
    if !Guarded(cfg, req) then Bypassed
    else if exp.Some? && t.clearance <= exp.value then Cleared(exp.value)
    else if exp.Some? && ShouldRenew(exp.value, t.clearance, cfg.window) then Renewing(exp.value)
    else DecideUncleared(mac, cfg, vm, shared, req, t, salt, verdict)
  }

  /** Without a usable clearance: a solution in the cookies, then one in the header. */
  function DecideUncleared(mac: Mac, cfg: Config, vm: VmState, shared: Bytes, req: Request, t: Times, salt: Option<Bytes>,
                           verdict: Bytes): Outcome
  {
    var cookieSol := CookieSolution(Scan(req.cookie, NO_COOKIES));
    if Solves(mac, cookieSol, req.client, t.cookie) then Solved(cookieSol.value, t.cookie)
    else if Solves(mac, TokenSolution(req.token), req.client, t.header) then Solved(TokenSolution(req.token).value, t.header)
    else DecideUnsolved(cfg, vm, shared, req, t, salt, verdict)
  }

  /** Without either: ipintel, then a challenge. */
  function DecideUnsolved(cfg: Config, vm: VmState, shared: Bytes, req: Request, t: Times, salt: Option<Bytes>,
                          verdict: Bytes): Outcome
  {
    if Decision(cfg, verdict).Pass? then Passed
    else if salt.None? then FailedOpen
    else Challenged(NewPayload(ChallengeDifficulty(cfg, req, vm, shared, verdict), req.client, t.issue, salt.value))
  }

  /** The exchange's fields afterwards. */
  function AfterRequest(cfg: Config, req: Request, o: Outcome, verdict: Bytes): Exchange {
    var bound := ClientContext(req.client.ip, []);
    match o
    case Bypassed => NEW_EXCHANGE
    case Cleared(_) => NEW_EXCHANGE.(client := bound)
    case Renewing(_) => NEW_EXCHANGE.(client := bound, renewClearance := true, secureCookie := req.https)
    case Solved(_, _) => NEW_EXCHANGE.(client := req.client, issueClearance := true, secureCookie := req.https)
    case Passed => NEW_EXCHANGE.(client := req.client)
    case FailedOpen =>
      NEW_EXCHANGE.(client := req.client, secureCookie := req.https, ipintelDifficulty := TargetFor(cfg, verdict))
    case Challenged(_) =>
      NEW_EXCHANGE.(client := req.client, secureCookie := req.https, ipintelDifficulty := TargetFor(cfg, verdict))
  }

  /** The instance's fields afterwards: a challenge is counted, and looking up the
      difficulty may cache the shared value. */
  function VmAfter(cfg: Config, vm: VmState, shared: Bytes, req: Request, o: Outcome): VmState {
    var cached := if o.FailedOpen? || o.Challenged? then Effective(cfg.bounds, req.override, vm.currentDiff, shared).cached
                  else vm.currentDiff;
    VmState(if o.Challenged? then (vm.challengeCounter + 1) % U64 else vm.challengeCounter, cached)
  }

  const SET_COOKIE := Ascii("Set-Cookie")

  /** The 403 sent with a challenge; the page itself is constant. */
  function ChallengeReply(c: SignedChallenge, secure: bool): seq<Header> {
    [Header(Ascii("content-type"), Ascii("text/html; charset=utf-8")),
     Header(SET_COOKIE, SetCookie(CHALLENGE, c.challenge, CHALLENGE_LIFETIME, false, secure)),
     Header(SET_COOKIE, SetCookie(SIGNATURE, c.signature, CHALLENGE_LIFETIME, false, secure)),
     Header(SET_COOKIE, ClearCookie(NONCE, secure)),
     Header(SET_COOKIE, ClearCookie(CLEARANCE, secure)),
     Header(SIGNATURE, c.signature)]
  }

  function SignedFor(mac: Mac, p: Payload): SignedChallenge { SignedChallenge(ChallengeText(p), Sign(mac, ChallengeText(p))) }

  /** A reply means the request went no further. */
  function ReplyTo(mac: Mac, req: Request, o: Outcome): Option<seq<Header>> {
    if o.Challenged? then Some(ChallengeReply(SignedFor(mac, o.payload), req.https)) else None
  }

  // --------------------------------------------------------------- response

  /** The clock and the random source as a response finds them: for the first
      clearance and for the renewed one. */
  datatype MintInputs = MintInputs(now: Clock, salt: Option<Bytes>, renewNow: Clock, renewSalt: Option<Bytes>)

  /** A minted clearance. */
  datatype Mint = Mint(at: Clock, salt: Bytes, ip: Bytes)

  function MintExpiry(m: Mint): int { m.at + CLEARANCE_LIFETIME }

  function MintBody(m: Mint): Bytes { ClearanceBody(MintExpiry(m), m.salt, m.ip) }

  function IssuedMints(x: Exchange, m: MintInputs): seq<Mint> {
    if x.issueClearance && m.salt.Some? then [Mint(m.now, m.salt.value, x.client.ip)] else []
  }

  function RenewedMints(x: Exchange, m: MintInputs): seq<Mint> {
    if x.renewClearance && m.renewSalt.Some? then [Mint(m.renewNow, m.renewSalt.value, x.client.ip)] else []
  }

  function ClearanceHeader(mac: Mac, m: Mint, maxAge: int, secure: bool): Header {
    Header(SET_COOKIE, SetCookie(CLEARANCE, Token(mac, MintBody(m)), maxAge, true, secure))
  }

  /** The clearance, and the solve cookies dropped: the clearance is the credential now. */
  function SolvedHeaders(mac: Mac, k: Mint, secure: bool): seq<Header> {
    [ClearanceHeader(mac, k, CLEARANCE_LIFETIME, secure), Header(SET_COOKIE, ClearCookie(CHALLENGE, secure)),
     Header(SET_COOKIE, ClearCookie(SIGNATURE, secure)), Header(SET_COOKIE, ClearCookie(NONCE, secure))]
  }

  /** The Set-Cookie headers of a response. */
  function ClearanceHeaders(mac: Mac, cfg: Config, x: Exchange, m: MintInputs): seq<Header> {
    var issued, renewed := IssuedMints(x, m), RenewedMints(x, m);
    (if issued == [] then [] else SolvedHeaders(mac, issued[0], x.secureCookie))
    + (if renewed == [] then [] else [ClearanceHeader(mac, renewed[0], cfg.renewalTTL, x.secureCookie)])
  }

  function ExtraHeaders(cfg: Config): seq<Header> { if cfg.extra.name == [] then [] else [cfg.extra] }

  /** The headers added to the response. */
  function ResponseHeaders(mac: Mac, cfg: Config, x: Exchange, m: MintInputs): seq<Header> {
    ClearanceHeaders(mac, cfg, x, m) + ExtraHeaders(cfg)
  }

  // -------------------------------------------------------- what is decided

  lemma EmptyTokenIsNone()
    ensures UnmarshalSolution([]).None?
  {
    hide TakeValue;
    NothingToTake();
  }

  /** A guarded request is stopped exactly when it brings no usable clearance and
      no valid solution, ipintel does not let it pass, and a challenge can be made. */
  lemma StoppedExactlyWhen(mac: Mac, cfg: Config, vm: VmState, shared: Bytes, req: Request, t: Times, salt: Option<Bytes>,
                           verdict: Bytes)
    ensures var o := Decide(mac, cfg, vm, shared, req, t, salt, verdict);
            var c := Scan(req.cookie, NO_COOKIES);
            var exp := ParseClearance(mac, c.clearance, req.client.ip);
            ReplyTo(mac, req, o).Some?
            <==> && Guarded(cfg, req)
                 && (exp.Ok? ==> t.clearance > exp.value && (cfg.window <= 0 || t.clearance > exp.value + cfg.window))
                 && !(ParseUint(c.nonce, U64).Some?
                      && VerifySolution(mac, Solution(c.challenge, c.signature, ParseUint(c.nonce, U64).value), req.client, t.cookie).Ok?)
                 && !(UnmarshalSolution(req.token).Some?
                      && VerifySolution(mac, UnmarshalSolution(req.token).value, req.client, t.header).Ok?)
                 && !(cfg.intel.enabled && cfg.intel.mode == ChallengeMode && cfg.intel.categories != {}
                      && verdict != [] && verdict !in cfg.intel.categories)
                 && salt.Some?
  {
    hide Scan, Guarded, Decode, Unmarshal, PowOk, MatchContext, DecodeClearanceBody, ChallengeDifficulty, UnmarshalSolution, TakeValue;
    assert UnmarshalSolution([]).None? by {
      EmptyTokenIsNone();
    }
    assert CutToken([]).None?;
    assert ParseUint([], U64).None?;
  }

  /** An exchange has at most one of its flags set, and neither unless a solution
      was verified or a clearance is to be renewed; so its response mints at most
      one clearance, and none after a challenge, a pass or a failure. */
  lemma OneMintAtMost(cfg: Config, req: Request, o: Outcome, verdict: Bytes, m: MintInputs)
    ensures var x := AfterRequest(cfg, req, o, verdict);
            && |IssuedMints(x, m) + RenewedMints(x, m)| <= 1
            && (!o.Solved? && !o.Renewing? ==> IssuedMints(x, m) + RenewedMints(x, m) == [])
            && (forall k :: k in IssuedMints(x, m) + RenewedMints(x, m) ==> k.ip == req.client.ip)
  {
  }

  // ------------------------------------------------ what the client holds

  /** Header names are compared without regard to case. */
  predicate IsSetCookie(name: Bytes) { Lower(name) == Ascii("set-cookie") }

  function ReceiveAll(jar: Jar, hs: seq<Header>): Jar
    decreases |hs|
  {
    if |hs| == 0 then jar
    else ReceiveAll(if IsSetCookie(hs[0].name) then Receive(jar, hs[0].value) else jar, hs[1..])
  }

  lemma {:induction false} ReceiveMore(jar: Jar, hs: seq<Header>, more: seq<Header>)
    ensures ReceiveAll(jar, hs + more) == ReceiveAll(ReceiveAll(jar, hs), more)
    decreases |hs|
  {
    hide Receive, IsSetCookie;
    if |hs| == 0 {
      assert hs + more == more;
    } else {
      assert (hs + more)[1..] == hs[1..] + more;
      ReceiveMore(if IsSetCookie(hs[0].name) then Receive(jar, hs[0].value) else jar, hs[1..], more);
    }
  }

  lemma ReceiveOne(jar: Jar, h: Header)
    ensures ReceiveAll(jar, [h]) == if IsSetCookie(h.name) then Receive(jar, h.value) else jar
  {
    hide Receive, IsSetCookie;
    assert [h][1..] == [];
  }

  lemma HeaderNames()
    ensures IsSetCookie(SET_COOKIE) && !IsSetCookie(Ascii("content-type")) && !IsSetCookie(SIGNATURE)
  {
    assert Lower(SET_COOKIE) == Ascii("set-cookie");
    assert |Lower(Ascii("content-type"))| == 12 && |Lower(SIGNATURE)| == 13 && |Ascii("set-cookie")| == 10;
  }

  lemma ReceiveClearance(jar: Jar, mac: Mac, k: Mint, maxAge: int, secure: bool)
    requires IsMac(mac)
    ensures ReceiveAll(jar, [ClearanceHeader(mac, k, maxAge, secure)])
            == if maxAge > 0 then jar[CLEARANCE := Kept(Token(mac, MintBody(k)), maxAge, true, secure)] else jar - {CLEARANCE}
  {
    hide SetCookie, Receive, Token, CookieName, CookieValue, ClearanceBody, InUrlAlphabet, Kept, IsSetCookie;
    NamesDiffer();
    HeaderNames();
    EncodedBody(MintExpiry(k), k.salt, k.ip);
    TokenIsCookieValue(mac, MintBody(k));
    ReceiveSet(jar, Pair(CLEARANCE, Token(mac, MintBody(k))), maxAge, true, secure);
    ReceiveOne(jar, ClearanceHeader(mac, k, maxAge, secure));
  }

  lemma ReceiveCleared(jar: Jar, name: Bytes, secure: bool)
    requires CookieName(name)
    ensures ReceiveAll(jar, [Header(SET_COOKIE, ClearCookie(name, secure))]) == jar - {name}
  {
    hide ClearCookie, Receive, CookieName, IsSetCookie;
    HeaderNames();
    ReceiveClear(jar, name, secure);
    ReceiveOne(jar, Header(SET_COOKIE, ClearCookie(name, secure)));
  }

  /** What a jar holds once a solution has been exchanged for a clearance: that, for
      half an hour and out of the reach of scripts, and no solve cookie. */
  function SolvedJar(jar: Jar, token: Bytes, https: bool): Jar {
    (jar - {Ascii("challenge"), Ascii("challenge-sig"), Ascii("challenge-nonce")})
    [Ascii("challenge-clearance") := Kept(token, 1800, true, https)]
  }

  lemma SolvedJarInSteps(jar: Jar, token: Bytes, https: bool)
    ensures jar[CLEARANCE := Kept(token, CLEARANCE_LIFETIME, true, https)] - {CHALLENGE} - {SIGNATURE} - {NONCE}
            == SolvedJar(jar, token, https)
  {
    hide Ascii, CookieName, Kept;
    NamesDiffer();
  }

  lemma ReceiveSolved(jar: Jar, mac: Mac, k: Mint, secure: bool)
    requires IsMac(mac)
    ensures ReceiveAll(jar, SolvedHeaders(mac, k, secure)) == SolvedJar(jar, Token(mac, MintBody(k)), secure)
  {
    hide ReceiveAll, ClearanceHeader, ClearCookie, Token, MintBody, CookieName, SolvedJar, Ascii, Kept;
    NamesDiffer();
    var token := Token(mac, MintBody(k));
    var a, b := ClearanceHeader(mac, k, CLEARANCE_LIFETIME, secure), Header(SET_COOKIE, ClearCookie(CHALLENGE, secure));
    var c, d := Header(SET_COOKIE, ClearCookie(SIGNATURE, secure)), Header(SET_COOKIE, ClearCookie(NONCE, secure));
    assert SolvedHeaders(mac, k, secure) == [a] + [b] + [c] + [d];
    ReceiveMore(jar, [a] + [b] + [c], [d]);
    ReceiveMore(jar, [a] + [b], [c]);
    ReceiveMore(jar, [a], [b]);
    ReceiveClearance(jar, mac, k, CLEARANCE_LIFETIME, secure);
    var j := jar[CLEARANCE := Kept(token, CLEARANCE_LIFETIME, true, secure)];
    ReceiveCleared(j, CHALLENGE, secure);
    ReceiveCleared(j - {CHALLENGE}, SIGNATURE, secure);
    ReceiveCleared(j - {CHALLENGE} - {SIGNATURE}, NONCE, secure);
    SolvedJarInSteps(jar, token, secure);
  }

  lemma IssuedIsHeld(jar: Jar, mac: Mac, cfg: Config, x: Exchange, m: MintInputs)
    requires IsMac(mac) && x.issueClearance && !x.renewClearance && m.salt.Some?
    ensures var token := Token(mac, MintBody(Mint(m.now, m.salt.value, x.client.ip)));
            ReceiveAll(jar, ResponseHeaders(mac, cfg, x, m)) == ReceiveAll(SolvedJar(jar, token, x.secureCookie), ExtraHeaders(cfg))
  {
    hide ReceiveAll, SolvedHeaders, SolvedJar, Token, MintBody, ExtraHeaders;
    var k := Mint(m.now, m.salt.value, x.client.ip);
    assert SolvedHeaders(mac, k, x.secureCookie) + [] == SolvedHeaders(mac, k, x.secureCookie);
    assert ClearanceHeaders(mac, cfg, x, m) == SolvedHeaders(mac, k, x.secureCookie);
    ReceiveSolved(jar, mac, k, x.secureCookie);
    ReceiveMore(jar, ClearanceHeaders(mac, cfg, x, m), ExtraHeaders(cfg));
  }

  /** After the response to a solved request the client holds the minted clearance
      and none of its solve cookies; only the configured header comes after that. */
  lemma ResponseDropsSolution(jar: Jar, mac: Mac, cfg: Config, req: Request, sol: Solution, at: nat, verdict: Bytes, m: MintInputs)
    requires IsMac(mac) && m.salt.Some?
    ensures var x := AfterRequest(cfg, req, Solved(sol, at), verdict);
            var token := Token(mac, MintBody(Mint(m.now, m.salt.value, req.client.ip)));
            ReceiveAll(jar, ResponseHeaders(mac, cfg, x, m)) == ReceiveAll(SolvedJar(jar, token, req.https), ExtraHeaders(cfg))
  {
    hide ReceiveAll, ResponseHeaders, SolvedJar, Token, MintBody, ExtraHeaders;
    IssuedIsHeld(jar, mac, cfg, AfterRequest(cfg, req, Solved(sol, at), verdict), m);
  }

  /** What a jar holds after a renewal: the renewed clearance beside what it had,
      unless the configured Max-Age is not positive: then not even the old one. */
  function RenewedJar(jar: Jar, cfg: Config, token: Bytes, https: bool): Jar {
    if cfg.renewalTTL > 0 then jar[Ascii("challenge-clearance") := Kept(token, cfg.renewalTTL, true, https)]
    else jar - {Ascii("challenge-clearance")}
  }

  lemma RenewedIsHeld(jar: Jar, mac: Mac, cfg: Config, x: Exchange, m: MintInputs)
    requires IsMac(mac) && x.renewClearance && !x.issueClearance && m.renewSalt.Some?
    ensures var token := Token(mac, MintBody(Mint(m.renewNow, m.renewSalt.value, x.client.ip)));
            ReceiveAll(jar, ResponseHeaders(mac, cfg, x, m))
            == ReceiveAll(RenewedJar(jar, cfg, token, x.secureCookie), ExtraHeaders(cfg))
  {
    hide ReceiveAll, ClearanceHeader, SolvedHeaders, Token, MintBody, ExtraHeaders, Kept, Ascii;
    var k := Mint(m.renewNow, m.renewSalt.value, x.client.ip);
    assert ClearanceHeaders(mac, cfg, x, m) == [ClearanceHeader(mac, k, cfg.renewalTTL, x.secureCookie)];
    ReceiveClearance(jar, mac, k, cfg.renewalTTL, x.secureCookie);
    ReceiveMore(jar, ClearanceHeaders(mac, cfg, x, m), ExtraHeaders(cfg));
  }

  lemma RenewalIsStored(jar: Jar, mac: Mac, cfg: Config, req: Request, exp: int, verdict: Bytes, m: MintInputs)
    requires IsMac(mac) && m.renewSalt.Some?
    ensures var x := AfterRequest(cfg, req, Renewing(exp), verdict);
            var token := Token(mac, MintBody(Mint(m.renewNow, m.renewSalt.value, req.client.ip)));
            ReceiveAll(jar, ResponseHeaders(mac, cfg, x, m)) == ReceiveAll(RenewedJar(jar, cfg, token, req.https), ExtraHeaders(cfg))
  {
    hide ReceiveAll, ResponseHeaders, RenewedJar, Token, MintBody, ExtraHeaders;
    RenewedIsHeld(jar, mac, cfg, AfterRequest(cfg, req, Renewing(exp), verdict), m);
  }

  /** The configured header, when it has a name, is the last one added; without one
      nothing but clearance cookies is. */
  lemma ConfiguredHeaderIsLast(mac: Mac, cfg: Config, x: Exchange, m: MintInputs)
    ensures var h := ResponseHeaders(mac, cfg, x, m);
            && (cfg.extra.name != [] <==> h == ClearanceHeaders(mac, cfg, x, m) + [cfg.extra])
            && (cfg.extra.name == [] <==> h == ClearanceHeaders(mac, cfg, x, m))
  {
    hide ClearanceHeaders;
  }

  /** What a jar holds after a challenge: the signed challenge, for a minute and in
      the reach of scripts, and no earlier nonce or clearance. */
  function ChallengedJar(jar: Jar, c: SignedChallenge, https: bool): Jar {
    (jar - {Ascii("challenge-nonce"), Ascii("challenge-clearance")})
    [Ascii("challenge") := Kept(c.challenge, 60, false, https)]
    [Ascii("challenge-sig") := Kept(c.signature, 60, false, https)]
  }

  lemma ChallengedJarInSteps(jar: Jar, c: SignedChallenge, https: bool)
    ensures jar[CHALLENGE := Kept(c.challenge, CHALLENGE_LIFETIME, false, https)]
               [SIGNATURE := Kept(c.signature, CHALLENGE_LIFETIME, false, https)] - {NONCE} - {CLEARANCE}
            == ChallengedJar(jar, c, https)
  {
    hide Ascii, CookieName, Kept;
    NamesDiffer();
  }

  lemma ReceiveText(jar: Jar, name: Bytes, value: Bytes, secure: bool)
    requires CookieName(name) && CookieValue(value)
    ensures ReceiveAll(jar, [Header(SET_COOKIE, SetCookie(name, value, CHALLENGE_LIFETIME, false, secure))])
            == jar[name := Kept(value, CHALLENGE_LIFETIME, false, secure)]
  {
    hide SetCookie, Receive, CookieName, CookieValue, Kept, IsSetCookie;
    HeaderNames();
    ReceiveSet(jar, Pair(name, value), CHALLENGE_LIFETIME, false, secure);
    ReceiveOne(jar, Header(SET_COOKIE, SetCookie(name, value, CHALLENGE_LIFETIME, false, secure)));
  }

  /** The 403 leaves the client with exactly the challenge it carries. */
  lemma ChallengeIsKept(jar: Jar, c: SignedChallenge, secure: bool)
    requires CookieValue(c.challenge) && CookieValue(c.signature)
    ensures ReceiveAll(jar, ChallengeReply(c, secure)) == ChallengedJar(jar, c, secure)
  {
    hide ReceiveAll, SetCookie, ClearCookie, CookieName, CookieValue, ChallengedJar, Ascii, IsSetCookie, Kept;
    NamesDiffer();
    HeaderNames();
    var h := ChallengeReply(c, secure);
    assert h == [h[0]] + [h[1]] + [h[2]] + [h[3]] + [h[4]] + [h[5]];
    ReceiveMore(jar, [h[0]] + [h[1]] + [h[2]] + [h[3]] + [h[4]], [h[5]]);
    ReceiveMore(jar, [h[0]] + [h[1]] + [h[2]] + [h[3]], [h[4]]);
    ReceiveMore(jar, [h[0]] + [h[1]] + [h[2]], [h[3]]);
    ReceiveMore(jar, [h[0]] + [h[1]], [h[2]]);
    ReceiveMore(jar, [h[0]], [h[1]]);
    ReceiveOne(jar, h[0]);
    var j1 := jar[CHALLENGE := Kept(c.challenge, CHALLENGE_LIFETIME, false, secure)];
    var j2 := j1[SIGNATURE := Kept(c.signature, CHALLENGE_LIFETIME, false, secure)];
    ReceiveText(jar, CHALLENGE, c.challenge, secure);
    ReceiveText(j1, SIGNATURE, c.signature, secure);
    ReceiveCleared(j2, NONCE, secure);
    ReceiveCleared(j2 - {NONCE}, CLEARANCE, secure);
    ReceiveOne(j2 - {NONCE} - {CLEARANCE}, h[5]);
    ChallengedJarInSteps(jar, c, secure);
  }

  /** The value of the first header of that name. */
  function HeaderValue(hs: seq<Header>, name: Bytes): Option<Bytes> {
    if |hs| == 0 then None
    else if Lower(hs[0].name) == name then Some(hs[0].value)
    else HeaderValue(hs[1..], name)
  }

  /** The 403 is an HTML page, and carries the signature in a header as well. */
  lemma ReplyHeaders(c: SignedChallenge, secure: bool)
    ensures HeaderValue(ChallengeReply(c, secure), Ascii("content-type")) == Some(Ascii("text/html; charset=utf-8"))
    ensures HeaderValue(ChallengeReply(c, secure), Ascii("challenge-sig")) == Some(c.signature)
  {
    hide SetCookie, ClearCookie;
    ReplyNames();
    hide Ascii, Lower;
    var h := ChallengeReply(c, secure);
    assert h[1..][1..] == h[2..] && h[2..][1..] == h[3..] && h[3..][1..] == h[4..] && h[4..][1..] == [h[5]];
    SkipHeader(h, Ascii("challenge-sig"));
    SkipHeader(h[1..], Ascii("challenge-sig"));
    SkipHeader(h[2..], Ascii("challenge-sig"));
    SkipHeader(h[3..], Ascii("challenge-sig"));
    SkipHeader(h[4..], Ascii("challenge-sig"));
  }

  lemma SkipHeader(hs: seq<Header>, name: Bytes)
    requires |hs| > 0 && Lower(hs[0].name) != name
    ensures HeaderValue(hs, name) == HeaderValue(hs[1..], name)
  {
  }

  lemma ReplyNames()
    ensures Lower(Ascii("content-type")) == Ascii("content-type") && Lower(SIGNATURE) == Ascii("challenge-sig")
    ensures Lower(SET_COOKIE) == Ascii("set-cookie")
    ensures |Ascii("content-type")| == 12 && |Ascii("challenge-sig")| == 13 && |Ascii("set-cookie")| == 10
  {
  }

  // ---------------------------------------------------- what scripts can see

  /** The page's script can read what it needs: the challenge and its signature. */
  lemma ScriptSeesChallenge(jar: Jar, c: SignedChallenge, https: bool)
    ensures var seen := Visible(ChallengedJar(jar, c, https));
            && Ascii("challenge") in seen && seen[Ascii("challenge")] == c.challenge
            && Ascii("challenge-sig") in seen && seen[Ascii("challenge-sig")] == c.signature
  {
    assert |Ascii("challenge")| == 9 && |Ascii("challenge-sig")| == 13;
  }

  /** No clearance is in the reach of scripts. */
  predicate Hidden(jar: Jar) { Ascii("challenge-clearance") !in Visible(jar) }

  /** No jar that the filter leaves behind lets a script see a clearance. */
  lemma ClearanceStaysHidden(jar: Jar, cfg: Config, c: SignedChallenge, token: Bytes, https: bool)
    requires Hidden(jar)
    ensures Hidden(ChallengedJar(jar, c, https)) && Hidden(SolvedJar(jar, token, https)) && Hidden(RenewedJar(jar, cfg, token, https))
  {
    assert |Ascii("challenge")| == 9 && |Ascii("challenge-sig")| == 13 && |Ascii("challenge-clearance")| == 19;
  }

  /** What is in `after` and was not in `jar` is Secure exactly for https. */
  predicate SecureIff(jar: Jar, after: Jar, https: bool) {
    forall n :: n in after ==>
      (n in jar && after[n] == jar[n]) || (after[n].secure == https && after[n].path == Ascii("/"))
  }

  /** Every cookie a handler sets is Secure exactly when its request was https; the
      others are as before. */
  lemma SecureIffHttps(jar: Jar, cfg: Config, c: SignedChallenge, token: Bytes, https: bool)
    ensures SecureIff(jar, ChallengedJar(jar, c, https), https)
    ensures SecureIff(jar, SolvedJar(jar, token, https), https)
    ensures SecureIff(jar, RenewedJar(jar, cfg, token, https), https)
  {
    hide Ascii;
  }

  // ------------------------------------------------------ what is issued

  /** What an issued challenge says. The dynamic difficulty needs no clamping; a
      header's is clamped to the bounds; a client that ipintel singles out gets the
      target, if that is harder, up to the maximum. */
  lemma IssuedChallenge(mac: Mac, cfg: Config, vm: VmState, shared: Bytes, req: Request, t: Times, salt: Option<Bytes>,
                        verdict: Bytes)
    requires Ordered(cfg.bounds) && DynamicState(cfg.bounds, vm.currentDiff, shared)
    requires Decide(mac, cfg, vm, shared, req, t, salt, verdict).Challenged?
    ensures var p := Decide(mac, cfg, vm, shared, req, t, salt, verdict).payload;
            var dynamic := if vm.currentDiff > 0 then vm.currentDiff
                           else if Override(shared).Some? then Override(shared).value
                           else cfg.bounds.base;
            var asked := if Override(req.override).Some? then Clamp(Override(req.override).value, cfg.bounds.min, cfg.bounds.max)
                         else dynamic;
            var i := cfg.intel;
            var single := i.enabled && i.mode == DifficultyMode && verdict != [] && verdict in i.categories && i.target > asked;
            && p.diff == (if !single then asked else if i.target < cfg.bounds.max then i.target else cfg.bounds.max)
            && p.ctx == req.client.ip && p.cid == req.client.connId
            && p.ts == t.issue && p.exp == t.issue + 60
            && salt.Some? && Base64Url.Decode(p.salt) == salt
  {
    hide PresentedExpiry, Solves, CookieSolution, TokenSolution, Guarded, Override, Scan, Encode, Decode;
    RoundTrip(salt.value);
  }

  // -------------------------------------------- the same for every instance

  /** Once a request without an override has found a dynamic difficulty, the
      instance gives every later one of that kind the same, until its next tick,
      whether or not a challenge came of it and whatever is shared since. */
  lemma DifficultySticks(mac: Mac, cfg: Config, vm: VmState, shared: Bytes, a: Request, ta: Times, sa: Option<Bytes>, va: Bytes,
                         later: Bytes, b: Request, tb: Times, sb: Option<Bytes>, vb: Bytes)
    requires Ordered(cfg.bounds) && CachedInBounds(cfg.bounds, vm.currentDiff) && !cfg.intel.enabled
    requires Override(a.override).None? && Override(b.override).None?
    requires vm.currentDiff > 0 || Override(shared).Some?
    requires var o := Decide(mac, cfg, vm, shared, a, ta, sa, va); o.Challenged? || o.FailedOpen?
    requires Decide(mac, cfg, VmAfter(cfg, vm, shared, a, Decide(mac, cfg, vm, shared, a, ta, sa, va)), later, b, tb, sb, vb).Challenged?
    ensures var o := Decide(mac, cfg, vm, shared, a, ta, sa, va);
            var o' := Decide(mac, cfg, VmAfter(cfg, vm, shared, a, o), later, b, tb, sb, vb);
            && o'.payload.diff == VmAfter(cfg, vm, shared, a, o).currentDiff
            && (o.Challenged? ==> o.payload.diff == o'.payload.diff)
            && cfg.bounds.min <= o'.payload.diff <= cfg.bounds.max
  {
    hide PresentedExpiry, Solves, CookieSolution, TokenSolution, Guarded, Override, Scan, Encode;
    var o := Decide(mac, cfg, vm, shared, a, ta, sa, va);
    var vm' := VmAfter(cfg, vm, shared, a, o);
    ResolvedSticks(cfg.bounds, vm.currentDiff, shared, b.override, later);
    SameWithoutOverride(cfg.bounds, a.override, vm.currentDiff, shared);
    hide Effective;
  }

  lemma SameWithoutOverride(b: Bounds, header: Bytes, currentDiff: uint64, shared: Bytes)
    requires Override(header).None?
    ensures Effective(b, header, currentDiff, shared) == Effective(b, [], currentDiff, shared)
  {
    assert Override([]).None?;
  }
}
