/** Whole runs: any number of plugin instances with one configuration and one
    key, the shared difficulty, and interleaved exchanges. What the filter has
    done is kept in a log; the properties are about the log of every run. */
module Run {
  import opened GoBytes
  import opened Base64Url
  import opened Utf8
  import opened Json
  import opened ChallengeJson
  import opened PowCheck
  import opened Tokens
  import opened Cookies
  import opened Difficulty
  import opened Gate

  datatype World = World(mac: Mac, cfg: Config)

  /** Entries of the log. An exchange is named by the index of its `Asked` entry. */
  datatype Event =
    | Asked(vm: nat, req: Request, t: Times, outcome: Outcome)
    | Answered(ctx: nat, mints: seq<Mint>)
    | Ticked(vm: nat, drained: nat)

  datatype State = State(now: Clock, vms: seq<VmState>, shared: Bytes, exchanges: map<nat, Exchange>, log: seq<Event>)

  const START := State(0, [], [], map[], [])

  datatype Input =
    | Start
    | Wait(until: Clock)
    | Tick(vm: nat)
    | Ask(vm: nat, req: Request, t: Times, salt: Option<Bytes>, verdict: Bytes)
    | Answer(ctx: nat, m: MintInputs)

  // ------------------------------------------------------------ environment

  predicate Signs(e: Event, text: Bytes) {
    match e
    case Asked(_, _, _, o) => o.Challenged? && ChallengeText(o.payload) == text
    case Answered(_, mints) => exists i :: 0 <= i < |mints| && MintBody(mints[i]) == text
    case Ticked(_, _) => false
  }

  predicate Signed(log: seq<Event>, text: Bytes) { exists i :: 0 <= i < |log| && Signs(log[i], text) }

  /** A client holds a valid MAC only of a text the filter has signed. */
  predicate Honest(w: World, log: seq<Event>, text: Bytes, sig: Bytes) {
    Decode(sig) == Some(w.mac(text)) ==> Signed(log, text)
  }

  /** No forged signature among the three places a request carries one. */
  predicate Unforged(w: World, log: seq<Event>, req: Request) {
    var c := Scan(req.cookie, NO_COOKIES);
    && (CutToken(c.clearance).Some? ==> Honest(w, log, CutToken(c.clearance).value.0, CutToken(c.clearance).value.1))
    && Honest(w, log, c.challenge, c.signature)
    && (TokenSolution(req.token).Some? ==>
          Honest(w, log, TokenSolution(req.token).value.challenge, TokenSolution(req.token).value.signature))
  }

  predicate Allowed(w: World, s: State, i: Input) {
    match i
    case Start => true
    case Wait(until) => s.now <= until
    case Tick(vm) => vm < |s.vms|
    case Ask(vm, req, t, _, _) =>
      && vm < |s.vms| && Ticking(t) && s.now <= t.clearance
      && AddressText(req.client.ip) && Unforged(w, s.log, req)
    case Answer(ctx, m) => ctx in s.exchanges && s.now <= m.now <= m.renewNow
  }

  // ------------------------------------------------------------------- steps

  ghost function Next(w: World, s: State, i: Input): State
    requires Allowed(w, s, i)
  {
    match i
    case Start => s.(vms := s.vms + [VmState(0, 0)])
    case Wait(until) => s.(now := until)
    case Tick(vm) =>
      var d := TickDifficulty(w.cfg.bounds, s.vms[vm].challengeCounter);
      s.(vms := s.vms[vm := VmState(0, d)], shared := Decimal(d), log := s.log + [Ticked(vm, s.vms[vm].challengeCounter)])
    case Ask(vm, req, t, salt, verdict) =>
      var o := Decide(w.mac, w.cfg, s.vms[vm], s.shared, req, t, salt, verdict);
      State(t.issue, s.vms[vm := VmAfter(w.cfg, s.vms[vm], s.shared, req, o)], s.shared,
            s.exchanges[|s.log| := AfterRequest(w.cfg, req, o, verdict)], s.log + [Asked(vm, req, t, o)])
    case Answer(ctx, m) =>
      var x := s.exchanges[ctx];
      s.(now := m.renewNow, exchanges := s.exchanges - {ctx}, log := s.log + [Answered(ctx, IssuedMints(x, m) + RenewedMints(x, m))])
  }

  /** A run the environment can drive. */
  ghost predicate Possible(w: World, run: seq<Input>)
    decreases |run|, 0
  {
    |run| > 0 ==> Possible(w, run[..|run| - 1]) && Allowed(w, After(w, run[..|run| - 1]), run[|run| - 1])
  }

  ghost function After(w: World, run: seq<Input>): State
    requires Possible(w, run)
    decreases |run|, 1
  {
    if |run| == 0 then START else Next(w, After(w, run[..|run| - 1]), run[|run| - 1])
  }

  // ----------------------------------------------- what each entry rests on

  /** `log[k]` mints `m` and nothing else. */
  predicate MintsAt(log: seq<Event>, k: nat, m: Mint) { k < |log| && log[k].Answered? && log[k].mints == [m] }

  ghost predicate Minted(log: seq<Event>, ip: Bytes, exp: int) {
    exists k, m :: MintsAt(log, k, m) && m.ip == ip && MintExpiry(m) == exp
  }

  /** `log[j]` issued the challenge that `sol` answers, to this client, and it has not expired. */
  predicate AnswersChallenge(log: seq<Event>, j: nat, sol: Solution, at: nat, client: ClientContext) {
    && j < |log| && log[j].Asked? && log[j].outcome.Challenged?
    && var p := log[j].outcome.payload;
       && sol.challenge == ChallengeText(p)
       && p.ctx == log[j].req.client.ip && p.exp == log[j].t.issue + CHALLENGE_LIFETIME
       && at <= p.exp
       && PowOk(Marshal(p), sol.nonce, p.diff)
       && (client.ip != [] ==> p.ctx == client.ip)
       && (p.cid != [] && client.connId != [] ==> Clean(p.cid) == client.connId)
  }

  ghost predicate Answerable(log: seq<Event>, sol: Solution, at: nat, client: ClientContext) {
    exists j :: AnswersChallenge(log, j, sol, at, client)
  }

  ghost predicate RequestJustified(w: World, before: seq<Event>, req: Request, t: Times, o: Outcome) {
    match o
    case Cleared(exp) => t.clearance <= exp && (req.client.ip != [] ==> Minted(before, req.client.ip, exp))
    case Renewing(exp) => exp < t.clearance <= exp + w.cfg.window && (req.client.ip != [] ==> Minted(before, req.client.ip, exp))
    case Solved(sol, at) => t.clearance <= at <= t.issue && Answerable(before, sol, at, req.client)
    case Challenged(p) => AddressText(p.ctx) && p.ctx == req.client.ip && p.exp == t.issue + CHALLENGE_LIFETIME
    case _ => true
  }

  /** One clearance at most, and only after a solution or a renewal, for its client. */
  predicate ReplyJustified(before: seq<Event>, ctx: nat, mints: seq<Mint>) {
    && ctx < |before| && before[ctx].Asked?
    && (forall k :: 0 <= k < |before| && before[k].Answered? ==> before[k].ctx != ctx)
    && |mints| <= 1
    && (forall i :: 0 <= i < |mints| ==>
          && (before[ctx].outcome.Solved? || before[ctx].outcome.Renewing?)
          && mints[i].ip == before[ctx].req.client.ip
          && before[ctx].t.issue <= mints[i].at)
  }

  ghost predicate Justified(w: World, before: seq<Event>, e: Event) {
    match e
    case Asked(_, req, t, o) => RequestJustified(w, before, req, t, o)
    case Answered(ctx, mints) => ReplyJustified(before, ctx, mints)
    case Ticked(_, _) => true
  }

  ghost predicate AllJustified(w: World, log: seq<Event>) { forall i :: 0 <= i < |log| ==> Justified(w, log[..i], log[i]) }

  /** An exchange still open: its flags are those of its request's outcome. */
  predicate Open(s: State, ctx: nat) {
    && ctx < |s.log| && s.log[ctx].Asked? && ctx in s.exchanges
    && (forall k :: 0 <= k < |s.log| && s.log[k].Answered? ==> s.log[k].ctx != ctx)
    && s.log[ctx].t.issue <= s.now
    && var x, o := s.exchanges[ctx], s.log[ctx].outcome;
       && x.issueClearance == o.Solved? && x.renewClearance == o.Renewing?
       && (o.Solved? || o.Renewing? ==>
             x.client.ip == s.log[ctx].req.client.ip && x.secureCookie == s.log[ctx].req.https)
  }

  ghost predicate Inv(w: World, s: State) {
    AllJustified(w, s.log) && forall ctx :: ctx in s.exchanges ==> Open(s, ctx)
  }

  // ---------------------------------------------------- a token was issued

  lemma MintIsSafe(w: World, log: seq<Event>, k: nat, i: nat)
    requires AllJustified(w, log) && k < |log| && log[k].Answered? && i < |log[k].mints|
    ensures MintsAt(log, k, log[k].mints[i])
    ensures 0 <= MintExpiry(log[k].mints[i]) < 0x100_0000_0000_0000
  {
    hide RequestJustified;
    assert Justified(w, log[..k], log[k]);
  }

  /** A clearance accepted for a known address was minted for that address. */
  lemma AcceptedWasMinted(w: World, log: seq<Event>, req: Request, exp: int)
    requires IsMac(w.mac) && AllJustified(w, log) && Unforged(w, log, req) && AddressText(req.client.ip)
    requires PresentedExpiry(w.mac, req) == Some(exp) && req.client.ip != []
    ensures Minted(log, req.client.ip, exp)
  {
    hide Scan, Decode, AllJustified, CutToken, DecodeClearanceBody, ParseClearance, AddressText, ChallengeText, MintBody, MintExpiry;
    var ip := req.client.ip;
    var token := Scan(req.cookie, NO_COOKIES).clearance;
    AcceptedClearance(w.mac, token, ip);
    var (body, sig) := CutToken(token).value;
    assert Signed(log, body);
    var i :| 0 <= i < |log| && Signs(log[i], body);
    if log[i].Asked? {
      var p := log[i].outcome.payload;
      ChallengeIsNoClearance(w, p, ip);
      assert false;
    } else {
      var k :| 0 <= k < |log[i].mints| && MintBody(log[i].mints[k]) == body;
      var m := log[i].mints[k];
      MintIsSafe(w, log, i, k);
      MintReadsBack(m);
      assert MintsAt(log, i, m);
    }
  }

  lemma MintReadsBack(m: Mint)
    requires MintExpiry(m) < 0x100_0000_0000_0000
    ensures DecodeClearanceBody(MintBody(m)) == Ok((MintExpiry(m), m.ip))
  {
    ClearanceFields(MintExpiry(m), m.salt, m.ip);
  }

  /** A challenge's text does not decode to a known client's address. */
  lemma ChallengeIsNoClearance(w: World, p: Payload, ip: Bytes)
    requires IsMac(w.mac) && AddressText(ip) && ip != []
    ensures var d := DecodeClearanceBody(ChallengeText(p)); d.Ok? ==> d.value.1 != ip
  {
    hide DecodeClearanceBody, CutToken, Encode, Decode;
    ChallengeAsClearance(w.mac, p, ip);
    MarshalIsObject(p);
    assert ChallengeText(p) != [] && InUrlAlphabet(ChallengeText(p)) by {
      EncodedText(p);
    }
    ParseSigned(w.mac, ChallengeText(p), ip);
  }

  lemma EncodedText(p: Payload)
    ensures ChallengeText(p) != [] && InUrlAlphabet(ChallengeText(p))
  {
    MarshalIsObject(p);
  }

  /** An accepted solution answers an issued challenge. */
  lemma AcceptedWasIssued(w: World, log: seq<Event>, sol: Solution, client: ClientContext, at: nat)
    requires IsMac(w.mac) && AllJustified(w, log) && Honest(w, log, sol.challenge, sol.signature)
    requires VerifySolution(w.mac, sol, client, at).Ok?
    ensures Answerable(log, sol, at, client)
  {
    hide Decode, AllJustified, Unmarshal, PowOk, Marshal, MintBody, MintExpiry, Encode, Clean;
    assert Signed(log, sol.challenge);
    var i :| 0 <= i < |log| && Signs(log[i], sol.challenge);
    if log[i].Asked? {
      var p := log[i].outcome.payload;
      RoundTrip(Marshal(p));
      PayloadRoundTrip(p);
      ContextBinding(Clean(p.ctx), Clean(p.cid), client);
      IssuedShape(w, log, i);
      AsciiIsValid(p.ctx);
      CleanEmpty(p.cid);
      assert AnswersChallenge(log, i, sol, at, client);
    } else {
      var k :| 0 <= k < |log[i].mints| && MintBody(log[i].mints[k]) == sol.challenge;
      MintIsSafe(w, log, i, k);
      MintIsNoChallenge(w, log[i].mints[k], sol, client, at);
      assert false;
    }
  }

  lemma IssuedShape(w: World, log: seq<Event>, i: nat)
    requires AllJustified(w, log) && i < |log| && log[i].Asked? && log[i].outcome.Challenged?
    ensures log[i].outcome.payload.ctx == log[i].req.client.ip && AddressText(log[i].outcome.payload.ctx)
    ensures log[i].outcome.payload.exp == log[i].t.issue + CHALLENGE_LIFETIME
  {
    assert Justified(w, log[..i], log[i]);
  }

  lemma MintIsNoChallenge(w: World, m: Mint, sol: Solution, client: ClientContext, at: nat)
    requires MintExpiry(m) < 0x100_0000_0000_0000 && sol.challenge == MintBody(m)
    ensures VerifySolution(w.mac, sol, client, at).Err?
  {
    hide VerifySolution;
    ClearanceAsChallenge(w.mac, MintExpiry(m), m.salt, m.ip, sol.signature, sol.nonce, client, at);
  }

  // ------------------------------------------------------- steps keep it all

  lemma DecisionIsJustified(w: World, s: State, vm: VmState, req: Request, t: Times, salt: Option<Bytes>, verdict: Bytes)
    requires IsMac(w.mac) && Inv(w, s) && Ticking(t) && AddressText(req.client.ip) && Unforged(w, s.log, req)
    ensures RequestJustified(w, s.log, req, t, Decide(w.mac, w.cfg, vm, s.shared, req, t, salt, verdict))
  {
    hide Inv, PresentedExpiry, Scan, VerifySolution, AddressText, Minted, Answerable, Honest, Guarded, ChallengeDifficulty, Open;
    hide CutToken, ParseUint, TokenSolution;
    var o := Decide(w.mac, w.cfg, vm, s.shared, req, t, salt, verdict);
    assert AllJustified(w, s.log) by {
      LogIsJustified(w, s);
    }
    if (o.Cleared? || o.Renewing?) && req.client.ip != [] {
      AcceptedWasMinted(w, s.log, req, o.exp);
    } else if o.Solved? {
      AcceptedWasIssued(w, s.log, o.sol, req.client, o.at);
    }
  }

  lemma LogIsJustified(w: World, s: State)
    requires Inv(w, s)
    ensures AllJustified(w, s.log)
  {
    hide AllJustified;
  }

  lemma JustifiedMore(w: World, log: seq<Event>, e: Event)
    requires AllJustified(w, log) && Justified(w, log, e)
    ensures AllJustified(w, log + [e])
  {
    hide Justified;
    var more := log + [e];
    forall i | 0 <= i < |more|
      ensures Justified(w, more[..i], more[i])
    {
      assert i < |log| ==> more[..i] == log[..i];
      assert i == |log| ==> more[..i] == log;
    }
  }

  lemma AskKeepsInv(w: World, s: State, i: Input)
    requires IsMac(w.mac) && Inv(w, s) && Allowed(w, s, i) && i.Ask?
    ensures Inv(w, Next(w, s, i))
  {
    hide AllJustified, RequestJustified, Unforged, AddressText, Decide, VmAfter;
    DecisionIsJustified(w, s, s.vms[i.vm], i.req, i.t, i.salt, i.verdict);
    var s' := Next(w, s, i);
    var e := s'.log[|s.log|];
    JustifiedMore(w, s.log, e);
    RepliesLookBack(w, s.log);
    forall ctx | ctx in s'.exchanges
      ensures Open(s', ctx)
    {
      assert ctx != |s.log| ==> Open(s, ctx);
    }
  }

  lemma RepliesLookBack(w: World, log: seq<Event>)
    requires AllJustified(w, log)
    ensures forall k :: 0 <= k < |log| && log[k].Answered? ==> log[k].ctx < k
  {
    hide RequestJustified;
    forall k | 0 <= k < |log| && log[k].Answered?
      ensures log[k].ctx < k
    {
      assert Justified(w, log[..k], log[k]);
    }
  }

  lemma AnswerKeepsInv(w: World, s: State, i: Input)
    requires Inv(w, s) && Allowed(w, s, i) && i.Answer?
    ensures Inv(w, Next(w, s, i))
  {
    hide AllJustified;
    var s' := Next(w, s, i);
    var e := s'.log[|s.log|];
    assert Open(s, i.ctx);
    assert Justified(w, s.log, e);
    JustifiedMore(w, s.log, e);
    forall ctx | ctx in s'.exchanges
      ensures Open(s', ctx)
    {
      assert Open(s, ctx);
    }
  }

  lemma StepKeepsInv(w: World, s: State, i: Input)
    requires IsMac(w.mac) && Inv(w, s) && Allowed(w, s, i)
    ensures Inv(w, Next(w, s, i))
  {
    hide AllJustified;
    match i
    case Ask(_, _, _, _, _) => AskKeepsInv(w, s, i);
    case Answer(_, _) => AnswerKeepsInv(w, s, i);
    case Tick(vm) =>
      var s' := Next(w, s, i);
      JustifiedMore(w, s.log, s'.log[|s.log|]);
      forall ctx | ctx in s'.exchanges
        ensures Open(s', ctx)
      {
        assert Open(s, ctx);
      }
    case _ =>
      var s' := Next(w, s, i);
      forall ctx | ctx in s'.exchanges
        ensures Open(s', ctx)
      {
        assert Open(s, ctx);
      }
  }

  lemma {:induction false} RunKeepsInv(w: World, run: seq<Input>)
    requires IsMac(w.mac) && Possible(w, run)
    ensures Inv(w, After(w, run))
    decreases |run|
  {
    hide Inv, Allowed;
    if |run| == 0 {
      InvAtStart(w);
    } else {
      RunKeepsInv(w, run[..|run| - 1]);
      StepKeepsInv(w, After(w, run[..|run| - 1]), run[|run| - 1]);
    }
  }

  lemma InvAtStart(w: World)
    ensures Inv(w, START)
  {
  }

  // --------------------------------------------------------------- mint chains

  /** The mint at `log[k]` was earned by solving an unexpired challenge issued to `ip`. */
  ghost predicate EarnedAt(log: seq<Event>, k: nat, ip: Bytes) {
    && k < |log| && log[k].Answered? && log[k].ctx < k && log[log[k].ctx].Asked?
    && var a := log[log[k].ctx];
       && a.outcome.Solved? && a.req.client.ip == ip
       && exists j :: 0 <= j < log[k].ctx && AnswersChallenge(log, j, a.outcome.sol, a.outcome.at, a.req.client)
  }

  /** The mint at `log[n]` renewed the one at `log[k]`, within the window after its expiry. */
  predicate RenewsAt(w: World, log: seq<Event>, k: nat, n: nat, ip: Bytes) {
    && k < n < |log| && log[k].Answered? && |log[k].mints| == 1
    && log[n].Answered? && k < log[n].ctx < n && log[log[n].ctx].Asked?
    && var a, prior := log[log[n].ctx], log[k].mints[0];
       && a.outcome == Renewing(MintExpiry(prior)) && a.req.client.ip == ip
       && MintExpiry(prior) < a.t.clearance <= prior.at + CLEARANCE_LIFETIME + w.cfg.window
  }

  /** A chain of mints for one address, from a solved challenge through renewals. */
  ghost predicate IsChain(w: World, log: seq<Event>, chain: seq<nat>, ip: Bytes) {
    && |chain| > 0
    && (forall n :: 0 <= n < |chain| ==> chain[n] < |log| && log[chain[n]].Answered? && |log[chain[n]].mints| == 1
                                         && log[chain[n]].mints[0].ip == ip)
    && EarnedAt(log, chain[0], ip)
    && (forall n :: 0 < n < |chain| ==> RenewsAt(w, log, chain[n - 1], chain[n], ip))
  }

  lemma MintHasOrigin(w: World, log: seq<Event>, k: nat, m: Mint)
    requires AllJustified(w, log) && MintsAt(log, k, m) && m.ip != []
    ensures log[k].ctx < k && log[log[k].ctx].Asked? && log[log[k].ctx].req.client.ip == m.ip
    ensures log[log[k].ctx].outcome.Solved? || log[log[k].ctx].outcome.Renewing?
    ensures RequestJustified(w, log[..log[k].ctx], log[log[k].ctx].req, log[log[k].ctx].t, log[log[k].ctx].outcome)
  {
    hide RequestJustified;
    assert Justified(w, log[..k], log[k]);
    assert log[k].mints[0] == m;
    var c := log[k].ctx;
    assert log[..k][c] == log[c];
    assert Justified(w, log[..c], log[c]);
  }

  lemma {:induction false} ChainTo(w: World, log: seq<Event>, k: nat, m: Mint) returns (chain: seq<nat>)
    requires AllJustified(w, log) && MintsAt(log, k, m) && m.ip != []
    ensures IsChain(w, log, chain, m.ip) && |chain| > 0 && chain[|chain| - 1] == k
    decreases k
  {
    hide AllJustified, PowOk, ChallengeText, Marshal;
    MintHasOrigin(w, log, k, m);
    var c := log[k].ctx;
    var a := log[c];
    if a.outcome.Solved? {
      var j :| AnswersChallenge(log[..c], j, a.outcome.sol, a.outcome.at, a.req.client);
      assert AnswersChallenge(log, j, a.outcome.sol, a.outcome.at, a.req.client);
      chain := [k];
    } else {
      var j, n :| MintsAt(log[..c], j, n) && n.ip == m.ip && MintExpiry(n) == a.outcome.exp;
      assert MintsAt(log, j, n);
      var before := ChainTo(w, log, j, n);
      chain := before + [k];
      assert RenewsAt(w, log, j, k, m.ip);
    }
  }

  /** In every run, a request from a known address that a clearance admits has a
      mint chain for that address: it begins with a verified solution of an
      unexpired challenge issued to the address, each renewal comes no later than
      the previous mint plus its lifetime plus the window, and the last link is the
      clearance presented. */
  lemma AdmissionHasChain(w: World, run: seq<Input>, i: nat) returns (chain: seq<nat>)
    requires IsMac(w.mac) && Possible(w, run) && i < |After(w, run).log|
    requires After(w, run).log[i].Asked?
    requires After(w, run).log[i].outcome.Cleared? || After(w, run).log[i].outcome.Renewing?
    requires After(w, run).log[i].req.client.ip != []
    ensures |chain| > 0
    ensures var log := After(w, run).log;
            var last := chain[|chain| - 1];
            && IsChain(w, log, chain, log[i].req.client.ip)
            && last < i
            && log[i].outcome.exp == MintExpiry(log[last].mints[0])
            && log[i].t.clearance <= log[last].mints[0].at + CLEARANCE_LIFETIME + (if log[i].outcome.Cleared? then 0 else w.cfg.window)
  {
    hide AllJustified, Possible, After, IsChain, MintsAt;
    RunKeepsInv(w, run);
    var log := After(w, run).log;
    var k, m := PresentedMint(w, log, i);
    chain := ChainTo(w, log, k, m);
    OneMint(log, k, m);
  }

  lemma OneMint(log: seq<Event>, k: nat, m: Mint)
    requires MintsAt(log, k, m)
    ensures k < |log| && log[k].Answered? && log[k].mints == [m]
  {
  }

  /** The mint behind a clearance that was presented. */
  lemma PresentedMint(w: World, log: seq<Event>, i: nat) returns (k: nat, m: Mint)
    requires AllJustified(w, log) && i < |log| && log[i].Asked? && log[i].req.client.ip != []
    requires log[i].outcome.Cleared? || log[i].outcome.Renewing?
    ensures k < i && MintsAt(log, k, m) && m.ip == log[i].req.client.ip && MintExpiry(m) == log[i].outcome.exp
    ensures log[i].t.clearance <= MintExpiry(m) + (if log[i].outcome.Cleared? then 0 else w.cfg.window)
  {
    hide AllJustified;
    EntryJustified(w, log, i);
    var a := log[i];
    k, m :| MintsAt(log[..i], k, m) && m.ip == a.req.client.ip && MintExpiry(m) == a.outcome.exp;
    assert MintsAt(log, k, m);
  }

  lemma EntryJustified(w: World, log: seq<Event>, i: nat)
    requires AllJustified(w, log) && i < |log|
    ensures Justified(w, log[..i], log[i])
  {
    hide Justified;
  }

  /** In every run, an accepted solution answers an earlier challenge that had not
      expired and whose work it does; for a known address, one issued to it. */
  lemma SolutionAnswersChallenge(w: World, run: seq<Input>, i: nat) returns (j: nat)
    requires IsMac(w.mac) && Possible(w, run) && i < |After(w, run).log|
    requires After(w, run).log[i].Asked? && After(w, run).log[i].outcome.Solved?
    ensures j < i && var a := After(w, run).log[i]; AnswersChallenge(After(w, run).log, j, a.outcome.sol, a.outcome.at, a.req.client)
  {
    hide AllJustified, Possible, After, PowOk, ChallengeText, Marshal;
    RunKeepsInv(w, run);
    var log := After(w, run).log;
    EntryJustified(w, log, i);
    var a := log[i];
    j :| AnswersChallenge(log[..i], j, a.outcome.sol, a.outcome.at, a.req.client);
  }

  /** In every run, an exchange is answered at most once, with at most one
      clearance, for its own client, and only when its request was admitted by a
      solution or for renewal: a request that was stopped earns none. */
  lemma OneMintPerExchange(w: World, run: seq<Input>, k: nat)
    requires IsMac(w.mac) && Possible(w, run) && k < |After(w, run).log| && After(w, run).log[k].Answered?
    ensures ReplyJustified(After(w, run).log[..k], After(w, run).log[k].ctx, After(w, run).log[k].mints)
    ensures forall n :: 0 <= n < |After(w, run).log| && After(w, run).log[n].Answered? && n != k ==>
              After(w, run).log[n].ctx != After(w, run).log[k].ctx
  {
    hide AllJustified, Possible, After, RequestJustified;
    RunKeepsInv(w, run);
    var log := After(w, run).log;
    EntryJustified(w, log, k);
    forall n | 0 <= n < |log| && log[n].Answered? && n != k
      ensures log[n].ctx != log[k].ctx
    {
      EntryJustified(w, log, n);
      assert n < k ==> log[..k][n] == log[n];
      assert n > k ==> log[..n][k] == log[k];
    }
  }

  // ------------------------------------------------------------- difficulties

  /** Instances and shared data hold what ticks can leave there. */
  predicate DynamicStates(w: World, s: State) {
    forall v :: 0 <= v < |s.vms| ==> DynamicState(w.cfg.bounds, s.vms[v].currentDiff, s.shared)
  }

  /** An issued difficulty: always in bounds; without an override, not below the
      base; and without ipintel either, within six of it. */
  predicate GoodDifficulty(w: World, e: Event) {
    e.Asked? && e.outcome.Challenged? ==>
      var d := e.outcome.payload.diff;
      && w.cfg.bounds.min <= d <= w.cfg.bounds.max
      && (Override(e.req.override).None? ==> w.cfg.bounds.base <= d)
      && (Override(e.req.override).None? && !w.cfg.intel.enabled ==> Dynamic(w.cfg.bounds, d))
  }

  predicate DifficultyInv(w: World, s: State) {
    && (Override(s.shared).None? || Dynamic(w.cfg.bounds, Override(s.shared).value))
    && DynamicStates(w, s)
    && forall i :: 0 <= i < |s.log| ==> GoodDifficulty(w, s.log[i])
  }

  lemma TickKeepsDifficulties(w: World, s: State, vm: nat)
    requires Ordered(w.cfg.bounds) && RoomForBumps(w.cfg.bounds) && DifficultyInv(w, s) && vm < |s.vms|
    ensures DifficultyInv(w, Next(w, s, Tick(vm)))
  {
    hide Override, TickDifficulty, GoodDifficulty;
    var d := TickDifficulty(w.cfg.bounds, s.vms[vm].challengeCounter);
    TickRange(w.cfg.bounds);
    PublishedReadsBack(d);
    var s' := Next(w, s, Tick(vm));
    assert GoodDifficulty(w, s'.log[|s.log|]) by {
      OnlyChallenges(w, s'.log[|s.log|]);
    }
    forall v | 0 <= v < |s'.vms|
      ensures DynamicState(w.cfg.bounds, s'.vms[v].currentDiff, s'.shared)
    {
      assert DynamicState(w.cfg.bounds, s.vms[v].currentDiff, s.shared);
    }
  }

  lemma OnlyChallenges(w: World, e: Event)
    ensures !(e.Asked? && e.outcome.Challenged?) ==> GoodDifficulty(w, e)
  {
  }

  lemma IssuedDifficulty(w: World, vm: VmState, shared: Bytes, req: Request, t: Times, salt: Option<Bytes>, verdict: Bytes, v: nat)
    requires Ordered(w.cfg.bounds) && DynamicState(w.cfg.bounds, vm.currentDiff, shared)
    ensures GoodDifficulty(w, Asked(v, req, t, Decide(w.mac, w.cfg, vm, shared, req, t, salt, verdict)))
    ensures var o := Decide(w.mac, w.cfg, vm, shared, req, t, salt, verdict);
            DynamicState(w.cfg.bounds, VmAfter(w.cfg, vm, shared, req, o).currentDiff, shared)
  {
    hide PresentedExpiry, Solves, CookieSolution, TokenSolution, Guarded, Override, Effective, DynamicState, Dynamic, Scan;
    var r := Effective(w.cfg.bounds, req.override, vm.currentDiff, shared);
    EffectiveBounds(w.cfg.bounds, req.override, vm.currentDiff, shared);
    TargetNeverLowers(TargetFor(w.cfg, verdict), r.difficulty, w.cfg.bounds.max);
    assert Dynamic(w.cfg.bounds, r.difficulty) ==> w.cfg.bounds.base <= r.difficulty by {
      DynamicAboveBase(w.cfg.bounds, r.difficulty);
    }
  }

  lemma DynamicAboveBase(b: Bounds, d: nat)
    ensures Dynamic(b, d) ==> b.base <= d
  {
  }

  lemma AskKeepsDifficulties(w: World, s: State, i: Input)
    requires Ordered(w.cfg.bounds) && DifficultyInv(w, s) && Allowed(w, s, i) && i.Ask?
    ensures DifficultyInv(w, Next(w, s, i))
  {
    hide Override, GoodDifficulty, Decide, VmAfter, Unforged, AddressText, DynamicState, Dynamic;
    IssuedDifficulty(w, s.vms[i.vm], s.shared, i.req, i.t, i.salt, i.verdict, i.vm);
  }

  lemma {:induction false} RunKeepsDifficulties(w: World, run: seq<Input>)
    requires Possible(w, run) && Ordered(w.cfg.bounds) && RoomForBumps(w.cfg.bounds)
    ensures DifficultyInv(w, After(w, run))
    decreases |run|
  {
    if |run| > 0 {
      var before, i := After(w, run[..|run| - 1]), run[|run| - 1];
      RunKeepsDifficulties(w, run[..|run| - 1]);
      StepKeepsDifficulties(w, before, i);
    }
  }

  lemma StepKeepsDifficulties(w: World, s: State, i: Input)
    requires Allowed(w, s, i) && DifficultyInv(w, s) && Ordered(w.cfg.bounds) && RoomForBumps(w.cfg.bounds)
    ensures DifficultyInv(w, Next(w, s, i))
  {
    hide Override, GoodDifficulty, Decide, VmAfter, Unforged, AddressText, Dynamic, TickDifficulty;
    match i
    case Tick(vm) => TickKeepsDifficulties(w, s, vm);
    case Ask(_, _, _, _, _) => AskKeepsDifficulties(w, s, i);
    case Answer(_, _) =>
      var e := Next(w, s, i).log[|s.log|];
      OnlyChallenges(w, e);
    case _ =>
  }

  // -------------------------------------------------------------- conservation

  function Drained(log: seq<Event>, v: nat): nat {
    if |log| == 0 then 0
    else
      var e := log[|log| - 1];
      Drained(log[..|log| - 1], v) + if e.Ticked? && e.vm == v then e.drained else 0
  }

  function Issued(log: seq<Event>, v: nat): nat {
    if |log| == 0 then 0
    else
      var e := log[|log| - 1];
      Issued(log[..|log| - 1], v) + if e.Asked? && e.vm == v && e.outcome.Challenged? then 1 else 0
  }

  /** What instance `v` has drained and still counts, against what it has issued. */
  predicate Conserved(s: State, v: nat) {
    Balanced(Drained(s.log, v), if v < |s.vms| then s.vms[v].challengeCounter else 0, Issued(s.log, v))
  }

  predicate Balanced(drained: nat, live: nat, issued: nat) {
    drained + live <= issued && (issued - (drained + live)) % 0x1_0000_0000_0000_0000 == 0
  }

  lemma CountOne(drained: nat, live: nat, issued: nat)
    requires Balanced(drained, live, issued)
    ensures Balanced(drained, (live + 1) % U64, issued + 1)
  {
    var x := issued - (drained + live);
    var q, r := (live + 1) / 0x1_0000_0000_0000_0000, (live + 1) % 0x1_0000_0000_0000_0000;
    assert issued + 1 - (drained + r) == x + q * 0x1_0000_0000_0000_0000;
  }

  lemma CountsOfMore(log: seq<Event>, e: Event, v: nat)
    ensures Drained(log + [e], v) == Drained(log, v) + if e.Ticked? && e.vm == v then e.drained else 0
    ensures Issued(log + [e], v) == Issued(log, v) + if e.Asked? && e.vm == v && e.outcome.Challenged? then 1 else 0
  {
    assert (log + [e])[..|log|] == log;
  }

  lemma StepConserves(w: World, s: State, i: Input, v: nat)
    requires Allowed(w, s, i) && Conserved(s, v)
    ensures Conserved(Next(w, s, i), v)
  {
    hide Decide, Unforged, AddressText, TickDifficulty, Decimal, Balanced, Drained, Issued, AfterRequest;
    hide IssuedMints, RenewedMints, Effective;
    var s' := Next(w, s, i);
    if i.Tick? || i.Ask? || i.Answer? {
      CountsOfMore(s.log, s'.log[|s.log|], v);
    }
    if v < |s.vms| {
      CountOne(Drained(s.log, v), s.vms[v].challengeCounter, Issued(s.log, v));
      DrainAll(Drained(s.log, v), s.vms[v].challengeCounter, Issued(s.log, v));
    }
  }

  lemma DrainAll(drained: nat, live: nat, issued: nat)
    requires Balanced(drained, live, issued)
    ensures Balanced(drained + live, 0, issued)
  {
  }

  /** In every run, for every instance, the counts its ticks drained plus its live
      counter equal the challenges it issued, modulo the counter's 2^64; exactly,
      until it has issued that many. */
  lemma {:induction false} ChallengesAreConserved(w: World, run: seq<Input>, v: nat)
    requires Possible(w, run)
    ensures Conserved(After(w, run), v)
    ensures var s := After(w, run);
            v < |s.vms| && Issued(s.log, v) < U64 ==> Drained(s.log, v) + s.vms[v].challengeCounter == Issued(s.log, v)
    decreases |run|
  {
    hide Allowed, Next;
    if |run| > 0 {
      ChallengesAreConserved(w, run[..|run| - 1], v);
      StepConserves(w, After(w, run[..|run| - 1]), run[|run| - 1], v);
    }
    ConservedExactly(After(w, run), v);
  }

  lemma ConservedExactly(s: State, v: nat)
    requires Conserved(s, v)
    ensures v < |s.vms| && Issued(s.log, v) < U64 ==> Drained(s.log, v) + s.vms[v].challengeCounter == Issued(s.log, v)
  {
    hide Drained, Issued;
  }
}
