/** The plugin and exchange objects of main.go, with the fields their handlers
    update in place. Each handler is proved against `Gate` and `Difficulty`. */
module Filter {
  import opened GoBytes
  import opened Base64Url
  import opened Tokens
  import opened TokenOps
  import opened Cookies
  import opened Difficulty
  import opened Gate
  import ChallengeJson
  import Protected
  import IpLookup
  import IpRange

  /** The host's shared data under the difficulty key; empty when never set. */
  class SharedData {
    var difficulty: Bytes

    constructor ()
      ensures difficulty == []
    {
      difficulty := [];
    }
  }

  /** The verdict for an address text: that of the lookup, or empty when there is
      no database, no address, or an unreadable block. */
  ghost predicate IsVerdict(db: Option<IpLookup.DB>, parse: Bytes -> Option<IpRange.Addr>, ip: Bytes, verdict: Bytes)
    requires parse(ip).Some? ==> IpRange.ValidAddr(parse(ip).value)
  {
    if db.None? || parse(ip).None? then verdict == []
    else
      var a := parse(ip).value;
      var (family, key) := IpRange.AddrBytes(a);
      var read := IpLookup.RecordsOf(db.value, IpLookup.Visited(db.value.blocks, family, key));
      if read.Err? then verdict == []
      else exists x :: IpLookup.IsAnswer(db.value, IpRange.Unmap(a), IpLookup.Hits(read.value, family, key), x) && x.verdict == verdict
  }

  class Plugin {
    const cfg: Config
    const mac: Hmac
    const macSumBuf: array<byte>
    const shared: SharedData
    const ipintel: Option<IpLookup.DB>
    const parseAddr: Bytes -> Option<IpRange.Addr>
    var challengeCounter: nat
    var currentDiff: uint64

    ghost predicate Valid() {
      IsMac(mac.keyed) && macSumBuf.Length == 32
      && forall s :: parseAddr(s).Some? ==> IpRange.ValidAddr(parseAddr(s).value)
    }

    ghost function State(): VmState
      reads this
    {
      VmState(challengeCounter, currentDiff)
    }

    /** A new instance shares the key and the host's data with the others. */
    constructor (cfg: Config, mac: Hmac, macSumBuf: array<byte>, shared: SharedData, ipintel: Option<IpLookup.DB>,
                 parseAddr: Bytes -> Option<IpRange.Addr>)
      requires IsMac(mac.keyed) && macSumBuf.Length == 32
      requires forall s :: parseAddr(s).Some? ==> IpRange.ValidAddr(parseAddr(s).value)
      ensures Valid() && State() == VmState(0, 0)
      ensures this.cfg == cfg && this.mac == mac && this.macSumBuf == macSumBuf && this.shared == shared
    {
      this.cfg, this.mac, this.macSumBuf, this.shared := cfg, mac, macSumBuf, shared;
      this.ipintel, this.parseAddr := ipintel, parseAddr;
      challengeCounter, currentDiff := 0, 0;
    }

    method GetEffectiveDifficulty(headerOverride: Bytes) returns (d: uint64, source: Source)
      modifies this`currentDiff
      ensures var r := Effective(cfg.bounds, headerOverride, old(currentDiff), shared.difficulty);
              d == r.difficulty && source == r.source && currentDiff == r.cached
    {
      hide ParseUint;
      if headerOverride != [] {
        var v := ParseUint(headerOverride, 0x1_0000_0000);
        if v.Some? && v.value > 0 {
          d := Clamp(v.value, cfg.bounds.min, cfg.bounds.max);
          return d, FromHeader;
        }
      } else {
        EmptyIsNoNumber();
      }
      if currentDiff > 0 {
        d := Clamp(currentDiff, cfg.bounds.min, cfg.bounds.max);
        return d, FromTick;
      }
      var data := shared.difficulty;
      if data != [] {
        var v := ParseUint(data, 0x1_0000_0000);
        if v.Some? && v.value > 0 {
          d := Clamp(v.value, cfg.bounds.min, cfg.bounds.max);
          currentDiff := d;
          return d, FromTick;
        }
      } else {
        EmptyIsNoNumber();
      }
      return Clamp(cfg.bounds.base, cfg.bounds.min, cfg.bounds.max), FromConfig;
    }

    /** A 64-bit counter. */
    method RecordChallengeIssued()
      modifies this`challengeCounter
      ensures challengeCounter == (old(challengeCounter) + 1) % U64
    {
      challengeCounter := (challengeCounter + 1) % U64;
    }

    method OnTick()
      modifies this, shared
      ensures State() == VmState(0, TickDifficulty(cfg.bounds, old(challengeCounter)))
      ensures shared.difficulty == Decimal(TickDifficulty(cfg.bounds, old(challengeCounter)))
    {
      var recent := challengeCounter;
      challengeCounter := 0;
      var newDiff: uint64 := cfg.bounds.base;
      if recent >= 800 {
        newDiff := (cfg.bounds.base + 6) % U64;
      } else if recent >= 400 {
        newDiff := (cfg.bounds.base + 4) % U64;
      } else if recent >= 180 {
        newDiff := (cfg.bounds.base + 3) % U64;
      } else if recent >= 80 {
        newDiff := (cfg.bounds.base + 2) % U64;
      } else if recent >= 35 {
        newDiff := (cfg.bounds.base + 1) % U64;
      }
      newDiff := Clamp(newDiff, cfg.bounds.min, cfg.bounds.max);
      currentDiff := newDiff;
      shared.difficulty := Decimal(newDiff);
    }

    method IpintelMatch(ip: Bytes) returns (verdict: Bytes)
      requires Valid()
      ensures IsVerdict(ipintel, parseAddr, ip, verdict)
    {
      hide IpLookup.IsAnswer, IpLookup.RecordsOf, IpLookup.Visited, IpLookup.Hits, IpRange.AddrBytes, IpRange.ValidAddr;
      if ipintel.None? {
        return [];
      }
      var res := IpLookup.Lookup(ipintel.value, parseAddr(ip));
      if res.Err? {
        return [];
      }
      return res.value.verdict;
    }
  }

  lemma EmptyIsNoNumber()
    ensures ParseUint([], 0x1_0000_0000).None?
  {
  }

  class HttpHeaders {
    const plugin: Plugin
    var client: ClientContext
    var secureCookie: bool
    var issueClearance: bool
    var renewClearance: bool
    var ipintelDifficulty: uint64

    ghost function State(): Exchange
      reads this
    {
      Exchange(client, secureCookie, issueClearance, renewClearance, ipintelDifficulty)
    }

    constructor (plugin: Plugin)
      ensures this.plugin == plugin && State() == NEW_EXCHANGE
    {
      this.plugin := plugin;
      client := ClientContext([], []);
      secureCookie, issueClearance, renewClearance, ipintelDifficulty := false, false, false, 0;
    }

    /** `reply` is the 403 that ends the exchange, or None to continue it. */
    method OnHttpRequestHeaders(req: Request, t: Times, salt: Option<Bytes>)
      returns (reply: Option<seq<Header>>, ghost verdict: Bytes, ghost outcome: Outcome)
      requires plugin.Valid() && State() == NEW_EXCHANGE
      modifies this, plugin, plugin.mac, plugin.macSumBuf
      ensures plugin.cfg.intel.enabled && (outcome.Passed? || outcome.FailedOpen? || outcome.Challenged?) ==>
                IsVerdict(plugin.ipintel, plugin.parseAddr, req.client.ip, verdict)
      ensures outcome == Decide(plugin.mac.keyed, plugin.cfg, old(plugin.State()), plugin.shared.difficulty, req, t, salt, verdict)
      ensures State() == AfterRequest(plugin.cfg, req, outcome, verdict)
      ensures plugin.State() == VmAfter(plugin.cfg, old(plugin.State()), plugin.shared.difficulty, req, outcome)
      ensures reply == ReplyTo(plugin.mac.keyed, req, outcome)
    {
      hide ParseClearance, Scan, Protected.AnyRuleMatches, IsVerdict, DecideUncleared, TargetFor, Effective, ChallengeReply;
      var p := plugin;
      if !p.cfg.protectAll {
        var guarded := Protected.MatchProtectedRules(p.cfg.rules, req.authority, req.path);
        if !guarded {
          return None, [], Bypassed;
        }
      }
      var cookies := ParseChallengeCookies(req.cookie);
      if cookies.clearance != [] {
        var ip := req.client.ip;
        var exp := ParseClearanceMAC(p.mac, p.macSumBuf, cookies.clearance, ip);
        var now := t.clearance;
        if exp.Ok? {
          if now <= exp.value {
            client := ClientContext(ip, []);
            return None, [], Cleared(exp.value);
          } else if ShouldRenew(exp.value, now, p.cfg.window) {
            client := ClientContext(ip, []);
            renewClearance := true;
            secureCookie := req.https;
            return None, [], Renewing(exp.value);
          }
        }
      }
      reply, verdict, outcome := OnUncleared(req, cookies, t, salt);
    }

    /** The slow path: a solution in the cookies, or in the `challenge-token` header. */
    method OnUncleared(req: Request, cookies: ChallengeCookies, t: Times, salt: Option<Bytes>)
      returns (reply: Option<seq<Header>>, ghost verdict: Bytes, ghost outcome: Outcome)
      requires plugin.Valid() && State() == NEW_EXCHANGE && cookies == Scan(req.cookie, NO_COOKIES)
      modifies this, plugin, plugin.mac, plugin.macSumBuf
      ensures plugin.cfg.intel.enabled && (outcome.Passed? || outcome.FailedOpen? || outcome.Challenged?) ==>
                IsVerdict(plugin.ipintel, plugin.parseAddr, req.client.ip, verdict)
      ensures outcome
              == DecideUncleared(plugin.mac.keyed, plugin.cfg, old(plugin.State()), plugin.shared.difficulty, req, t, salt, verdict)
      ensures State() == AfterRequest(plugin.cfg, req, outcome, verdict)
      ensures plugin.State() == VmAfter(plugin.cfg, old(plugin.State()), plugin.shared.difficulty, req, outcome)
      ensures reply == ReplyTo(plugin.mac.keyed, req, outcome)
    {
      hide VerifySolution, Scan, ParseUint, UnmarshalSolution, IsVerdict, DecideUnsolved, TargetFor, Effective, ChallengeReply;
      var p := plugin;
      client := req.client;
      if cookies.challenge != [] && cookies.signature != [] && cookies.nonce != [] {
        var nonce := ParseUint(cookies.nonce, U64);
        if nonce.Some? {
          var sol := Solution(cookies.challenge, cookies.signature, nonce.value);
          var verified := VerifySolutionMAC(p.mac, p.macSumBuf, sol, req.client, t.cookie);
          if verified.Ok? {
            issueClearance := true;
            secureCookie := req.https;
            return None, [], Solved(sol, t.cookie);
          }
        }
      }
      if req.token != [] {
        var sol := UnmarshalSolution(req.token);
        if sol.Some? {
          var verified := VerifySolutionMAC(p.mac, p.macSumBuf, sol.value, req.client, t.header);
          if verified.Ok? {
            issueClearance := true;
            secureCookie := req.https;
            return None, [], Solved(sol.value, t.header);
          }
        }
      }
      reply, verdict, outcome := OnUnsolved(req, t, salt);
    }

    /** No valid proof: the ipintel gate, then a fresh challenge. */
    method OnUnsolved(req: Request, t: Times, salt: Option<Bytes>)
      returns (reply: Option<seq<Header>>, ghost verdict: Bytes, ghost outcome: Outcome)
      requires plugin.Valid() && State() == NEW_EXCHANGE.(client := req.client)
      modifies this, plugin, plugin.mac, plugin.macSumBuf
      ensures plugin.cfg.intel.enabled ==> IsVerdict(plugin.ipintel, plugin.parseAddr, req.client.ip, verdict)
      ensures outcome == DecideUnsolved(plugin.cfg, old(plugin.State()), plugin.shared.difficulty, req, t, salt, verdict)
      ensures State() == AfterRequest(plugin.cfg, req, outcome, verdict)
      ensures plugin.State() == VmAfter(plugin.cfg, old(plugin.State()), plugin.shared.difficulty, req, outcome)
      ensures reply == ReplyTo(plugin.mac.keyed, req, outcome)
    {
      hide IsVerdict, Effective, ChallengeReply, NewPayload, DecideIntel;
      var p := plugin;
      verdict := [];
      if p.cfg.intel.enabled {
        var v := p.IpintelMatch(req.client.ip);
        verdict := v;
        var decision := DecideIntel(p.cfg.intel, v);
        match decision
        case Pass => return None, v, Passed;
        case Elevate(elev) => ipintelDifficulty := elev;
        case NormalChallenge =>
      }
      reply, outcome := IssueChallenge(req, t, salt, verdict);
    }

    method IssueChallenge(req: Request, t: Times, salt: Option<Bytes>, ghost verdict: Bytes)
      returns (reply: Option<seq<Header>>, ghost outcome: Outcome)
      requires plugin.Valid() && !Decision(plugin.cfg, verdict).Pass?
      requires State() == NEW_EXCHANGE.(client := req.client, ipintelDifficulty := TargetFor(plugin.cfg, verdict))
      modifies this, plugin, plugin.mac, plugin.macSumBuf
      ensures outcome == DecideUnsolved(plugin.cfg, old(plugin.State()), plugin.shared.difficulty, req, t, salt, verdict)
      ensures State() == AfterRequest(plugin.cfg, req, outcome, verdict)
      ensures plugin.State() == VmAfter(plugin.cfg, old(plugin.State()), plugin.shared.difficulty, req, outcome)
      ensures reply == ReplyTo(plugin.mac.keyed, req, outcome)
    {
      hide ChallengeText, Sign, ChallengeReply, Effective, Decision, TargetFor, NewPayload;
      var p := plugin;
      secureCookie := req.https;
      var difficulty, source := p.GetEffectiveDifficulty(req.override);
      if ipintelDifficulty > 0 {
        difficulty := Clamp(ipintelDifficulty, difficulty, p.cfg.bounds.max);
      }
      var challenge := GenerateChallengeMAC(p.mac, p.macSumBuf, difficulty, req.client, t.issue, salt);
      if challenge.Err? {
        return None, FailedOpen;
      }
      p.RecordChallengeIssued();
      reply := Some(ChallengeReply(challenge.value, secureCookie));
      outcome := Outcome.Challenged(NewPayload(difficulty, req.client, t.issue, salt.value));
    }

    /** The headers added, the configured one last. */
    method OnHttpResponseHeaders(m: MintInputs) returns (added: seq<Header>)
      requires plugin.Valid()
      modifies plugin.mac, plugin.macSumBuf
      ensures added == ResponseHeaders(plugin.mac.keyed, plugin.cfg, State(), m)
    {
      hide Token, ClearanceBody, SetCookie, ClearCookie, Ascii;
      added := [];
      if issueClearance {
        var token := GenerateClearanceMAC(plugin.mac, plugin.macSumBuf, client.ip, m.now, m.salt);
        if token.Ok? {
          added := added + [Header(SET_COOKIE, SetCookie(CLEARANCE, token.value, CLEARANCE_LIFETIME, true, secureCookie))];
          added := added + [Header(SET_COOKIE, ClearCookie(CHALLENGE, secureCookie))];
          added := added + [Header(SET_COOKIE, ClearCookie(SIGNATURE, secureCookie))];
          added := added + [Header(SET_COOKIE, ClearCookie(NONCE, secureCookie))];
        }
      }
      if renewClearance {
        var token := GenerateClearanceMAC(plugin.mac, plugin.macSumBuf, client.ip, m.renewNow, m.renewSalt);
        if token.Ok? {
          added := added + [Header(SET_COOKIE, SetCookie(CLEARANCE, token.value, plugin.cfg.renewalTTL, true, secureCookie))];
        }
      }
      assert added == ClearanceHeaders(plugin.mac.keyed, plugin.cfg, State(), m);
      if plugin.cfg.extra.name != [] {
        added := added + [plugin.cfg.extra];
      }
    }
  }
}
