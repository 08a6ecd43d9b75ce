/** The objects of `Filter` run as `Run` says: a fleet of plugin instances on one
    host, with its shared data, is in the state of a run, and each handler takes it
    to the next state. */
module Simulation {
  import opened GoBytes
  import opened Tokens
  import opened TokenOps
  import opened Cookies
  import opened CookieJar
  import opened Difficulty
  import opened Gate
  import opened Run
  import opened Filter
  import IpLookup
  import IpRange

  /** `fleet[v]` is instance `v` of the state. */
  ghost predicate Fleet(w: World, s: State, host: SharedData, fleet: seq<Plugin>)
    reads host, fleet
  {
    && |fleet| == |s.vms| && host.difficulty == s.shared
    && (forall i, j :: 0 <= i < j < |fleet| ==> fleet[i] != fleet[j])
    && forall v :: 0 <= v < |fleet| ==>
         && fleet[v].Valid() && fleet[v].mac.keyed == w.mac && fleet[v].cfg == w.cfg && fleet[v].shared == host
         && fleet[v].State() == s.vms[v]
  }

  /** A new instance joins with a digester and a buffer of its own. */
  method StartInstance(ghost w: World, ghost s: State, host: SharedData, ghost fleet: seq<Plugin>,
                       cfg: Config, mac: Hmac, macSumBuf: array<byte>, ipintel: Option<IpLookup.DB>,
                       parseAddr: Bytes -> Option<IpRange.Addr>)
    returns (p: Plugin)
    requires Fleet(w, s, host, fleet) && cfg == w.cfg && mac.keyed == w.mac && IsMac(w.mac) && macSumBuf.Length == 32
    requires forall a :: parseAddr(a).Some? ==> IpRange.ValidAddr(parseAddr(a).value)
    ensures Fleet(w, Next(w, s, Start), host, fleet + [p])
  {
    p := new Plugin(cfg, mac, macSumBuf, host, ipintel, parseAddr);
  }

  /** A request; `i` is the step it takes, with the verdict the lookup gave. */
  method ServeRequest(ghost w: World, ghost s: State, host: SharedData, fleet: seq<Plugin>, vm: nat,
                      req: Request, t: Times, salt: Option<Bytes>)
    returns (x: HttpHeaders, reply: Option<seq<Header>>, ghost i: Input)
    requires Fleet(w, s, host, fleet) && Allowed(w, s, Ask(vm, req, t, salt, []))
    modifies fleet[vm], fleet[vm].mac, fleet[vm].macSumBuf
    ensures i.Ask? && i == Ask(vm, req, t, salt, i.verdict) && Allowed(w, s, i)
    ensures Fleet(w, Next(w, s, i), host, fleet)
    ensures x.plugin == fleet[vm] && x.State() == Next(w, s, i).exchanges[|s.log|]
    ensures reply == ReplyTo(w.mac, req, Next(w, s, i).log[|s.log|].outcome)
  {
    hide Decide, VmAfter, AfterRequest, ReplyTo, Unforged, AddressText;
    x := new HttpHeaders(fleet[vm]);
    ghost var verdict, outcome;
    reply, verdict, outcome := x.OnHttpRequestHeaders(req, t, salt);
    i := Ask(vm, req, t, salt, verdict);
  }

  /** What a client holds after the response to a request with this outcome. */
  function Held(w: World, o: Outcome, jar: Jar, token: Bytes, https: bool): Jar {
    if o.Solved? then SolvedJar(jar, token, https) else RenewedJar(jar, w.cfg, token, https)
  }

  /** A response: without a mint in the log only the configured header is added;
      with one the client is left with the clearance that the log records. */
  method ServeResponse(ghost w: World, ghost s: State, host: SharedData, ghost fleet: seq<Plugin>, ghost vm: nat,
                       ghost ctx: nat, x: HttpHeaders, m: MintInputs)
    returns (added: seq<Header>)
    requires IsMac(w.mac) && Inv(w, s) && Allowed(w, s, Answer(ctx, m)) && Fleet(w, s, host, fleet)
    requires vm < |fleet| && x.plugin == fleet[vm] && x.State() == s.exchanges[ctx]
    modifies x.plugin.mac, x.plugin.macSumBuf
    ensures Fleet(w, Next(w, s, Answer(ctx, m)), host, fleet)
    ensures var mints := Next(w, s, Answer(ctx, m)).log[|s.log|].mints;
            && |mints| <= 1
            && (mints == [] ==> added == ExtraHeaders(w.cfg))
            && (|mints| == 1 ==> forall jar ::
                  ReceiveAll(jar, added)
                  == ReceiveAll(Held(w, s.log[ctx].outcome, jar, Token(w.mac, MintBody(mints[0])), s.log[ctx].req.https), ExtraHeaders(w.cfg)))
  {
    hide AllJustified, Token, MintBody, ClearanceHeader, SolvedHeaders, ReceiveAll, SolvedJar, RenewedJar, ExtraHeaders;
    added := x.OnHttpResponseHeaders(m);
    assert Open(s, ctx);
    ghost var e := s.exchanges[ctx];
    assert [] + ExtraHeaders(w.cfg) == ExtraHeaders(w.cfg);
    forall jar: Jar
      ensures e.issueClearance && m.salt.Some? ==>
                ReceiveAll(jar, added)
                == ReceiveAll(SolvedJar(jar, Token(w.mac, MintBody(IssuedMints(e, m)[0])), e.secureCookie), ExtraHeaders(w.cfg))
      ensures e.renewClearance && m.renewSalt.Some? ==>
                ReceiveAll(jar, added)
                == ReceiveAll(RenewedJar(jar, w.cfg, Token(w.mac, MintBody(RenewedMints(e, m)[0])), e.secureCookie), ExtraHeaders(w.cfg))
    {
      if e.issueClearance && m.salt.Some? {
        IssuedIsHeld(jar, w.mac, w.cfg, e, m);
      } else if e.renewClearance && m.renewSalt.Some? {
        RenewedIsHeld(jar, w.mac, w.cfg, e, m);
      }
    }
  }

  /** A tick of one instance: the others stand as before, with the new shared value. */
  method ServeTick(ghost w: World, ghost s: State, host: SharedData, fleet: seq<Plugin>, vm: nat)
    requires Fleet(w, s, host, fleet) && vm < |fleet|
    modifies fleet[vm], host
    ensures Fleet(w, Next(w, s, Tick(vm)), host, fleet)
  {
    fleet[vm].OnTick();
  }

  /** Two difficulties resolved by one instance, with the shared data changed in
      between: the second is the first, once that came from the cache or from the
      shared data. */
  method ResolveTwice(p: Plugin, later: Bytes) returns (d: uint64, source: Source, d2: uint64, source2: Source)
    requires Ordered(p.cfg.bounds) && CachedInBounds(p.cfg.bounds, p.currentDiff)
    modifies p, p.shared
    ensures source == FromTick <==> old(p.currentDiff) > 0 || Override(old(p.shared.difficulty)).Some?
    ensures source == FromTick ==> d2 == d && source2 == FromTick && p.currentDiff == d
    ensures p.shared.difficulty == later && CachedInBounds(p.cfg.bounds, p.currentDiff)
  {
    hide Override;
    ghost var c, s := p.currentDiff, p.shared.difficulty;
    NoOverride();
    d, source := p.GetEffectiveDifficulty([]);
    p.shared.difficulty := later;
    ResolvedSticks(p.cfg.bounds, c, s, [], later);
    ResolvedSticks(p.cfg.bounds, p.currentDiff, later, [], later);
    d2, source2 := p.GetEffectiveDifficulty([]);
  }

  lemma NoOverride()
    ensures Override([]).None?
  {
  }
}
