/** Selective protection (protected.go): raw rules are compiled to flat matchers,
    and the matchers keep the meaning of the raw rules. Hosts and paths are
    ASCII text; configuration values are already-parsed JSON. */
module Protected {
  import opened GoBytes
  import opened Json

  const STAR: byte := '*' as int
  const DOT: byte := '.' as int
  const QUESTION: byte := '?' as int
  const LEFT: byte := '[' as int
  const RIGHT: byte := ']' as int
  const WILDCARD: Bytes := [STAR, DOT]
  const HOSTS := Ascii("hosts")
  const PATHS := Ascii("paths")

  /** The first field of that name; None when there is none, or no object. */
  function Get(j: Value, key: Bytes): Option<Value> {
    if j.Object? then FirstField(j.fields, key) else None
  }

  function FirstField(fields: seq<(Bytes, Value)>, key: Bytes): Option<Value> {
    if |fields| == 0 then None
    else if fields[0].0 == key then Some(fields[0].1)
    else FirstField(fields[1..], key)
  }

  // ------------------------------------------------------------------ text

  /** Last position of `c`, or -1. */
  function LastIndexByte(s: Bytes, c: byte): (r: int)
    ensures -1 <= r < |s|
    ensures r >= 0 ==> s[r] == c
    ensures forall i :: r < i < |s| ==> s[i] != c
  {
    if |s| == 0 then -1
    else if s[|s| - 1] == c then |s| - 1
    else
      var r := LastIndexByte(s[..|s| - 1], c);
      assert forall i :: 0 <= i < |s| - 1 ==> s[i] == s[..|s| - 1][i];
      r
  }

  predicate HasSuffix(s: Bytes, suffix: Bytes) {
    |suffix| <= |s| && s[|s| - |suffix|..] == suffix
  }

  // ----------------------------------------------------- normalizeAuthority

  /** A colon past the start, no colon before it, only digits after it. */
  predicate PortAt(a: Bytes, i: int) {
    0 < i < |a| && a[i] == COLON && IndexByte(a[..i], COLON) < 0 && AllDigits(a[i + 1..])
  }

  function NormalAuthority(a: Bytes): Bytes {
    if [LEFT] <= a then
      var i := IndexByte(a, RIGHT);
      Lower(if i >= 0 then a[1..i] else a)
    else
      var i := LastIndexByte(a, COLON);
      Lower(if PortAt(a, i) then a[..i] else a)
  }

  method NormalizeAuthority(a: Bytes) returns (r: Bytes)
    ensures r == NormalAuthority(a)
  {
    if [LEFT] <= a {
      var i := IndexByte(a, RIGHT);
      if i >= 0 {
        return Lower(a[1..i]);
      }
      return Lower(a);
    }
    var i := LastIndexByte(a, COLON);
    if i > 0 {
      var rest := a[i + 1..];
      var digits := true;
      var j := 0;
      while j < |rest|
        invariant 0 <= j <= |rest| && digits && AllDigits(rest[..j])
      {
        if !IsDigit(rest[j]) {
          digits := false;
          break;
        }
        j := j + 1;
      }
      assert digits ==> rest[..j] == rest;
      if digits && IndexByte(a[..i], COLON) < 0 {
        return Lower(a[..i]);
      }
    }
    return Lower(a);
  }

  /** Lower-casing moves no delimiter and no digit. */
  lemma LowerKeeps(a: Bytes, c: byte)
    requires !('A' as int <= c <= 'Z' as int) && !('a' as int <= c <= 'z' as int)
    ensures IndexByte(Lower(a), c) == IndexByte(a, c) && LastIndexByte(Lower(a), c) == LastIndexByte(a, c)
    ensures AllDigits(Lower(a)) <==> AllDigits(a)
  {
    hide IndexByte, LastIndexByte;
    var b := Lower(a);
    assert forall i :: 0 <= i < |a| ==> (b[i] == c <==> a[i] == c);
    assert forall i :: 0 <= i < |a| ==> (IsDigit(b[i]) <==> IsDigit(a[i]));
    assert AllDigits(b) ==> AllDigits(a) by {
      assert AllDigits(b) ==> forall i :: 0 <= i < |a| ==> IsDigit(b[i]);
    }
  }

  /** Letter case never matters. */
  lemma CaseDoesNotMatter(a: Bytes)
    ensures NormalAuthority(Lower(a)) == NormalAuthority(a)
  {
    hide IndexByte, LastIndexByte, AllDigits;
    var b := Lower(a);
    assert a != [] ==> b[0] == LowerByte(a[0]);
    assert [LEFT] <= b <==> [LEFT] <= a;
    LowerTwice(a);
    if [LEFT] <= a {
      LowerKeeps(a, RIGHT);
      var i := IndexByte(a, RIGHT);
      if i >= 0 {
        assert b[1..i] == Lower(a[1..i]);
        LowerTwice(a[1..i]);
      }
    } else {
      LowerKeeps(a, COLON);
      var i := LastIndexByte(a, COLON);
      SamePort(a, i);
      if i >= 0 {
        assert b[..i] == Lower(a[..i]);
        LowerTwice(a[..i]);
      }
    }
  }

  lemma SamePort(a: Bytes, i: int)
    ensures PortAt(Lower(a), i) <==> PortAt(a, i)
  {
    hide IndexByte, AllDigits;
    var b := Lower(a);
    if 0 < i < |a| {
      assert b[..i] == Lower(a[..i]) && b[i + 1..] == Lower(a[i + 1..]);
      LowerKeeps(a[..i], COLON);
      LowerKeeps(a[i + 1..], COLON);
    }
  }

  lemma LowerTwice(s: Bytes)
    ensures Lower(Lower(s)) == Lower(s)
  {
  }

  /** Hosts of section 3.2.2 of RFC 3986: a registered name (or dotted address),
      or a bracketed literal. */
  datatype Host = RegName(name: Bytes) | Literal(inner: Bytes)

  predicate WellFormedHost(h: Host) {
    match h
    case RegName(n) => Plain(n) && forall i :: 0 <= i < |n| ==> n[i] != COLON
    case Literal(n) => Plain(n)
  }

  predicate Plain(s: Bytes) { forall i :: 0 <= i < |s| ==> s[i] != LEFT && s[i] != RIGHT }

  function HostText(h: Host): Bytes {
    if h.RegName? then h.name else [LEFT] + h.inner + [RIGHT]
  }

  function Bare(h: Host): Bytes { if h.RegName? then h.name else h.inner }

  /** An authority without userinfo: host, and a port when present. */
  function AuthorityText(h: Host, port: Option<Bytes>): Bytes {
    HostText(h) + if port.Some? then [COLON] + port.value else []
  }

  lemma NormalOfLiteral(inner: Bytes, rest: Bytes)
    requires Plain(inner)
    ensures NormalAuthority([LEFT] + inner + [RIGHT] + rest) == Lower(inner)
  {
    hide IndexByte, LastIndexByte, Lower, PortAt;
    var a := [LEFT] + inner + [RIGHT] + rest;
    var n := |inner| + 1;
    assert a[0] == LEFT && a[n] == RIGHT && a[1..n] == inner;
    assert forall i :: 1 <= i < n ==> a[i] == inner[i - 1];
    assert IndexByte(a, RIGHT) == n;
  }

  lemma NormalOfName(name: Bytes, port: Option<Bytes>)
    requires WellFormedHost(RegName(name)) && (port.Some? ==> AllDigits(port.value))
    ensures NormalAuthority(AuthorityText(RegName(name), port)) == Lower(name) <==> name != [] || port.None?
  {
    hide IndexByte, LastIndexByte, Lower, AllDigits;
    var a := AuthorityText(RegName(name), port);
    assert a[..|name|] == name;
    assert |a| > 0 ==> a[0] == (if name == [] then COLON else name[0]);
    assert !([LEFT] <= a);
    if port.None? {
      assert a == name;
      NoColonNoPort(name);
    } else {
      var i := |name|;
      assert a[i] == COLON && a[i + 1..] == port.value;
      PortColon(name, port.value);
      assert |Lower(a)| == |a| && |Lower(name)| == |name|;
    }
  }

  lemma NoColonNoPort(name: Bytes)
    requires forall i :: 0 <= i < |name| ==> name[i] != COLON
    ensures !PortAt(name, LastIndexByte(name, COLON))
  {
    hide IndexByte, LastIndexByte;
  }

  lemma PortColon(name: Bytes, port: Bytes)
    requires (forall i :: 0 <= i < |name| ==> name[i] != COLON) && AllDigits(port)
    ensures LastIndexByte(name + ([COLON] + port), COLON) == |name|
    ensures PortAt(name + ([COLON] + port), |name|) <==> name != []
  {
    hide IndexByte, LastIndexByte, AllDigits;
    var a, i := name + ([COLON] + port), |name|;
    assert a[i] == COLON && a[..i] == name && a[i + 1..] == port;
    DigitsHaveNoColon(port);
    assert forall k :: i < k < |a| ==> a[k] == port[k - i - 1];
  }

  lemma DigitsHaveNoColon(s: Bytes)
    requires AllDigits(s)
    ensures forall i :: 0 <= i < |s| ==> s[i] != COLON
  {
  }

  /** A decimal port is dropped: the result is the bare host in lower case. The
      one exception is a port after an empty name, which stays. */
  lemma NormalOfWellFormed(h: Host, port: Option<Bytes>)
    requires WellFormedHost(h) && (port.Some? ==> AllDigits(port.value))
    ensures NormalAuthority(AuthorityText(h, port)) == Lower(Bare(h)) <==> h != RegName([]) || port.None?
  {
    hide NormalAuthority, Lower, AllDigits;
    if h.Literal? {
      NormalOfLiteral(h.inner, if port.Some? then [COLON] + port.value else []);
    } else {
      NormalOfName(h.name, port);
    }
  }

  /** Normalising twice. A bracketed literal that itself reads as `x:digits`
      (an IPvFuture literal can; an IPv6 literal has at least two colons) loses
      that ending the second time; every other well-formed host is stable. */
  lemma NormalTwice(h: Host, port: Option<Bytes>)
    requires WellFormedHost(h) && (port.Some? ==> AllDigits(port.value))
    ensures var n := NormalAuthority(AuthorityText(h, port));
            NormalAuthority(n) == n <==> !(exists i :: 0 <= i < |Bare(h)| && PortAt(Bare(h), i))
  {
    hide NormalAuthority, AuthorityText, Lower, PortAt;
    var b := Bare(h);
    NormalOfWellFormed(h, port);
    if h == RegName([]) && port.Some? {
      NormalOfEmptyName(port.value);
    } else {
      CaseDoesNotMatter(b);
      NormalOfBare(b);
    }
  }

  /** A port after an empty name is all that is left, and it stays. */
  lemma NormalOfEmptyName(port: Bytes)
    requires AllDigits(port)
    ensures AuthorityText(RegName([]), Some(port)) == [COLON] + port
    ensures NormalAuthority([COLON] + port) == [COLON] + port
  {
    hide IndexByte, LastIndexByte;
    var a := [COLON] + port;
    DigitsHaveNoColon(port);
    assert forall i :: 1 <= i < |a| ==> a[i] == port[i - 1];
    assert a[0] == COLON;
    assert LastIndexByte(a, COLON) == 0;
    assert forall i :: 0 <= i < |port| ==> IsDigit(port[i]);
    assert Lower(a) == a;
  }

  lemma NormalOfBare(b: Bytes)
    requires Plain(b)
    ensures NormalAuthority(b) == Lower(b) <==> !(exists i :: 0 <= i < |b| && PortAt(b, i))
  {
    hide IndexByte, LastIndexByte, Lower;
    assert |b| > 0 ==> b[0] != LEFT;
    assert !([LEFT] <= b);
    var i := LastIndexByte(b, COLON);
    forall k | 0 <= k < |b| && PortAt(b, k)
      ensures k == i
    {
      assert forall j :: k < j < |b| ==> b[j] == b[k + 1..][j - k - 1];
    }
    assert |Lower(b)| == |b| && (i >= 0 ==> |Lower(b[..i])| == i);
  }

  lemma IPv6LiteralIsStable(b: Bytes, i: nat, j: nat)
    requires i < j < |b| && b[i] == b[j] == COLON
    ensures forall k :: 0 <= k < |b| ==> !PortAt(b, k)
  {
    forall k | 0 <= k < |b|
      ensures !PortAt(b, k)
    {
      if i < k {
        assert b[..k][i] == COLON;
      } else {
        assert b[k + 1..][j - k - 1] == COLON;
      }
    }
  }

  /** A literal of the form that is not stable. */
  lemma IPvFutureIsNotStable()
    ensures var n := NormalAuthority(Ascii("[v1.x:8]")); NormalAuthority(n) != n
  {
    var inner := Ascii("v1.x:8");
    hide IndexByte, LastIndexByte, Lower, NormalAuthority;
    assert PortAt(inner, 4) by {
      assert inner[..4] == Ascii("v1.x") && inner[5..] == Ascii("8");
    }
    assert PortAt(Bare(Literal(inner)), 4);
    assert AuthorityText(Literal(inner), None) == Ascii("[v1.x:8]");
    NormalTwice(Literal(inner), None);
  }

  // ------------------------------------------------------------ host entries

  datatype ProtectedHost = ProtectedHost(exact: Bytes, dotSuffix: Bytes)

  predicate HostMatches(h: ProtectedHost, host: Bytes) {
    if h.dotSuffix == [] then host == h.exact
    else
      |host| > |h.dotSuffix| && HasSuffix(host, h.dotSuffix)
      && IndexByte(host[..|host| - |h.dotSuffix|], DOT) < 0
  }

  /** `compileProtectedHost`, and the entry stored for its result. */
  function CompileHost(h: Bytes): Option<ProtectedHost> {
    if h == [] then None
    else if WILDCARD <= h then
      var suffix := Lower(h[2..]);
      if suffix == [] || IndexByte(suffix, STAR) >= 0 then None else Some(ProtectedHost([], [DOT] + suffix))
    else if IndexByte(h, STAR) >= 0 then None
    else Some(ProtectedHost(Lower(h), []))
  }

  /** `strings.Split(s, [DOT])`. */
  function Labels(s: Bytes): (l: seq<Bytes>)
    ensures |l| > 0
  {
    var i := IndexByte(s, DOT);
    if i < 0 then [s] else [s[..i]] + Labels(s[i + 1..])
  }

  function Join(l: seq<Bytes>): Bytes
    requires |l| > 0
  {
    if |l| == 1 then l[0] else l[0] + [DOT] + Join(l[1..])
  }

  lemma {:induction false} JoinLabels(s: Bytes)
    ensures Join(Labels(s)) == s
  {
    hide IndexByte;
    var i := IndexByte(s, DOT);
    if i >= 0 {
      JoinLabels(s[i + 1..]);
      assert Labels(s)[1..] == Labels(s[i + 1..]);
      assert s == s[..i] + [DOT] + s[i + 1..];
    }
  }

  lemma LabelsOf(first: Bytes, suffix: Bytes)
    requires IndexByte(first, DOT) < 0
    ensures Labels(first + [DOT] + suffix) == [first] + Labels(suffix)
  {
    hide IndexByte;
    var s := first + [DOT] + suffix;
    assert s[|first|] == DOT && forall i :: 0 <= i < |first| ==> s[i] == first[i];
    assert IndexByte(s, DOT) == |first|;
    assert s[..|first|] == first && s[|first| + 1..] == suffix;
  }

  /** What an entry means, in labels: a wildcard stands for exactly one
      non-empty first in front of the labels of the suffix. */
  ghost predicate PatternMatches(pattern: Bytes, host: Bytes) {
    if WILDCARD <= pattern then
      exists first :: first != [] && Labels(host) == [first] + Labels(Lower(pattern[2..]))
    else host == Lower(pattern)
  }

  lemma LabelsInjective(s: Bytes, t: Bytes)
    requires Labels(s) == Labels(t)
    ensures s == t
  {
    JoinLabels(s);
    JoinLabels(t);
  }

  /** A host with one label in front of a suffix is that label, a dot, the suffix. */
  lemma FrontLabel(first: Bytes, suffix: Bytes, host: Bytes)
    requires Labels(host) == [first] + Labels(suffix)
    ensures host == first + [DOT] + suffix && IndexByte(first, DOT) < 0
  {
    hide IndexByte;
    var i := IndexByte(host, DOT);
    assert |Labels(host)| >= 2;
    assert Labels(host)[0] == first == host[..i];
    assert Labels(host)[1..] == Labels(suffix) && Labels(host)[1..] == Labels(host[i + 1..]);
    LabelsInjective(suffix, host[i + 1..]);
  }

  lemma WildcardInLabels(suffix: Bytes, host: Bytes)
    requires suffix != []
    ensures HostMatches(ProtectedHost([], [DOT] + suffix), host)
            <==> exists first :: first != [] && Labels(host) == [first] + Labels(suffix)
  {
    hide IndexByte, Labels;
    var n := |host| - |suffix| - 1;
    if HostMatches(ProtectedHost([], [DOT] + suffix), host) {
      var first := host[..n];
      LabelsOf(first, suffix);
      assert host == first + [DOT] + suffix;
    }
    if exists first :: first != [] && Labels(host) == [first] + Labels(suffix) {
      var first :| first != [] && Labels(host) == [first] + Labels(suffix);
      FrontLabel(first, suffix, host);
      assert host[..n] == first && host[n..] == [DOT] + suffix;
    }
  }

  /** Compiling an entry keeps its meaning. */
  lemma CompiledHostMeaning(pattern: Bytes, host: Bytes)
    requires CompileHost(pattern).Some?
    ensures HostMatches(CompileHost(pattern).value, host) <==> PatternMatches(pattern, host)
  {
    if WILDCARD <= pattern {
      WildcardInLabels(Lower(pattern[2..]), host);
    }
  }

  /** The entries refused: the empty one, a wildcard without a suffix, and those
      with an asterisk elsewhere than in one leading `*.`. */
  lemma RefusedHosts(h: Bytes)
    ensures CompileHost(h).None?
            <==> h == [] || h == WILDCARD || exists i :: (if WILDCARD <= h then 2 else 0) <= i < |h| && h[i] == STAR
  {
    if WILDCARD <= h {
      var rest := h[2..];
      var suffix := Lower(rest);
      assert |suffix| == |h| - 2;
      assert forall k :: 0 <= k < |suffix| ==> (suffix[k] == STAR <==> h[k + 2] == STAR);
      if CompileHost(h).Some? {
        assert h != WILDCARD;
        forall i | 2 <= i < |h|
          ensures h[i] != STAR
        {
          assert suffix[i - 2] != STAR;
        }
      } else if h != WILDCARD {
        var k := IndexByte(suffix, STAR);
        assert suffix[k] == STAR && h[k + 2] == STAR;
      }
    }
  }

  // ------------------------------------------------------------------ rules

  datatype ProtectedRule = ProtectedRule(anyHost: bool, anyPath: bool, hosts: seq<ProtectedHost>, paths: seq<Bytes>)

  ghost predicate RuleMatches(r: ProtectedRule, host: Bytes, path: Bytes) {
    && (r.anyHost || exists i :: 0 <= i < |r.hosts| && HostMatches(r.hosts[i], host))
    && (r.anyPath || exists i :: 0 <= i < |r.paths| && r.paths[i] <= path)
  }

  method MatchRule(r: ProtectedRule, host: Bytes, path: Bytes) returns (m: bool)
    ensures m <==> RuleMatches(r, host, path)
  {
    if !r.anyHost {
      var hit := false;
      for i := 0 to |r.hosts|
        invariant !hit && forall k :: 0 <= k < i ==> !HostMatches(r.hosts[k], host)
      {
        if HostMatches(r.hosts[i], host) {
          hit := true;
          break;
        }
      }
      if !hit {
        return false;
      }
    }
    if !r.anyPath {
      var hit := false;
      for i := 0 to |r.paths|
        invariant !hit && forall k :: 0 <= k < i ==> !(r.paths[k] <= path)
      {
        if r.paths[i] <= path {
          hit := true;
          break;
        }
      }
      if !hit {
        return false;
      }
    }
    return true;
  }

  /** The path component: everything before the first question mark. */
  function StripQuery(path: Bytes): Bytes {
    var i := IndexByte(path, QUESTION);
    if i >= 0 then path[..i] else path
  }

  ghost predicate AnyRuleMatches(rules: seq<ProtectedRule>, authority: Bytes, path: Bytes) {
    exists i :: 0 <= i < |rules| && RuleMatches(rules[i], NormalAuthority(authority), StripQuery(path))
  }

  method MatchProtectedRules(rules: seq<ProtectedRule>, authority: Bytes, path: Bytes) returns (m: bool)
    ensures m <==> AnyRuleMatches(rules, authority, path)
  {
    var host := NormalizeAuthority(authority);
    var p := StripQuery(path);
    for i := 0 to |rules|
      invariant forall k :: 0 <= k < i ==> !RuleMatches(rules[k], host, p)
    {
      var hit := MatchRule(rules[i], host, p);
      if hit {
        return true;
      }
    }
    return false;
  }

  /** Neither letter case nor a query string changes the match. */
  lemma MatchingIgnoresCaseAndQuery(rules: seq<ProtectedRule>, authority: Bytes, path: Bytes, query: Bytes)
    requires IndexByte(path, QUESTION) < 0
    ensures AnyRuleMatches(rules, Lower(authority), path + [QUESTION] + query) <==> AnyRuleMatches(rules, authority, path)
  {
    hide RuleMatches, NormalAuthority, Lower;
    CaseDoesNotMatter(authority);
    IndexByteAt(path, QUESTION, query);
    assert (path + [QUESTION] + query)[..|path|] == path;
  }

  /** Nor does a decimal port, for every list of rules, except after an empty name:
      that one is left in the normal form, and a rule can tell. */
  lemma MatchingIgnoresPort(h: Host, port: Option<Bytes>)
    requires WellFormedHost(h) && (port.Some? ==> AllDigits(port.value))
    ensures (forall rules, path :: AnyRuleMatches(rules, AuthorityText(h, port), path) <==> AnyRuleMatches(rules, HostText(h), path))
            <==> h != RegName([]) || port.None?
  {
    hide RuleMatches, NormalAuthority, Lower, AllDigits;
    assert HostText(h) + [] == HostText(h);
    NormalOfWellFormed(h, port);
    NormalOfWellFormed(h, None);
    if h == RegName([]) && port.Some? {
      NormalOfEmptyName(port.value);
      PortRuleTells(port.value);
    }
  }

  /** A rule for the left-over port. */
  lemma PortRuleTells(port: Bytes)
    requires AllDigits(port)
    ensures var rules := [ProtectedRule(false, true, [ProtectedHost([COLON] + port, [])], [])];
            AnyRuleMatches(rules, [COLON] + port, []) && !AnyRuleMatches(rules, [], [])
  {
    hide NormalAuthority;
    NormalOfEmptyName(port);
    NormalOfWellFormed(RegName([]), None);
    assert Lower([]) == [] && AuthorityText(RegName([]), None) == [];
    var r := ProtectedRule(false, true, [ProtectedHost([COLON] + port, [])], []);
    assert HostMatches(r.hosts[0], [COLON] + port);
    assert RuleMatches([r][0], [COLON] + port, []);
  }

  // ---------------------------------------------------------------- compiler

  datatype Reason =
    | NotAnObject
    | NeitherHostsNorPaths
    | HostsNotArray
    | NonStringHost
    | InvalidHost(host: Bytes)
    | PathsNotArray
    | NonStringPath
    | EmptyPath
    | NotAnArray
    | EveryRuleInvalid

  /** A line for the error log; `rule` is the one-based index, 0 for the whole list. */
  datatype Problem = Problem(rule: nat, reason: Reason)

  /** The list is missing or is the empty array. */
  predicate Unrestricted(j: Option<Value>) { j.None? || j.value == Array([]) }

  predicate ValidHosts(items: seq<Value>) {
    forall i :: 0 <= i < |items| ==> items[i].Text? && CompileHost(items[i].chars).Some?
  }

  predicate ValidPaths(items: seq<Value>) {
    forall i :: 0 <= i < |items| ==> items[i].Text? && items[i].chars != []
  }

  predicate ValidRule(entry: Value) {
    var hosts, paths := Get(entry, HOSTS), Get(entry, PATHS);
    && (hosts.Some? || paths.Some?)
    && (Unrestricted(hosts) || (hosts.value.Array? && ValidHosts(hosts.value.items)))
    && (Unrestricted(paths) || (paths.value.Array? && ValidPaths(paths.value.items)))
  }

  /** The compiled form of a valid rule, field by field. */
  predicate Compiled(entry: Value, r: ProtectedRule)
    requires ValidRule(entry)
  {
    var hosts, paths := Get(entry, HOSTS), Get(entry, PATHS);
    && r.anyHost == Unrestricted(hosts)
    && r.anyPath == Unrestricted(paths)
    && (!r.anyHost ==> |r.hosts| == |hosts.value.items|
                       && forall i :: 0 <= i < |r.hosts| ==> CompileHost(hosts.value.items[i].chars) == Some(r.hosts[i]))
    && (!r.anyPath ==> |r.paths| == |paths.value.items|
                       && forall i :: 0 <= i < |r.paths| ==> paths.value.items[i].chars == r.paths[i])
  }

  // ------------------------------------------------------- what is reported

  /** Entry `k` is the first wrong one in a list of hosts. */
  predicate BadHostAt(items: seq<Value>, k: nat, reason: Reason) {
    && k < |items| && ValidHosts(items[..k])
    && if items[k].Text? then CompileHost(items[k].chars).None? && reason == InvalidHost(items[k].chars) else reason == NonStringHost
  }

  predicate BadPathAt(items: seq<Value>, k: nat, reason: Reason) {
    && k < |items| && ValidPaths(items[..k])
    && if items[k].Text? then items[k].chars == [] && reason == EmptyPath else reason == NonStringPath
  }

  ghost predicate BadHost(items: seq<Value>, reason: Reason) { exists k: nat :: BadHostAt(items, k, reason) }

  ghost predicate BadPath(items: seq<Value>, reason: Reason) { exists k: nat :: BadPathAt(items, k, reason) }

  predicate HostsFine(hosts: Option<Value>) { Unrestricted(hosts) || (hosts.value.Array? && ValidHosts(hosts.value.items)) }

  /** `reason` is what is wrong with the entry: the first thing, hosts before paths. */
  ghost predicate Explains(entry: Value, reason: Reason) {
    var hosts, paths := Get(entry, HOSTS), Get(entry, PATHS);
    match reason
    case NotAnObject => !entry.Object?
    case NeitherHostsNorPaths => entry.Object? && hosts.None? && paths.None?
    case HostsNotArray => hosts.Some? && !hosts.value.Array?
    case NonStringHost => hosts.Some? && hosts.value.Array? && BadHost(hosts.value.items, reason)
    case InvalidHost(_) => hosts.Some? && hosts.value.Array? && BadHost(hosts.value.items, reason)
    case PathsNotArray => HostsFine(hosts) && paths.Some? && !paths.value.Array?
    case NonStringPath => HostsFine(hosts) && paths.Some? && paths.value.Array? && BadPath(paths.value.items, reason)
    case EmptyPath => HostsFine(hosts) && paths.Some? && paths.value.Array? && BadPath(paths.value.items, reason)
    case _ => false
  }

  lemma OneBadHost(items: seq<Value>, r: Reason, s: Reason)
    requires BadHost(items, r)
    ensures !ValidHosts(items) && (r.NonStringHost? || r.InvalidHost?) && (BadHost(items, s) ==> r == s)
  {
    hide CompileHost;
    var j: nat :| BadHostAt(items, j, r);
    if BadHost(items, s) {
      var k: nat :| BadHostAt(items, k, s);
    }
  }

  lemma OneBadPath(items: seq<Value>, r: Reason, s: Reason)
    requires BadPath(items, r)
    ensures !ValidPaths(items) && (r.NonStringPath? || r.EmptyPath?) && (BadPath(items, s) ==> r == s)
  {
    var j: nat :| BadPathAt(items, j, r);
    if BadPath(items, s) {
      var k: nat :| BadPathAt(items, k, s);
    }
  }

  /** An entry has one thing wrong with it to report, and none when it is valid. */
  lemma OneReason(entry: Value, r: Reason, s: Reason)
    requires Explains(entry, r)
    ensures !ValidRule(entry) && (Explains(entry, s) ==> r == s)
  {
    hide BadHost, BadPath, ValidHosts, ValidPaths, FirstField;
    var hosts, paths := Get(entry, HOSTS), Get(entry, PATHS);
    if paths.Some? && paths.value.Array? {
      NoItems(paths.value.items);
      if BadPath(paths.value.items, r) {
        OneBadPath(paths.value.items, r, s);
      }
    }
    if hosts.Some? && hosts.value.Array? {
      NoItems(hosts.value.items);
      if BadHost(hosts.value.items, r) {
        OneBadHost(hosts.value.items, r, s);
      } else if BadHost(hosts.value.items, s) {
        OneBadHost(hosts.value.items, s, r);
      }
    }
  }

  lemma NoItems(items: seq<Value>)
    ensures items == [] ==> ValidHosts(items) && ValidPaths(items)
  {
  }

  method CompileHosts(items: seq<Value>, index: nat) returns (hosts: seq<ProtectedHost>, probs: seq<Problem>)
    ensures probs == [] <==> ValidHosts(items)
    ensures probs != [] ==> |probs| == 1 && probs[0].rule == index && BadHost(items, probs[0].reason)
    ensures probs == [] ==> |hosts| == |items|
    ensures probs == [] ==> forall i :: 0 <= i < |items| ==> CompileHost(items[i].chars) == Some(hosts[i])
  {
    hide CompileHost;
    hosts, probs := [], [];
    for k := 0 to |items|
      invariant probs == [] && |hosts| == k
      invariant forall i :: 0 <= i < k ==> items[i].Text? && CompileHost(items[i].chars) == Some(hosts[i])
    {
      if !items[k].Text? {
        probs := [Problem(index, NonStringHost)];
        assert BadHostAt(items, k, NonStringHost);
        return;
      }
      var h := CompileHost(items[k].chars);
      if h.None? {
        probs := [Problem(index, InvalidHost(items[k].chars))];
        assert BadHostAt(items, k, InvalidHost(items[k].chars));
        return;
      }
      hosts := hosts + [h.value];
    }
  }

  method CompilePaths(items: seq<Value>, index: nat) returns (paths: seq<Bytes>, probs: seq<Problem>)
    ensures probs == [] <==> ValidPaths(items)
    ensures probs != [] ==> |probs| == 1 && probs[0].rule == index && BadPath(items, probs[0].reason)
    ensures probs == [] ==> |paths| == |items|
    ensures probs == [] ==> forall i :: 0 <= i < |items| ==> items[i].chars == paths[i]
  {
    paths, probs := [], [];
    for k := 0 to |items|
      invariant probs == [] && |paths| == k
      invariant forall i :: 0 <= i < k ==> items[i].Text? && items[i].chars == paths[i] && items[i].chars != []
    {
      if !items[k].Text? {
        probs := [Problem(index, NonStringPath)];
        assert BadPathAt(items, k, NonStringPath);
        return;
      }
      if items[k].chars == [] {
        probs := [Problem(index, EmptyPath)];
        assert BadPathAt(items, k, EmptyPath);
        return;
      }
      paths := paths + [items[k].chars];
    }
  }

  /** A valid rule compiles without a problem; an invalid one is dropped with one,
      and the reason given is the first thing wrong. */
  method CompileProtectedRule(entry: Value, index: nat) returns (rule: Option<ProtectedRule>, probs: seq<Problem>)
    ensures rule.Some? <==> ValidRule(entry)
    ensures rule.Some? ==> Compiled(entry, rule.value) && probs == []
    ensures rule.None? ==> |probs| == 1 && probs[0].rule == index && Explains(entry, probs[0].reason)
  {
    hide CompileHost, FirstField, BadHost, BadPath;
    if !entry.Object? {
      return None, [Problem(index, NotAnObject)];
    }
    var hostsJ, pathsJ := Get(entry, HOSTS), Get(entry, PATHS);
    if hostsJ.None? && pathsJ.None? {
      return None, [Problem(index, NeitherHostsNorPaths)];
    }
    var anyHost, hosts := true, [];
    if hostsJ.Some? && !(hostsJ.value.Array? && |hostsJ.value.items| == 0) {
      if !hostsJ.value.Array? {
        return None, [Problem(index, HostsNotArray)];
      }
      hosts, probs := CompileHosts(hostsJ.value.items, index);
      if probs != [] {
        OneBadHost(hostsJ.value.items, probs[0].reason, probs[0].reason);
        return None, probs;
      }
      anyHost := false;
    }
    var anyPath, paths := true, [];
    if pathsJ.Some? && !(pathsJ.value.Array? && |pathsJ.value.items| == 0) {
      if !pathsJ.value.Array? {
        return None, [Problem(index, PathsNotArray)];
      }
      paths, probs := CompilePaths(pathsJ.value.items, index);
      if probs != [] {
        OneBadPath(pathsJ.value.items, probs[0].reason, probs[0].reason);
        return None, probs;
      }
      anyPath := false;
    }
    return Some(ProtectedRule(anyHost, anyPath, hosts, paths)), [];
  }

  /** What a raw rule means: host and path, a missing or empty list being any. */
  ghost predicate RawRuleMatches(entry: Value, host: Bytes, path: Bytes)
    requires ValidRule(entry)
  {
    var hosts, paths := Get(entry, HOSTS), Get(entry, PATHS);
    && (Unrestricted(hosts) || exists i :: 0 <= i < |hosts.value.items| && PatternMatches(hosts.value.items[i].chars, host))
    && (Unrestricted(paths) || exists i :: 0 <= i < |paths.value.items| && paths.value.items[i].chars <= path)
  }

  lemma CompiledRuleMeaning(entry: Value, r: ProtectedRule, host: Bytes, path: Bytes)
    requires ValidRule(entry) && Compiled(entry, r)
    ensures RuleMatches(r, host, path) <==> RawRuleMatches(entry, host, path)
  {
    hide HostMatches, PatternMatches, CompileHost, FirstField;
    var hosts, paths := Get(entry, HOSTS), Get(entry, PATHS);
    if !r.anyHost {
      forall i | 0 <= i < |r.hosts|
        ensures HostMatches(r.hosts[i], host) <==> PatternMatches(hosts.value.items[i].chars, host)
      {
        CompiledHostMeaning(hosts.value.items[i].chars, host);
      }
    }
  }

  /** The valid entries, in order. */
  function ValidOf(entries: seq<Value>): (v: seq<Value>)
    ensures forall i :: 0 <= i < |v| ==> ValidRule(v[i]) && v[i] in entries
    ensures forall i :: 0 <= i < |entries| && ValidRule(entries[i]) ==> entries[i] in v
  {
    if |entries| == 0 then []
    else
      var front, last := entries[..|entries| - 1], entries[|entries| - 1];
      assert entries == front + [last];
      ValidOf(front) + if ValidRule(last) then [last] else []
  }

  /** `rules` are the entries `valid`, compiled one by one. */
  predicate RulesOf(valid: seq<Value>, rules: seq<ProtectedRule>) {
    |rules| == |valid| && forall i :: 0 <= i < |valid| ==> ValidRule(valid[i]) && Compiled(valid[i], rules[i])
  }

  /** Each problem names an entry that is not a valid rule, and says why. */
  ghost predicate NamesDropped(entries: seq<Value>, problems: seq<Problem>) {
    forall i :: 0 <= i < |problems| ==>
      && 1 <= problems[i].rule <= |entries|
      && !ValidRule(entries[problems[i].rule - 1]) && Explains(entries[problems[i].rule - 1], problems[i].reason)
  }

  /** The rules are the valid entries compiled, in order; protection is
      unselective exactly when no valid entry remains; and there is one problem
      for each entry dropped, plus one when all were. */
  method ParseProtectedConfig(top: Option<Value>)
    returns (rules: seq<ProtectedRule>, protectAll: bool, problems: seq<Problem>)
    ensures var valid := if top.Some? && top.value.Array? then ValidOf(top.value.items) else [];
            RulesOf(valid, rules) && (protectAll <==> valid == [])
    ensures top.None? || top.value == Array([]) ==> problems == []
    ensures top.Some? && !top.value.Array? ==> problems == [Problem(0, NotAnArray)]
    ensures top.Some? && top.value.Array? && top.value.items != [] ==>
              var dropped := |top.value.items| - |ValidOf(top.value.items)|;
              && |problems| == dropped + (if protectAll then 1 else 0)
              && NamesDropped(top.value.items, problems[..dropped])
  {
    hide ValidOf, Compiled, ValidRule, Explains;
    if top.None? {
      return [], true, [];
    }
    if !top.value.Array? {
      return [], true, [Problem(0, NotAnArray)];
    }
    rules, problems := CompileAll(top.value.items);
    if |top.value.items| == 0 {
      NoEntries();
      assert RulesOf([], []);
      return [], true, [];
    }
    if |rules| == 0 {
      return [], true, problems + [Problem(0, EveryRuleInvalid)];
    }
    assert problems[..|problems|] == problems;
    return rules, false, problems;
  }

  lemma NoEntries()
    ensures ValidOf([]) == []
  {
  }

  lemma ValidOfStep(entries: seq<Value>, e: Value)
    ensures ValidOf(entries + [e]) == ValidOf(entries) + if ValidRule(e) then [e] else []
  {
    hide ValidRule;
    assert (entries + [e])[..|entries|] == entries;
  }

  lemma RulesOfStep(valid: seq<Value>, rules: seq<ProtectedRule>, e: Value, r: ProtectedRule)
    requires RulesOf(valid, rules) && ValidRule(e) && Compiled(e, r)
    ensures RulesOf(valid + [e], rules + [r])
  {
    hide ValidRule, Compiled;
  }

  lemma NamesDroppedStep(entries: seq<Value>, problems: seq<Problem>, e: Value, p: Problem)
    requires NamesDropped(entries, problems) && !ValidRule(e) && p.rule == |entries| + 1 && Explains(e, p.reason)
    ensures NamesDropped(entries + [e], problems + [p])
  {
    hide ValidRule, Explains;
  }

  lemma NamesDroppedMore(entries: seq<Value>, problems: seq<Problem>, e: Value)
    requires NamesDropped(entries, problems)
    ensures NamesDropped(entries + [e], problems)
  {
    hide ValidRule, Explains;
  }

  /** The iteration over the entries. */
  method CompileAll(items: seq<Value>) returns (rules: seq<ProtectedRule>, problems: seq<Problem>)
    ensures RulesOf(ValidOf(items), rules)
    ensures |problems| == |items| - |rules| && NamesDropped(items, problems)
  {
    NoEntries();
    assert items[..0] == [];
    rules, problems := [], [];
    assert RulesOf([], rules) && NamesDropped([], problems);
    hide ValidRule, Compiled, ValidOf, RulesOf, NamesDropped, Explains;
    for seen := 0 to |items|
      invariant RulesOf(ValidOf(items[..seen]), rules)
      invariant |problems| == seen - |rules| && NamesDropped(items[..seen], problems)
    {
      ghost var front, e := items[..seen], items[seen];
      assert items[..seen + 1] == front + [e];
      ValidOfStep(front, e);
      var rule, probs := CompileProtectedRule(items[seen], seen + 1);
      if rule.Some? {
        RulesOfStep(ValidOf(front), rules, e, rule.value);
        NamesDroppedMore(front, problems, e);
        assert problems + probs == problems;
        rules := rules + [rule.value];
      } else {
        NamesDroppedStep(front, problems, e, probs[0]);
        assert probs == [probs[0]] && ValidOf(front) + [] == ValidOf(front);
      }
      problems := problems + probs;
    }
    assert items[..|items|] == items;
  }

  /** The parsed configuration keeps its meaning: the compiled rules match a
      request exactly when some valid raw rule does. */
  lemma ConfigMeaning(entries: seq<Value>, rules: seq<ProtectedRule>, authority: Bytes, path: Bytes)
    requires RulesOf(ValidOf(entries), rules)
    ensures AnyRuleMatches(rules, authority, path) <==>
            exists e :: e in entries && ValidRule(e)
                        && RawRuleMatches(e, NormalAuthority(authority), StripQuery(path))
  {
    hide RuleMatches, RawRuleMatches, Compiled, ValidRule, NormalAuthority, StripQuery;
    var valid, host, p := ValidOf(entries), NormalAuthority(authority), StripQuery(path);
    forall i | 0 <= i < |rules|
      ensures RuleMatches(rules[i], host, p) <==> RawRuleMatches(valid[i], host, p)
    {
      CompiledRuleMeaning(valid[i], rules[i], host, p);
    }
    if exists e :: e in entries && ValidRule(e) && RawRuleMatches(e, host, p) {
      var e :| e in entries && ValidRule(e) && RawRuleMatches(e, host, p);
      assert e in valid;
      var i :| 0 <= i < |valid| && valid[i] == e;
    }
  }

  // ----------------------------------------------------- the names, outright

  /** The raw rule `{"hosts": [h], "paths": [p]}`. */
  function RuleOf(h: Bytes, p: Bytes): Value {
    Object([(Ascii("hosts"), Array([Text(h)])), (Ascii("paths"), Array([Text(p)]))])
  }

  /** What it means. */
  lemma RuleShape(h: Bytes, p: Bytes, host: Bytes, path: Bytes)
    ensures ValidRule(RuleOf(h, p)) <==> CompileHost(h).Some? && p != []
    ensures ValidRule(RuleOf(h, p)) ==> (RawRuleMatches(RuleOf(h, p), host, path) <==> PatternMatches(h, host) && p <= path)
  {
    hide CompileHost, PatternMatches;
    RuleFields(h, p);
    hide Get;
    var hosts, paths := [Text(h)], [Text(p)];
    assert hosts[0].chars == h && paths[0].chars == p;
  }

  lemma RuleFields(h: Bytes, p: Bytes)
    ensures Get(RuleOf(h, p), HOSTS) == Some(Array([Text(h)])) && Get(RuleOf(h, p), PATHS) == Some(Array([Text(p)]))
  {
    NamesDiffer();
    hide Ascii;
    TwoFields((HOSTS, Array([Text(h)])), (PATHS, Array([Text(p)])));
  }

  lemma NamesDiffer()
    ensures HOSTS == Ascii("hosts") && PATHS == Ascii("paths") && HOSTS != PATHS
  {
    assert HOSTS[0] == 104 && PATHS[0] == 112;
  }

  /** A missing list and an empty one stand for any; a rule without either is not one. */
  lemma AbsentOrEmpty(p: Bytes, host: Bytes, path: Bytes)
    requires p != []
    ensures var paths := (Ascii("paths"), Array([Text(p)]));
            var bare, open := Object([paths]), Object([(Ascii("hosts"), Array([])), paths]);
            && ValidRule(bare) && (RawRuleMatches(bare, host, path) <==> p <= path)
            && ValidRule(open) && (RawRuleMatches(open, host, path) <==> p <= path)
    ensures !ValidRule(Object([])) && ValidRule(Object([(Ascii("hosts"), Array([]))]))
  {
    NamesDiffer();
    hide Ascii;
    var hosts: (Bytes, Value), paths: (Bytes, Value) := (HOSTS, Array([])), (PATHS, Array([Text(p)]));
    var texts := [Text(p)];
    assert texts[0].chars == p;
    OneField(hosts, PATHS);
    OneField(paths, HOSTS);
    TwoFields(hosts, paths);
    hide Get;
  }

  lemma OneField(f: (Bytes, Value), other: Bytes)
    requires f.0 != other
    ensures Get(Object([f]), f.0) == Some(f.1) && Get(Object([f]), other) == None && Get(Object([]), f.0) == None
  {
    assert [f][1..] == [] && FirstField([], other) == None;
  }

  lemma TwoFields(f: (Bytes, Value), g: (Bytes, Value))
    requires f.0 != g.0
    ensures Get(Object([f, g]), f.0) == Some(f.1) && Get(Object([f, g]), g.0) == Some(g.1)
  {
    OneField(g, f.0);
    assert [f, g][1..] == [g];
  }

  /** Of two fields with one name the first counts. */
  lemma FirstFieldCounts(key: Bytes, v: Value, w: Value)
    ensures Get(Object([(key, v), (key, w)]), key) == Some(v)
  {
  }

  /** The documented wildcard: one more label, neither none nor two. */
  lemma DocumentedWildcard()
    ensures var h := CompileHost(Ascii("*.sub.example.org"));
            && h.Some? && HostMatches(h.value, Ascii("a.sub.example.org"))
            && !HostMatches(h.value, Ascii("a.b.sub.example.org")) && !HostMatches(h.value, Ascii("sub.example.org"))
  {
    hide Lower, IndexByte, Ascii;
    WildcardText();
    var suffix := Ascii("sub.example.org");
    var h := ProtectedHost([], [DOT] + suffix);
    NoDot(Ascii("a"));
    OneDot(Ascii("a"), Ascii("b"));
    assert HasSuffix(Ascii("a") + ([DOT] + suffix), [DOT] + suffix) by {
      SuffixAtEnd(Ascii("a"), [DOT] + suffix);
    }
    SuffixAtEnd(Ascii("a") + [DOT] + Ascii("b"), [DOT] + suffix);
  }

  lemma SuffixAtEnd(a: Bytes, suffix: Bytes)
    ensures HasSuffix(a + suffix, suffix) && (a + suffix)[..|a + suffix| - |suffix|] == a
  {
    assert (a + suffix)[|a|..] == suffix && (a + suffix)[..|a|] == a;
  }

  lemma NoDot(s: Bytes)
    requires s == Ascii("a")
    ensures IndexByte(s, DOT) < 0
  {
    assert s == [97];
  }

  lemma OneDot(a: Bytes, b: Bytes)
    requires a == Ascii("a") && b == Ascii("b")
    ensures IndexByte(a + [DOT] + b, DOT) >= 0
  {
    assert (a + [DOT] + b)[1] == DOT;
  }

  lemma WildcardText()
    ensures var suffix := Ascii("sub.example.org");
            && |suffix| == 15 && |Ascii("a")| == 1 && |Ascii("b")| == 1
            && CompileHost(Ascii("*.sub.example.org")) == Some(ProtectedHost([], [DOT] + suffix))
            && Ascii("a.sub.example.org") == Ascii("a") + ([DOT] + suffix)
            && Ascii("a.b.sub.example.org") == Ascii("a") + [DOT] + Ascii("b") + ([DOT] + suffix)
  {
    WildcardCompiles();
    OneLabel();
    TwoLabels();
    hide Ascii, CompileHost;
  }

  lemma OneLabel()
    ensures Ascii("a.sub.example.org") == Ascii("a") + ([DOT] + Ascii("sub.example.org"))
  {
    hide Lower, CompileHost;
  }

  lemma TwoLabels()
    ensures Ascii("a.b.sub.example.org") == Ascii("a") + [DOT] + Ascii("b") + ([DOT] + Ascii("sub.example.org"))
  {
    hide Lower, CompileHost;
  }

  lemma WildcardCompiles()
    ensures CompileHost(Ascii("*.sub.example.org")) == Some(ProtectedHost([], [DOT] + Ascii("sub.example.org")))
  {
    StarText();
    SuffixText();
    hide Ascii, Lower, IndexByte;
  }

  lemma StarText()
    ensures var h := Ascii("*.sub.example.org"); |h| == 17 && WILDCARD <= h && h[2..] == Ascii("sub.example.org")
  {
    hide Lower, CompileHost;
  }

  lemma SuffixText()
    ensures var suffix := Ascii("sub.example.org"); |suffix| == 15 && Lower(suffix) == suffix && IndexByte(suffix, STAR) < 0
  {
    hide CompileHost, IndexByte;
    assert forall i :: 0 <= i < 15 ==> Ascii("sub.example.org")[i] != STAR;
  }

  /** The documented authorities. */
  lemma DocumentedAuthorities()
    ensures NormalAuthority(Ascii("Foo.Bar:8443")) == Ascii("foo.bar")
    ensures NormalAuthority(Ascii("[::1]:8443")) == Ascii("::1") && NormalAuthority(Ascii("::1")) == Ascii("::1")
  {
    hide NormalAuthority, Lower;
    AuthorityLiterals();
    NormalOfWellFormed(RegName(Ascii("Foo.Bar")), Some(Ascii("8443")));
    NormalOfWellFormed(Literal(Ascii("::1")), Some(Ascii("8443")));
    NormalOfBare(Ascii("::1"));
    IPv6LiteralIsStable(Ascii("::1"), 0, 1);
  }

  lemma AuthorityLiterals()
    ensures Ascii("Foo.Bar:8443") == AuthorityText(RegName(Ascii("Foo.Bar")), Some(Ascii("8443")))
    ensures Ascii("[::1]:8443") == AuthorityText(Literal(Ascii("::1")), Some(Ascii("8443")))
    ensures AllDigits(Ascii("8443")) && WellFormedHost(RegName(Ascii("Foo.Bar"))) && WellFormedHost(Literal(Ascii("::1")))
    ensures Lower(Ascii("Foo.Bar")) == Ascii("foo.bar") && Lower(Ascii("::1")) == Ascii("::1")
    ensures Ascii("::1")[0] == Ascii("::1")[1] == COLON && |Ascii("::1")| == 3
  {
  }
}
