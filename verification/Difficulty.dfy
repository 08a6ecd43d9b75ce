/** How hard a challenge is (main.go): the configured bounds, the pressure
    heuristic of `OnTick`, and the per-request resolution. `uint` is 64 bits wide. */
module Difficulty {
  import opened GoBytes
  import opened Tokens

  /** `minDifficulty`, `baseDifficulty`, `maxDifficulty`. */
  datatype Bounds = Bounds(min: uint64, base: uint64, max: uint64)

  predicate Ordered(b: Bounds) { 1 <= b.min <= b.base <= b.max }

  // ------------------------------------------------------------ configuration

  /** The floor that a configured `min_difficulty` stands for. */
  function Floor(rawMin: uint64): uint64 { if rawMin < 1 then 12 else rawMin }

  /** The normalisation in `OnPluginStart`. */
  method ConfiguredBounds(rawBase: uint64, rawMin: uint64, rawMax: uint64) returns (b: Bounds)
    ensures Ordered(b) <==> Floor(rawMin) <= 26 || rawMax >= Floor(rawMin)
    ensures b.min == (if rawMin == 0 then 12 else rawMin) && b.base <= b.max
    ensures b.max == if rawMax >= Floor(rawMin) then rawMax else 26
    ensures Ordered(b) ==> b.base == Clamp(if rawBase == 0 then 18 else rawBase, b.min, b.max)
  {
    var base, min, max := rawBase, rawMin, rawMax;
    if base < 1 {
      base := DEFAULT_DIFFICULTY;
    }
    if min < 1 {
      min := 12;
    }
    if max < 1 || max < min {
      max := 26;
    }
    if base < min {
      base := min;
    }
    if base > max {
      base := max;
    }
    b := Bounds(min, base, max);
  }

  /** `clampDifficulty`; with `lo > hi` the result is one of the two. */
  function Clamp(d: uint64, lo: uint64, hi: uint64): (c: uint64)
    ensures lo <= hi ==> lo <= c <= hi && (lo <= d <= hi ==> c == d)
    ensures c == d || c == lo || c == hi
  {
    if d < lo then lo else if d > hi then hi else d
  }

  // ---------------------------------------------------------------- pressure

  function Bump(recent: nat): nat {
    if recent >= 800 then 6
    else if recent >= 400 then 4
    else if recent >= 180 then 3
    else if recent >= 80 then 2
    else if recent >= 35 then 1
    else 0
  }

  function TickDifficulty(b: Bounds, recent: nat): uint64 { Clamp((b.base + Bump(recent)) % U64, b.min, b.max) }

  /** The range of the values that ticks set and publish. */
  predicate Dynamic(b: Bounds, d: nat) { b.base <= d <= b.base + 6 && d <= b.max }

  /** No wrap-around, or none that shows. */
  predicate RoomForBumps(b: Bounds) { b.base + 6 < U64 || b.base == b.min }

  /** Ticks stay between the base and six above it, for every load, exactly when
      six above the base is still a `uint` (or the base is the minimum). */
  lemma TickRange(b: Bounds)
    requires Ordered(b)
    ensures (forall recent :: Dynamic(b, TickDifficulty(b, recent))) <==> RoomForBumps(b)
  {
    if RoomForBumps(b) {
      forall recent
        ensures Dynamic(b, TickDifficulty(b, recent))
      {
        WrapStays(b, Bump(recent));
      }
    } else {
      WrapStays(b, 6);
      assert Bump(800) == 6;
      assert !Dynamic(b, TickDifficulty(b, 800));
    }
  }

  lemma WrapStays(b: Bounds, k: nat)
    requires Ordered(b) && k <= 6
    ensures RoomForBumps(b) ==> Dynamic(b, Clamp((b.base + k) % U64, b.min, b.max))
    ensures (b.base + k) % U64 == if b.base + k < U64 then b.base + k else b.base + k - U64
  {
  }

  /** More challenges never make the next ones easier, unless the sum wraps
      around and there is room between the bounds to see it. */
  lemma TickMonotone(b: Bounds)
    requires Ordered(b)
    ensures (forall r, s :: r <= s ==> TickDifficulty(b, r) <= TickDifficulty(b, s)) <==> b.base + 6 < U64 || b.min == b.max
  {
    if b.base + 6 < U64 || b.min == b.max {
      forall r, s | r <= s
        ensures TickDifficulty(b, r) <= TickDifficulty(b, s)
      {
        BumpMonotone(r, s);
        TickGrows(b, Bump(r), Bump(s));
      }
    } else {
      hide TickDifficulty;
      WrapFalls(b);
      assert !(TickDifficulty(b, 0) <= TickDifficulty(b, 35) <= TickDifficulty(b, 800));
    }
  }

  lemma TickGrows(b: Bounds, j: nat, k: nat)
    requires Ordered(b) && j <= k <= 6 && (b.base + 6 < U64 || b.min == b.max)
    ensures Clamp((b.base + j) % U64, b.min, b.max) <= Clamp((b.base + k) % U64, b.min, b.max)
  {
    WrapStays(b, j);
    WrapStays(b, k);
  }

  /** A wrapped sum is below every bound's range: from a load of 0 or of 35 to
      one of 800 there is a drop. */
  lemma WrapFalls(b: Bounds)
    requires Ordered(b) && b.base + 6 >= U64 && b.min < b.max
    ensures TickDifficulty(b, 0) > TickDifficulty(b, 35) || TickDifficulty(b, 35) > TickDifficulty(b, 800)
            || TickDifficulty(b, 0) > TickDifficulty(b, 800)
  {
    WrapStays(b, 0);
    WrapStays(b, 1);
    WrapStays(b, 6);
    assert Bump(0) == 0 && Bump(35) == 1 && Bump(800) == 6;
  }

  /** The steps of the heuristic, for a base with room above it. */
  lemma PressureSteps(b: Bounds, recent: nat)
    requires Ordered(b) && b.base + 6 <= b.max
    ensures recent < 35 ==> TickDifficulty(b, recent) == b.base
    ensures 35 <= recent < 80 ==> TickDifficulty(b, recent) == b.base + 1
    ensures 80 <= recent < 180 ==> TickDifficulty(b, recent) == b.base + 2
    ensures 180 <= recent < 400 ==> TickDifficulty(b, recent) == b.base + 3
    ensures 400 <= recent < 800 ==> TickDifficulty(b, recent) == b.base + 4
    ensures recent >= 800 ==> TickDifficulty(b, recent) == b.base + 6
  {
  }

  lemma BumpMonotone(r: nat, s: nat)
    requires r <= s
    ensures Bump(r) <= Bump(s) <= 6
  {
  }

  // -------------------------------------------------------------- resolution

  datatype Source = FromHeader | FromTick | FromConfig

  datatype Resolved = Resolved(difficulty: uint64, source: Source, cached: uint64)

  /** The header's value when it is a positive 32-bit number. */
  function Override(header: Bytes): (r: Option<uint64>)
    ensures r.Some? ==> 0 < r.value < 0x1_0000_0000
  {
    var v := ParseUint(header, 0x1_0000_0000);
    if v.Some? && v.value > 0 then Some(v.value) else None
  }

  /** `getEffectiveDifficulty`; `cached` is the new `currentDiff`. */
  function Effective(b: Bounds, header: Bytes, currentDiff: uint64, shared: Bytes): Resolved {
    if Override(header).Some? then Resolved(Clamp(Override(header).value, b.min, b.max), FromHeader, currentDiff)
    else if currentDiff > 0 then Resolved(Clamp(currentDiff, b.min, b.max), FromTick, currentDiff)
    else if Override(shared).Some? then
      var d := Clamp(Override(shared).value, b.min, b.max);
      Resolved(d, FromTick, d)
    else Resolved(Clamp(b.base, b.min, b.max), FromConfig, currentDiff)
  }

  /** `currentDiff` and the shared value as ticks leave them. */
  predicate DynamicState(b: Bounds, currentDiff: uint64, shared: Bytes) {
    (currentDiff == 0 || Dynamic(b, currentDiff)) && (Override(shared).None? || Dynamic(b, Override(shared).value))
  }

  /** Whatever the header says the difficulty is in bounds; without a valid
      header it is within six of the base; and the cache stays as ticks leave it. */
  lemma EffectiveBounds(b: Bounds, header: Bytes, currentDiff: uint64, shared: Bytes)
    requires Ordered(b) && DynamicState(b, currentDiff, shared)
    ensures var r := Effective(b, header, currentDiff, shared);
            && b.min <= r.difficulty <= b.max
            && (Override(header).None? ==> Dynamic(b, r.difficulty))
            && DynamicState(b, r.cached, shared)
  {
    hide ParseUint, Override;
  }

  /** The cached value is one that needs no clamping, or none. */
  predicate CachedInBounds(b: Bounds, currentDiff: uint64) { currentDiff == 0 || b.min <= currentDiff <= b.max }

  /** A dynamic difficulty sticks: once an instance has resolved one from its cache
      or from the shared data it gives the same, whatever the shared data becomes. */
  lemma ResolvedSticks(b: Bounds, currentDiff: uint64, shared: Bytes, header: Bytes, later: Bytes)
    requires Ordered(b) && CachedInBounds(b, currentDiff) && Override(header).None?
    ensures var r := Effective(b, [], currentDiff, shared);
            && CachedInBounds(b, r.cached)
            && (r.source == FromTick <==> currentDiff > 0 || Override(shared).Some?)
            && (r.source == FromTick ==> r.cached == r.difficulty > 0
                                         && Effective(b, header, r.cached, later) == Resolved(r.difficulty, FromTick, r.difficulty))
            && (r.source != FromTick ==> r.source == FromConfig && r.difficulty == b.base && r.cached == 0)
  {
    assert Override([]).None?;
  }

  /** What a tick publishes reads back as that number, when it fits 32 bits. */
  lemma PublishedReadsBack(d: nat)
    ensures Override(Decimal(d)) == if 0 < d < 0x1_0000_0000 then Some(d) else None
  {
    DecimalValue(d);
  }

  /** The difficulty for a client that ipintel singles out. */
  function Elevated(target: uint64, difficulty: uint64, max: uint64): uint64 {
    if target > 0 then Clamp(target, difficulty, max) else difficulty
  }

  /** A target lowers the difficulty only from above the maximum, which unordered
      bounds allow, and only to the maximum. In bounds it never does. */
  lemma TargetNeverLowers(target: uint64, difficulty: uint64, max: uint64)
    ensures Elevated(target, difficulty, max) < difficulty <==> target > 0 && difficulty > max && target >= difficulty
    ensures Elevated(target, difficulty, max) < difficulty ==> Elevated(target, difficulty, max) == max
    ensures difficulty <= max ==> Elevated(target, difficulty, max) <= max
    ensures difficulty < target ==> Elevated(target, difficulty, max) == if target < max then target else max
  {
  }

  /** The clamp that the documentation describes, to the base and the maximum, is
      the one the code makes exactly when the resolved difficulty is the base or
      the target reaches both. */
  lemma DocumentedTarget(target: uint64, difficulty: uint64, base: uint64, max: uint64)
    requires target > 0 && difficulty <= max && base <= max
    ensures Elevated(target, difficulty, max) == Clamp(target, base, max)
            <==> difficulty == base || (target >= difficulty && target >= base)
  {
  }

  /** An override of 12 under a base of 18: a target of 15 gives 15, not 18. */
  lemma DocumentedTargetFails()
    ensures var b := Bounds(12, 18, 26);
            var d := Effective(b, Ascii("12"), 0, []).difficulty;
            d == 12 && Elevated(15, d, b.max) == 15 && Clamp(15, b.base, b.max) == 18
  {
    assert Decimal(1) == [49] && Decimal(12) == Decimal(1) + [50] == Ascii("12");
    ParseDecimal(12, 0x1_0000_0000);
  }
}
