/** Properties of a single frame: the purchase phase buys at most one item, namely the
    first clicked item the energy can pay for, and only once the debounce interval has
    passed; a frame as a whole regenerates first, buys second and moves last. */
module FrameProperties {
  import opened Geometry
  import opened Players
  import opened Economy
  import opened Game

  /** Reference choice of the purchase phase: `j` is the lowest clicked item at or
      after `lo` whose cost is strictly below energy `e`. */
  predicate FirstBuy(e: int, clicks: set<int>, lo: nat, j: int)
  {
    && lo <= j < ItemCount
    && j in clicks
    && ItemEnergies[j] < e
    && forall k :: lo <= k < j && k in clicks ==> e <= ItemEnergies[k]
  }

  /** While the debounce interval has not passed, no click buys anything. */
  lemma {:induction false} PurchaseIdle(s: State, clicks: set<int>, i: nat)
    requires i <= ItemCount
    requires s.clockMs <= DebounceMs
    ensures PurchaseFrom(s, clicks, i) == s
    decreases ItemCount - i
  {
    if i < ItemCount {
      PurchaseIdle(s, clicks, i + 1);
    }
  }

  /** An item that is clicked and affordable is the only first choice from its index on. */
  lemma FirstBuyAt(e: int, clicks: set<int>, lo: nat)
    requires lo < ItemCount && lo in clicks && ItemEnergies[lo] < e
    ensures forall j :: FirstBuy(e, clicks, lo, j) <==> j == lo
  {
  }

  /** An item that is not clicked, or not affordable, is skipped by the reference choice. */
  lemma FirstBuySkip(e: int, clicks: set<int>, lo: nat, next: nat)
    requires lo < ItemCount && next == lo + 1 && (lo !in clicks || e <= ItemEnergies[lo])
    ensures forall j :: FirstBuy(e, clicks, lo, j) <==> FirstBuy(e, clicks, next, j)
  {
  }

  /** Once the debounce interval has passed, the purchase phase from `lo` on buys exactly
      the first affordable clicked item, or nothing when there is none. */
  lemma {:induction false} PurchaseFromBuysFirst(s: State, clicks: set<int>, lo: nat)
    requires lo <= ItemCount
    requires DebounceMs < s.clockMs
    ensures forall j :: FirstBuy(s.energy, clicks, lo, j) ==> PurchaseFrom(s, clicks, lo) == Buy(s, j)
    ensures (forall j :: !FirstBuy(s.energy, clicks, lo, j)) ==> PurchaseFrom(s, clicks, lo) == s
    decreases ItemCount - lo
  {
    if lo < ItemCount {
      if lo in clicks && CanPurchase(s, lo) {
        assert PurchaseFrom(s, clicks, lo) == PurchaseFrom(Buy(s, lo), clicks, lo + 1);
        PurchaseIdle(Buy(s, lo), clicks, lo + 1);
        FirstBuyAt(s.energy, clicks, lo);
        assert FirstBuy(s.energy, clicks, lo, lo);
      } else {
        var next := lo + 1;
        assert PurchaseFrom(s, clicks, lo) == PurchaseFrom(s, clicks, next);
        PurchaseFromBuysFirst(s, clicks, next);
        FirstBuySkip(s.energy, clicks, lo, next);
      }
    }
  }

  /** Before the debounce interval has passed, or without an affordable clicked item,
      the whole purchase phase of a frame buys nothing. */
  lemma PurchasePhaseBuysNothing(s: State, clicks: set<int>)
    requires s.clockMs <= DebounceMs || forall j :: !FirstBuy(s.energy, clicks, 0, j)
    ensures PurchasePhase(s, clicks) == s
  {
    if s.clockMs <= DebounceMs {
      PurchaseIdle(s, clicks, 0);
    } else {
      PurchaseFromBuysFirst(s, clicks, 0);
    }
  }

  /** Once the debounce interval has passed, the whole purchase phase of a frame buys
      exactly the first affordable clicked item. */
  lemma PurchasePhaseBuysFirst(s: State, clicks: set<int>, j: int)
    requires DebounceMs < s.clockMs && FirstBuy(s.energy, clicks, 0, j)
    ensures PurchasePhase(s, clicks) == Buy(s, j)
  {
    PurchaseFromBuysFirst(s, clicks, 0);
  }

  /** However many items are clicked, a frame's purchase phase adds at most one unit. */
  lemma AtMostOnePurchase(s: State, clicks: set<int>)
    ensures |PurchasePhase(s, clicks).players| <= |s.players| + 1
  {
    if s.clockMs <= DebounceMs || forall j :: !FirstBuy(s.energy, clicks, 0, j) {
      PurchasePhaseBuysNothing(s, clicks);
    } else {
      var j :| FirstBuy(s.energy, clicks, 0, j);
      PurchasePhaseBuysFirst(s, clicks, j);
    }
  }

  /** A frame adds at most one unit to the list. */
  lemma StepAddsAtMostOne(s: State, clicks: set<int>, elapsedMs: nat)
    ensures |Step(s, clicks, elapsedMs).players| <= |s.players| + 1
  {
    AtMostOnePurchase(Tick(s, elapsedMs), clicks);
  }

  /** A frame before the debounce interval has passed, or without an affordable clicked
      item, buys nothing: the clock advances by `elapsedMs`, energy regenerates, and every
      unit moves. */
  lemma StepBuysNothing(s: State, clicks: set<int>, elapsedMs: nat)
    requires s.clockMs + elapsedMs <= DebounceMs || forall j :: !FirstBuy(Regen(s.energy), clicks, 0, j)
    ensures Step(s, clicks, elapsedMs) ==
      State(Regen(s.energy), s.clockMs + elapsedMs, MoveAll(s.players), s.score, s.deadCount)
  {
    PurchasePhaseBuysNothing(Tick(s, elapsedMs), clicks);
  }

  /** A frame in which the debounce interval has passed and item `j` is the first
      affordable clicked item: `j` is paid for out of the regenerated energy, the clock
      restarts, and the new unit is appended and moves with the others. */
  lemma StepBuysFirst(s: State, clicks: set<int>, elapsedMs: nat, j: int)
    requires DebounceMs < s.clockMs + elapsedMs
    requires FirstBuy(Regen(s.energy), clicks, 0, j)
    ensures Step(s, clicks, elapsedMs) ==
      State(Regen(s.energy) - ItemEnergies[j], 0, MoveAll(s.players) + [Update(Spawned(j))], s.score, s.deadCount)
  {
    var t := Tick(s, elapsedMs);
    PurchasePhaseBuysFirst(t, clicks, j);
    MoveAllAppend(s.players, [Spawned(j)]);
  }

  /** Regeneration comes before purchases: with energy exactly equal to an item's cost
      (below the cap), a lone click on it succeeds once the debounce interval has passed,
      because the frame's regenerated point is already counted. */
  lemma RegenBeforePurchase(s: State, i: nat, elapsedMs: nat)
    requires i < ItemCount
    requires s.energy == ItemEnergies[i]
    requires DebounceMs < s.clockMs + elapsedMs
    ensures Step(s, {i}, elapsedMs).energy == 1
    ensures Step(s, {i}, elapsedMs).players == MoveAll(s.players) + [Update(Spawned(i))]
  {
    StepBuysFirst(s, {i}, elapsedMs, i);
  }

  /** Both comparisons are strict: regenerated energy equal to the cost, or a stopwatch
      reading equal to the debounce interval, buys nothing. */
  lemma PurchaseGuardIsStrict(s: State, i: nat, elapsedMs: nat)
    requires i < ItemCount
    requires Regen(s.energy) == ItemEnergies[i] || s.clockMs + elapsedMs == DebounceMs
    ensures Step(s, {i}, elapsedMs).players == MoveAll(s.players)
    ensures Step(s, {i}, elapsedMs).energy == Regen(s.energy)
  {
    StepBuysNothing(s, {i}, elapsedMs);
  }

  /** A unit bought in a frame has already taken its first step when the frame ends:
      purchases come before movement. */
  lemma BoughtUnitMovesSameFrame(s: State, clicks: set<int>, elapsedMs: nat)
    requires |s.players| < |Step(s, clicks, elapsedMs).players|
    ensures var r := Step(s, clicks, elapsedMs);
      |r.players| == |s.players| + 1 &&
      exists j :: 0 <= j < ItemCount && r.players[|s.players|] == Player(ItemNames[j], 1.0, Vec2(-99.0, SpawnPos.y))
  {
    var e, clock := Regen(s.energy), s.clockMs + elapsedMs;
    if clock <= DebounceMs || forall j :: !FirstBuy(e, clicks, 0, j) {
      StepBuysNothing(s, clicks, elapsedMs);
      assert false;
    } else {
      var j :| FirstBuy(e, clicks, 0, j);
      StepBuysFirst(s, clicks, elapsedMs, j);
      assert Step(s, clicks, elapsedMs).players[|s.players|] == Update(Spawned(j));
    }
  }

  /** Two successful purchases are more than the debounce interval apart: after a frame
      that bought something, a next frame no longer than the interval buys nothing. */
  lemma PurchasesAreSpaced(s: State, c1: set<int>, d1: nat, c2: set<int>, d2: nat)
    requires |s.players| < |Step(s, c1, d1).players|
    requires d2 <= DebounceMs
    ensures var m := Step(s, c1, d1);
      Step(m, c2, d2) == m.(clockMs := d2, energy := Regen(m.energy), players := MoveAll(m.players))
  {
    var b := PurchasePhase(Tick(s, d1), c1);
    assert |b.players| > |s.players|;
    var m := Step(s, c1, d1);
    assert m.clockMs == 0;
    PurchaseIdle(Tick(m, d2), c2, 0);
  }
}
