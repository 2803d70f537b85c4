/** One frame of the game loop: regeneration, then purchases in item order, then the
    movement of every unit. The wall-clock stopwatch is modelled by `clockMs`, its
    reading in milliseconds since it was last (re)started. */
module Game {
  import opened Geometry
  import opened Players
  import opened Economy

  /** Window height after `Window::Resize(1280, 720)`. */
  const WindowHeight: int := 720

  /** Where a bought unit appears: 100 px left of the window, 100 px below its middle
      (the height is halved in integer arithmetic before it is converted). */
  const SpawnPos: Vec2 := Vec2(-100.0, (WindowHeight / 2 + 100) as real)

  /** The loop's mutable state. `score` and `deadCount` are only displayed. */
  datatype State = State(energy: int, clockMs: nat, players: seq<Player>, score: int, deadCount: int)

  /** The state just before the first frame: the stopwatch has been started. */
  const Initial: State := State(0, 0, [], 0, 0)

  /** A unit as the shop creates it and movement keeps it: an item's glyph, speed 1.0,
      on the spawn row, and never left of the spawn point. */
  predicate ShopUnit(p: Player)
  {
    && p.name in ItemNames
    && p.speed == 1.0
    && p.pos.y == SpawnPos.y
    && SpawnPos.x <= p.pos.x
  }

  /** The invariant every frame keeps: energy in range, and every unit a shop unit. */
  predicate Valid(s: State)
  {
    && EnergyInRange(s.energy)
    && forall k :: 0 <= k < |s.players| ==> ShopUnit(s.players[k])
  }

  /** The unit that item `i` spawns. */
  function Spawned(i: nat): Player
    requires i < ItemCount
  {
    Player(ItemNames[i], 1.0, SpawnPos)
  }

  /** The guard of a click on item `i`: its cost is strictly below the energy and
      strictly more than the debounce interval has passed since the last purchase. */
  predicate CanPurchase(s: State, i: nat)
    requires i < ItemCount
  {
    ItemEnergies[i] < s.energy && DebounceMs < s.clockMs
  }

  /** The effect of a successful purchase of item `i`. */
  function Buy(s: State, i: nat): State
    requires i < ItemCount
  {
    s.(clockMs := 0, energy := s.energy - ItemEnergies[i], players := s.players + [Spawned(i)])
  }

  /** A click on item `i`. */
  function TryPurchase(s: State, i: nat): (r: State)
    requires i < ItemCount
    ensures r.score == s.score && r.deadCount == s.deadCount
    ensures r == s <==> !CanPurchase(s, i)
    ensures CanPurchase(s, i) ==>
      && r.clockMs == 0
      && r.energy + ItemEnergies[i] == s.energy
      && 0 < r.energy
      && |r.players| == |s.players| + 1
      && r.players[..|s.players|] == s.players
      && r.players[|s.players|] == Player(ItemNames[i], 1.0, SpawnPos)
    ensures Valid(s) ==> Valid(r)
  {
    if CanPurchase(s, i) then Buy(s, i) else s
  }

  /** The purchase phase from item `i` on: each clicked item is tried in order. */
  function PurchaseFrom(s: State, clicks: set<int>, i: nat): (r: State)
    requires i <= ItemCount
    ensures r.score == s.score && r.deadCount == s.deadCount
    ensures r == s || (r.clockMs == 0 && |r.players| > |s.players|)
    ensures |s.players| <= |r.players| && r.players[..|s.players|] == s.players
    ensures r.energy <= s.energy
    ensures Valid(s) ==> Valid(r)
    decreases ItemCount - i
  {
    if i == ItemCount then s
    else PurchaseFrom(if i in clicks then TryPurchase(s, i) else s, clicks, i + 1)
  }

  /** The whole purchase phase of a frame. */
  function PurchasePhase(s: State, clicks: set<int>): State
  {
    PurchaseFrom(s, clicks, 0)
  }

  /** The start of a frame: `elapsedMs` of wall-clock time pass and energy regenerates. */
  function Tick(s: State, elapsedMs: nat): (r: State)
    ensures s.clockMs <= r.clockMs
    ensures Valid(s) ==> Valid(r)
  {
    s.(clockMs := s.clockMs + elapsedMs, energy := Regen(s.energy))
  }

  /** One frame: `elapsedMs` of wall-clock time pass, energy regenerates, the clicked
      items are tried in order, and every unit moves, including one bought this frame. */
  function Step(s: State, clicks: set<int>, elapsedMs: nat): (r: State)
    ensures r.score == s.score && r.deadCount == s.deadCount
    ensures Valid(s) ==> Valid(r)
    ensures |s.players| <= |r.players|
    ensures forall k :: 0 <= k < |s.players| ==> r.players[k] == Update(s.players[k])
  {
    var bought := PurchasePhase(Tick(s, elapsedMs), clicks);
    assert forall k :: 0 <= k < |s.players| ==> bought.players[k] == bought.players[..|s.players|][k];
    bought.(players := MoveAll(bought.players))
  }
}
