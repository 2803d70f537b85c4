/** The energy economy: the five purchasable items, their costs, and the per-frame
    energy regeneration with its cap. Energy is an `int32` in the game; every
    value it can take here lies in 0..100000, so no wrap-around arises. */
module Economy {

  /** Number of purchasable items (`itemCount`). */
  const ItemCount: nat := 5

  /** Glyph of the unit each item spawns (`itemNames`). */
  const ItemNames: seq<string> := ["打", "射", "撃", "伐", "征"]

  /** Energy cost of each item (`itemEnergies`). */
  const ItemEnergies: seq<int> := [100, 500, 1000, 2000, 5000]

  /** Regeneration stops once energy reaches this cap (`maxEnergy`). */
  const MaxEnergy: int := 100000

  /** Milliseconds that must have strictly passed since the last successful purchase. */
  const DebounceMs: int := 2000

  /** Number of breakthrough marks shown in the HUD (`maxDeadCount`); only drawing uses it. */
  const MaxDeadCount: int := 5

  /** Energy lies between zero and the cap. */
  predicate EnergyInRange(e: int)
  {
    0 <= e <= MaxEnergy
  }

  /** The item tables agree in length with `ItemCount`, every cost is positive and
      below the cap, and the costs rise strictly from item to item. */
  lemma ItemTablesConsistent()
    ensures |ItemNames| == ItemCount && |ItemEnergies| == ItemCount
    ensures forall i :: 0 <= i < ItemCount ==> 0 < ItemEnergies[i] < MaxEnergy
    ensures forall i, j :: 0 <= i < j < ItemCount ==> ItemEnergies[i] < ItemEnergies[j]
  {
  }

  /** One frame of regeneration: energy gains exactly one point while it is below the
      cap, and none once it has reached it. */
  function Regen(e: int): (r: int)
    ensures r == e + 1 <==> e < MaxEnergy
    ensures r == e <==> MaxEnergy <= e
    ensures EnergyInRange(e) ==> EnergyInRange(r)
  {
    if e < MaxEnergy then e + 1 else e
  }

  /** `n` frames of regeneration with no spending. */
  function RegenN(e: int, n: nat): int
    decreases n
  {
    if n == 0 then e else RegenN(Regen(e), n - 1)
  }

  /** From an in-range energy, `n` idle frames add `n` points, saturating at the cap. */
  lemma {:induction false} RegenNSaturates(e: int, n: nat)
    requires EnergyInRange(e)
    ensures RegenN(e, n) == if e + n < MaxEnergy then e + n else MaxEnergy
    decreases n
  {
    if n > 0 {
      RegenNSaturates(Regen(e), n - 1);
    }
  }
}
