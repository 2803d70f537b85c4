# Energy, purchases and marching units: a Dafny model of one frame of the game loop

This project models the simulation core of the prototype in `src/Main.cpp`, a tug-of-war
game built on Siv3D. Each frame the loop does three things in order:

1. Energy regenerates by one point, up to a cap of 100000.
2. Each of the five item buttons (打 射 撃 伐 征, costing 100, 500, 1000, 2000 and 5000 energy)
   is checked in order. A click buys the item only when its cost is strictly below the current
   energy and the stopwatch shows strictly more than 2000 ms since the last purchase. A purchase
   restarts the stopwatch, pays the cost, and appends a `Player` unit with the item's glyph,
   speed 1.0 and position (-100, 460).
3. Every `Player` moves right by its speed.

The modules follow that structure:

- `Geometry` holds `Vec2` and its translation.
- `Players` holds the `Player` unit. Its constructor is the datatype constructor; the game
  only calls it with all three arguments (`Main.cpp:121`). `getPos` is the `pos` field.
  `Update` is one frame of movement and `MoveAll` moves the whole list.
- `Economy` holds the item tables, the energy cap, the debounce interval and regeneration.
- `Game` holds the loop state and one frame of it (`TryPurchase`, `PurchaseFrom`, `Step`).
- `FrameProperties` compares a frame with a reference description of it. In that description,
  a frame buys the lowest-numbered clicked item it can afford, and only once the debounce
  interval has passed.
- `Session` runs the loop over a sequence of frames.

The stopwatch is the state field `clockMs`: its millisecond reading since it was last started.
Each frame takes `elapsedMs`, the amount by which that reading has grown since the previous
frame. It is added before the frame's checks (`Game.Tick`), and a restart sets the field to 0.
Clicks are a set of item indices; indices outside 0..4 have no effect. Positions are exact
reals. `score` and `deadCount` are part of the state, but nothing in the loop writes them.

The invariant every frame keeps (`Game.Valid`) has two parts. Energy stays in 0..100000.
Every unit is a shop unit (`Game.ShopUnit`): it carries an item's glyph and speed 1.0, it
sits on the spawn row y = 460, and it is never left of the spawn point x = -100.

Both comparisons in the purchase guard (`Main.cpp:117`) are strict (`<`), and
`FrameProperties.PurchaseGuardIsStrict` states the boundary cases. This prototype has no
enemies, bullets, combat, grades or game-over.

## Model

| member | source | states |
|---|---|---|
| Players.Update | src/Main.cpp:18-21 | one frame of movement adds the speed to x; y, name and speed do not change |
| Players.UpdateNPosition | src/Main.cpp:18-21 | after n frames a unit is at (x0 + n·speed, y0) with the same name and speed |
| Players.MoveAll | src/Main.cpp:126-129 | every unit in the list moves one frame; the list keeps its length and order |
| Economy.ItemTablesConsistent | src/Main.cpp:83-85 | both item tables have itemCount (5) entries; every cost is positive and below the cap; costs rise strictly with the index |
| Economy.Regen | src/Main.cpp:107-110 | energy gains exactly 1 when below maxEnergy and 0 at or above it; energy in 0..maxEnergy stays in that range |
| Economy.RegenNSaturates | src/Main.cpp:107-110 | n idle frames starting in range give min(e + n, 100000) |
| Game.TryPurchase | src/Main.cpp:115-122 | a click changes the state iff cost < energy and 2000 < elapsed ms. On success the clock is 0, energy drops by exactly the cost and stays positive, and one unit (item glyph, speed 1.0, position (-100, 460)) is appended after the unchanged old units. Score and deadCount stay the same; the frame invariant (energy range, shop units) is kept |
| Game.PurchaseFrom | src/Main.cpp:112-124 | the item pass leaves the state unchanged, or restarts the clock and grows the unit list. Earlier units, score and deadCount are kept, energy never rises, and the frame invariant is kept |
| Game.Tick | src/Main.cpp:105-110 | the start of a frame never turns the stopwatch reading back and keeps the frame invariant |
| Game.Step | src/Main.cpp:105-129 | a frame keeps the frame invariant (energy range, every unit a shop unit), score and deadCount, never removes a unit, and moves every existing unit by one step |
| FrameProperties.PurchaseIdle | src/Main.cpp:117 | while elapsed ms ≤ 2000, no set of clicks changes anything |
| FrameProperties.PurchaseFromBuysFirst | src/Main.cpp:112-124 | once the debounce has passed, the pass from item lo on buys exactly the lowest clicked affordable item, or nothing when there is none |
| FrameProperties.PurchasePhaseBuysNothing | src/Main.cpp:112-124 | before the debounce passes, or with no clicked item whose cost is below the energy, the whole item pass changes nothing |
| FrameProperties.PurchasePhaseBuysFirst | src/Main.cpp:112-124 | once the debounce has passed, the whole item pass buys exactly the lowest clicked item with cost < energy |
| FrameProperties.AtMostOnePurchase | src/Main.cpp:117-119 | because the clock restarts on success, one item pass appends at most one unit whatever is clicked |
| FrameProperties.StepAddsAtMostOne | src/Main.cpp:105-129 | one frame adds at most one unit |
| FrameProperties.StepBuysNothing | src/Main.cpp:105-129 | a frame with no purchase has exactly this outcome: clock advanced, energy regenerated, units moved, nothing else changed |
| FrameProperties.StepBuysFirst | src/Main.cpp:105-129 | a frame that buys item j has exactly this outcome: energy = regenerated energy − cost(j), clock 0, units moved, the new unit appended and already moved once |
| FrameProperties.RegenBeforePurchase | src/Main.cpp:107-120 | regen comes before purchases: energy equal to a cost buys that item once the debounce has passed, leaving 1 energy |
| FrameProperties.PurchaseGuardIsStrict | src/Main.cpp:117 | regenerated energy equal to the cost, or an elapsed time of exactly 2000 ms, buys nothing |
| FrameProperties.BoughtUnitMovesSameFrame | src/Main.cpp:119-129 | purchases come before movement: a unit bought in a frame ends it at (-99, 460) with its item's glyph and speed 1.0 |
| FrameProperties.PurchasesAreSpaced | src/Main.cpp:117-119 | after a frame that bought something, a next frame of ≤ 2000 ms buys nothing |
| Session.Run | src/Main.cpp:105-129 | over any sequence of frames: score and deadCount are kept; no unit is removed; each starting unit has made exactly one step per frame |
| Session.RunKeepsValid | src/Main.cpp:105-129 | over any sequence of frames the frame invariant holds throughout: energy in 0..100000 and every unit a shop unit |
| Session.RunAddsAtMostOnePerFrame | src/Main.cpp:112-124 | a run of n frames adds at most n units |
| Session.IdleRunRegenerates | src/Main.cpp:107-110 | a run with no clicks regenerates exactly as repeated Regen and adds no unit |
| Session.InitialRunStaysValid | src/Main.cpp:89-103 | from the initial state (energy 0, stopwatch just started, no units), energy stays in 0..100000, every unit is a shop unit, and score and deadCount stay 0 |

## Left out

- `HighlightingShape` (mouse-over transition, drawing, click detection) and the per-frame `items[i].update()` call: these are user-interface code over the engine. A click appears here only as an index in the frame's click set.
- Window setup and item-rectangle layout (`itemRange`, `itemSize`, rectangle positions): presentation arithmetic in doubles. Only the window height 720, used for the spawn row, is kept.
- All drawing: fonts, `Player::draw`, the item labels, the score and energy HUD, and the breakthrough marks. `maxDeadCount` is kept as a constant only, because only drawing uses it.
- The engine's `Stopwatch` and the `System::Update` loop driver: they become the `clockMs` field and the per-frame `elapsedMs` input. Time passing inside one frame, between a restart and a later item's check, is taken as 0 ms. So every item check in a frame sees the same reading, while the game calls `ms()` once per clicked item. This is harmless. The item rectangles do not overlap (`Main.cpp:100`: x = 100 + 234·i, width 156), and one cursor's left click hits at most one of them, so at most one item is clicked per frame.
- The stopwatch's 64-bit millisecond counter is unbounded here. It would only overflow after hundreds of millions of years.
- Positions and speeds are doubles in the code and exact reals here. Each frame `moveBy(m_speed, 0)` adds 1.0 to x, starting at -100, and 0 to y, which stays 460. Those sums stay exact in doubles far beyond any run length.
- Energy, score and deadCount are `int32` in the code and unbounded here. Energy provably stays in 0..100000, and the other two never change, so no wrap-around can happen.
