/** The frame loop run over a sequence of frames, each with its clicks and the
    wall-clock time since the previous frame. */
module Session {
  import opened Players
  import opened Economy
  import opened Game
  import opened FrameProperties

  /** What the outside world supplies to one frame: the items clicked during it and the
      milliseconds of wall-clock time since the previous frame. */
  datatype Input = Input(clicks: set<int>, elapsedMs: nat)

  /** Runs one frame per input, in order. Over any run, score and breakthrough count are
      untouched, no unit is ever removed, and each unit present at the start has walked
      one step per frame. */
  function Run(s: State, frames: seq<Input>): (r: State)
    ensures r.score == s.score && r.deadCount == s.deadCount
    ensures |s.players| <= |r.players|
    ensures forall k :: 0 <= k < |s.players| ==> r.players[k] == UpdateN(s.players[k], |frames|)
    decreases |frames|
  {
    if |frames| == 0 then s
    else Run(Step(s, frames[0].clicks, frames[0].elapsedMs), frames[1..])
  }

  /** Every run keeps the frame invariant: energy in range and every unit a shop unit. */
  lemma {:induction false} RunKeepsValid(s: State, frames: seq<Input>)
    requires Valid(s)
    ensures Valid(Run(s, frames))
    decreases |frames|
  {
    if |frames| > 0 {
      RunKeepsValid(Step(s, frames[0].clicks, frames[0].elapsedMs), frames[1..]);
    }
  }

  /** Each frame buys at most one unit, so a run adds at most one unit per frame. */
  lemma {:induction false} RunAddsAtMostOnePerFrame(s: State, frames: seq<Input>)
    ensures |Run(s, frames).players| <= |s.players| + |frames|
    decreases |frames|
  {
    if |frames| > 0 {
      StepAddsAtMostOne(s, frames[0].clicks, frames[0].elapsedMs);
      RunAddsAtMostOnePerFrame(Step(s, frames[0].clicks, frames[0].elapsedMs), frames[1..]);
    }
  }

  /** Frames without clicks only regenerate: energy follows `RegenN`, the stopwatch keeps
      running, and the unit list keeps its length. */
  lemma {:induction false} IdleRunRegenerates(s: State, frames: seq<Input>)
    requires forall f :: 0 <= f < |frames| ==> frames[f].clicks == {}
    ensures Run(s, frames).energy == RegenN(s.energy, |frames|)
    ensures |Run(s, frames).players| == |s.players|
    decreases |frames|
  {
    if |frames| > 0 {
      var c, d := frames[0].clicks, frames[0].elapsedMs;
      assert forall j :: !FirstBuy(Regen(s.energy), c, 0, j);
      StepBuysNothing(s, c, d);
      IdleRunRegenerates(Step(s, c, d), frames[1..]);
    }
  }

  /** From the initial state, energy never leaves 0..100000, every unit is a shop unit,
      and score and breakthrough count stay zero, whatever is clicked and however long
      frames take. */
  lemma InitialRunStaysValid(frames: seq<Input>)
    ensures 0 <= Run(Initial, frames).energy <= MaxEnergy
    ensures forall k :: 0 <= k < |Run(Initial, frames).players| ==> ShopUnit(Run(Initial, frames).players[k])
    ensures Run(Initial, frames).score == 0 && Run(Initial, frames).deadCount == 0
  {
    RunKeepsValid(Initial, frames);
  }
}
