/** Ten-pin bowling: a game that takes rolls one at a time, keeps each frame's state
  * and reports the total once every frame is scored. */
module Bowling {
  import opened Wrappers

  datatype Error = NotEnoughPinsLeft | GameComplete

  const FramesNumber: nat := 10

  /** The state of one frame; the numbers are pins knocked down so far, bonus included. */
  datatype Frame =
    | NoRolls
    | SingleRoll(n: nat)
    | Open(n: nat)
    | Spare
    | SpareCalculated(n: nat)
    | Strike
    | StrikeSingleRoll(n: nat)
    | StrikeCalculated(n: nat)

  /** `is_finished`: the frame takes no more rolls of its own. */
  predicate Finished(f: Frame) {
    !(f.NoRolls? || f.SingleRoll?)
  }

  /** `Frame::score`: known once the frame and its bonus rolls are in. */
  function FrameScore(f: Frame): (r: Option<nat>)
    ensures r.Some? <==> f.Open? || f.SpareCalculated? || f.StrikeCalculated?
    ensures r.Some? ==> r.value == f.n
  {
    match f
    case Open(x) => Some(x)
    case SpareCalculated(x) => Some(x)
    case StrikeCalculated(x) => Some(x)
    case _ => None
  }

  /** The rolls `update_with_roll` accepts without reaching `unreachable!`. */
  predicate CanRoll(f: Frame, pins: nat) {
    (f.NoRolls? ==> pins <= 10) && (f.SingleRoll? ==> f.n + pins <= 10)
  }

  /** `update_with_roll`: the frame after one more roll. */
  function UpdateWithRoll(f: Frame, pins: nat): (g: Frame)
    requires CanRoll(f, pins)
    ensures Finished(f) ==> Finished(g)
    ensures FrameScore(f).Some? ==> g == f
  {
    match f
    case NoRolls => if pins < 10 then SingleRoll(pins) else Strike
    case SingleRoll(x) => if x + pins < 10 then Open(x + pins) else Spare
    case Spare => SpareCalculated(10 + pins)
    case Strike => StrikeSingleRoll(10 + pins)
    case StrikeSingleRoll(x) => StrikeCalculated(x + pins)
    case _ => f
  }

  /** A well-formed game: frames before the current one are finished, frames after it have
    * no rolls, and the pins left match the current frame. Before the last frame the current
    * frame is never finished. */
  predicate GameValid(cur: nat, pinsLeft: nat, fs: seq<Frame>) {
    |fs| == FramesNumber && 1 <= cur <= FramesNumber && pinsLeft <= 10
    && (forall i :: 0 <= i < cur - 1 ==> Finished(fs[i]))
    && (forall i :: cur <= i < FramesNumber ==> fs[i] == NoRolls)
    && (fs[cur - 1] == NoRolls ==> pinsLeft == 10)
    && (fs[cur - 1].SingleRoll? ==> fs[cur - 1].n < 10 && pinsLeft + fs[cur - 1].n == 10)
    && (cur < FramesNumber ==> !Finished(fs[cur - 1]))
  }

  /** The first `k` frames after a roll of `pins`. */
  function ApplyRoll(fs: seq<Frame>, k: nat, pins: nat): (gs: seq<Frame>)
    requires k <= |fs| && forall i :: 0 <= i < k ==> CanRoll(fs[i], pins)
    ensures |gs| == |fs|
    ensures forall i :: 0 <= i < |fs| ==> gs[i] == if i < k then UpdateWithRoll(fs[i], pins) else fs[i]
  {
    seq(|fs|, i requires 0 <= i < |fs| => if i < k then UpdateWithRoll(fs[i], pins) else fs[i])
  }

  /** A roll of a game in progress that has enough pins left. */
  predicate Rollable(cur: nat, pinsLeft: nat, fs: seq<Frame>, pins: nat) {
    GameValid(cur, pinsLeft, fs) && FrameScore(fs[FramesNumber - 1]).None? && pins <= pinsLeft
  }

  /** The current frame, pins left and frames after a successful roll. */
  function AfterRoll(cur: nat, pinsLeft: nat, fs: seq<Frame>, pins: nat): (nat, nat, seq<Frame>)
    requires Rollable(cur, pinsLeft, fs, pins)
  {
    var gs := ApplyRoll(fs, cur, pins);
    var (c, l) := Advance(cur, pinsLeft - pins, gs);
    (c, l, gs)
  }

  /** The current frame and pins left once the roll is in the frames `gs`: a finished
    * frame moves the game on to a fresh frame, except in the last frame, which only
    * renews the pins when none is left. */
  function Advance(cur: nat, left: nat, gs: seq<Frame>): (nat, nat)
    requires 1 <= cur <= |gs| == FramesNumber
  {
    if !Finished(gs[cur - 1]) then (cur, left)
    else if cur == FramesNumber then (cur, if left == 0 then 10 else left)
    else (cur + 1, 10)
  }

  /** Every roll keeps the game well formed, so no frame ever reaches `unreachable!`. */
  lemma RollKeepsValid(cur: nat, pinsLeft: nat, fs: seq<Frame>, pins: nat)
    requires Rollable(cur, pinsLeft, fs, pins)
    ensures var after := AfterRoll(cur, pinsLeft, fs, pins); GameValid(after.0, after.1, after.2)
  {
    var gs := ApplyRoll(fs, cur, pins);
    assert forall i :: 0 <= i < cur - 1 ==> Finished(gs[i]);
  }

  /** The game advances at most one frame per roll and the finished frames stay finished. */
  lemma RollAdvances(cur: nat, pinsLeft: nat, fs: seq<Frame>, pins: nat)
    requires Rollable(cur, pinsLeft, fs, pins)
    ensures var (c, l, gs) := AfterRoll(cur, pinsLeft, fs, pins);
      (c == cur || c == cur + 1) && (c == cur + 1 ==> l == 10 && Finished(gs[cur - 1]))
      && forall i :: 0 <= i < FramesNumber && Finished(fs[i]) ==> Finished(gs[i])
  {
  }

  /** A roll only ever changes the frames up to the current one. */
  lemma RollTouchesStarted(cur: nat, pinsLeft: nat, fs: seq<Frame>, pins: nat)
    requires Rollable(cur, pinsLeft, fs, pins)
    ensures var (c, l, gs) := AfterRoll(cur, pinsLeft, fs, pins);
      gs[cur..] == fs[cur..] && forall i :: 0 <= i < cur && FrameScore(fs[i]).Some? ==> gs[i] == fs[i]
  {
  }

  /** `score` of the frames: `None` as soon as one frame has no score, else their sum. */
  function TotalScore(fs: seq<Frame>): (r: Option<nat>)
    ensures r.Some? <==> forall i :: 0 <= i < |fs| ==> FrameScore(fs[i]).Some?
  {
    if fs == [] then Some(0)
    else
      var rest := TotalScore(fs[1..]);
      assert forall i :: 1 <= i < |fs| ==> fs[i] == fs[1..][i - 1];
      match FrameScore(fs[0])
      case None => None
      case Some(x) => if rest.None? then None else Some(x + rest.value)
  }

  /** The sum of the frame scores, when all are known. */
  function ScoreSum(fs: seq<Frame>): nat
    requires forall i :: 0 <= i < |fs| ==> FrameScore(fs[i]).Some?
  {
    if fs == [] then 0 else FrameScore(fs[0]).value + ScoreSum(fs[1..])
  }

  lemma {:induction false} TotalScoreIsSum(fs: seq<Frame>)
    requires forall i :: 0 <= i < |fs| ==> FrameScore(fs[i]).Some?
    ensures TotalScore(fs) == Some(ScoreSum(fs))
  {
    if fs != [] {
      TotalScoreIsSum(fs[1..]);
    }
  }

  /** A sequence of rolls played from a state, stopping at the first refused roll. */
  function Play(cur: nat, pinsLeft: nat, fs: seq<Frame>, rolls: seq<nat>): Result<(nat, nat, seq<Frame>), Error>
    requires GameValid(cur, pinsLeft, fs)
    decreases |rolls|
  {
    if rolls == [] then Ok((cur, pinsLeft, fs))
    else if FrameScore(fs[FramesNumber - 1]).Some? then Err(GameComplete)
    else if rolls[0] > pinsLeft then Err(NotEnoughPinsLeft)
    else
      RollKeepsValid(cur, pinsLeft, fs, rolls[0]);
      var (c, l, gs) := AfterRoll(cur, pinsLeft, fs, rolls[0]);
      Play(c, l, gs, rolls[1..])
  }

  /** Frame `i` after `k` strikes in a row from the start of a game. */
  function AfterStrikes(i: nat, k: nat): Frame {
    if k >= i + 3 then StrikeCalculated(30)
    else if k == i + 2 then StrikeSingleRoll(20)
    else if k == i + 1 then Strike
    else NoRolls
  }

  /** The whole game after `k` strikes in a row. */
  function StrikesState(k: nat): (nat, nat, seq<Frame>) {
    (if k < FramesNumber then k + 1 else FramesNumber, 10, seq(FramesNumber, (i: int) requires 0 <= i => AfterStrikes(i, k)))
  }

  lemma StrikeStep(k: nat)
    requires k < 12
    ensures var (c, l, fs) := StrikesState(k);
      Rollable(c, l, fs, 10) && AfterRoll(c, l, fs, 10) == StrikesState(k + 1)
  {
    var (c, l, fs) := StrikesState(k);
    assert GameValid(c, l, fs);
    var (c', l', gs) := AfterRoll(c, l, fs, 10);
    assert gs == StrikesState(k + 1).2;
  }

  lemma {:induction false} StrikesToTheEnd(k: nat)
    requires k <= 12
    ensures var (c, l, fs) := StrikesState(k);
      GameValid(c, l, fs) && Play(c, l, fs, seq(12 - k, _ => 10)) == Ok(StrikesState(12))
    decreases 12 - k
  {
    var (c, l, fs) := StrikesState(k);
    if k < 12 {
      StrikeStep(k);
      StrikesToTheEnd(k + 1);
      var rolls := seq(12 - k, _ => 10);
      assert rolls[0] == 10 && rolls[1..] == seq(12 - (k + 1), _ => 10);
    } else {
      assert GameValid(c, l, fs);
    }
  }

  lemma {:induction false} ScoreOfStrikes(n: nat)
    ensures TotalScore(seq(n, _ => StrikeCalculated(30))) == Some(30 * n)
  {
    if n > 0 {
      ScoreOfStrikes(n - 1);
      assert seq(n, _ => StrikeCalculated(30))[1..] == seq(n - 1, _ => StrikeCalculated(30));
    }
  }

  /** Twelve strikes make a perfect game: every frame scores 30, 300 in all. */
  lemma PerfectGame()
    ensures GameValid(1, 10, seq(FramesNumber, _ => NoRolls))
    ensures Play(1, 10, seq(FramesNumber, _ => NoRolls), seq(12, _ => 10))
      == Ok((FramesNumber, 10, seq(FramesNumber, _ => StrikeCalculated(30))))
    ensures TotalScore(seq(FramesNumber, _ => StrikeCalculated(30))) == Some(300)
  {
    StrikesToTheEnd(0);
    assert StrikesState(0).2 == seq(FramesNumber, _ => NoRolls);
    assert StrikesState(12).2 == seq(FramesNumber, _ => StrikeCalculated(30));
    ScoreOfStrikes(FramesNumber);
  }

  class BowlingGame {
    var currentFrame: nat
    var pinsLeft: nat
    const frames: array<Frame>

    ghost predicate Valid()
      reads this, frames
    {
      frames.Length == FramesNumber && GameValid(currentFrame, pinsLeft, frames[..])
    }

    /** `new`: frame 1, all ten pins standing, no rolls in any frame. */
    constructor()
      ensures Valid() && fresh(frames)
      ensures currentFrame == 1 && pinsLeft == 10 && forall i :: 0 <= i < FramesNumber ==> frames[i] == NoRolls
    {
      currentFrame := 1;
      pinsLeft := 10;
      frames := new Frame[FramesNumber](_ => NoRolls);
    }

    /** `is_complete`: the last frame has its score. */
    function IsComplete(): bool
      reads this, frames
      requires Valid()
    {
      FrameScore(frames[FramesNumber - 1]).Some?
    }

    /** `roll`: refuses a roll after the game is over or with more pins than are standing,
      * changing nothing; otherwise applies the roll to every frame up to the current one
      * and moves on as `AfterRoll` says. */
    method Roll(pins: nat) returns (r: Result<(), Error>)
      requires Valid()
      modifies this, frames
      ensures Valid()
      ensures old(IsComplete()) ==> r == Err(GameComplete)
      ensures !old(IsComplete()) && pins > old(pinsLeft) ==> r == Err(NotEnoughPinsLeft)
      ensures r.Err? ==> currentFrame == old(currentFrame) && pinsLeft == old(pinsLeft) && frames[..] == old(frames[..])
      ensures r.Ok? <==> !old(IsComplete()) && pins <= old(pinsLeft)
      ensures r.Ok? ==> (Rollable(old(currentFrame), old(pinsLeft), old(frames[..]), pins)
        && (currentFrame, pinsLeft, frames[..]) == AfterRoll(old(currentFrame), old(pinsLeft), old(frames[..]), pins))
    {
      if IsComplete() {
        return Err(GameComplete);
      }
      if pins > pinsLeft {
        return Err(NotEnoughPinsLeft);
      }
      ghost var cur, left, fs := currentFrame, pinsLeft, frames[..];
      assert Rollable(cur, left, fs, pins);
      assert forall j :: 0 <= j < currentFrame ==> CanRoll(fs[j], pins);
      pinsLeft := pinsLeft - pins;
      UpdateFrames(pins);
      MoveOn();
      ghost var after := AfterRoll(cur, left, fs, pins);
      assert (currentFrame, pinsLeft, frames[..]) == after;
      assert GameValid(after.0, after.1, after.2) by {
        RollKeepsValid(cur, left, fs, pins);
      }
      return Ok(());
    }

    /** The end of `roll`: move on as `Advance` says. */
    method MoveOn()
      requires frames.Length == FramesNumber && 1 <= currentFrame <= FramesNumber
      modifies this
      ensures (currentFrame, pinsLeft) == Advance(old(currentFrame), old(pinsLeft), frames[..])
    {
      if Finished(frames[currentFrame - 1]) {
        if currentFrame == FramesNumber {
          if pinsLeft == 0 {
            pinsLeft := 10;
          }
        } else {
          currentFrame := currentFrame + 1;
          pinsLeft := 10;
        }
      }
    }

    /** The loop of `roll` over the frames up to the current one. */
    method UpdateFrames(pins: nat)
      requires frames.Length == FramesNumber && currentFrame <= FramesNumber
      requires forall j :: 0 <= j < currentFrame ==> CanRoll(frames[j], pins)
      modifies frames
      ensures frames[..] == ApplyRoll(old(frames[..]), currentFrame, pins)
    {
      ghost var fs := frames[..];
      var i := 0;
      while i < currentFrame
        invariant i <= currentFrame
        invariant forall j :: 0 <= j < FramesNumber ==>
          frames[j] == if j < i then UpdateWithRoll(fs[j], pins) else fs[j]
      {
        frames[i] := UpdateWithRoll(frames[i], pins);
        i := i + 1;
      }
      assert frames[..] == ApplyRoll(fs, currentFrame, pins);
    }

    /** `score`: `None` until every frame is scored, then the sum of the frame scores. */
    function Score(): (r: Option<nat>)
      reads this, frames
      requires Valid()
      ensures r.Some? <==> forall i :: 0 <= i < FramesNumber ==> FrameScore(frames[i]).Some?
      ensures r.Some? ==> r.value == ScoreSum(frames[..])
    {
      var r := TotalScore(frames[..]);
      if r.Some? then
        TotalScoreIsSum(frames[..]);
        r
      else r
    }
  }
}
