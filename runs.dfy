/** Sessions as sequences of frames and key presses, and what holds along them. */
module Runs {
  import opened Grid
  import opened Rules

  /** A frame carries the one random number it may draw; a key press carries the key name. */
  datatype Event = Frame(rand: real) | Press(key: string)

  predicate WellFormed(evs: seq<Event>) {
    forall i :: 0 <= i < |evs| && evs[i].Frame? ==> 0.0 <= evs[i].rand < 1.0
  }

  function Apply(s: State, e: Event): (r: State)
    requires e.Frame? ==> 0.0 <= e.rand < 1.0
    requires 0 <= s.speechIndex < |LecturerLines|
    ensures 0 <= r.speechIndex < |LecturerLines|
  {
    match e
    case Frame(rand) => Update(s, rand)
    case Press(key) => KeyDown(s, key)
  }

  function Run(s: State, evs: seq<Event>): State
    requires WellFormed(evs)
    requires 0 <= s.speechIndex < |LecturerLines|
    decreases |evs|
  {
    if evs == [] then s else Run(Apply(s, evs[0]), evs[1..])
  }

  /** The number of frame events. */
  function FrameCount(evs: seq<Event>): nat {
    if evs == [] then 0 else (if evs[0].Frame? then 1 else 0) + FrameCount(evs[1..])
  }

  lemma ApplyPreservesInv(s: State, e: Event)
    requires e.Frame? ==> 0.0 <= e.rand < 1.0
    requires Inv(s)
    ensures Inv(Apply(s, e))
  {
    match e
    case Frame(rand) => UpdatePreservesInv(s, rand);
    case Press(key) => KeyDownPreservesInv(s, key);
  }

  /** Every reachable state satisfies the invariant: the player is on the grid, one desk is
      taken per character, the mash count stays below five and the speech index in 0..3. */
  lemma {:induction false} RunPreservesInv(s: State, evs: seq<Event>)
    requires WellFormed(evs) && Inv(s)
    ensures Inv(Run(s, evs))
    ensures |Run(s, evs).occupied| == |s.npcs| + 1
    decreases |evs|
  {
    if evs == [] {
      OccupiedCount(s);
    } else {
      ApplyPreservesInv(s, evs[0]);
      RunPreservesInv(Apply(s, evs[0]), evs[1..]);
    }
  }

  /** From the initial state every session keeps exactly four desks taken. */
  lemma FourDesksTaken(evs: seq<Event>)
    requires WellFormed(evs)
    ensures |Run(Initial(), evs).occupied| == 4
  {
    InitialValid();
    RunPreservesInv(Initial(), evs);
  }

  /** Once the game is over, no sequence of frames and keys changes the state. */
  lemma {:induction false} GameOverIsFinal(s: State, evs: seq<Event>)
    requires WellFormed(evs) && 0 <= s.speechIndex < |LecturerLines|
    requires s.gameOver
    ensures Run(s, evs) == s
    decreases |evs|
  {
    if evs != [] {
      GameOverIsFinal(Apply(s, evs[0]), evs[1..]);
    }
  }

  /** The clock loses one frame per update until it reaches zero, and the game is over exactly
      when as many frames have passed as were left; key presses do not touch the clock. */
  lemma {:induction false} ClockRunsDown(s: State, evs: seq<Event>)
    requires WellFormed(evs) && Inv(s)
    ensures Run(s, evs).timeLeft == if FrameCount(evs) >= s.timeLeft then 0 else s.timeLeft - FrameCount(evs)
    ensures Run(s, evs).gameOver <==> FrameCount(evs) >= s.timeLeft
    decreases |evs|
  {
    if evs != [] {
      ApplyPreservesInv(s, evs[0]);
      ClockRunsDown(Apply(s, evs[0]), evs[1..]);
    }
  }

  /** The score never decreases, and grows by at most a tenth per frame. */
  lemma {:induction false} ScoreBounds(s: State, evs: seq<Event>)
    requires WellFormed(evs) && Inv(s)
    ensures s.score <= Run(s, evs).score <= s.score + FrameCount(evs)
    decreases |evs|
  {
    if evs != [] {
      ApplyPreservesInv(s, evs[0]);
      ScoreBounds(Apply(s, evs[0]), evs[1..]);
    }
  }

  /** No frame of the session is a catch. */
  predicate CatchFree(s: State, evs: seq<Event>)
    requires WellFormed(evs) && 0 <= s.speechIndex < |LecturerLines|
    decreases |evs|
  {
    evs == [] ||
    ((evs[0].Frame? ==> !Caught(s, evs[0].rand)) && CatchFree(Apply(s, evs[0]), evs[1..]))
  }

  /** With the cooldown at `c`, none of the next `c - 1` frames can catch, whatever keys are
      pressed in between; after a catch (`c` = 120) that is two units of time. */
  lemma {:induction false} NoCatchDuringCooldown(s: State, evs: seq<Event>)
    requires WellFormed(evs) && Inv(s)
    requires FrameCount(evs) < s.lecturerCooldown
    ensures CatchFree(s, evs)
    decreases |evs|
  {
    if evs != [] {
      ApplyPreservesInv(s, evs[0]);
      var t := Apply(s, evs[0]);
      if evs[0].Frame? && !s.gameOver {
        CooldownGate(s, evs[0].rand);
        assert t.lecturerCooldown == s.lecturerCooldown - 1;
      } else {
        assert t.lecturerCooldown == s.lecturerCooldown;
      }
      assert FrameCount(evs[1..]) < t.lecturerCooldown;
      NoCatchDuringCooldown(t, evs[1..]);
    }
  }

  function SpacePresses(n: nat): (evs: seq<Event>)
    ensures |evs| == n && WellFormed(evs)
    ensures forall i :: 0 <= i < n ==> evs[i] == Press(Space)
  {
    if n == 0 then [] else [Press(Space)] + SpacePresses(n - 1)
  }

  /** Recovery after a catch: from a closed laptop with `m` presses counted, `n` more Space
      presses leave it closed with `m + n` counted while that is below five, and the press
      that makes five reopens it and restarts the count. */
  lemma {:induction false} MashRecovery(s: State, n: nat)
    requires Inv(s) && !s.gameOver && !s.laptopOpen
    requires s.mashCount + n <= MashTarget
    ensures var r := Run(s, SpacePresses(n));
      && (s.mashCount + n < MashTarget ==> !r.laptopOpen && r.mashCount == s.mashCount + n)
      && (s.mashCount + n == MashTarget ==> r.laptopOpen && r.mashCount == 0)
      && r.player == s.player && r.score == s.score && r.timeLeft == s.timeLeft
    decreases n
  {
    if n > 0 {
      var t := KeyDown(s, Space);
      SpaceRule(s);
      KeyDownPreservesInv(s, Space);
      assert SpacePresses(n)[1..] == SpacePresses(n - 1);
      if s.mashCount + 1 < MashTarget {
        MashRecovery(t, n - 1);
      } else {
        assert n == 1;
        assert Run(t, []) == t;
      }
    }
  }

  /** After a catch nobody can catch the player again for the next 119 frames. */
  lemma CatchThenRespite(s: State, rand: real, evs: seq<Event>)
    requires 0.0 <= rand < 1.0 && Inv(s) && WellFormed(evs)
    requires Caught(s, rand)
    requires FrameCount(evs) < CatchCooldownFrames
    ensures CatchFree(Update(s, rand), evs)
  {
    CatchEffects(s, rand);
    UpdatePreservesInv(s, rand);
    NoCatchDuringCooldown(Update(s, rand), evs);
  }
}
