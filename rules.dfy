/** The game's state as a value and its two transitions: one animation frame (`Update`)
    and one key press (`KeyDown`). Time is counted in frames of 1/60 unit and the score
    in tenths, so every timer and counter is an integer. */
module Rules {
  import opened Grid
  import opened Steering

  const FramesPerUnit := 60
  const GameFrames := 180 * FramesPerUnit
  const CatchCooldownFrames := 2 * FramesPerUnit
  const DistractionFrames := 5 * FramesPerUnit
  const SpeechFrames := 3 * FramesPerUnit
  /** Space presses needed to reopen a closed laptop. */
  const MashTarget := 5

  const LecturerLines: seq<string> := [
    "Close your laptop!",
    "Are you sleeping?",
    "Are you okay?",
    "What are you doing?"
  ]

  /** A classmate at a fixed desk. */
  datatype Npc = Npc(x: int, y: int, laptopOpen: bool) {
    function Seat(): Cell { Cell(x, y) }
  }

  datatype State = State(
    player: Cell,
    laptopOpen: bool,
    lecturerX: real,
    lecturerY: real,
    retreat: Option<Cell>,          // lecturer.targetX / targetY, null as None
    lecturerCooldown: int,          // frames before the lecturer may catch again
    score: int,                     // tenths of a point
    timeLeft: int,                  // frames
    occupied: set<Cell>,            // desks whose `occupied` flag is set
    gameOver: bool,
    npcs: seq<Npc>,
    distractionCooldown: int,       // frames
    mashCount: int,
    speechText: string,
    speechTimer: int,               // frames
    speechIndex: int)

  const InitialNpcs: seq<Npc> := [Npc(1, 0, true), Npc(4, 1, true), Npc(3, 3, false)]

  /** The desks taken by the first `n` classmates. */
  function SeatsUpTo(npcs: seq<Npc>, n: nat): set<Cell>
    requires n <= |npcs|
  {
    set i | 0 <= i < n :: npcs[i].Seat()
  }

  /** The desks taken by the classmates. */
  function NpcCells(npcs: seq<Npc>): set<Cell> {
    SeatsUpTo(npcs, |npcs|)
  }

  predicate SeatsDistinct(npcs: seq<Npc>) {
    forall i, j :: 0 <= i < j < |npcs| ==> npcs[i].Seat() != npcs[j].Seat()
  }

  predicate SeatsInBounds(npcs: seq<Npc>) {
    forall i :: 0 <= i < |npcs| ==> InBounds(npcs[i].Seat())
  }

  /** Distinct seats take as many desks as there are classmates. */
  lemma {:induction false} SeatsCount(npcs: seq<Npc>, n: nat)
    requires n <= |npcs| && SeatsDistinct(npcs)
    ensures |SeatsUpTo(npcs, n)| == n
  {
    if n > 0 {
      SeatsCount(npcs, n - 1);
      assert SeatsUpTo(npcs, n) == SeatsUpTo(npcs, n - 1) + {npcs[n - 1].Seat()};
      assert npcs[n - 1].Seat() !in SeatsUpTo(npcs, n - 1);
    } else {
      assert SeatsUpTo(npcs, n) == {};
    }
  }

  lemma NpcCellsCount(npcs: seq<Npc>)
    requires SeatsDistinct(npcs)
    ensures |NpcCells(npcs)| == |npcs|
  {
    SeatsCount(npcs, |npcs|);
  }

  /** `npcs.find(npc => npc.laptopOpen)`: the first classmate in list order with an open laptop. */
  function FirstOpenNpc(npcs: seq<Npc>): (r: Option<Npc>)
    ensures r.None? <==> forall i :: 0 <= i < |npcs| ==> !npcs[i].laptopOpen
    ensures r.Some? ==> exists i :: 0 <= i < |npcs| && npcs[i] == r.value && r.value.laptopOpen
                          && forall j :: 0 <= j < i ==> !npcs[j].laptopOpen
  {
    if npcs == [] then None
    else if npcs[0].laptopOpen then Some(npcs[0])
    else
      var r := FirstOpenNpc(npcs[1..]);
      assert r.Some? ==> exists i :: 1 <= i < |npcs| && npcs[i] == r.value
                           && forall j :: 0 <= j < i ==> !npcs[j].laptopOpen by {
        if r.Some? {
          var i :| 0 <= i < |npcs[1..]| && npcs[1..][i] == r.value
                   && forall j :: 0 <= j < i ==> !npcs[1..][j].laptopOpen;
          assert npcs[i + 1] == r.value;
          assert forall j :: 0 <= j < i + 1 ==> !npcs[j].laptopOpen by {
            forall j | 0 <= j < i + 1 ensures !npcs[j].laptopOpen {
              if j > 0 { assert npcs[j] == npcs[1..][j - 1]; }
            }
          }
        }
      }
      assert r.None? ==> forall i :: 0 <= i < |npcs| ==> !npcs[i].laptopOpen by {
        if r.None? {
          forall i | 0 <= i < |npcs| ensures !npcs[i].laptopOpen {
            if i > 0 { assert npcs[i] == npcs[1..][i - 1]; }
          }
        }
      }
      r
  }

  /** The state the page sets up before the first frame. */
  function Initial(): State {
    var player := Cell(2, 2);
    State(player, true, 0.0, 0.0, None, 0, 0, GameFrames,
          {player} + NpcCells(InitialNpcs), false, InitialNpcs,
          0, 0, "", 0, 0)
  }

  /** What holds of every state the game reaches. */
  ghost predicate Inv(s: State) {
    && InBounds(s.player)
    && SeatsInBounds(s.npcs)
    && SeatsDistinct(s.npcs)
    && s.player !in NpcCells(s.npcs)
    && s.occupied == {s.player} + NpcCells(s.npcs)
    && (s.retreat.Some? ==> InBounds(s.retreat.value))
    && 0 <= s.mashCount < MashTarget
    && (s.laptopOpen ==> s.mashCount == 0)
    && 0 <= s.lecturerCooldown <= CatchCooldownFrames
    && 0 <= s.distractionCooldown <= DistractionFrames
    && 0 <= s.speechIndex < |LecturerLines|
    && 0 <= s.speechTimer <= SpeechFrames
    && (s.speechTimer > 0 ==> s.speechText == LecturerLines[(s.speechIndex + 3) % 4])
    && (s.speechTimer == 0 ==> s.speechText == "")
    && 0 <= s.score
    && 0 <= s.timeLeft <= GameFrames
    && (s.gameOver <==> s.timeLeft == 0)
  }

  /** The initial state satisfies the invariant, with four desks taken:
      the player's and one per classmate. */
  lemma InitialValid()
    ensures Inv(Initial())
    ensures |Initial().occupied| == 4
  {
    var s := Initial();
    assert InitialNpcs[0].Seat() == Cell(1, 0);
    assert InitialNpcs[1].Seat() == Cell(4, 1);
    assert InitialNpcs[2].Seat() == Cell(3, 3);
    NpcCellsCount(InitialNpcs);
  }

  /** Under the invariant exactly one desk is taken per character. */
  lemma OccupiedCount(s: State)
    requires Inv(s)
    ensures |s.occupied| == |s.npcs| + 1
  {
    NpcCellsCount(s.npcs);
  }

  // ---------------------------------------------------------------------------
  // One frame

  /** Where the lecturer heads this frame (None leaves it standing) and the retreat target it
      keeps afterwards. */
  datatype Aim = Aim(goal: Option<Cell>, retreat: Option<Cell>)

  /** The lecturer is within the tolerance of its retreat target on both axes. */
  predicate Arrived(s: State) {
    s.retreat.Some? && Near(s.lecturerX, s.retreat.value.x as real) && Near(s.lecturerY, s.retreat.value.y as real)
  }

  /** The three-way priority: a distraction sends the lecturer to the first open laptop, an
      open laptop of the player's draws it to the player, and otherwise it walks to a retreat
      spot, re-picked when it has none or has reached it. */
  function ChooseTarget(s: State, rand: real): (a: Aim)
    requires 0.0 <= rand < 1.0
  {
    if s.distractionCooldown > 0 then
      match FirstOpenNpc(s.npcs)
      case Some(npc) => Aim(Some(npc.Seat()), None)
      case None => Aim(None, s.retreat)
    else if s.laptopOpen then
      Aim(Some(s.player), None)
    else
      var t := if s.retreat.None? || Arrived(s) then RandomEmptySpot(s.occupied, rand) else s.retreat.value;
      Aim(Some(t), Some(t))
  }

  /** Target selection and the lecturer's step (game.js lines 135-166). */
  function Steer(s: State, rand: real): State
    requires 0.0 <= rand < 1.0
  {
    var aim := ChooseTarget(s, rand);
    StepLecturer(s.(retreat := aim.retreat,
                    distractionCooldown := if s.distractionCooldown > 0 then s.distractionCooldown - 1
                                           else s.distractionCooldown),
                 aim.goal)
  }

  /** One step per axis toward the goal, if there is one. */
  function StepLecturer(s: State, goal: Option<Cell>): State {
    match goal
    case None => s
    case Some(g) => s.(lecturerX := StepAxis(s.lecturerX, g.x as real),
                       lecturerY := StepAxis(s.lecturerY, g.y as real))
  }

  /** The lecturer's catch cooldown and the speech bubble count down (lines 168-177). */
  function Tick(s: State): State {
    var cooldown := if s.lecturerCooldown > 0 then s.lecturerCooldown - 1 else s.lecturerCooldown;
    if s.speechTimer > 0 then
      var timer := s.speechTimer - 1;
      s.(lecturerCooldown := cooldown, speechTimer := timer,
         speechText := if timer <= 0 then "" else s.speechText)
    else
      s.(lecturerCooldown := cooldown)
  }

  predicate CatchFires(s: State) {
    Near(s.lecturerX, s.player.x as real) && Near(s.lecturerY, s.player.y as real)
    && s.laptopOpen && s.lecturerCooldown <= 0
  }

  /** The lecturer catches an open laptop it stands on (lines 179-191). */
  function Catch(s: State, rand: real): State
    requires 0.0 <= rand < 1.0
    requires 0 <= s.speechIndex < |LecturerLines|
  {
    if CatchFires(s) then Scold(s, RandomEmptySpot(s.occupied, rand)) else s
  }

  /** A catch: the laptop shuts, the cooldown restarts, the next line is spoken and the
      lecturer retreats to `spot`. */
  function Scold(s: State, spot: Cell): State
    requires 0 <= s.speechIndex < |LecturerLines|
  {
    s.(laptopOpen := false, mashCount := 0, lecturerCooldown := CatchCooldownFrames,
       speechText := LecturerLines[s.speechIndex], speechTimer := SpeechFrames,
       speechIndex := (s.speechIndex + 1) % |LecturerLines|,
       retreat := Some(spot))
  }

  /** Score and clock (lines 194-199). */
  function Finish(s: State): State {
    var score := if s.laptopOpen then s.score + 1 else s.score;
    var time := s.timeLeft - 1;
    s.(score := score, timeLeft := time, gameOver := if time <= 0 then true else s.gameOver)
  }

  /** `update()`: one animation frame; `rand` stands for the one `Math.random()` it may draw. */
  function Update(s: State, rand: real): (r: State)
    requires 0.0 <= rand < 1.0
    requires 0 <= s.speechIndex < |LecturerLines|
    ensures 0 <= r.speechIndex < |LecturerLines|
    ensures r.npcs == s.npcs && r.occupied == s.occupied && r.player == s.player
  {
    if s.gameOver then s else Finish(Catch(Tick(Steer(s, rand)), rand))
  }

  /** Whether the catch fires during `Update(s, rand)`. */
  predicate Caught(s: State, rand: real)
    requires 0.0 <= rand < 1.0
  {
    !s.gameOver && CatchFires(Tick(Steer(s, rand)))
  }

  // ---------------------------------------------------------------------------
  // One key press

  /** Arrow keys: move into the proposed desk only if it is free (lines 206-217). */
  function Move(s: State, key: string): State {
    var p := Proposed(key, s.player);
    if p !in s.occupied then s.(player := p, occupied := s.occupied - {s.player} + {p}) else s
  }

  /** Space while the laptop is closed counts towards reopening it (lines 219-229). */
  function Mash(s: State, key: string): State {
    if key == Space && !s.laptopOpen then
      var count := s.mashCount + 1;
      if count >= MashTarget then s.(laptopOpen := true, mashCount := 0) else s.(mashCount := count)
    else s
  }

  /** `r` distracts the lecturer when off cooldown and some laptop is open (lines 231-237). */
  function Distraction(s: State, key: string): State {
    if key == Distract && s.distractionCooldown <= 0 && FirstOpenNpc(s.npcs).Some? then
      s.(distractionCooldown := DistractionFrames)
    else s
  }

  /** The keydown handler. */
  function KeyDown(s: State, key: string): (r: State)
    ensures r.npcs == s.npcs && r.speechIndex == s.speechIndex
    ensures r.lecturerCooldown == s.lecturerCooldown && r.timeLeft == s.timeLeft
    ensures r.score == s.score && r.gameOver == s.gameOver
  {
    if s.gameOver then s else Distraction(Mash(Move(s, key), key), key)
  }

  // ---------------------------------------------------------------------------
  // Properties of one frame

  lemma UpdatePreservesInv(s: State, rand: real)
    requires 0.0 <= rand < 1.0
    requires Inv(s)
    ensures Inv(Update(s, rand))
  {
    if !s.gameOver {
      SteerPreservesInv(s, rand);
      TickPreservesInv(Steer(s, rand));
      CatchPreservesInv(Tick(Steer(s, rand)), rand);
      FinishPreservesInv(Catch(Tick(Steer(s, rand)), rand));
    }
  }

  lemma SteerPreservesInv(s: State, rand: real)
    requires 0.0 <= rand < 1.0
    requires Inv(s)
    ensures Inv(Steer(s, rand))
  {
    var a := ChooseTarget(s, rand);
    assert a.retreat.Some? ==> InBounds(a.retreat.value);
    var t := s.(retreat := a.retreat,
                distractionCooldown := if s.distractionCooldown > 0 then s.distractionCooldown - 1
                                       else s.distractionCooldown);
    assert Inv(t);
    assert Steer(s, rand) == StepLecturer(t, a.goal);
  }

  lemma TickPreservesInv(s: State)
    requires Inv(s)
    ensures Inv(Tick(s))
  {
  }

  lemma CatchPreservesInv(s: State, rand: real)
    requires 0.0 <= rand < 1.0
    requires Inv(s)
    ensures Inv(Catch(s, rand))
  {
  }

  lemma FinishPreservesInv(s: State)
    requires Inv(s) && !s.gameOver
    ensures Inv(Finish(s))
  {
  }

  /** Once the game is over, neither a frame nor a key press changes anything. */
  lemma GameOverIsInert(s: State, rand: real, key: string)
    requires 0.0 <= rand < 1.0
    requires 0 <= s.speechIndex < |LecturerLines|
    requires s.gameOver
    ensures Update(s, rand) == s && KeyDown(s, key) == s
  {
  }

  /** The clock runs down one frame per update and the game ends when it reaches zero. */
  lemma Clock(s: State, rand: real)
    requires 0.0 <= rand < 1.0
    requires Inv(s) && !s.gameOver
    ensures Update(s, rand).timeLeft == s.timeLeft - 1
    ensures Update(s, rand).gameOver <==> s.timeLeft == 1
  {
  }

  /** The score gains a tenth exactly on frames that end with the laptop open, and only a
      laptop that was open at the start of the frame can earn it. */
  lemma ScoreAccrual(s: State, rand: real)
    requires 0.0 <= rand < 1.0
    requires Inv(s) && !s.gameOver
    ensures Update(s, rand).score == s.score + (if Update(s, rand).laptopOpen then 1 else 0)
    ensures Update(s, rand).score > s.score ==> s.laptopOpen && !Caught(s, rand)
  {
  }

  /** The lecturer moves at most one step per axis per frame. */
  lemma LecturerStepBounded(s: State, rand: real)
    requires 0.0 <= rand < 1.0
    requires 0 <= s.speechIndex < |LecturerLines|
    ensures Abs(Update(s, rand).lecturerX - s.lecturerX) <= Speed
    ensures Abs(Update(s, rand).lecturerY - s.lecturerY) <= Speed
  {
  }

  /** The three-way target priority. */
  lemma TargetPriority(s: State, rand: real)
    requires 0.0 <= rand < 1.0
    requires Inv(s)
    ensures var a := ChooseTarget(s, rand);
      && (s.distractionCooldown > 0 && FirstOpenNpc(s.npcs).Some? ==>
            a.retreat.None? && a.goal.Some?
            && exists i :: 0 <= i < |s.npcs| && s.npcs[i].laptopOpen && a.goal.value == s.npcs[i].Seat()
                 && forall j :: 0 <= j < i ==> !s.npcs[j].laptopOpen)
      && (s.distractionCooldown > 0 && FirstOpenNpc(s.npcs).None? ==> a == Aim(None, s.retreat))
      && (s.distractionCooldown <= 0 && s.laptopOpen ==> a == Aim(Some(s.player), None))
      && (s.distractionCooldown <= 0 && !s.laptopOpen ==>
            a.goal == a.retreat && a.goal.Some? && InBounds(a.goal.value)
            && (s.retreat.Some? && !Arrived(s) ==> a.retreat == s.retreat)
            && (s.retreat.None? || Arrived(s) ==>
                  a.goal.value == RandomEmptySpot(s.occupied, rand)
                  && (HasFreeCell(s.occupied) ==> a.goal.value !in s.occupied)))
  {
    var a := ChooseTarget(s, rand);
    var f := FirstOpenNpc(s.npcs);
    if s.distractionCooldown > 0 && f.Some? {
      var i :| 0 <= i < |s.npcs| && s.npcs[i] == f.value && f.value.laptopOpen
               && forall j :: 0 <= j < i ==> !s.npcs[j].laptopOpen;
      assert a.goal.value == s.npcs[i].Seat();
    }
  }

  /** A catch happens only when the lecturer is within the tolerance of the player on both
      axes, the laptop is open and the cooldown has run out; it closes the laptop, restarts
      the mash count, arms the cooldown, shows the next line and moves to the next one. */
  lemma CatchEffects(s: State, rand: real)
    requires 0.0 <= rand < 1.0
    requires Inv(s)
    ensures var t := Tick(Steer(s, rand));
      Caught(s, rand) <==>
        !s.gameOver && s.laptopOpen && t.lecturerCooldown <= 0
        && Abs(t.lecturerX - s.player.x as real) < Tolerance
        && Abs(t.lecturerY - s.player.y as real) < Tolerance
    ensures Caught(s, rand) ==>
      var r := Update(s, rand);
      && !r.laptopOpen && r.mashCount == 0 && r.lecturerCooldown == CatchCooldownFrames
      && r.speechTimer == SpeechFrames && r.speechText == LecturerLines[s.speechIndex]
      && r.speechIndex == (s.speechIndex + 1) % 4
      && r.retreat == Some(RandomEmptySpot(s.occupied, rand))
    ensures !Caught(s, rand) ==> Update(s, rand).laptopOpen == s.laptopOpen
  {
  }

  /** While the cooldown is at least two frames, a frame cannot catch and takes one off it. */
  lemma CooldownGate(s: State, rand: real)
    requires 0.0 <= rand < 1.0
    requires Inv(s) && !s.gameOver && s.lecturerCooldown >= 2
    ensures !Caught(s, rand)
    ensures Update(s, rand).lecturerCooldown == s.lecturerCooldown - 1
  {
  }

  /** The distraction timer loses one frame per frame until it is out; the speech timer does
      too, unless the frame is a catch, which restarts it at 180 frames. */
  lemma TimersCountDown(s: State, rand: real)
    requires 0.0 <= rand < 1.0
    requires Inv(s) && !s.gameOver
    ensures Update(s, rand).distractionCooldown ==
              if s.distractionCooldown > 0 then s.distractionCooldown - 1 else 0
    ensures Update(s, rand).speechTimer ==
              if Caught(s, rand) then SpeechFrames
              else if s.speechTimer > 0 then s.speechTimer - 1 else 0
  {
  }

  // ---------------------------------------------------------------------------
  // Properties of one key press

  lemma KeyDownPreservesInv(s: State, key: string)
    requires Inv(s)
    ensures Inv(KeyDown(s, key))
  {
    if !s.gameOver {
      var m := Move(s, key);
      assert Inv(m) by {
        var p := Proposed(key, s.player);
        if p !in s.occupied {
          assert m.occupied == {p} + NpcCells(s.npcs);
        }
      }
    }
  }

  /** Movement: the player stays on the grid, moves exactly when the proposed desk is free,
      and the move clears the vacated desk and takes the entered one, so the number of taken
      desks is unchanged. */
  lemma MoveRule(s: State, key: string)
    requires Inv(s) && !s.gameOver
    ensures var r := KeyDown(s, key); var p := Proposed(key, s.player);
      && InBounds(r.player)
      && (r.player != s.player <==> p !in s.occupied)
      && (p !in s.occupied ==> r.player == p && r.occupied == s.occupied - {s.player} + {p})
      && (p in s.occupied ==> r.player == s.player && r.occupied == s.occupied)
      && |r.occupied| == |s.occupied|
      && (IsArrow(key) ==> r == s.(player := r.player, occupied := r.occupied))
  {
    KeyDownPreservesInv(s, key);
    OccupiedCount(s);
    OccupiedCount(KeyDown(s, key));
  }

  /** A key that is not an arrow never moves the player, because the player's own desk is taken. */
  lemma NonArrowKeepsPlayer(s: State, key: string)
    requires Inv(s) && !IsArrow(key)
    ensures KeyDown(s, key).player == s.player
    ensures KeyDown(s, key).occupied == s.occupied
    ensures key != Space && key != Distract ==> KeyDown(s, key) == s
  {
  }

  /** Space: with the laptop closed it counts a press, and the fifth reopens the laptop and
      restarts the count; with the laptop open it changes nothing. */
  lemma SpaceRule(s: State)
    requires Inv(s) && !s.gameOver
    ensures KeyDown(s, Space) ==
      if s.laptopOpen then s
      else if s.mashCount + 1 >= MashTarget then s.(laptopOpen := true, mashCount := 0)
      else s.(mashCount := s.mashCount + 1)
    ensures var r := KeyDown(s, Space);
      && r.player == s.player && r.distractionCooldown == s.distractionCooldown
      && 0 <= r.mashCount < MashTarget
      && (s.laptopOpen ==> r == s)
      && (!s.laptopOpen && s.mashCount + 1 < MashTarget ==> !r.laptopOpen && r.mashCount == s.mashCount + 1)
      && (!s.laptopOpen && s.mashCount + 1 == MashTarget ==> r.laptopOpen && r.mashCount == 0)
  {
  }

  /** `r`: arms the distraction exactly when it is off cooldown and some classmate's laptop is
      open; otherwise the key changes nothing. */
  lemma DistractRule(s: State)
    requires Inv(s) && !s.gameOver
    ensures var open := exists i :: 0 <= i < |s.npcs| && s.npcs[i].laptopOpen;
      KeyDown(s, Distract) ==
        if s.distractionCooldown <= 0 && open then s.(distractionCooldown := DistractionFrames) else s
  {
  }
}
