/** The mutable `game` record, its desk grid and the two handlers that change it in place. */
module Session {
  import opened Grid
  import opened Steering
  import opened Rules

  /** The desk grid of lines 36-52: every desk free, then the player's desk and each
      classmate's desk marked as taken. */
  method NewDesks(player: Cell, npcs: seq<Npc>) returns (d: array2<bool>)
    requires InBounds(player) && SeatsInBounds(npcs)
    ensures fresh(d) && d.Length0 == Height && d.Length1 == Width
    ensures forall y, x :: 0 <= y < Height && 0 <= x < Width ==>
              (d[y, x] <==> Cell(x, y) in {player} + NpcCells(npcs))
  {
    d := new bool[Height, Width]((y, x) => false);
    d[player.y, player.x] := true;
    ghost var marked := {player};
    for k := 0 to |npcs|
      invariant marked == {player} + SeatsUpTo(npcs, k)
      invariant forall y, x :: 0 <= y < Height && 0 <= x < Width ==> (d[y, x] <==> Cell(x, y) in marked)
    {
      var npc := npcs[k];
      assert SeatsUpTo(npcs, k + 1) == SeatsUpTo(npcs, k) + {npc.Seat()};
      assert InBounds(npc.Seat());
      d[npc.y, npc.x] := true;
      marked := marked + {npc.Seat()};
    }
  }

  class Game {
    /** `desks[y, x]` is the `occupied` flag of the desk in row `y`, column `x`. */
    const desks: array2<bool>
    /** The set of taken desks, kept in step with `desks`. */
    ghost var occupied: set<Cell>

    var playerX: int
    var playerY: int
    var laptopOpen: bool
    var lecturerX: real
    var lecturerY: real
    /** `lecturer.targetX` / `targetY`: the retreat target, None while null. */
    var lecturerTarget: Option<Cell>
    var lecturerCooldown: int
    var score: int
    var timeLeft: int
    var gameOver: bool
    const npcs: seq<Npc>
    var distractionCooldown: int
    var mashCount: int
    var speechText: string
    var speechTimer: int
    var speechIndex: int

    /** The record's value. */
    ghost function Snapshot(): State
      reads this
    {
      State(Cell(playerX, playerY), laptopOpen, lecturerX, lecturerY, lecturerTarget,
            lecturerCooldown, score, timeLeft, occupied, gameOver, npcs,
            distractionCooldown, mashCount, speechText, speechTimer, speechIndex)
    }

    /** The grid has the game's dimensions and its flags are exactly the taken desks. */
    ghost predicate DesksMatch()
      reads `occupied, desks
    {
      && desks.Length0 == Height && desks.Length1 == Width
      && forall y, x :: 0 <= y < Height && 0 <= x < Width ==> (desks[y, x] <==> Cell(x, y) in occupied)
    }

    ghost predicate Valid()
      reads this, desks
    {
      DesksMatch() && Inv(Snapshot())
    }

    /** The page's setup: a grid of free desks, then the player's desk and each classmate's
        desk marked as taken (game.js lines 5-20 and 36-52). */
    constructor ()
      ensures Valid() && fresh(desks)
      ensures Snapshot() == Initial()
    {
      InitialValid();
      var player := Cell(2, 2);
      var d := NewDesks(player, InitialNpcs);
      desks := d;
      occupied := {player} + NpcCells(InitialNpcs);
      playerX, playerY, laptopOpen := player.x, player.y, true;
      lecturerX, lecturerY, lecturerTarget := 0.0, 0.0, None;
      score, timeLeft, gameOver := 0, GameFrames, false;
      npcs := InitialNpcs;
      distractionCooldown, mashCount, lecturerCooldown := 0, 0, 0;
      speechText, speechTimer, speechIndex := "", 0, 0;
      new;
      assert Snapshot() == Initial();
    }

    /** `getRandomEmptySpot()`: scans the grid row by row collecting the free desks, then
        picks the one at index `floor(rand * count)`, or the origin when there is none. */
    method GetRandomEmptySpot(rand: real) returns (spot: Cell)
      requires DesksMatch() && 0.0 <= rand < 1.0
      ensures spot == RandomEmptySpot(occupied, rand)
    {
      var emptySpots: seq<Cell> := [];
      for y := 0 to Height
        invariant emptySpots == FreeInRows(occupied, y)
      {
        for x := 0 to Width
          invariant emptySpots == FreeInRows(occupied, y) + FreeInRow(occupied, y, x)
        {
          if !desks[y, x] {
            emptySpots := emptySpots + [Cell(x, y)];
          }
        }
      }
      if |emptySpots| == 0 {
        spot := Cell(0, 0);
      } else {
        spot := emptySpots[RandomIndex(rand, |emptySpots|)];
      }
    }

    /** `update()`: one animation frame. */
    method Update(rand: real)
      requires Valid() && 0.0 <= rand < 1.0
      modifies this
      ensures Valid()
      ensures Snapshot() == Rules.Update(old(Snapshot()), rand)
    {
      if gameOver {
        return;
      }
      UpdatePreservesInv(Snapshot(), rand);
      SteerLecturer(rand);
      CountDown();
      CheckCatch(rand);
      CountScoreAndTime();
    }

    /** Target selection, then one step per axis toward the target (game.js lines 135-166). */
    method SteerLecturer(rand: real)
      requires DesksMatch() && 0.0 <= rand < 1.0
      modifies this
      ensures occupied == old(occupied)
      ensures Snapshot() == Steer(old(Snapshot()), rand)
    {
      ghost var s0 := Snapshot();
      ghost var aim := ChooseTarget(s0, rand);
      var goal: Option<Cell> := None;
      if distractionCooldown > 0 {
        var distracted := FirstOpenNpc(npcs);
        if distracted.Some? {
          goal := Some(distracted.value.Seat());
          lecturerTarget := None;
        }
        distractionCooldown := distractionCooldown - 1;
      } else if laptopOpen {
        goal := Some(Cell(playerX, playerY));
        lecturerTarget := None;
      } else {
        if lecturerTarget.None? || (Near(lecturerX, lecturerTarget.value.x as real)
                                     && Near(lecturerY, lecturerTarget.value.y as real)) {
          var retreatSpot := GetRandomEmptySpot(rand);
          lecturerTarget := Some(retreatSpot);
        }
        goal := lecturerTarget;
      }
      assert goal == aim.goal && lecturerTarget == aim.retreat;
      StepToward(goal);
    }

    /** One step per axis toward the goal; a missing goal leaves the lecturer where it is
        (lines 163-166). */
    method StepToward(goal: Option<Cell>)
      modifies this
      ensures occupied == old(occupied)
      ensures Snapshot() == StepLecturer(old(Snapshot()), goal)
    {
      if goal.Some? {
        var targetX, targetY := goal.value.x as real, goal.value.y as real;
        if lecturerX < targetX { lecturerX := lecturerX + Speed; }
        if lecturerX > targetX { lecturerX := lecturerX - Speed; }
        if lecturerY < targetY { lecturerY := lecturerY + Speed; }
        if lecturerY > targetY { lecturerY := lecturerY - Speed; }
      }
    }

    /** The catch cooldown and the speech bubble count down (lines 168-177). */
    method CountDown()
      modifies this
      ensures occupied == old(occupied)
      ensures Snapshot() == Tick(old(Snapshot()))
    {
      if lecturerCooldown > 0 {
        lecturerCooldown := lecturerCooldown - 1;
      }
      if speechTimer > 0 {
        speechTimer := speechTimer - 1;
        if speechTimer <= 0 {
          speechText := "";
        }
      }
    }

    /** The lecturer catches an open laptop it stands on (lines 179-191). */
    method CheckCatch(rand: real)
      requires DesksMatch() && 0.0 <= rand < 1.0 && 0 <= speechIndex < |LecturerLines|
      modifies this
      ensures occupied == old(occupied)
      ensures Snapshot() == Catch(old(Snapshot()), rand)
    {
      if Near(lecturerX, playerX as real) && Near(lecturerY, playerY as real) {
        if laptopOpen && lecturerCooldown <= 0 {
          var retreatSpot := GetRandomEmptySpot(rand);
          ScoldPlayer(retreatSpot);
        }
      }
    }

    /** The body of the catch: laptop shut, cooldown restarted, the next line spoken and a
        retreat to `spot` (lines 181-189). */
    method ScoldPlayer(spot: Cell)
      requires 0 <= speechIndex < |LecturerLines|
      modifies this
      ensures occupied == old(occupied)
      ensures Snapshot() == Scold(old(Snapshot()), spot)
    {
      ghost var s0 := Snapshot();
      var line := LecturerLines[speechIndex];
      assert Scold(s0, spot).speechText == line;
      laptopOpen := false;
      mashCount := 0;
      lecturerCooldown := CatchCooldownFrames;
      speechText := line;
      speechTimer := SpeechFrames;
      speechIndex := (speechIndex + 1) % |LecturerLines|;
      lecturerTarget := Some(spot);
    }

    /** Score and clock (lines 194-199). */
    method CountScoreAndTime()
      modifies this
      ensures occupied == old(occupied)
      ensures Snapshot() == Finish(old(Snapshot()))
    {
      if laptopOpen {
        score := score + 1;
      }
      timeLeft := timeLeft - 1;
      if timeLeft <= 0 {
        gameOver := true;
      }
    }

    /** The keydown handler. */
    method KeyDown(key: string)
      requires Valid()
      modifies this, desks
      ensures Valid()
      ensures Snapshot() == Rules.KeyDown(old(Snapshot()), key)
    {
      if gameOver {
        return;
      }
      KeyDownPreservesInv(Snapshot(), key);
      MovePlayer(key);
      MashSpace(key);
      TriggerDistraction(key);
    }

    /** Arrow keys: move into the proposed desk only if it is free, clearing the vacated desk
        and taking the entered one (lines 206-217). */
    method MovePlayer(key: string)
      requires DesksMatch() && InBounds(Cell(playerX, playerY))
      modifies this, desks
      ensures DesksMatch()
      ensures Snapshot() == Move(old(Snapshot()), key)
    {
      var newX, newY := playerX, playerY;
      if key == ArrowUp && playerY > 0 { newY := newY - 1; }
      if key == ArrowDown && playerY < Height - 1 { newY := newY + 1; }
      if key == ArrowLeft && playerX > 0 { newX := newX - 1; }
      if key == ArrowRight && playerX < Width - 1 { newX := newX + 1; }
      assert Cell(newX, newY) == Proposed(key, Cell(playerX, playerY));
      if !desks[newY, newX] {
        Relocate(newX, newY);
      }
    }

    /** The move itself: the vacated desk is freed and the entered one taken (lines 213-216). */
    method Relocate(newX: int, newY: int)
      requires DesksMatch() && InBounds(Cell(playerX, playerY)) && InBounds(Cell(newX, newY))
      modifies this, desks
      ensures DesksMatch()
      ensures occupied == old(occupied) - {old(Cell(playerX, playerY))} + {Cell(newX, newY)}
      ensures Snapshot() == old(Snapshot()).(player := Cell(newX, newY), occupied := occupied)
    {
      desks[playerY, playerX] := false;
      occupied := occupied - {Cell(playerX, playerY)};
      playerX, playerY := newX, newY;
      desks[newY, newX] := true;
      occupied := occupied + {Cell(newX, newY)};
    }

    /** Space while the laptop is closed counts towards reopening it (lines 219-229). */
    method MashSpace(key: string)
      modifies this
      ensures occupied == old(occupied)
      ensures Snapshot() == Mash(old(Snapshot()), key)
    {
      if key == Space && !laptopOpen {
        mashCount := mashCount + 1;
        if mashCount >= MashTarget {
          laptopOpen := true;
          mashCount := 0;
        }
      }
    }

    /** `r` distracts the lecturer when off cooldown and some laptop is open (lines 231-237). */
    method TriggerDistraction(key: string)
      modifies this
      ensures occupied == old(occupied)
      ensures Snapshot() == Distraction(old(Snapshot()), key)
    {
      if key == Distract && distractionCooldown <= 0 {
        var withLaptop := FirstOpenNpc(npcs);
        if withLaptop.Some? {
          distractionCooldown := DistractionFrames;
        }
      }
    }
  }
}
