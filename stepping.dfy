/** How the engine leaves a block (src/cpu.rs: `get_edges`, `choose_coord`,
    `step`, `execute_blk`, `try_step`), as functions of the old state. */
module Stepping {
  import opened Wrappers
  import opened PietBlocks
  import opened Directions
  import opened Opcodes
  import opened Semantics

  // ---------------------------------------------------------------------
  // Edges and the exit codel
  // ---------------------------------------------------------------------

  /** How far a codel lies in the direction `dp`. */
  function Along(c: Coord, dp: Direction): int
  {
    match dp
    case Right => c.0
    case Down => c.1
    case Left => -c.0
    case Up => -c.1
  }

  /** The key `choose_coord` sorts the edge by: the coordinate across `dp`. */
  function Across(c: Coord, dp: Direction): int
  {
    match dp
    case Left | Right => c.1
    case Up | Down => c.0
  }

  /** Two codels at the same place along and across `dp` are the same. */
  lemma AlongAcrossDetermine(a: Coord, b: Coord, dp: Direction)
    requires Along(a, dp) == Along(b, dp) && Across(a, dp) == Across(b, dp)
    ensures a == b
  {
  }

  /** A finite non-empty set of codels has one with the largest `key`. */
  lemma {:induction false} HasMax(s: set<Coord>, key: Coord -> int)
    requires s != {}
    ensures exists c :: c in s && forall d :: d in s ==> key(d) <= key(c)
    decreases |s|
  {
    var c :| c in s;
    if s == {c} {
      assert forall d :: d in s ==> key(d) <= key(c);
    } else {
      var rest := s - {c};
      assert |rest| < |s|;
      HasMax(rest, key);
      var e :| e in rest && forall d :: d in rest ==> key(d) <= key(e);
      assert s == rest + {c};
      if key(c) <= key(e) {
        assert e in s && forall d :: d in s ==> key(d) <= key(e);
      } else {
        assert forall d :: d in s ==> key(d) <= key(c);
      }
    }
  }

  /** The largest `Along` over a non-empty block. */
  function Furthest(coords: set<Coord>, dp: Direction): (m: int)
    requires coords != {}
    ensures exists c :: c in coords && Along(c, dp) == m
    ensures forall c :: c in coords ==> Along(c, dp) <= m
  {
    HasMax(coords, c => Along(c, dp));
    var c :| c in coords && forall d :: d in coords ==> Along(d, dp) <= Along(c, dp);
    Along(c, dp)
  }

  lemma EdgesNonEmpty(coords: set<Coord>, dp: Direction, m: int, edges: set<Coord>)
    requires exists c :: c in coords && Along(c, dp) == m
    requires forall c :: c in edges <==> c in coords && Along(c, dp) == m
    ensures edges != {}
  {
    var w :| w in coords && Along(w, dp) == m;
    assert w in edges;
  }

  /** `get_edges`: the codels of the block that lie furthest along `dp`
      (largest x for `Right`, smallest x for `Left`, and so on). */
  function GetEdges(coords: set<Coord>, dp: Direction): (edges: set<Coord>)
    requires coords != {}
    ensures edges != {}
    ensures forall c :: c in edges <==> c in coords && forall d :: d in coords ==> Along(d, dp) <= Along(c, dp)
  {
    var m := Furthest(coords, dp);
    var edges := set c: Coord | c in coords && Along(c, dp) == m;
    EdgesNonEmpty(coords, dp, m, edges);
    edges
  }

  /** Whether `choose_coord` takes the last codel of the sorted edge (the one
      with the largest key) rather than the first. */
  predicate PickLast(dp: Direction, cc: Direction)
  {
    (dp == Up || dp == Right) == (cc != Left)
  }

  /** The sort key of `choose_coord`, negated when it takes the first codel. */
  function Rank(c: Coord, dp: Direction, cc: Direction): int
  {
    if PickLast(dp, cc) then Across(c, dp) else -Across(c, dp)
  }

  /** `choose_coord`: the codel of the edge at the end the CC selects. The
      codels of an edge differ only across `dp`, so the sort has no ties and
      the choice is unique. */
  function ChooseCoord(edges: set<Coord>, dp: Direction, cc: Direction): (c: Coord)
    requires edges != {}
    requires forall a, b :: a in edges && b in edges ==> Along(a, dp) == Along(b, dp)
    ensures c in edges
    ensures forall e :: e in edges ==> if PickLast(dp, cc) then Across(e, dp) <= Across(c, dp)
                                                            else Across(c, dp) <= Across(e, dp)
  {
    HasMax(edges, c => Rank(c, dp, cc));
    RankDetermines(edges, dp, cc);
    var c :| c in edges && forall d :: d in edges ==> Rank(d, dp, cc) <= Rank(c, dp, cc);
    c
  }

  lemma RankDetermines(edges: set<Coord>, dp: Direction, cc: Direction)
    requires forall a, b :: a in edges && b in edges ==> Along(a, dp) == Along(b, dp)
    ensures forall a, b :: a in edges && b in edges && Rank(a, dp, cc) == Rank(b, dp, cc) ==> a == b
  {
    forall a, b | a in edges && b in edges && Rank(a, dp, cc) == Rank(b, dp, cc)
      ensures a == b
    {
      AlongAcrossDetermine(a, b, dp);
    }
  }

  /** The codel one codel-size step beyond `c` in direction `dp`. */
  function Advance(c: Coord, dp: Direction, cs: int): (r: Coord)
    ensures Along(r, dp) == Along(c, dp) + cs
    ensures Across(r, dp) == Across(c, dp)
  {
    var (x, y) := c;
    match dp
    case Right => (x + cs, y)
    case Down => (x, y + cs)
    case Left => (x - cs, y)
    case Up => (x, y - cs)
  }

  /** The codel through which the pointer leaves `blk`. */
  function ExitCodel(blk: Block, dp: Direction, cc: Direction): (c: Coord)
    requires blk.coords != {}
    ensures c in blk.coords
  {
    ChooseCoord(GetEdges(blk.coords, dp), dp, cc)
  }

  /** The exit codel lies on the far edge of the block along `dp` and at the
      end of that edge the CC selects. */
  lemma ExitCodelIsExtreme(blk: Block, dp: Direction, cc: Direction)
    requires blk.coords != {}
    ensures var c := ExitCodel(blk, dp, cc);
            && c in blk.coords
            && (forall d :: d in blk.coords ==> Along(d, dp) <= Along(c, dp))
            && (forall d :: d in blk.coords && Along(d, dp) == Along(c, dp) ==>
                  if PickLast(dp, cc) then Across(d, dp) <= Across(c, dp) else Across(c, dp) <= Across(d, dp))
  {
    var edges := GetEdges(blk.coords, dp);
    var c := ExitCodel(blk, dp, cc);
    forall d | d in blk.coords && Along(d, dp) == Along(c, dp)
      ensures d in edges
    {
    }
  }

  /** The codel the pointer tries to enter from the block holding `pc`. */
  function Target(code: Blocks, cs: int, pc: Coord, dp: Direction, cc: Direction): Coord
    requires code.Valid() && pc in code.lookup
  {
    Advance(ExitCodel(code.FindBlockFromIndex(pc).value, dp, cc), dp, cs)
  }

  /** With a positive codel size the target lies outside the current block. */
  lemma TargetLeavesBlock(code: Blocks, cs: int, pc: Coord, dp: Direction, cc: Direction)
    requires code.Valid() && pc in code.lookup && cs > 0
    ensures Target(code, cs, pc, dp, cc) !in code.blocks[code.lookup[pc]].coords
    ensures Target(code, cs, pc, dp, cc) != pc
  {
    var blk := code.blocks[code.lookup[pc]];
    ExitCodelIsExtreme(blk, dp, cc);
  }

  /** The move in direction `dp` with chooser `cc` is impossible: the target
      is off the program or black. */
  predicate Blocked(code: Blocks, cs: int, pc: Coord, dp: Direction, cc: Direction)
    requires code.Valid() && pc in code.lookup
  {
    match code.FindBlockFromIndex(Target(code, cs, pc, dp, cc))
    case None => true
    case Some(b) => b.t == Black
  }

  // ---------------------------------------------------------------------
  // One transition
  // ---------------------------------------------------------------------

  /** `execute_blk`: whether the transition from `curr` into `next` happens,
      running the command their colours encode. */
  function ExecuteBlk(m: Machine, curr: ViewableBlock, next: ViewableBlock, inp: InputLine): (r: Outcome<(Machine, bool)>)
    ensures r.Done? ==> (r.value.1 <==> next.t != Black)
    ensures r.Panicked? <==>
              && next.t.Color?
              && (|| curr.t == Black
                  || (curr.t.Color? &&
                      Execute(m.(lastCmd := None), curr, TypeOfExec(curr.t.l, curr.t.h, next.t.l, next.t.h), inp).Panicked?))
    ensures r.Done? && !(curr.t.Color? && next.t.Color?) ==> r.value.0 == m.(lastCmd := None)
    ensures r.Done? && curr.t.Color? && next.t.Color? ==>
              Done(r.value.0) == Execute(m.(lastCmd := None), curr, TypeOfExec(curr.t.l, curr.t.h, next.t.l, next.t.h), inp)
    ensures r.Done? ==> r.value.0.pc == m.pc
  {
    var m := m.(lastCmd := None);
    match next.t
    case Black => Done((m, false))
    case White => Done((m, true))
    case Color(l, h) =>
      match curr.t
      case Color(l0, h0) =>
        (match Execute(m, curr, TypeOfExec(l0, h0, l, h), inp)
         case Panicked(p) => Panicked(p)
         case Done(m') => Done((m', true)))
      case Black => Panicked(BlackCurrentBlock)
      case White => Done((m, true))
  }

  /** Leaving a light red block of four codels into a normal red block runs
      PUSH, which pushes the block size 4. */
  lemma PushFromLightRed(m: Machine, inp: InputLine)
    ensures var r := ExecuteBlk(m, ViewableBlock(Color(Light, Red), 4), ViewableBlock(Color(Normal, Red), 1), inp);
            r == Done((m.(lastCmd := Some(Push), stack := m.stack + [4]), true))
  {
  }

  /** `step`: one attempt to leave the current block with the current DP and
      CC. The boolean says whether the pointer moved. */
  function Step(m: Machine, code: Blocks, cs: int, inp: InputLine): (r: Outcome<(Machine, bool)>)
    requires code.Valid() && m.pc in code.lookup
    ensures r.Done? ==> r.value.0.pc in code.lookup
    ensures r.Done? && !r.value.1 ==> r.value.0.pc == m.pc
  {
    var blk := code.FindBlockFromIndex(m.pc).value;
    var target := Target(code, cs, m.pc, m.dp, m.cc);
    match code.FindBlockFromIndex(target)
    case None => Done((m, false))
    case Some(nextBlk) => Enter(m.(error := None, output := None), blk, nextBlk, target, inp)
  }

  /** The second half of `step`, once the target block is known: run the
      transition and, if it happened, move the pointer. */
  function Enter(m: Machine, blk: Block, nextBlk: Block, target: Coord, inp: InputLine): (r: Outcome<(Machine, bool)>)
    ensures r.Done? && !r.value.1 ==> r.value.0.pc == m.pc
    ensures r.Done? && r.value.1 ==> r.value.0.pc == target
  {
    match ExecuteBlk(m, blk.ToViewable(), nextBlk.ToViewable(), inp)
    case Panicked(p) => Panicked(p)
    case Done((m2, success)) =>
      if !success then Done((m2, false))
      else if m2.pc == target then Done((m2, false))
      else Done((m2.(pc := target), true))
  }

  /** A step fails exactly when the move is blocked. A target off the
      program changes nothing; a black target resets `error`, `output` and
      `lastCmd` and keeps the rest. */
  lemma StepFails(m: Machine, code: Blocks, cs: int, inp: InputLine)
    requires code.Valid() && m.pc in code.lookup && cs > 0
    ensures var r := Step(m, code, cs, inp);
            Blocked(code, cs, m.pc, m.dp, m.cc) <==> r.Done? && !r.value.1
    ensures code.FindBlockFromIndex(Target(code, cs, m.pc, m.dp, m.cc)).None? ==>
              Step(m, code, cs, inp) == Done((m, false))
    ensures var r := Step(m, code, cs, inp);
            code.FindBlockFromIndex(Target(code, cs, m.pc, m.dp, m.cc)).Some? && r.Done? && !r.value.1 ==>
              r.value.0 == m.(error := None, output := None, lastCmd := None)
  {
    var blk := code.blocks[code.lookup[m.pc]];
    TargetLeavesBlock(code, cs, m.pc, m.dp, m.cc);
  }

  /** A step that is not blocked either panics or moves the pointer to the
      target. Entering a white block, or leaving a white one, runs no
      command; a move between two colours runs the command their colours
      encode, after `error` and `output` are cleared. */
  lemma StepMoves(m: Machine, code: Blocks, cs: int, inp: InputLine)
    requires code.Valid() && m.pc in code.lookup && cs > 0
    requires !Blocked(code, cs, m.pc, m.dp, m.cc)
    ensures var r := Step(m, code, cs, inp);
            var target := Target(code, cs, m.pc, m.dp, m.cc);
            var curr := code.blocks[code.lookup[m.pc]];
            var next := code.blocks[code.lookup[target]];
            && (r.Done? ==> r.value.1 && r.value.0.pc == target)
            && (r.Done? && (curr.t == White || next.t == White) ==>
                  r.value.0 == m.(error := None, output := None, lastCmd := None, pc := target))
            && (r.Done? && curr.t.Color? && next.t.Color? ==>
                  var e := Execute(m.(error := None, output := None, lastCmd := None), curr.ToViewable(),
                                   TypeOfExec(curr.t.l, curr.t.h, next.t.l, next.t.h), inp);
                  e.Done? && r.value.0 == e.value.(pc := target))
  {
    TargetLeavesBlock(code, cs, m.pc, m.dp, m.cc);
  }

  // ---------------------------------------------------------------------
  // The retry loop
  // ---------------------------------------------------------------------

  /** The state after failed attempt `i` of `try_step`: the CC is switched,
      and after every odd attempt the DP turned clockwise. */
  function AfterFailure(m: Machine, i: nat): (m': Machine)
    ensures m'.stack == m.stack && m'.pc == m.pc
  {
    m.(cc := SwitchCodel(m.cc, 1), dp := if i % 2 == 1 then Clockwise(m.dp) else m.dp)
  }

  /** `try_step` from attempt `i` on. */
  function TryFrom(m: Machine, code: Blocks, cs: int, inp: InputLine, i: nat): (r: Outcome<(Machine, bool)>)
    requires code.Valid() && m.pc in code.lookup && i < 8
    ensures r.Done? ==> r.value.0.pc in code.lookup
    decreases 8 - i
  {
    match Step(m, code, cs, inp)
    case Panicked(p) => Panicked(p)
    case Done((m1, moved)) =>
      if moved then Done((m1, true))
      else
        var m2 := AfterFailure(m1, i);
        if i == 7 then Done((m2, false)) else TryFrom(m2, code, cs, inp, i + 1)
  }

  /** `try_step`: up to eight attempts, turning the CC and DP between them. */
  function TryStep(m: Machine, code: Blocks, cs: int, inp: InputLine): Outcome<(Machine, bool)>
    requires code.Valid() && m.pc in code.lookup
  {
    TryFrom(m, code, cs, inp, 0)
  }

  /** The loop of `try_step` with the step left abstract, so that what the
      loop does is proved once from what is known of each single step. */
  ghost function Retry(step: Machine -> Outcome<(Machine, bool)>, m: Machine, i: nat): Outcome<(Machine, bool)>
    requires i < 8
    decreases 8 - i
  {
    match step(m)
    case Panicked(p) => Panicked(p)
    case Done((m1, moved)) =>
      if moved then Done((m1, true))
      else
        var m2 := AfterFailure(m1, i);
        if i == 7 then Done((m2, false)) else Retry(step, m2, i + 1)
  }

  /** `step` on a fixed program, as a function value. */
  ghost function StepOn(code: Blocks, cs: int, inp: InputLine): Machine -> Outcome<(Machine, bool)>
  {
    (m: Machine) => if code.Valid() && m.pc in code.lookup then Step(m, code, cs, inp) else Done((m, false))
  }

  /** `Blocked` at a fixed program and pointer, as a function value. */
  ghost function BlockedAt(code: Blocks, cs: int, pc: Coord): (Direction, Direction) -> bool
  {
    (d: Direction, c: Direction) => code.Valid() && pc in code.lookup && Blocked(code, cs, pc, d, c)
  }

  /** The schedule of `try_step`: attempt `j` uses `DpAt` and `CcAt`. */
  ghost function Schedule(dp: Direction, cc: Direction): nat -> (Direction, Direction)
  {
    (j: nat) => (DpAt(dp, j), CcAt(cc, j))
  }

  lemma {:induction false} TryFromIsRetry(m: Machine, code: Blocks, cs: int, inp: InputLine, i: nat)
    requires code.Valid() && m.pc in code.lookup && i < 8
    ensures TryFrom(m, code, cs, inp, i) == Retry(StepOn(code, cs, inp), m, i)
    decreases 8 - i
  {
    var r := Step(m, code, cs, inp);
    assert StepOn(code, cs, inp)(m) == r;
    if r.Done? && !r.value.1 && i < 7 {
      TryFromIsRetry(AfterFailure(r.value.0, i), code, cs, inp, i + 1);
    }
  }

  /** A step from `m` fails exactly when `blockedHere`, and a failed step
      keeps the DP, CC, stack and pointer. */
  ghost predicate FailsIff(r: Outcome<(Machine, bool)>, m: Machine, blockedHere: bool)
  {
    && ((r.Done? && !r.value.1) <==> blockedHere)
    && (r.Done? && !r.value.1 ==>
          r.value.0.dp == m.dp && r.value.0.cc == m.cc && r.value.0.stack == m.stack && r.value.0.pc == m.pc)
  }

  /** Along the run of the loop from attempt `i`, every attempt uses the DP
      and CC of the schedule and its step behaves as `FailsIff` says. */
  ghost predicate Conforms(step: Machine -> Outcome<(Machine, bool)>, blocked: (Direction, Direction) -> bool,
                           sched: nat -> (Direction, Direction), m: Machine, i: nat)
    decreases 8 - i
  {
    && (m.dp, m.cc) == sched(i)
    && (i < 8 ==>
          && FailsIff(step(m), m, blocked(m.dp, m.cc))
          && (step(m).Done? && !step(m).value.1 ==>
                Conforms(step, blocked, sched, AfterFailure(step(m).value.0, i), i + 1)))
  }

  /** Every attempt from `i` to 7 of the schedule is blocked. */
  ghost predicate AllBlocked(blocked: (Direction, Direction) -> bool, sched: nat -> (Direction, Direction), i: nat)
    decreases 8 - i
  {
    i >= 8 || (blocked(sched(i).0, sched(i).1) && AllBlocked(blocked, sched, i + 1))
  }

  /** From attempt `i` on, the loop gives up exactly when every remaining
      attempt of the schedule is blocked, and then hands back the DP and CC
      of attempt 8 and the old stack and pointer. */
  lemma {:induction false} RetryFails(step: Machine -> Outcome<(Machine, bool)>, blocked: (Direction, Direction) -> bool,
                                      sched: nat -> (Direction, Direction), m: Machine, i: nat)
    requires i < 8 && Conforms(step, blocked, sched, m, i)
    ensures var r := Retry(step, m, i);
            (r.Done? && !r.value.1) <==> AllBlocked(blocked, sched, i)
    ensures var r := Retry(step, m, i);
            r.Done? && !r.value.1 ==>
              && (r.value.0.dp, r.value.0.cc) == sched(8)
              && r.value.0.stack == m.stack && r.value.0.pc == m.pc
    decreases 8 - i
  {
    var r := step(m);
    if r.Done? && !r.value.1 && i < 7 {
      RetryFails(step, blocked, sched, AfterFailure(r.value.0, i), i + 1);
    }
  }

  /** The concrete step conforms to the schedule from attempt `i` on. */
  lemma {:induction false} StepOnConforms(code: Blocks, cs: int, inp: InputLine, dp0: Direction, cc0: Direction,
                                          m: Machine, i: nat)
    requires code.Valid() && m.pc in code.lookup && cs > 0 && i <= 8
    requires cc0 == Left || cc0 == Right
    requires (m.dp, m.cc) == Schedule(dp0, cc0)(i)
    ensures Conforms(StepOn(code, cs, inp), BlockedAt(code, cs, m.pc), Schedule(dp0, cc0), m, i)
    decreases 8 - i
  {
    if i < 8 {
      var r := Step(m, code, cs, inp);
      assert StepOn(code, cs, inp)(m) == r;
      StepFails(m, code, cs, inp);
      if r.Done? && !r.value.1 {
        ScheduleStep(dp0, cc0, i);
        StepOnConforms(code, cs, inp, dp0, cc0, AfterFailure(r.value.0, i), i + 1);
      }
    }
  }

  lemma {:induction false} AllBlockedIff(blocked: (Direction, Direction) -> bool, sched: nat -> (Direction, Direction), i: nat)
    ensures AllBlocked(blocked, sched, i) <==> forall j :: i <= j < 8 ==> blocked(sched(j).0, sched(j).1)
    decreases 8 - i
  {
    if i < 8 {
      AllBlockedIff(blocked, sched, i + 1);
      assert (forall j :: i <= j < 8 ==> blocked(sched(j).0, sched(j).1)) <==>
             blocked(sched(i).0, sched(i).1) && (forall j :: i + 1 <= j < 8 ==> blocked(sched(j).0, sched(j).1));
    }
  }

  /** If the eight attempts are blocked, so is every DP/CC pair. */
  lemma ScheduleBlocksAll(blocked: (Direction, Direction) -> bool, dp: Direction, cc: Direction)
    requires cc == Left || cc == Right
    requires forall j :: 0 <= j < 8 ==> blocked(Schedule(dp, cc)(j).0, Schedule(dp, cc)(j).1)
    ensures forall d: Direction, c: Direction | c == Left || c == Right :: blocked(d, c)
  {
    forall d: Direction, c: Direction | c == Left || c == Right
      ensures blocked(d, c)
    {
      ScheduleCoversAll(dp, cc, d, c);
      var j :| 0 <= j < 8 && DpAt(dp, j) == d && CcAt(cc, j) == c;
      assert Schedule(dp, cc)(j) == (d, c);
    }
  }

  /** If every DP/CC pair is blocked, so are the eight attempts. */
  lemma AllBlockSchedule(blocked: (Direction, Direction) -> bool, dp: Direction, cc: Direction)
    requires cc == Left || cc == Right
    requires forall d: Direction, c: Direction | c == Left || c == Right :: blocked(d, c)
    ensures forall j :: 0 <= j < 8 ==> blocked(Schedule(dp, cc)(j).0, Schedule(dp, cc)(j).1)
  {
    forall j | 0 <= j < 8
      ensures blocked(Schedule(dp, cc)(j).0, Schedule(dp, cc)(j).1)
    {
      assert Schedule(dp, cc)(j) == (DpAt(dp, j), CcAt(cc, j));
      assert CcAt(cc, j) == Left || CcAt(cc, j) == Right;
    }
  }

  /** The eight attempts of the schedule are all blocked exactly when every
      DP/CC pair is. */
  lemma ScheduleBlockedIff(blocked: (Direction, Direction) -> bool, dp: Direction, cc: Direction)
    requires cc == Left || cc == Right
    ensures AllBlocked(blocked, Schedule(dp, cc), 0) <==>
            forall d: Direction, c: Direction | c == Left || c == Right :: blocked(d, c)
  {
    AllBlockedIff(blocked, Schedule(dp, cc), 0);
    if AllBlocked(blocked, Schedule(dp, cc), 0) {
      ScheduleBlocksAll(blocked, dp, cc);
    }
    if forall d: Direction, c: Direction | c == Left || c == Right :: blocked(d, c) {
      AllBlockSchedule(blocked, dp, cc);
    }
  }

  /** The loop with the concrete step gives up exactly when every DP/CC
      pair is blocked, and then restores the DP, CC, stack and pointer. */
  lemma RetryStepOn(m: Machine, code: Blocks, cs: int, inp: InputLine)
    requires code.Valid() && m.pc in code.lookup && cs > 0
    requires m.cc == Left || m.cc == Right
    ensures var r := Retry(StepOn(code, cs, inp), m, 0);
            (r.Done? && !r.value.1) <==>
              forall d: Direction, c: Direction | c == Left || c == Right :: BlockedAt(code, cs, m.pc)(d, c)
    ensures var r := Retry(StepOn(code, cs, inp), m, 0);
            r.Done? && !r.value.1 ==>
              r.value.0.dp == m.dp && r.value.0.cc == m.cc && r.value.0.stack == m.stack && r.value.0.pc == m.pc
  {
    var blocked := BlockedAt(code, cs, m.pc);
    var sched := Schedule(m.dp, m.cc);
    assert (m.dp, m.cc) == sched(0) by {
      IndexInjective(DpAt(m.dp, 0), m.dp);
    }
    assert sched(8) == (m.dp, m.cc) by {
      ScheduleRestores(m.dp, m.cc);
    }
    StepOnConforms(code, cs, inp, m.dp, m.cc, m, 0);
    RetryFails(StepOn(code, cs, inp), blocked, sched, m, 0);
    ScheduleBlockedIff(blocked, m.dp, m.cc);
  }

  /** `try_step` returns false only after eight blocked attempts, one for
      each DP/CC pair, and then the DP, CC, stack and pointer are those it
      started with. */
  lemma TryStepFails(m: Machine, code: Blocks, cs: int, inp: InputLine)
    requires code.Valid() && m.pc in code.lookup && cs > 0
    requires m.cc == Left || m.cc == Right
    ensures var r := TryStep(m, code, cs, inp);
            (r.Done? && !r.value.1) <==>
              forall d: Direction, c: Direction | c == Left || c == Right :: Blocked(code, cs, m.pc, d, c)
    ensures var r := TryStep(m, code, cs, inp);
            r.Done? && !r.value.1 ==>
              r.value.0.dp == m.dp && r.value.0.cc == m.cc && r.value.0.stack == m.stack && r.value.0.pc == m.pc
  {
    TryFromIsRetry(m, code, cs, inp, 0);
    RetryStepOn(m, code, cs, inp);
    var blocked := BlockedAt(code, cs, m.pc);
    assert forall d: Direction, c: Direction :: blocked(d, c) == Blocked(code, cs, m.pc, d, c);
  }

  /** A successful `try_step` leaves the pointer in a different block. */
  lemma {:induction false} TryFromMovesOn(m: Machine, code: Blocks, cs: int, inp: InputLine, i: nat)
    requires code.Valid() && m.pc in code.lookup && cs > 0 && i < 8
    ensures var r := TryFrom(m, code, cs, inp, i);
            r.Done? && r.value.1 ==> code.lookup[r.value.0.pc] != code.lookup[m.pc]
    decreases 8 - i
  {
    var r := Step(m, code, cs, inp);
    if r.Done? {
      if r.value.1 {
        StepFails(m, code, cs, inp);
        StepMoves(m, code, cs, inp);
        TargetLeavesBlock(code, cs, m.pc, m.dp, m.cc);
      } else if i < 7 {
        TryFromMovesOn(AfterFailure(r.value.0, i), code, cs, inp, i + 1);
      }
    }
  }
}
