/**
 The tables of claimed objective cells: `targets` says which cell each hero is
 heading for, `targeted` which hero each cell is reserved for.
 */
module Reservations {
  import opened Wrappers
  import opened Grid
  import opened Heroes
  import opened Areas
  import Pathfinding

  const NOBODY: int := -1

  /** Both tables as values. */
  datatype State = State(targeted: map<Pos, int>, targets: seq<Option<Pos>>)

  /** The tables cover the map and all heroes. */
  ghost predicate Sized(m: Map, s: State) {
    |s.targets| == HEROES && forall p :: p in s.targeted <==> m.InMap(p)
  }

  /** The invariant: what a hero is heading for is reserved for it. */
  ghost predicate Reserved(m: Map, s: State) {
    && Sized(m, s)
    && forall h | 0 <= h < HEROES && s.targets[h].Some? :: m.InMap(s.targets[h].value) && s.targeted[s.targets[h].value] == h
  }

  // ---------- one choice, one round of deaths ----------

  /** The hero may claim the cell. */
  ghost predicate Eligible(m: Map, s: State, h: nat, p: Pos)
    requires Sized(m, s)
  {
    m.InMap(p) && !m.IsWall(p) && (s.targeted[p] == NOBODY || s.targeted[p] == h)
  }

  /** The cell is the nearest one the hero may claim, the first of several. */
  ghost predicate Nearest(m: Map, s: State, h: nat, at: Pos, cells: seq<Pos>, i: nat)
    requires Sized(m, s)
  {
    && i < |cells| && Eligible(m, s, h, cells[i])
    && forall j | 0 <= j < |cells| && Eligible(m, s, h, cells[j]) ::
         Manhattan(cells[i], at) < Manhattan(cells[j], at) || (Manhattan(cells[i], at) == Manhattan(cells[j], at) && i <= j)
  }

  /** The hero heads for a cell. */
  function Claim(s: State, h: nat, p: Pos): State
    requires h < |s.targets|
  {
    State(s.targeted[p := h], s.targets[h := Some(p)])
  }

  /** A hero has died: its current target is released. */
  function Release(s: State, h: nat): State
    requires h < |s.targets|
  {
    State(if s.targets[h].Some? then s.targeted[s.targets[h].value := NOBODY] else s.targeted, s.targets[h := None])
  }

  predicate Ours(heroes: seq<nat>) {
    forall i | 0 <= i < |heroes| :: heroes[i] < HEROES
  }

  function ReleaseAll(s: State, dead: seq<nat>): (r: State)
    requires |s.targets| == HEROES && Ours(dead)
    ensures |r.targets| == |s.targets|
    decreases |dead|
  {
    if dead == [] then s
    else Release(ReleaseAll(s, dead[..|dead| - 1]), dead[|dead| - 1])
  }

  lemma ClaimKeeps(m: Map, s: State, h: nat, p: Pos)
    requires Reserved(m, s) && h < HEROES && Eligible(m, s, h, p)
    ensures Reserved(m, Claim(s, h, p))
  {
  }

  lemma ReleaseKeeps(m: Map, s: State, h: nat)
    requires Reserved(m, s) && h < HEROES
    ensures Reserved(m, Release(s, h))
  {
  }

  lemma {:induction false} ReleaseAllKeeps(m: Map, s: State, dead: seq<nat>)
    requires Reserved(m, s) && Ours(dead)
    ensures Reserved(m, ReleaseAll(s, dead))
    decreases |dead|
  {
    if dead != [] {
      ReleaseAllKeeps(m, s, dead[..|dead| - 1]);
      ReleaseKeeps(m, ReleaseAll(s, dead[..|dead| - 1]), dead[|dead| - 1]);
    }
  }

  /** What a round of deaths leaves: no dead hero has a target, the cells they held are free, all else is as before. */
  ghost predicate Freed(m: Map, s: State, dead: seq<nat>, r: State)
    requires Sized(m, s)
  {
    && Sized(m, r)
    && (forall h | 0 <= h < HEROES :: r.targets[h] == if h in dead then None else s.targets[h])
    && (forall p | m.InMap(p) :: r.targeted[p] == if HeldByDead(s, dead, p) then -1 else s.targeted[p])
  }

  predicate HeldByDead(s: State, dead: seq<nat>, p: Pos) {
    exists h :: h in dead && h < |s.targets| && s.targets[h] == Some(p)
  }

  lemma {:induction false} ReleaseAllFrees(m: Map, s: State, dead: seq<nat>)
    requires Reserved(m, s) && Ours(dead)
    ensures Freed(m, s, dead, ReleaseAll(s, dead))
    decreases |dead|
  {
    if dead != [] {
      var before, h := dead[..|dead| - 1], dead[|dead| - 1];
      assert dead == before + [h];
      ReleaseAllFrees(m, s, before);
      ReleaseAllKeeps(m, s, before);
      OneMoreFreed(m, s, before, h, ReleaseAll(s, before));
    }
  }

  lemma OneMoreFreed(m: Map, s: State, before: seq<nat>, h: nat, r: State)
    requires Reserved(m, s) && Ours(before) && h < HEROES && Freed(m, s, before, r)
    ensures Freed(m, s, before + [h], Release(r, h))
  {
    forall p | m.InMap(p)
      ensures HeldByDead(s, before + [h], p) <==> HeldByDead(s, before, p) || s.targets[h] == Some(p)
    {
      if g :| g in before + [h] && g < |s.targets| && s.targets[g] == Some(p) {
        assert g in before || g == h;
      }
      if s.targets[h] == Some(p) { assert h in before + [h]; }
      if g :| g in before && g < |s.targets| && s.targets[g] == Some(p) { assert g in before + [h]; }
    }
  }

  // ---------- whole games ----------

  /** What can happen to the tables in the course of a game. */
  datatype Event = Chooses(hero: nat, cell: Pos) | Die(dead: seq<nat>)

  ghost predicate Step(m: Map, s: State, e: Event, s': State)
    requires Sized(m, s)
  {
    match e
    case Chooses(h, p) => h < HEROES && Eligible(m, s, h, p) && s' == Claim(s, h, p)
    case Die(dead) => Ours(dead) && s' == ReleaseAll(s, dead)
  }

  function Initial(m: Map): State {
    State(map p | p in Cells(m) :: NOBODY, seq(HEROES, i => None))
  }

  /** A game: each state follows from the one before by the event between them. */
  ghost predicate Game(m: Map, states: seq<State>, events: seq<Event>) {
    && |states| == |events| + 1
    && (forall i | 0 <= i < |states| :: Sized(m, states[i]))
    && (forall i | 0 <= i < |events| :: Step(m, states[i], events[i], states[i + 1]))
  }

  lemma StepKeeps(m: Map, s: State, e: Event, s': State)
    requires Reserved(m, s) && Step(m, s, e, s')
    ensures Reserved(m, s')
  {
    match e
    case Chooses(h, p) => ClaimKeeps(m, s, h, p);
    case Die(dead) => ReleaseAllKeeps(m, s, dead);
  }

  lemma {:induction false} ReservedThroughout(m: Map, states: seq<State>, events: seq<Event>, i: nat)
    requires Game(m, states, events) && states[0] == Initial(m) && i < |states|
    ensures Reserved(m, states[i])
  {
    if i > 0 {
      ReservedThroughout(m, states, events, i - 1);
      StepKeeps(m, states[i - 1], events[i - 1], states[i]);
    }
  }

  /** In every state of a game that starts as preProc leaves it, targets are reserved, so no two heroes head for the same cell. */
  lemma GameKeepsReservations(m: Map, states: seq<State>, events: seq<Event>, i: nat)
    requires Game(m, states, events) && states[0] == Initial(m) && i < |states|
    ensures Reserved(m, states[i])
    ensures forall g, h | 0 <= g < h < HEROES && states[i].targets[g].Some? :: states[i].targets[g] != states[i].targets[h]
  {
    ReservedThroughout(m, states, events, i);
  }

  // ---------- reservations that are never released ----------

  /** Reserved for a hero that is heading elsewhere, or nowhere. */
  ghost predicate Leaked(m: Map, s: State, h: nat, p: Pos)
    requires Sized(m, s)
  {
    m.InMap(p) && h < HEROES && s.targeted[p] == h && s.targets[h] != Some(p)
  }

  /** Every reservation is somebody's target. */
  ghost predicate NoLeak(m: Map, s: State)
    requires Sized(m, s)
  {
    forall p | m.InMap(p) && s.targeted[p] != NOBODY :: 0 <= s.targeted[p] < HEROES && s.targets[s.targeted[p]] == Some(p)
  }

  lemma ReleaseHasNoLeak(m: Map, s: State, h: nat)
    requires Reserved(m, s) && NoLeak(m, s) && h < HEROES
    ensures Sized(m, Release(s, h)) && NoLeak(m, Release(s, h))
  {
  }

  lemma {:induction false} ReleaseAllHasNoLeak(m: Map, s: State, dead: seq<nat>)
    requires Reserved(m, s) && NoLeak(m, s) && Ours(dead)
    ensures Sized(m, ReleaseAll(s, dead)) && NoLeak(m, ReleaseAll(s, dead))
    decreases |dead|
  {
    if dead != [] {
      var rest := dead[..|dead| - 1];
      ReleaseAllHasNoLeak(m, s, rest);
      ReleaseAllKeeps(m, s, rest);
      ReleaseHasNoLeak(m, ReleaseAll(s, rest), dead[|dead| - 1]);
    }
  }

  /** A step leaks a reservation exactly if a hero changes from one target to another. */
  lemma WhenAStepLeaks(m: Map, s: State, e: Event, s': State)
    requires Reserved(m, s) && NoLeak(m, s) && Step(m, s, e, s')
    ensures Sized(m, s')
    ensures NoLeak(m, s') <==> (e.Chooses? ==> s.targets[e.hero].None? || s.targets[e.hero] == Some(e.cell))
  {
    match e
    case Chooses(h, p) =>
      if s.targets[h].Some? && s.targets[h] != Some(p) {
        var q := s.targets[h].value;
        assert s'.targeted[q] == h && s'.targets[h] == Some(p);
      }
    case Die(dead) => ReleaseAllHasNoLeak(m, s, dead);
  }

  /** The hero stays where it is, or the nearest cell it may claim, the first of several, is the one it is heading for. */
  ghost predicate KeepsItsTarget(m: Map, s: State, h: nat, at: Pos, inZone: bool, cells: seq<Pos>)
    requires Sized(m, s) && h < HEROES
  {
    inZone || s.targets[h].None? || (forall p | p in cells :: !Eligible(m, s, h, p))
    || exists i: nat :: Nearest(m, s, h, at, cells, i) && s.targets[h] == Some(cells[i])
  }

  lemma NearestIsUnique(m: Map, s: State, h: nat, at: Pos, cells: seq<Pos>, i: nat, j: nat)
    requires Sized(m, s) && Nearest(m, s, h, at, cells, i) && Nearest(m, s, h, at, cells, j)
    ensures i == j
  {
  }

  /** The choice of a cell leaks exactly where the hero does not keep its target. */
  lemma WhenAChoiceLeaks(m: Map, s: State, h: nat, at: Pos, cells: seq<Pos>, i: nat)
    requires Reserved(m, s) && NoLeak(m, s) && h < HEROES && Nearest(m, s, h, at, cells, i)
    ensures Sized(m, Claim(s, h, cells[i]))
    ensures NoLeak(m, Claim(s, h, cells[i])) <==> KeepsItsTarget(m, s, h, at, false, cells)
  {
    WhenAStepLeaks(m, s, Chooses(h, cells[i]), Claim(s, h, cells[i]));
    assert cells[i] in cells;
    forall j: nat | Nearest(m, s, h, at, cells, j) ensures j == i {
      NearestIsUnique(m, s, h, at, cells, i, j);
    }
  }

  lemma ReleaseKeepsLeak(m: Map, s: State, dead: nat, h: nat, p: Pos)
    requires Reserved(m, s) && dead < HEROES && Leaked(m, s, h, p)
    ensures Sized(m, Release(s, dead)) && Leaked(m, Release(s, dead), h, p)
  {
  }

  lemma {:induction false} ReleaseAllKeepsLeak(m: Map, s: State, dead: seq<nat>, h: nat, p: Pos)
    requires Reserved(m, s) && Leaked(m, s, h, p) && Ours(dead)
    ensures Sized(m, ReleaseAll(s, dead)) && Leaked(m, ReleaseAll(s, dead), h, p)
    decreases |dead|
  {
    if dead != [] {
      var rest := dead[..|dead| - 1];
      ReleaseAllKeepsLeak(m, s, rest, h, p);
      ReleaseAllKeeps(m, s, rest);
      ReleaseKeepsLeak(m, ReleaseAll(s, rest), dead[|dead| - 1], h, p);
    }
  }

  lemma StepKeepsLeak(m: Map, s: State, e: Event, s': State, h: nat, p: Pos)
    requires Reserved(m, s) && Step(m, s, e, s') && Leaked(m, s, h, p) && e != Chooses(h, p)
    ensures Sized(m, s') && Leaked(m, s', h, p)
  {
    if e.Die? {
      ReleaseAllKeepsLeak(m, s, e.dead, h, p);
    }
  }

  lemma LeakOneMore(m: Map, states: seq<State>, events: seq<Event>, h: nat, p: Pos, k: nat)
    requires Game(m, states, events) && states[0] == Initial(m) && k < |events|
    requires Leaked(m, states[k], h, p) && events[k] != Chooses(h, p)
    ensures Leaked(m, states[k + 1], h, p)
  {
    ReservedThroughout(m, states, events, k);
    StepKeepsLeak(m, states[k], events[k], states[k + 1], h, p);
  }

  /** A leaked reservation lasts, through deaths and all other choices, until the hero chooses that very cell again. */
  lemma {:induction false} LeakLasts(m: Map, states: seq<State>, events: seq<Event>, h: nat, p: Pos, i: nat, j: nat)
    requires Game(m, states, events) && states[0] == Initial(m) && i <= j < |states|
    requires Leaked(m, states[i], h, p) && forall k | i <= k < j :: events[k] != Chooses(h, p)
    ensures Leaked(m, states[j], h, p)
  {
    if i < j {
      LeakLasts(m, states, events, h, p, i, j - 1);
      LeakOneMore(m, states, events, h, p, j - 1);
    }
  }

  // ---------- the tables ----------

  class Tables {
    const m: Map
    const targeted: array2<int>
    const targets: array<Option<Pos>>

    ghost predicate Valid() {
      targeted.Length0 == m.rows && targeted.Length1 == m.cols && targets.Length == HEROES
    }

    ghost function Contents(): State
      requires Valid()
      reads targeted, targets
    {
      State(map p | p in Cells(m) :: targeted[p.row, p.col], targets[..])
    }

    /** preProc. */
    constructor (m: Map)
      ensures Valid() && this.m == m && Contents() == Initial(m)
    {
      this.m := m;
      targeted := new int[m.rows, m.cols]((i, j) => NOBODY);
      targets := new Option<Pos>[HEROES](i => None);
    }

    /** The loop of moveTowardTheZone: where the nearest cell is that the hero may claim, the first of several. */
    method FindNearest(hero: nat, at: Pos, objectiveCells: seq<Pos>) returns (best: Option<nat>)
      requires Valid() && hero < HEROES && forall p | p in objectiveCells :: m.InMap(p)
      ensures best.None? ==> forall p | p in objectiveCells :: !Eligible(m, Contents(), hero, p)
      ensures best.Some? ==> Nearest(m, Contents(), hero, at, objectiveCells, best.value)
    {
      var minDist: Option<nat> := None;
      best := None;
      for i := 0 to |objectiveCells|
        invariant minDist.Some? == best.Some?
        invariant best.None? ==> forall j | 0 <= j < i :: !Eligible(m, Contents(), hero, objectiveCells[j])
        invariant best.Some? ==> best.value < i && minDist == Some(Manhattan(objectiveCells[best.value], at))
                                 && Nearest(m, Contents(), hero, at, objectiveCells[..i], best.value)
      {
        var p := objectiveCells[i];
        assert p in objectiveCells && objectiveCells[..i + 1] == objectiveCells[..i] + [p];
        if (minDist.None? || Manhattan(p, at) < minDist.value) && !m.IsWall(p)
           && (targeted[p.row, p.col] == NOBODY || targeted[p.row, p.col] == hero) {
          best, minDist := Some(i), Some(Manhattan(p, at));
        }
      }
      assert objectiveCells[..|objectiveCells|] == objectiveCells;
    }

    /** moveTowardTheZone as far as the tables go; the cell the hero heads for. */
    method ChooseTarget(hero: nat, at: Pos, inZone: bool, objectiveCells: seq<Pos>) returns (minCell: Option<Pos>)
      requires Valid() && hero < HEROES && forall p | p in objectiveCells :: m.InMap(p)
      modifies targeted, targets
      ensures minCell.None? ==> Contents() == old(Contents())
      ensures minCell.None? <==> inZone || forall p | p in objectiveCells :: !Eligible(m, old(Contents()), hero, p)
      ensures minCell.Some? ==> Contents() == Claim(old(Contents()), hero, minCell.value)
      ensures minCell.Some? ==>
        exists i: nat :: Nearest(m, old(Contents()), hero, at, objectiveCells, i) && objectiveCells[i] == minCell.value
      ensures old(Reserved(m, Contents()) && NoLeak(m, Contents())) ==>
        (NoLeak(m, Contents()) <==> KeepsItsTarget(m, old(Contents()), hero, at, inZone, objectiveCells))
    {
      if inZone {
        return None;
      }
      var best := FindNearest(hero, at, objectiveCells);
      if best.None? {
        return None;
      }
      minCell := Some(objectiveCells[best.value]);
      ghost var before := Contents();
      assert minCell.value in objectiveCells && Eligible(m, before, hero, minCell.value);
      if Reserved(m, before) && NoLeak(m, before) {
        WhenAChoiceLeaks(m, before, hero, at, objectiveCells, best.value);
      }
      Record(hero, minCell.value);
    }

    /** The two assignments. */
    method Record(hero: nat, p: Pos)
      requires Valid() && hero < HEROES && m.InMap(p)
      modifies targeted, targets
      ensures Contents() == Claim(old(Contents()), hero, p)
    {
      targets[hero] := Some(p);
      targeted[p.row, p.col] := hero;
    }

    /** moveTowardTheZone: a claim, and the first step of a shortest way there around the other heroes. */
    method MoveTowardTheZone(hero: nat, at: Pos, inZone: bool, objectiveCells: seq<Pos>, others: seq<Pos>)
      returns (direction: Option<Direction>, ghost minCell: Option<Pos>)
      requires Valid() && hero < HEROES && m.InMap(at) && forall p | p in objectiveCells :: m.InMap(p)
      modifies targeted, targets
      ensures minCell.None? ==> Contents() == old(Contents()) && direction.None?
      ensures minCell.None? <==> inZone || forall p | p in objectiveCells :: !Eligible(m, old(Contents()), hero, p)
      ensures minCell.Some? ==>
        && Contents() == Claim(old(Contents()), hero, minCell.value)
        && exists i: nat :: Nearest(m, old(Contents()), hero, at, objectiveCells, i) && objectiveCells[i] == minCell.value
      ensures direction.Some? ==>
        minCell.Some? && exists dirs :: dirs != [] && dirs[0] == direction.value
                                        && Pathfinding.IsShortest(m, others, at, dirs, minCell.value)
      ensures minCell.Some? && direction.None? ==>
        minCell.value == at || m.IsWall(at) || at in others || minCell.value in others
        || Pathfinding.Unreachable(m, others, at, minCell.value)
    {
      var target := ChooseTarget(hero, at, inZone, objectiveCells);
      minCell := target;
      direction := None;
      if target.Some? {
        var heroCell := Pathfinding.Cell(Pathfinding.CopyCell(at), m.IsWall(at));
        var goal := Pathfinding.Cell(Pathfinding.MapCell(target.value), m.IsWall(target.value));
        var path := Pathfinding.GetPathMoveDirections(m, heroCell, goal, others);
        if |path| > 0 {
          direction := Some(path[0]);
        }
      }
    }

    /** deadProc. */
    method DeadProc(deads: seq<nat>)
      requires Valid() && Reserved(m, Contents()) && Ours(deads)
      modifies targeted, targets
      ensures Contents() == ReleaseAll(old(Contents()), deads) && Freed(m, old(Contents()), deads, Contents())
    {
      ghost var before := Contents();
      for i := 0 to |deads|
        invariant Contents() == ReleaseAll(before, deads[..i]) && Reserved(m, Contents())
      {
        var dead := deads[i];
        assert dead in deads && deads[..i + 1][..i] == deads[..i];
        ReleaseKeeps(m, Contents(), dead);
        ghost var after := Release(Contents(), dead);
        var targetCell := targets[dead];
        if targetCell.Some? {
          targeted[targetCell.value.row, targetCell.value.col] := NOBODY;
        }
        targets[dead] := None;
        assert Contents() == after;
      }
      assert deads[..|deads|] == deads;
      ReleaseAllFrees(m, before, deads);
    }
  }

  /** On a strip of five cells with both ends objective: from next to an end that is free the hero chooses that end. */
  lemma NearestOnStrip(s: State, right: bool)
    requires Sized(STRIP, s) && Eligible(STRIP, s, 0, Pos(0, if right then 4 else 0))
    ensures Nearest(STRIP, s, 0, Pos(0, if right then 3 else 1), [Pos(0, 0), Pos(0, 4)], if right then 1 else 0)
  {
  }

  const STRIP: Map := Map(1, 5, {})

  lemma TwoSteps(m: Map, s0: State, e: Event, s1: State, f: Event, s2: State)
    requires Sized(m, s0) && Sized(m, s1) && Sized(m, s2) && Step(m, s0, e, s1) && Step(m, s1, f, s2)
    ensures Game(m, [s0, s1, s2], [e, f])
  {
    var states, events := [s0, s1, s2], [e, f];
    forall i | 0 <= i < |events| ensures Step(m, states[i], events[i], states[i + 1]) {
      if i == 1 { assert states[2] == s2; }
    }
  }

  lemma StripClaims(s0: State)
    requires s0 == Initial(STRIP)
    ensures var s1 := Claim(s0, 0, Pos(0, 0));
            var s2 := Claim(s1, 0, Pos(0, 4));
            && Sized(STRIP, s0) && Sized(STRIP, s1) && Sized(STRIP, s2)
            && Eligible(STRIP, s0, 0, Pos(0, 0)) && Eligible(STRIP, s1, 0, Pos(0, 4)) && Leaked(STRIP, s2, 0, Pos(0, 0))
  {
  }

  /** A game in which a reservation leaks: a hero claims the one end and then, standing nearer to it, the other. */
  lemma LeakingGame() returns (states: seq<State>, events: seq<Event>)
    ensures |states| == 3 && Game(STRIP, states, events) && states[0] == Initial(STRIP)
    ensures events == [Chooses(0, Pos(0, 0)), Chooses(0, Pos(0, 4))]
    ensures Nearest(STRIP, states[0], 0, Pos(0, 1), [Pos(0, 0), Pos(0, 4)], 0)
    ensures Nearest(STRIP, states[1], 0, Pos(0, 3), [Pos(0, 0), Pos(0, 4)], 1)
    ensures Leaked(STRIP, states[2], 0, Pos(0, 0))
  {
    var s0 := Initial(STRIP);
    var s1 := Claim(s0, 0, Pos(0, 0));
    var s2 := Claim(s1, 0, Pos(0, 4));
    StripClaims(s0);
    TwoSteps(STRIP, s0, Chooses(0, Pos(0, 0)), s1, Chooses(0, Pos(0, 4)), s2);
    NearestOnStrip(s0, false);
    NearestOnStrip(s1, true);
    states, events := [s0, s1, s2], [Chooses(0, Pos(0, 0)), Chooses(0, Pos(0, 4))];
  }
}
