/**
 The bomb planner: level by level it collects the groups of enemies that one
 throw can hit, and proposes a throw for every group of the largest size.
 The ability is one that lobs, so every cell in range can be aimed at.
 */
module Planner {
  import opened FiniteSets
  import opened Grid
  import opened Heroes
  import opened Areas
  import opened Scores

  datatype ActionProperty = ActionProperty(priority: int, target: Pos, affected: set<int>, score: int)

  const MAX_LEVELS: nat := 4

  /** The throw under consideration. */
  datatype Throw = Throw(m: Map, hero: Pos, range: nat, aoe: nat, power: int)

  // ---------- who can be hit from where ----------

  /** Enemies worth throwing at and near enough, in order. */
  function Available(t: Throw, enemies: seq<Enemy>, damage: int -> int, extraNeed: int): (r: seq<Enemy>)
    ensures forall e :: e in r <==> e in enemies && IsAvailable(t, e, damage, extraNeed)
  {
    if enemies == [] then []
    else
      var rest := Available(t, enemies[1..], damage, extraNeed);
      if IsAvailable(t, enemies[0], damage, extraNeed) then [enemies[0]] + rest else rest
  }

  predicate IsAvailable(t: Throw, e: Enemy, damage: int -> int, extraNeed: int) {
    e.place.Some? && damage(e.id) + (e.maxHP - e.currentHP) < e.maxHP + extraNeed
    && Manhattan(t.hero, e.place.value) <= t.aoe + t.range
  }

  /** The cells the ability can be thrown at. */
  function InRange(t: Throw): set<Pos> {
    Diamond(t.m, t.hero, t.range)
  }

  /** The enemies near enough to a cell. */
  function Hit(t: Throw, es: seq<Enemy>, p: Pos): set<int>
    requires forall e | e in es :: e.place.Some?
  {
    set i | 0 <= i < |es| && Manhattan(es[i].place.value, p) <= t.aoe :: es[i].id
  }

  /** The cells from which all of the group are hit. */
  function Common(t: Throw, es: seq<Enemy>, group: set<int>): (s: set<Pos>)
    requires forall e | e in es :: e.place.Some?
    ensures forall p :: p in s <==> t.m.InMap(p) && forall i | 0 <= i < |es| :: es[i].id in group ==> Manhattan(es[i].place.value, p) <= t.aoe
  {
    set p | p in Cells(t.m) && forall i | 0 <= i < |es| :: es[i].id in group ==> Manhattan(es[i].place.value, p) <= t.aoe
  }

  function Ids(es: seq<Enemy>): set<int> {
    set i | 0 <= i < |es| :: es[i].id
  }

  /** Different heroes have different ids, and stand on the map. */
  predicate Lineup(t: Throw, es: seq<Enemy>) {
    && t.m.InMap(t.hero)
    && Distinct(es)
    && (forall e | e in es :: e.place.Some? ==> t.m.InMap(e.place.value))
  }

  /** Of those, the ones worth a throw. */
  predicate Targets(t: Throw, es: seq<Enemy>) {
    Lineup(t, es) && forall e | e in es :: e.place.Some? && Manhattan(t.hero, e.place.value) <= t.aoe + t.range
  }

  /** A group of the given size that one throw in range hits. */
  predicate Hittable(t: Throw, es: seq<Enemy>, group: set<int>, size: nat)
    requires Targets(t, es)
  {
    group <= Ids(es) && |group| == size && Common(t, es, group) * InRange(t) != {}
  }

  // ---------- levels ----------

  /** A level holds exactly the groups of one size that one throw in range hits, each with its common cells. */
  ghost predicate IsLevel(t: Throw, es: seq<Enemy>, level: seq<Intersection>, size: nat)
    requires Targets(t, es)
  {
    && (forall x | x in level :: Hittable(t, es, x.members, size) && x.cells == Common(t, es, x.members))
    && (forall group: set<int> | Hittable(t, es, group, size) :: Holds(level, group))
  }

  ghost predicate Holds(level: seq<Intersection>, group: set<int>) {
    exists x :: x in level && x.members == group
  }

  /** The area of one enemy. */
  function AreaOf(t: Throw, e: Enemy): Intersection
    requires e.place.Some?
  {
    Intersection({e.id}, Diamond(t.m, e.place.value, t.aoe))
  }

  lemma IdIndex(es: seq<Enemy>, id: int) returns (i: nat)
    requires id in Ids(es)
    ensures i < |es| && es[i].id == id
  {
    i :| 0 <= i < |es| && es[i].id == id;
  }

  lemma CommonOfOne(t: Throw, es: seq<Enemy>, i: nat)
    requires Targets(t, es) && i < |es|
    ensures Common(t, es, {es[i].id}) == Diamond(t.m, es[i].place.value, t.aoe)
    ensures Hittable(t, es, {es[i].id}, 1)
  {
    forall p ensures p in Common(t, es, {es[i].id}) <==> p in Diamond(t.m, es[i].place.value, t.aoe) {
      if p in Diamond(t.m, es[i].place.value, t.aoe) {
        forall j | 0 <= j < |es| && es[j].id == es[i].id ensures j == i {}
      }
    }
    assert es[i] in es && es[i].id in Ids(es);
    DiamondsMeet(t.m, t.hero, t.range, es[i].place.value, t.aoe);
  }

  lemma FirstLevel(t: Throw, es: seq<Enemy>, level: seq<Intersection>)
    requires Targets(t, es)
    requires |level| == |es| && forall i | 0 <= i < |es| :: level[i] == AreaOf(t, es[i])
    ensures IsLevel(t, es, level, 1)
  {
    forall x | x in level ensures Hittable(t, es, x.members, 1) && x.cells == Common(t, es, x.members) {
      var i :| 0 <= i < |level| && level[i] == x;
      CommonOfOne(t, es, i);
    }
    forall group: set<int> | Hittable(t, es, group, 1) ensures Holds(level, group) {
      var id :| id in group;
      Singleton(group, id);
      var i := IdIndex(es, id);
      assert level[i] in level && level[i].members == group;
    }
  }

  /** Adding an enemy to a group intersects the common cells with its area. */
  lemma CommonOfMore(t: Throw, es: seq<Enemy>, group: set<int>, i: nat)
    requires Targets(t, es) && i < |es|
    ensures Common(t, es, group + {es[i].id}) == Common(t, es, group) * Diamond(t.m, es[i].place.value, t.aoe)
  {
    forall p ensures p in Common(t, es, group + {es[i].id}) <==> p in Common(t, es, group) && p in Diamond(t.m, es[i].place.value, t.aoe) {
      forall j | 0 <= j < |es| && es[j].id == es[i].id ensures j == i {}
    }
  }

  /** What the two inner loops keep. */
  predicate Kept(x: Intersection, y: Intersection, throwRange: Intersection) {
    !(y.members <= x.members) && IsIntersected(GetIntersection(x, y), throwRange)
  }

  ghost predicate Combined(level: seq<Intersection>, first: seq<Intersection>, throwRange: Intersection,
                           z: Intersection) {
    exists x, y :: x in level && y in first && Kept(x, y, throwRange) && z == GetIntersection(x, y)
  }

  /** The next level: all the combinations that are kept, and no others. */
  ghost predicate Combines(level: seq<Intersection>, first: seq<Intersection>, throwRange: Intersection,
                           next: seq<Intersection>) {
    && (forall z | z in next :: Combined(level, first, throwRange, z))
    && (forall x, y | x in level && y in first && Kept(x, y, throwRange) :: GetIntersection(x, y) in next)
  }

  lemma NothingCombines(level: seq<Intersection>, first: seq<Intersection>, throwRange: Intersection,
                        next: seq<Intersection>)
    requires Combines(level, first, throwRange, next)
    ensures level == [] ==> next == []
  {
    if next != [] {
      assert next[0] in next;
    }
  }

  /** The two inner loops of a turn. */
  method NextLevel(level: seq<Intersection>, first: seq<Intersection>,
                   throwRange: Intersection) returns (next: seq<Intersection>)
    requires forall y | y in first :: exists id :: y.members == {id}
    ensures Combines(level, first, throwRange, next)
  {
    next := [];
    for i := 0 to |level|
      invariant forall z | z in next :: Combined(level, first, throwRange, z)
      invariant forall x, y | x in level[..i] && y in first && Kept(x, y, throwRange) :: GetIntersection(x, y) in next
    {
      for j := 0 to |first|
        invariant forall z | z in next :: Combined(level, first, throwRange, z)
        invariant forall x, y | x in level[..i] && y in first && Kept(x, y, throwRange) :: GetIntersection(x, y) in next
        invariant forall y | y in first[..j] && Kept(level[i], y, throwRange) :: GetIntersection(level[i], y) in next
      {
        var x, y := level[i], first[j];
        assert x in level && y in first;
        var member :| member in y.members;
        if member !in x.members {
          var t := GetIntersection(x, y);
          if !t.IsEmpty() && IsIntersected(t, throwRange) {
            next := next + [t];
          }
        }
        assert first[..j + 1] == first[..j] + [y];
      }
      assert first[..|first|] == first;
      assert level[..i + 1] == level[..i] + [level[i]];
    }
    assert level[..|level|] == level;
  }

  lemma KeptMeans(x: Intersection, y: Intersection, range: set<Pos>, id: int)
    requires y.members == {id} && Kept(x, y, Intersection({}, range))
    ensures id !in x.members && x.cells * y.cells * range != {}
  {
  }

  /** A group that grows by an enemy. */
  lemma GrownGroup(t: Throw, es: seq<Enemy>, x: Intersection, i: nat, size: nat)
    requires Targets(t, es) && i < |es|
    requires Hittable(t, es, x.members, size) && x.cells == Common(t, es, x.members)
    requires Kept(x, AreaOf(t, es[i]), Intersection({}, InRange(t)))
    ensures var z := GetIntersection(x, AreaOf(t, es[i]));
            Hittable(t, es, z.members, size + 1) && z.cells == Common(t, es, z.members)
  {
    var y := AreaOf(t, es[i]);
    KeptMeans(x, y, InRange(t), es[i].id);
    CommonOfMore(t, es, x.members, i);
    GrownIsHittable(t, es, x.members, i, size, x.cells * y.cells);
  }

  lemma GrownIsHittable(t: Throw, es: seq<Enemy>, group: set<int>, i: nat, size: nat, cells: set<Pos>)
    requires Targets(t, es) && i < |es| && Hittable(t, es, group, size) && es[i].id !in group
    requires cells == Common(t, es, group + {es[i].id}) && cells * InRange(t) != {}
    ensures Hittable(t, es, group + {es[i].id}, size + 1)
  {
    assert es[i].id in Ids(es);
  }

  /** A group without one of its enemies. */
  lemma ShrunkGroup(t: Throw, es: seq<Enemy>, group: set<int>, id: int, size: nat)
    requires Targets(t, es) && Hittable(t, es, group, size + 1) && id in group
    ensures Hittable(t, es, group - {id}, size)
  {
    var p :| p in Common(t, es, group) * InRange(t);
    assert p in Common(t, es, group - {id});
  }

  lemma NextIsSound(t: Throw, es: seq<Enemy>, level: seq<Intersection>, first: seq<Intersection>, z: Intersection,
                    size: nat)
    requires Targets(t, es) && IsLevel(t, es, level, size)
    requires |first| == |es| && forall i | 0 <= i < |es| :: first[i] == AreaOf(t, es[i])
    requires Combined(level, first, Intersection({}, InRange(t)), z)
    ensures Hittable(t, es, z.members, size + 1) && z.cells == Common(t, es, z.members)
  {
    var x, y :| x in level && y in first && Kept(x, y, Intersection({}, InRange(t))) && z == GetIntersection(x, y);
    var i :| 0 <= i < |first| && first[i] == y;
    GrownGroup(t, es, x, i, size);
  }

  lemma CommonIsHit(t: Throw, es: seq<Enemy>, group: set<int>, i: nat, p: Pos)
    requires Targets(t, es) && i < |es| && es[i].id in group && p in Common(t, es, group)
    ensures p in Common(t, es, group - {es[i].id}) && p in AreaOf(t, es[i]).cells
  {
  }

  lemma Restored(group: set<int>, id: int)
    requires id in group
    ensures group - {id} + {id} == group
  {
  }

  /** The group without the enemy is in the level, and the enemy's area is added to it. */
  lemma GroupIsGrown(t: Throw, es: seq<Enemy>, x: Intersection, i: nat, group: set<int>, p: Pos)
    requires Targets(t, es) && i < |es| && es[i].id in group
    requires p in Common(t, es, group) && p in InRange(t)
    requires x.members == group - {es[i].id} && x.cells == Common(t, es, x.members)
    ensures Kept(x, AreaOf(t, es[i]), Intersection({}, InRange(t)))
    ensures GetIntersection(x, AreaOf(t, es[i])).members == group
  {
    CommonIsHit(t, es, group, i, p);
    Restored(group, es[i].id);
    KeptIf(x.members, x.cells, es[i].id, AreaOf(t, es[i]).cells, InRange(t), p);
  }

  lemma KeptIf(members: set<int>, cells: set<Pos>, id: int, area: set<Pos>, range: set<Pos>, p: Pos)
    requires id !in members && p in cells && p in area && p in range
    ensures Kept(Intersection(members, cells), Intersection({id}, area), Intersection({}, range))
  {
    assert p in cells * area * range;
  }

  /** One of a group's enemies, the rest of the group in the level, and a cell from which all of them are hit. */
  lemma PickEnemy(t: Throw, es: seq<Enemy>, level: seq<Intersection>, group: set<int>, size: nat)
    returns (x: Intersection, i: nat, p: Pos)
    requires Targets(t, es) && IsLevel(t, es, level, size) && Hittable(t, es, group, size + 1)
    ensures i < |es| && es[i].id in group && p in Common(t, es, group) && p in InRange(t)
    ensures x in level && x.members == group - {es[i].id} && x.cells == Common(t, es, x.members)
  {
    var id :| id in group;
    ShrunkGroup(t, es, group, id, size);
    assert Holds(level, group - {id});
    x :| x in level && x.members == group - {id};
    i := IdIndex(es, id);
    p :| p in Common(t, es, group) * InRange(t);
  }

  lemma NextIsComplete(t: Throw, es: seq<Enemy>, level: seq<Intersection>, first: seq<Intersection>, group: set<int>,
                       size: nat)
    returns (x: Intersection, y: Intersection)
    requires Targets(t, es) && IsLevel(t, es, level, size)
    requires |first| == |es| && forall i | 0 <= i < |es| :: first[i] == AreaOf(t, es[i])
    requires Hittable(t, es, group, size + 1)
    ensures x in level && y in first && Kept(x, y, Intersection({}, InRange(t))) && GetIntersection(x, y).members == group
  {
    var i, p;
    x, i, p := PickEnemy(t, es, level, group, size);
    y := first[i];
    GroupIsGrown(t, es, x, i, group, p);
  }

  lemma NextIsLevel(t: Throw, es: seq<Enemy>, level: seq<Intersection>, first: seq<Intersection>,
                    next: seq<Intersection>, size: nat)
    requires Targets(t, es) && IsLevel(t, es, level, size)
    requires |first| == |es| && forall i | 0 <= i < |es| :: first[i] == AreaOf(t, es[i])
    requires Combines(level, first, Intersection({}, InRange(t)), next)
    ensures IsLevel(t, es, next, size + 1)
  {
    var range, n := Intersection({}, InRange(t)), size + 1;
    forall z | z in next ensures Hittable(t, es, z.members, n) && z.cells == Common(t, es, z.members) {
      NextIsSound(t, es, level, first, z, size);
    }
    forall group: set<int> | Hittable(t, es, group, n) ensures Holds(next, group) {
      var x, y := NextIsComplete(t, es, level, first, group, size);
      assert GetIntersection(x, y) in next;
    }
  }

  // ---------- the largest groups ----------

  /** Every group a throw at p hits consists of enemies near enough to p, and the other way round. */
  lemma HitIsHittable(t: Throw, es: seq<Enemy>, p: Pos, group: set<int>)
    requires Targets(t, es) && p in InRange(t) && group <= Ids(es)
    ensures p in Common(t, es, group) <==> group <= Hit(t, es, p)
  {
    if p in Common(t, es, group) {
      forall id | id in group ensures id in Hit(t, es, p) {
        var i := IdIndex(es, id);
      }
    }
    if group <= Hit(t, es, p) {
      forall i | 0 <= i < |es| && es[i].id in group ensures Manhattan(es[i].place.value, p) <= t.aoe {
        var j :| 0 <= j < |es| && Manhattan(es[j].place.value, p) <= t.aoe && es[j].id == es[i].id;
        assert i == j;
      }
    }
  }

  /** A size is the best if some throw hits that many, and none hits more unless that many is all that is looked for. */
  ghost predicate IsBest(t: Throw, es: seq<Enemy>, size: nat)
    requires Targets(t, es)
  {
    && (exists p :: p in InRange(t) && |Hit(t, es, p)| >= size)
    && (size < MAX_LEVELS ==> forall p | p in InRange(t) :: |Hit(t, es, p)| <= size)
  }

  /** The last level that is not empty has the best size. */
  lemma LastLevelIsBest(t: Throw, es: seq<Enemy>, level: seq<Intersection>, size: nat)
    requires Targets(t, es) && IsLevel(t, es, level, size) && level != []
    requires size < MAX_LEVELS ==> IsLevel(t, es, [], size + 1)
    ensures IsBest(t, es, size)
  {
    var x := level[0];
    var p :| p in Common(t, es, x.members) * InRange(t);
    HitIsHittable(t, es, p, x.members);
    SubsetSize(x.members, Hit(t, es, p));
    if size < MAX_LEVELS {
      forall q | q in InRange(t) ensures |Hit(t, es, q)| <= size {
        EmptyLevel(t, es, q, size);
      }
    }
  }

  /** If no group of the size can be hit, no throw hits as many. */
  lemma EmptyLevel(t: Throw, es: seq<Enemy>, q: Pos, size: nat)
    requires Targets(t, es) && IsLevel(t, es, [], size + 1) && q in InRange(t)
    ensures |Hit(t, es, q)| <= size
  {
    if |Hit(t, es, q)| > size {
      var group := SubsetOfSize(Hit(t, es, q), size + 1);
      GroupAtCell(t, es, q, group, size + 1);
      NotHittable(t, es, group, size + 1);
      assert false;
    }
  }

  lemma NotHittable(t: Throw, es: seq<Enemy>, group: set<int>, size: nat)
    requires Targets(t, es) && IsLevel(t, es, [], size)
    ensures !Hittable(t, es, group, size)
  {
  }

  lemma GroupAtCell(t: Throw, es: seq<Enemy>, q: Pos, group: set<int>, size: nat)
    requires Targets(t, es) && q in InRange(t) && group <= Hit(t, es, q) && |group| == size
    ensures Hittable(t, es, group, size)
  {
    assert group <= Ids(es);
    HitIsHittable(t, es, q, group);
    assert q in Common(t, es, group) * InRange(t);
  }

  // ---------- the planner ----------

  /** The first cell in the order of a set of pairs. */
  method Begin(cells: set<Pos>) returns (p: Pos)
    requires cells != {}
    ensures p in cells && forall q | q in cells :: q == p || Before(p, q)
  {
    p :| p in cells;
    var rest := cells - {p};
    while rest != {}
      invariant p in cells && rest <= cells
      invariant forall q | q in cells && q !in rest :: q == p || Before(p, q)
      decreases |rest|
    {
      var q :| q in rest;
      if Before(q, p) {
        p := q;
      }
      rest := rest - {q};
    }
  }

  /** A turn of the loop over the levels. */
  method Advance(t: Throw, ghost es: seq<Enemy>, level: seq<Intersection>, first: seq<Intersection>,
                 throwRange: Intersection, ghost size: nat)
    returns (next: seq<Intersection>)
    requires Targets(t, es) && throwRange == Intersection({}, InRange(t)) && IsLevel(t, es, level, size)
    requires |first| == |es| && forall i | 0 <= i < |es| :: first[i] == AreaOf(t, es[i])
    ensures IsLevel(t, es, next, size + 1) && (level == [] ==> next == [])
  {
    forall y | y in first ensures exists id :: y.members == {id} {
      var i :| 0 <= i < |first| && first[i] == y;
      assert y.members == {es[i].id};
    }
    next := NextLevel(level, first, throwRange);
    NextIsLevel(t, es, level, first, next, size);
    NothingCombines(level, first, throwRange, next);
  }

  /** The vectors of groups, level by level, up to the last one that is not empty. */
  method Levels(t: Throw, ghost es: seq<Enemy>, first: seq<Intersection>, throwRange: Intersection)
    returns (k: nat, level: seq<Intersection>)
    requires Targets(t, es) && throwRange == Intersection({}, InRange(t))
    requires |first| == |es| && forall i | 0 <= i < |es| :: first[i] == AreaOf(t, es[i])
    ensures k < MAX_LEVELS && IsLevel(t, es, level, k + 1)
    ensures es == [] ==> k == 0 && level == []
    ensures es != [] ==> level != [] && (k + 1 < MAX_LEVELS ==> IsLevel(t, es, [], k + 2))
  {
    FirstLevel(t, es, first);
    level := first;
    k := 1;
    while k < MAX_LEVELS
      invariant 1 <= k <= MAX_LEVELS && IsLevel(t, es, level, k)
      invariant if es == [] then k == 1 && level == [] else level != []
    {
      var next := Advance(t, es, level, first, throwRange, k);
      if next == [] {
        break;
      }
      level := next;
      k := k + 1;
    }
    k := k - 1;
  }

  /** BlasterAttack with an ability that lobs; log lines are not modelled. */
  method BlasterAttack(t: Throw, enemies: seq<Enemy>, heroDamage: int -> int,
                       extraNeed: int) returns (ans: seq<ActionProperty>)
    requires Lineup(t, enemies)
    ensures ans == [] <==> forall q | Aimable(t, q) :: Blast(t, enemies, heroDamage, extraNeed, q) == {}
    ensures ans != [] ==> exists size: nat :: BestThrows(t, enemies, heroDamage, extraNeed, size, ans)
  {
    var throwRange := CreateArea(t.m, t.hero, t.range);
    var availableEnemies := CollectAvailable(t, enemies, heroDamage, extraNeed);
    AvailableAreTargets(t, enemies, heroDamage, extraNeed);
    ghost var size;
    ans, size := Plan(t, availableEnemies, throwRange);
    if availableEnemies == [] {
      NothingToBlast(t, enemies, heroDamage, extraNeed);
    } else {
      ProposalsAreBest(t, enemies, heroDamage, extraNeed, size, ans);
    }
  }

  /** The planning proper; the size of the groups proposed. */
  method Plan(t: Throw, es: seq<Enemy>, throwRange: Intersection) returns (ans: seq<ActionProperty>, ghost size: nat)
    requires Targets(t, es) && throwRange == Intersection({}, InRange(t))
    ensures es == [] ==> ans == []
    ensures es != [] ==> Proposes(t, es, size, ans)
  {
    var first := FirstAreas(t, es);
    var k, level := Levels(t, es, first, throwRange);
    ans := Propose(t, es, level, k, throwRange);
    size := k + 1;
    if es != [] {
      LastLevelProposes(t, es, level, size, ans);
    }
  }

  /** The loop that fills the first level. */
  method FirstAreas(t: Throw, es: seq<Enemy>) returns (first: seq<Intersection>)
    requires forall e | e in es :: e.place.Some?
    ensures |first| == |es| && forall i | 0 <= i < |es| :: first[i] == AreaOf(t, es[i])
  {
    first := [];
    for i := 0 to |es|
      invariant |first| == i && forall j | 0 <= j < i :: first[j] == AreaOf(t, es[j])
    {
      assert es[i] in es;
      var area := CreateArea(t.m, es[i].place.value, t.aoe);
      first := first + [area.AddMember(es[i].id)];
    }
  }

  lemma AvailableFrom(t: Throw, enemies: seq<Enemy>, i: nat, damage: int -> int, extraNeed: int, es: seq<Enemy>)
    requires i < |enemies|
    ensures var rest := Available(t, enemies[i + 1..], damage, extraNeed);
            es + Available(t, enemies[i..], damage, extraNeed)
            == (if IsAvailable(t, enemies[i], damage, extraNeed) then es + [enemies[i]] else es) + rest
  {
    assert enemies[i..][1..] == enemies[i + 1..];
  }

  /** The loop that filters the enemies. */
  method CollectAvailable(t: Throw, enemies: seq<Enemy>, heroDamage: int -> int,
                          extraNeed: int) returns (es: seq<Enemy>)
    ensures es == Available(t, enemies, heroDamage, extraNeed)
  {
    es := [];
    ghost var all := Available(t, enemies, heroDamage, extraNeed);
    assert enemies[0..] == enemies;
    for i := 0 to |enemies|
      invariant es + Available(t, enemies[i..], heroDamage, extraNeed) == all
    {
      var enemy := enemies[i];
      AvailableFrom(t, enemies, i, heroDamage, extraNeed, es);
      if enemy.place.Some? {
        if heroDamage(enemy.id) + (enemy.maxHP - enemy.currentHP) < enemy.maxHP + extraNeed {
          if Manhattan(t.hero, enemy.place.value) <= t.aoe + t.range {
            es := es + [enemy];
          }
        }
      }
    }
  }

  lemma {:induction false} AvailableAreTargets(t: Throw, enemies: seq<Enemy>, heroDamage: int -> int, extraNeed: int)
    requires Lineup(t, enemies)
    ensures Targets(t, Available(t, enemies, heroDamage, extraNeed))
  {
    if enemies != [] {
      var rest := Available(t, enemies[1..], heroDamage, extraNeed);
      AvailableAreTargets(t, enemies[1..], heroDamage, extraNeed);
      forall j | 0 <= j < |rest| ensures rest[j].id != enemies[0].id {
        assert rest[j] in rest;
        var k :| 0 <= k < |enemies[1..]| && enemies[1..][k] == rest[j];
        assert enemies[k + 1] == rest[j];
      }
    }
  }

  /** The proposals: one for every largest group, aimed at the first cell in range that hits all of the group. */
  ghost predicate Proposes(t: Throw, es: seq<Enemy>, size: nat, ans: seq<ActionProperty>)
    requires Targets(t, es)
  {
    && 1 <= size <= MAX_LEVELS && IsBest(t, es, size) && ans != []
    && (forall a | a in ans :: a.priority == 7 - size && AimsWell(t, es, size, a) && a.score == Score(t.power, es, a.affected))
    && (forall group: set<int> | Hittable(t, es, group, size) :: Affects(ans, group))
  }

  ghost predicate Affects(ans: seq<ActionProperty>, group: set<int>) {
    exists a :: a in ans && a.affected == group
  }

  ghost predicate AimsWell(t: Throw, es: seq<Enemy>, size: nat, a: ActionProperty)
    requires Targets(t, es)
  {
    && a.affected <= Ids(es) && |a.affected| == size
    && a.target in InRange(t)
    && a.affected <= Hit(t, es, a.target)
    && forall q | q in InRange(t) && a.affected <= Hit(t, es, q) :: q == a.target || Before(a.target, q)
  }

  lemma MembersAreThere(t: Throw, es: seq<Enemy>, group: set<int>)
    requires Targets(t, es) && group <= Ids(es)
    ensures Distinct(es) && forall id | id in group :: Has(es, id)
  {
  }

  /** A proposal for one group, with its score. */
  method Aim(t: Throw, es: seq<Enemy>, x: Intersection, k: nat,
             throwRange: Intersection) returns (a: ActionProperty)
    requires Targets(t, es) && throwRange == Intersection({}, InRange(t))
    requires Hittable(t, es, x.members, k + 1) && x.cells == Common(t, es, x.members)
    ensures Proposal(t, es, x, k, a)
  {
    var finalIntersect := GetIntersection(throwRange, x);
    assert finalIntersect.cells == Common(t, es, x.members) * InRange(t);
    var ad := Begin(finalIntersect.cells);
    forall q | q in InRange(t) ensures q in finalIntersect.cells <==> x.members <= Hit(t, es, q) {
      HitIsHittable(t, es, q, x.members);
    }
    MembersAreThere(t, es, x.members);
    var score := AddUp(t.power, es, x.members);
    a := ActionProperty(6 - k, ad, x.members, score);
  }

  /** The loop that turns the last level into proposals. */
  method Propose(t: Throw, es: seq<Enemy>, level: seq<Intersection>, k: nat,
                 throwRange: Intersection) returns (ans: seq<ActionProperty>)
    requires Targets(t, es) && throwRange == Intersection({}, InRange(t)) && IsLevel(t, es, level, k + 1)
    ensures Proposals(t, es, level, k, ans, |level|)
  {
    ans := [];
    for i := 0 to |level|
      invariant Proposals(t, es, level, k, ans, i)
    {
      LevelMember(t, es, level, k + 1, level[i]);
      ans := ProposeNext(t, es, level, k, throwRange, ans, i);
    }
  }

  method ProposeNext(t: Throw, es: seq<Enemy>, level: seq<Intersection>, k: nat, throwRange: Intersection,
                     ans: seq<ActionProperty>, i: nat) returns (ans': seq<ActionProperty>)
    requires Targets(t, es) && throwRange == Intersection({}, InRange(t))
    requires i < |level| && Proposals(t, es, level, k, ans, i)
    requires Hittable(t, es, level[i].members, k + 1) && level[i].cells == Common(t, es, level[i].members)
    ensures Proposals(t, es, level, k, ans', i + 1)
  {
    var a := Aim(t, es, level[i], k, throwRange);
    ProposalsGrow(t, es, level, k, ans, i, a);
    ans' := ans + [a];
  }

  lemma ProposalsGrow(t: Throw, es: seq<Enemy>, level: seq<Intersection>, k: nat, ans: seq<ActionProperty>, i: nat,
                      a: ActionProperty)
    requires Targets(t, es) && i < |level| && Proposals(t, es, level, k, ans, i) && Proposal(t, es, level[i], k, a)
    ensures Proposals(t, es, level, k, ans + [a], i + 1)
  {
    var longer := ans + [a];
    forall j | 0 <= j < i + 1 ensures Proposal(t, es, level[j], k, longer[j]) {
      if j < i { assert longer[j] == ans[j]; } else { assert longer[j] == a; }
    }
  }

  lemma LevelMember(t: Throw, es: seq<Enemy>, level: seq<Intersection>, size: nat, x: Intersection)
    requires Targets(t, es) && IsLevel(t, es, level, size) && x in level
    ensures Hittable(t, es, x.members, size) && x.cells == Common(t, es, x.members)
  {
  }

  /** Proposals for the first n groups of a level. */
  ghost predicate Proposals(t: Throw, es: seq<Enemy>, level: seq<Intersection>, k: nat, ans: seq<ActionProperty>, n: nat)
    requires Targets(t, es)
  {
    |ans| == n <= |level| && forall j | 0 <= j < n :: Proposal(t, es, level[j], k, ans[j])
  }

  ghost predicate Proposal(t: Throw, es: seq<Enemy>, x: Intersection, k: nat, a: ActionProperty)
    requires Targets(t, es)
  {
    && a.priority == 6 - k && a.affected == x.members && a.score == Score(t.power, es, x.members)
    && AimsWell(t, es, k + 1, a)
  }

  lemma LastLevelProposes(t: Throw, es: seq<Enemy>, level: seq<Intersection>, size: nat, ans: seq<ActionProperty>)
    requires Targets(t, es) && IsLevel(t, es, level, size) && 1 <= size <= MAX_LEVELS && level != []
    requires size < MAX_LEVELS ==> IsLevel(t, es, [], size + 1)
    requires Proposals(t, es, level, size - 1, ans, |level|)
    ensures Proposes(t, es, size, ans)
  {
    LastLevelIsBest(t, es, level, size);
    LevelProposes(t, es, level, size, ans);
  }

  lemma LevelProposes(t: Throw, es: seq<Enemy>, level: seq<Intersection>, size: nat, ans: seq<ActionProperty>)
    requires Targets(t, es) && IsLevel(t, es, level, size) && 1 <= size <= MAX_LEVELS && IsBest(t, es, size) && level != []
    requires Proposals(t, es, level, size - 1, ans, |level|)
    ensures Proposes(t, es, size, ans)
  {
    forall a | a in ans ensures a.priority == 7 - size && AimsWell(t, es, size, a) && a.score == Score(t.power, es, a.affected) {
      OneOfProposals(t, es, level, size, ans, a);
    }
    forall group: set<int> | Hittable(t, es, group, size) ensures Affects(ans, group) {
      assert Holds(level, group);
      GroupIsProposed(t, es, level, size, ans, group);
    }
  }

  lemma OneOfProposals(t: Throw, es: seq<Enemy>, level: seq<Intersection>, size: nat, ans: seq<ActionProperty>,
                       a: ActionProperty)
    requires Targets(t, es) && 1 <= size && Proposals(t, es, level, size - 1, ans, |level|) && a in ans
    ensures a.priority == 7 - size && AimsWell(t, es, size, a) && a.score == Score(t.power, es, a.affected)
  {
    var i :| 0 <= i < |ans| && ans[i] == a;
    assert Proposal(t, es, level[i], size - 1, ans[i]);
  }

  lemma GroupIsProposed(t: Throw, es: seq<Enemy>, level: seq<Intersection>, size: nat, ans: seq<ActionProperty>,
                        group: set<int>)
    requires Targets(t, es) && 1 <= size && Proposals(t, es, level, size - 1, ans, |level|) && Holds(level, group)
    ensures Affects(ans, group)
  {
    var i :| 0 <= i < |level| && level[i].members == group;
    assert Proposal(t, es, level[i], size - 1, ans[i]);
    assert ans[i] in ans;
  }

  // ---------- the proposals, in terms of the board ----------

  /** An enemy in sight that is still to be dealt with. */
  predicate Wanted(e: Enemy, damage: int -> int, extraNeed: int) {
    e.place.Some? && damage(e.id) < e.currentHP + extraNeed
  }

  /** The ability can be thrown at the cell. */
  predicate Aimable(t: Throw, q: Pos) {
    t.m.InMap(q) && Manhattan(t.hero, q) <= t.range
  }

  /** Whom of the enemies still to be dealt with a throw at a cell hits. */
  function Blast(t: Throw, enemies: seq<Enemy>, damage: int -> int, extraNeed: int, q: Pos): set<int> {
    set i | 0 <= i < |enemies| && Wanted(enemies[i], damage, extraNeed)
            && Manhattan(q, enemies[i].place.value) <= t.aoe :: enemies[i].id
  }

  /** A throw at the cell hits all of the group, which has this size. */
  predicate Blasts(t: Throw, enemies: seq<Enemy>, damage: int -> int, extraNeed: int, q: Pos, group: set<int>,
                   size: nat) {
    Aimable(t, q) && group <= Blast(t, enemies, damage, extraNeed, q) && |group| == size
  }

  /**
   The size is the largest number of such enemies that one throw hits, capped at four; every group of that size
   that a throw hits is proposed, aimed at the first cell, row by row, from which the throw hits all of it.
   */
  ghost predicate BestThrows(t: Throw, enemies: seq<Enemy>, damage: int -> int, extraNeed: int, size: nat,
                             ans: seq<ActionProperty>) {
    && 1 <= size <= 4
    && (size < 4 ==> forall q | Aimable(t, q) :: |Blast(t, enemies, damage, extraNeed, q)| <= size)
    && (forall a | a in ans :: IsBestThrow(t, enemies, damage, extraNeed, size, a))
    && (forall q: Pos, group: set<int> | Blasts(t, enemies, damage, extraNeed, q, group, size) :: Affects(ans, group))
  }

  ghost predicate IsBestThrow(t: Throw, enemies: seq<Enemy>, damage: int -> int, extraNeed: int, size: nat,
                              a: ActionProperty) {
    && a.priority == 7 - size && a.score == Score(t.power, enemies, a.affected)
    && Blasts(t, enemies, damage, extraNeed, a.target, a.affected, size)
    && forall q | Blasts(t, enemies, damage, extraNeed, q, a.affected, size) ::
         q == a.target || a.target.row < q.row || (a.target.row == q.row && a.target.col < q.col)
  }

  lemma HitAmongAvailable(t: Throw, enemies: seq<Enemy>, damage: int -> int, extraNeed: int, q: Pos, i: nat)
    requires Lineup(t, enemies) && i < |Available(t, enemies, damage, extraNeed)|
    requires var e := Available(t, enemies, damage, extraNeed)[i];
             e.place.Some? && Manhattan(e.place.value, q) <= t.aoe
    ensures Available(t, enemies, damage, extraNeed)[i].id in Blast(t, enemies, damage, extraNeed, q)
  {
    var e := Available(t, enemies, damage, extraNeed)[i];
    assert e in enemies && IsAvailable(t, e, damage, extraNeed);
    var j :| 0 <= j < |enemies| && enemies[j] == e;
  }

  /** Near enough to a cell in range is near enough to be available. */
  lemma BlastedIsAvailable(t: Throw, e: Enemy, damage: int -> int, extraNeed: int, q: Pos)
    requires Aimable(t, q) && Wanted(e, damage, extraNeed) && Manhattan(q, e.place.value) <= t.aoe
    ensures IsAvailable(t, e, damage, extraNeed)
  {
  }

  lemma BlastedIsHit(t: Throw, enemies: seq<Enemy>, damage: int -> int, extraNeed: int, q: Pos, j: nat)
    requires Lineup(t, enemies) && Targets(t, Available(t, enemies, damage, extraNeed)) && Aimable(t, q)
    requires j < |enemies| && Wanted(enemies[j], damage, extraNeed) && Manhattan(q, enemies[j].place.value) <= t.aoe
    ensures enemies[j].id in Hit(t, Available(t, enemies, damage, extraNeed), q)
  {
    var es := Available(t, enemies, damage, extraNeed);
    BlastedIsAvailable(t, enemies[j], damage, extraNeed, q);
    assert enemies[j] in es;
    var i :| 0 <= i < |es| && es[i] == enemies[j];
  }

  lemma BlastIsHit(t: Throw, enemies: seq<Enemy>, damage: int -> int, extraNeed: int, q: Pos)
    requires Lineup(t, enemies) && Targets(t, Available(t, enemies, damage, extraNeed)) && Aimable(t, q)
    ensures Blast(t, enemies, damage, extraNeed, q) == Hit(t, Available(t, enemies, damage, extraNeed), q)
  {
    var es := Available(t, enemies, damage, extraNeed);
    forall i | 0 <= i < |es| && Manhattan(es[i].place.value, q) <= t.aoe
      ensures es[i].id in Blast(t, enemies, damage, extraNeed, q)
    {
      HitAmongAvailable(t, enemies, damage, extraNeed, q, i);
    }
    forall j | 0 <= j < |enemies| && Wanted(enemies[j], damage, extraNeed) && Manhattan(q, enemies[j].place.value) <= t.aoe
      ensures enemies[j].id in Hit(t, es, q)
    {
      BlastedIsHit(t, enemies, damage, extraNeed, q, j);
    }
  }

  lemma NothingToBlast(t: Throw, enemies: seq<Enemy>, damage: int -> int, extraNeed: int)
    requires Lineup(t, enemies) && Available(t, enemies, damage, extraNeed) == []
    ensures forall q | Aimable(t, q) :: Blast(t, enemies, damage, extraNeed, q) == {}
  {
    AvailableAreTargets(t, enemies, damage, extraNeed);
    forall q | Aimable(t, q) ensures Blast(t, enemies, damage, extraNeed, q) == {} {
      BlastIsHit(t, enemies, damage, extraNeed, q);
    }
  }

  lemma {:induction false} ScoreOfAvailable(t: Throw, enemies: seq<Enemy>, damage: int -> int, extraNeed: int,
                                            group: set<int>)
    requires forall i | 0 <= i < |enemies| && enemies[i].id in group :: IsAvailable(t, enemies[i], damage, extraNeed)
    ensures Score(t.power, enemies, group) == Score(t.power, Available(t, enemies, damage, extraNeed), group)
  {
    if enemies != [] {
      forall i | 0 <= i < |enemies[1..]| && enemies[1..][i].id in group
        ensures IsAvailable(t, enemies[1..][i], damage, extraNeed)
      {
        assert enemies[1..][i] == enemies[i + 1];
      }
      ScoreOfAvailable(t, enemies[1..], damage, extraNeed, group);
      var rest := Available(t, enemies[1..], damage, extraNeed);
      if IsAvailable(t, enemies[0], damage, extraNeed) {
        assert ([enemies[0]] + rest)[1..] == rest;
      }
    }
  }

  /** All whom a throw hits are available. */
  lemma BlastedAreAvailable(t: Throw, enemies: seq<Enemy>, damage: int -> int, extraNeed: int, q: Pos, group: set<int>)
    requires Lineup(t, enemies) && Aimable(t, q) && group <= Blast(t, enemies, damage, extraNeed, q)
    ensures forall i | 0 <= i < |enemies| && enemies[i].id in group :: IsAvailable(t, enemies[i], damage, extraNeed)
  {
    forall i | 0 <= i < |enemies| && enemies[i].id in group ensures IsAvailable(t, enemies[i], damage, extraNeed) {
      assert enemies[i].id in Blast(t, enemies, damage, extraNeed, q);
      var j :| 0 <= j < |enemies| && Wanted(enemies[j], damage, extraNeed)
               && Manhattan(q, enemies[j].place.value) <= t.aoe && enemies[j].id == enemies[i].id;
      assert i == j;
      BlastedIsAvailable(t, enemies[i], damage, extraNeed, q);
    }
  }

  lemma FirstOfAll(t: Throw, enemies: seq<Enemy>, damage: int -> int, extraNeed: int, size: nat, a: ActionProperty,
                   q: Pos)
    requires Lineup(t, enemies) && Targets(t, Available(t, enemies, damage, extraNeed))
    requires AimsWell(t, Available(t, enemies, damage, extraNeed), size, a)
    requires Aimable(t, q) && a.affected <= Blast(t, enemies, damage, extraNeed, q)
    ensures q == a.target || a.target.row < q.row || (a.target.row == q.row && a.target.col < q.col)
  {
    BlastIsHit(t, enemies, damage, extraNeed, q);
    assert q in InRange(t);
  }

  lemma ProposalIsBest(t: Throw, enemies: seq<Enemy>, damage: int -> int, extraNeed: int, size: nat, a: ActionProperty)
    requires Lineup(t, enemies) && Targets(t, Available(t, enemies, damage, extraNeed))
    requires AimsWell(t, Available(t, enemies, damage, extraNeed), size, a)
    requires a.priority == 7 - size && a.score == Score(t.power, Available(t, enemies, damage, extraNeed), a.affected)
    ensures IsBestThrow(t, enemies, damage, extraNeed, size, a)
  {
    assert Aimable(t, a.target);
    BlastIsHit(t, enemies, damage, extraNeed, a.target);
    BlastedAreAvailable(t, enemies, damage, extraNeed, a.target, a.affected);
    ScoreOfAvailable(t, enemies, damage, extraNeed, a.affected);
    forall q | Blasts(t, enemies, damage, extraNeed, q, a.affected, size)
      ensures q == a.target || a.target.row < q.row || (a.target.row == q.row && a.target.col < q.col)
    {
      FirstOfAll(t, enemies, damage, extraNeed, size, a, q);
    }
  }

  lemma ProposalsAreBest(t: Throw, enemies: seq<Enemy>, damage: int -> int, extraNeed: int, size: nat,
                         ans: seq<ActionProperty>)
    requires Lineup(t, enemies) && Targets(t, Available(t, enemies, damage, extraNeed))
    requires Proposes(t, Available(t, enemies, damage, extraNeed), size, ans)
    ensures BestThrows(t, enemies, damage, extraNeed, size, ans)
    ensures !forall q | Aimable(t, q) :: Blast(t, enemies, damage, extraNeed, q) == {}
  {
    var es := Available(t, enemies, damage, extraNeed);
    forall q | Aimable(t, q) ensures size < 4 ==> |Blast(t, enemies, damage, extraNeed, q)| <= size {
      BlastIsHit(t, enemies, damage, extraNeed, q);
    }
    forall a | a in ans ensures IsBestThrow(t, enemies, damage, extraNeed, size, a) {
      ProposalIsBest(t, enemies, damage, extraNeed, size, a);
    }
    forall q: Pos, group: set<int> | Blasts(t, enemies, damage, extraNeed, q, group, size) ensures Affects(ans, group) {
      BlastIsHit(t, enemies, damage, extraNeed, q);
      GroupAtCell(t, es, q, group, size);
    }
    var p :| p in InRange(t) && |Hit(t, es, p)| >= size;
    BlastIsHit(t, enemies, damage, extraNeed, p);
  }
}
