/**
 The damage map: for every cell, how much the opponents could do there.  A
 cell is visited several times for one enemy, so each enemy marks the cells it
 has already been counted on with a bit of its own, above the damage itself.
 */
module DamageMaps {
  import opened Wrappers
  import opened Grid
  import opened Heroes
  import opened Areas
  import Vision

  const SIZE: nat := 33
  const COOLDOWNS: nat := 10
  const SENTRY_RAY_RADIUS: int := 34

  /** The map, and where the heroes stand: mine and theirs. */
  datatype Terrain = Terrain(m: Map, mine: set<Pos>, theirs: set<Pos>)

  // ---------- bits ----------

  function Pow2(k: nat): (p: nat)
    ensures p >= 1
  {
    if k == 0 then 1 else 2 * Pow2(k - 1)
  }

  /** 1 << (10 + id). */
  function BitOf(id: nat): (bit: nat)
    ensures bit >= 1
  {
    Pow2(10 + id)
  }

  /** v & bit, for a power of two. */
  predicate HasBit(v: nat, bit: nat)
    requires bit > 0
  {
    (v / bit) % 2 == 1
  }

  /** v | bit. */
  function SetBit(v: nat, bit: nat): nat
    requires bit > 0
  {
    if HasBit(v, bit) then v else v + bit
  }

  /** v & ~bit. */
  function ClearBit(v: nat, bit: nat): (r: nat)
    requires bit > 0
    ensures r == if HasBit(v, bit) then v as int - bit as int else v as int
  {
    if v < bit then BelowHasNone(v, bit); v
    else if HasBit(v, bit) then v - bit else v
  }

  lemma BelowHasNone(v: nat, bit: nat)
    requires v < bit
    ensures !HasBit(v, bit)
  {
    assert v / bit == 0;
  }

  lemma Factor(a: nat, b: nat, k: nat)
    requires a < b
    ensures (a + 1) * k <= b * k
  {
    assert b * k == (a + 1) * k + (b - a - 1) * k;
  }

  /** Only one multiple of a number is the last one up to x. */
  lemma SameQuotient(x: nat, k: nat, d: nat, q: nat)
    requires d * k <= x < (d + 1) * k && q * k <= x < (q + 1) * k
    ensures d == q
  {
    if d < q { Factor(d, q, k); } else if q < d { Factor(q, d, k); }
  }

  lemma Quotient(x: nat, k: nat)
    requires k > 0
    ensures x / k * k <= x < (x / k + 1) * k
  {
    assert x == k * (x / k) + x % k;
  }

  lemma AddingFlips(v: nat, bit: nat)
    requires bit > 0
    ensures HasBit(v + bit, bit) <==> !HasBit(v, bit)
  {
    Quotient(v, bit);
    Quotient(v + bit, bit);
    assert (v / bit + 1 + 1) * bit == (v / bit + 1) * bit + bit;
    assert (v / bit + 1) * bit == v / bit * bit + bit;
    SameQuotient(v + bit, bit, (v + bit) / bit, v / bit + 1);
  }

  lemma {:induction false} BitIsLarge(id: nat)
    ensures BitOf(id) >= 1024
  {
    if id == 0 {
      assert Pow2(5) == 32;
      assert Pow2(10) == 1024;
    } else {
      BitIsLarge(id - 1);
    }
  }

  // ---------- what the map should hold ----------

  function Radius(a: Ability): int {
    if a.name == SENTRY_RAY then SENTRY_RAY_RADIUS else a.areaOfEffect + a.range
  }

  /** Used from a place, the ability strikes what it is aimed at. */
  ghost predicate Strikes(t: Terrain, from: Pos, a: Ability, p: Pos) {
    a.lobbing || Vision.HitsTarget(t.m, a, t.mine, t.theirs, from, p)
  }

  ghost predicate Reaches(t: Terrain, from: Pos, a: Ability, p: Pos) {
    p in Diamond(t.m, from, Radius(a)) && Strikes(t, from, a, p)
  }

  /** The power of the first of the abilities that reaches the cell. */
  ghost function FirstHit(t: Terrain, from: Pos, abilities: seq<Ability>, p: Pos): Option<nat> {
    if abilities == [] then None
    else if Reaches(t, from, abilities[0], p) then Some(abilities[0].power)
    else FirstHit(t, from, abilities[1..], p)
  }

  /** The power of the strongest of the abilities that reach the cell. */
  ghost function StrongestHit(t: Terrain, from: Pos, abilities: seq<Ability>, p: Pos): Option<nat> {
    if abilities == [] then None
    else
      var rest := StrongestHit(t, from, abilities[1..], p);
      if !Reaches(t, from, abilities[0], p) then rest else Stronger(abilities[0].power, rest)
  }

  function Stronger(power: nat, rest: Option<nat>): Option<nat> {
    if rest.Some? && rest.value > power then rest else Some(power)
  }

  /** Stronger abilities first. */
  predicate Descending(abilities: seq<Ability>) {
    forall i, j | 0 <= i < j < |abilities| :: abilities[i].power >= abilities[j].power
  }

  /** The order of the pairs that are sorted. */
  predicate SortsBefore(a: Ability, b: Ability) {
    a.power > b.power || (a.power == b.power && a.name >= b.name)
  }

  function Insert(a: Ability, abilities: seq<Ability>): seq<Ability> {
    if abilities == [] || SortsBefore(a, abilities[0]) then [a] + abilities
    else [abilities[0]] + Insert(a, abilities[1..])
  }

  /** sort, then reverse. */
  function Sorted(abilities: seq<Ability>): seq<Ability> {
    if abilities == [] then [] else Insert(abilities[0], Sorted(abilities[1..]))
  }

  lemma {:induction false} InsertSorts(a: Ability, abilities: seq<Ability>)
    requires Descending(abilities)
    ensures Descending(Insert(a, abilities))
    ensures forall b | b in Insert(a, abilities) :: b == a || b in abilities
  {
    if abilities != [] && !SortsBefore(a, abilities[0]) {
      InsertSorts(a, abilities[1..]);
      assert forall b | b in abilities[1..] :: abilities[0].power >= b.power;
    }
  }

  lemma {:induction false} InsertKeepsStrongest(t: Terrain, from: Pos, a: Ability, abilities: seq<Ability>, p: Pos)
    ensures StrongestHit(t, from, Insert(a, abilities), p)
            == if Reaches(t, from, a, p) then Stronger(a.power, StrongestHit(t, from, abilities, p))
               else StrongestHit(t, from, abilities, p)
  {
    if abilities != [] && !SortsBefore(a, abilities[0]) {
      InsertKeepsStrongest(t, from, a, abilities[1..], p);
    }
  }

  lemma {:induction false} SortedSorts(abilities: seq<Ability>)
    ensures Descending(Sorted(abilities)) && forall b | b in Sorted(abilities) :: b in abilities
  {
    if abilities != [] {
      SortedSorts(abilities[1..]);
      InsertSorts(abilities[0], Sorted(abilities[1..]));
    }
  }

  lemma {:induction false} SortedKeepsStrongest(t: Terrain, from: Pos, abilities: seq<Ability>, p: Pos)
    ensures StrongestHit(t, from, Sorted(abilities), p) == StrongestHit(t, from, abilities, p)
  {
    if abilities != [] {
      SortedKeepsStrongest(t, from, abilities[1..], p);
      InsertKeepsStrongest(t, from, abilities[0], Sorted(abilities[1..]), p);
    }
  }

  lemma {:induction false} StrongestBound(t: Terrain, from: Pos, abilities: seq<Ability>, p: Pos, bound: nat)
    requires forall b | b in abilities :: b.power <= bound
    ensures StrongestHit(t, from, abilities, p).Some? ==> StrongestHit(t, from, abilities, p).value <= bound
  {
    if abilities != [] {
      assert abilities[0] in abilities;
      StrongestBound(t, from, abilities[1..], p, bound);
    }
  }

  /** In descending order the first hit is the strongest. */
  lemma {:induction false} FirstIsStrongest(t: Terrain, from: Pos, abilities: seq<Ability>, p: Pos)
    requires Descending(abilities)
    ensures FirstHit(t, from, abilities, p) == StrongestHit(t, from, abilities, p)
  {
    if abilities != [] {
      FirstIsStrongest(t, from, abilities[1..], p);
      StrongestBound(t, from, abilities[1..], p, abilities[0].power);
    }
  }

  lemma {:induction false} FirstHitNext(t: Terrain, from: Pos, abilities: seq<Ability>, a: Ability, p: Pos)
    ensures FirstHit(t, from, abilities + [a], p) == After(t, from, FirstHit(t, from, abilities, p), a, p in Diamond(t.m, from, Radius(a)), p)
  {
    if abilities != [] {
      assert (abilities + [a])[1..] == abilities[1..] + [a];
      FirstHitNext(t, from, abilities[1..], a, p);
    } else {
      assert [] + [a] == [a];
    }
  }

  /** The hit on a cell once a further ability has been considered, if its turn for the cell has come. */
  ghost function After(t: Terrain, from: Pos, hit: Option<nat>, a: Ability, visited: bool, p: Pos): Option<nat> {
    if hit.Some? then hit else if visited && Strikes(t, from, a, p) then Some(a.power) else None
  }

  // ---------- the same in terms of the board ----------

  /**
   Used from a place, the ability can damage the cell: the sentry's ray within 34 steps, a lobbed one within its
   area of a cell in its range, any other one where its shot lands.
   */
  ghost predicate Damages(t: Terrain, from: Pos, a: Ability, p: Pos) {
    && t.m.InMap(p)
    && if a.name == SENTRY_RAY then
         Manhattan(from, p) <= 34 && (a.lobbing || Vision.HitsTarget(t.m, a, t.mine, t.theirs, from, p))
       else if a.lobbing then
         exists q :: t.m.InMap(q) && Manhattan(from, q) <= a.range && Manhattan(q, p) <= a.areaOfEffect
       else
         Vision.HitsTarget(t.m, a, t.mine, t.theirs, from, p)
  }

  /** A blast in range reaches a cell exactly within range and area together. */
  lemma BlastReaches(m: Map, from: Pos, range: nat, p: Pos, area: nat)
    requires m.InMap(from) && m.InMap(p)
    ensures Manhattan(from, p) <= area + range
            <==> exists q :: m.InMap(q) && Manhattan(from, q) <= range && Manhattan(q, p) <= area
  {
    DiamondsMeet(m, from, range, p, area);
    if Manhattan(from, p) <= area + range {
      var q :| q in Diamond(m, from, range) * Diamond(m, p, area);
      assert m.InMap(q) && Manhattan(from, q) <= range && Manhattan(q, p) <= area;
    }
    if q :| m.InMap(q) && Manhattan(from, q) <= range && Manhattan(q, p) <= area {
      assert q in Diamond(m, from, range) * Diamond(m, p, area);
    }
  }

  lemma ReachesIsDamages(t: Terrain, from: Pos, a: Ability, p: Pos)
    requires t.m.InMap(from) && a.range >= 0 && a.areaOfEffect >= 0
    ensures Reaches(t, from, a, p) <==> Damages(t, from, a, p)
  {
    if t.m.InMap(p) && a.name != SENTRY_RAY && a.lobbing {
      BlastReaches(t.m, from, a.range, p, a.areaOfEffect);
    }
  }

  /** The damage is that of the strongest of the abilities that can damage the cell, if any can. */
  ghost predicate IsStrongest(t: Terrain, from: Pos, abilities: seq<Ability>, p: Pos, hit: Option<nat>) {
    && (forall a | a in abilities && Damages(t, from, a, p) :: hit.Some? && a.power <= hit.value)
    && (hit.Some? ==> exists a :: a in abilities && Damages(t, from, a, p) && a.power == hit.value)
  }

  lemma {:induction false} StrongestIsStrongest(t: Terrain, from: Pos, abilities: seq<Ability>, p: Pos)
    requires t.m.InMap(from) && forall a | a in abilities :: a.range >= 0 && a.areaOfEffect >= 0
    ensures IsStrongest(t, from, abilities, p, StrongestHit(t, from, abilities, p))
  {
    if abilities != [] {
      var a, rest := abilities[0], abilities[1..];
      assert abilities == [a] + rest && a in abilities;
      StrongestIsStrongest(t, from, rest, p);
      ReachesIsDamages(t, from, a, p);
    }
  }

  // ---------- one cell, one enemy ----------

  /**
   A cell while an enemy is being added: `was` its value before, `hit` the power
   counted first, if any.  Where the tag bit collides with the damage, the value
   stays wrong for good.
   */
  predicate Tagged(v: nat, was: nat, bit: nat, hit: Option<nat>)
    requires bit > 0
  {
    if hit.None? || HasBit(was, bit) then v == was
    else if !HasBit(was + hit.value, bit) then v == was + hit.value + bit
    else v >= was + hit.value + bit && (HasBit(v, bit) ==> v >= was + hit.value + 2 * bit)
  }

  /** One call of addCell that strikes the cell. */
  lemma TagStep(v: nat, was: nat, bit: nat, hit: Option<nat>, power: nat)
    requires bit > 0 && Tagged(v, was, bit, hit)
    ensures Tagged(if HasBit(v, bit) then v else SetBit(v, bit) + power, was, bit, Some(if hit.Some? then hit.value else power))
  {
    AddingFlips(was + power, bit);
    if hit.Some? { AddingFlips(was + hit.value, bit); }
  }

  /** The tag bit is clear in the damage, before and after. */
  predicate BitFree(was: nat, bit: nat, hit: Option<nat>)
    requires bit > 0
  {
    !HasBit(was, bit) && (hit.Some? ==> !HasBit(was + hit.value, bit))
  }

  function Plus(was: nat, hit: Option<nat>): nat {
    if hit.Some? then was + hit.value else was
  }

  /** The damage a cell ends up with is right exactly when the bit never collides with it. */
  lemma TagCleared(v: nat, was: nat, bit: nat, hit: Option<nat>)
    requires bit > 0 && Tagged(v, was, bit, hit)
    ensures ClearBit(v, bit) == Plus(was, hit) <==> BitFree(was, bit, hit)
  {
    if hit.Some? { AddingFlips(was + hit.value, bit); }
  }

  // ---------- the map ----------

  /** A square of the array. */
  predicate InArray(p: Pos) {
    0 <= p.row < SIZE && 0 <= p.col < SIZE
  }

  class DamageMap {
    const terrain: Terrain
    const damage: array2<nat>
    /** Turns until an ability of this cooldown can be used again, for every hero. */
    const delay: array2<nat>

    constructor (terrain: Terrain)
      requires terrain.m.rows <= SIZE && terrain.m.cols <= SIZE
      ensures Valid() && fresh(damage) && fresh(delay) && this.terrain == terrain
      ensures forall i, j | 0 <= i < HEROES && 0 <= j < COOLDOWNS :: delay[i, j] == 0
    {
      this.terrain := terrain;
      damage := new nat[SIZE, SIZE]((i, j) => 0);
      delay := new nat[HEROES, COOLDOWNS]((i, j) => 0);
    }

    ghost predicate Valid() {
      && damage.Length0 == SIZE && damage.Length1 == SIZE && delay.Length0 == HEROES && delay.Length1 == COOLDOWNS
      && terrain.m.rows <= SIZE && terrain.m.cols <= SIZE
    }

    ghost function At(p: Pos): nat
      requires Valid() && InArray(p)
      reads damage
    {
      damage[p.row, p.col]
    }

    /** While an ability is being added: what every square holds, given the hits counted before and the squares visited. */
    ghost predicate Counting(was: Pos -> nat, bit: nat, hit: Pos -> Option<nat>, from: Pos, a: Ability,
                             visited: Pos -> bool)
      requires Valid() && bit > 0
      reads damage
    {
      forall p | InArray(p) :: Tagged(At(p), was(p), bit, After(terrain, from, hit(p), a, terrain.m.InMap(p) && visited(p), p))
    }

    /** addCell. */
    method AddCell(bit: nat, from: Pos, p: Pos, a: Ability,
                   ghost was: Pos -> nat, ghost hit: Pos -> Option<nat>, ghost visited: Pos -> bool)
      requires Valid() && bit > 0 && terrain.m.InMap(from) && Counting(was, bit, hit, from, a, visited)
      modifies damage
      ensures Counting(was, bit, hit, from, a, q => visited(q) || q == p)
    {
      if terrain.m.InMap(p) {
        var impactCells := Vision.GetImpactCells(terrain.m, Some(a), terrain.mine, terrain.theirs, Some(from), Some(p));
        var impactCell := impactCells[|impactCells| - 1];
        if !a.lobbing && impactCell != Some(p) {
          return;
        }
        TagStep(At(p), was(p), bit, After(terrain, from, hit(p), a, visited(p), p), a.power);
        if !HasBit(damage[p.row, p.col], bit) {
          damage[p.row, p.col] := SetBit(damage[p.row, p.col], bit);
          damage[p.row, p.col] := damage[p.row, p.col] + a.power;
        }
      }
    }

    lemma SameCounting(was: Pos -> nat, bit: nat, hit: Pos -> Option<nat>, from: Pos, a: Ability, v: Pos -> bool,
                       w: Pos -> bool)
      requires Valid() && bit > 0 && Counting(was, bit, hit, from, a, v)
      requires forall p | terrain.m.InMap(p) :: v(p) == w(p)
      ensures Counting(was, bit, hit, from, a, w)
    {
    }

    /** The body of the loops over the offsets. */
    method AddMirrored(bit: nat, from: Pos, i: int, j: int, a: Ability,
                       ghost was: Pos -> nat, ghost hit: Pos -> Option<nat>, ghost visited: Pos -> bool)
      requires Valid() && bit > 0 && terrain.m.InMap(from) && 0 <= i && 0 <= j
      requires Counting(was, bit, hit, from, a, visited)
      modifies damage
      ensures Counting(was, bit, hit, from, a, p => visited(p) || Mirrored(from, i, j, p))
    {
      var p1, p2 := Pos(from.row + i, from.col + j), Pos(from.row + i, from.col - j);
      var p3, p4 := Pos(from.row - i, from.col + j), Pos(from.row - i, from.col - j);
      AddCell(bit, from, p1, a, was, hit, visited);
      ghost var v1 := q => visited(q) || q == p1;
      AddCell(bit, from, p2, a, was, hit, v1);
      ghost var v2 := q => v1(q) || q == p2;
      AddCell(bit, from, p3, a, was, hit, v2);
      ghost var v3 := q => v2(q) || q == p3;
      AddCell(bit, from, p4, a, was, hit, v3);
      SameCounting(was, bit, hit, from, a, q => v3(q) || q == p4, p => visited(p) || Mirrored(from, i, j, p));
    }

    /** The loops over the offsets. */
    method AddAbility(bit: nat, from: Pos, a: Ability, ghost was: Pos -> nat, ghost hit: Pos -> Option<nat>)
      requires Valid() && bit > 0 && terrain.m.InMap(from) && Counting(was, bit, hit, from, a, p => false)
      modifies damage
      ensures Counting(was, bit, hit, from, a, p => Manhattan(from, p) <= Radius(a))
    {
      var radius := Radius(a);
      var i := 0;
      SameCounting(was, bit, hit, from, a, p => false, p => Manhattan(from, p) <= radius && Visited(from, 0, 0, p));
      while i <= radius
        invariant 0 <= i && (radius >= 0 ==> i <= radius + 1)
        invariant Counting(was, bit, hit, from, a, p => Manhattan(from, p) <= radius && Visited(from, i, 0, p))
      {
        var j := 0;
        while j <= radius - i
          invariant 0 <= j <= radius - i + 1
          invariant Counting(was, bit, hit, from, a, p => Manhattan(from, p) <= radius && Visited(from, i, j, p))
        {
          ghost var v := p => Manhattan(from, p) <= radius && Visited(from, i, j, p);
          AddMirrored(bit, from, i, j, a, was, hit, v);
          SameCounting(was, bit, hit, from, a, p => v(p) || Mirrored(from, i, j, p),
                       p => Manhattan(from, p) <= radius && Visited(from, i, j + 1, p));
          j := j + 1;
        }
        SameCounting(was, bit, hit, from, a, p => Manhattan(from, p) <= radius && Visited(from, i, j, p),
                     p => Manhattan(from, p) <= radius && Visited(from, i + 1, 0, p));
        i := i + 1;
      }
      SameCounting(was, bit, hit, from, a, p => Manhattan(from, p) <= radius && Visited(from, i, 0, p),
                   p => Manhattan(from, p) <= Radius(a));
    }

    /** The offensive abilities a hero can use now. */
    function Ready(id: nat, abilities: seq<Ability>): seq<Ability>
      requires Valid() && id < HEROES && forall a | a in abilities :: a.cooldown < COOLDOWNS
      reads delay
    {
      if abilities == [] then []
      else
        var last := abilities[|abilities| - 1];
        var rest := Ready(id, abilities[..|abilities| - 1]);
        if last.kind == Offensive && delay[id, last.cooldown] == 0 then rest + [last] else rest
    }

    /** The loop that collects them. */
    method CollectReady(id: nat, abilities: seq<Ability>) returns (ready: seq<Ability>)
      requires Valid() && id < HEROES && forall a | a in abilities :: a.cooldown < COOLDOWNS
      ensures ready == Ready(id, abilities)
    {
      ready := [];
      for i := 0 to |abilities|
        invariant ready == Ready(id, abilities[..i])
      {
        var a := abilities[i];
        assert a in abilities && abilities[..i + 1][..i] == abilities[..i];
        if a.kind == Offensive {
          if delay[id, a.cooldown] == 0 {
            ready := ready + [a];
          }
        }
      }
      assert abilities[..|abilities|] == abilities;
    }

    /** Offensive, and not cooling down. */
    predicate CanUse(id: nat, a: Ability)
      requires Valid() && id < HEROES
      reads delay
    {
      a.kind == Offensive && a.cooldown < COOLDOWNS && delay[id, a.cooldown] == 0
    }

    lemma {:induction false} ReadyMeans(id: nat, abilities: seq<Ability>)
      requires Valid() && id < HEROES && forall a | a in abilities :: a.cooldown < COOLDOWNS
      ensures forall a :: a in Ready(id, abilities) <==> a in abilities && CanUse(id, a)
      decreases |abilities|
    {
      if abilities != [] {
        var last, before := abilities[|abilities| - 1], abilities[..|abilities| - 1];
        assert abilities == before + [last] && last in abilities;
        ReadyMeans(id, before);
      }
    }

    /** What an enemy can do to a cell: the power of the strongest ability it can use now that can damage the cell. */
    lemma HitIsStrongest(e: Enemy, p: Pos)
      requires Valid() && Known(e) && e.place.Some? && forall a | a in e.abilities :: a.range >= 0 && a.areaOfEffect >= 0
      ensures var hit := HitOf(e, p);
              && (forall a | a in e.abilities && CanUse(e.id, a) && Damages(terrain, e.place.value, a, p) ::
                    hit.Some? && a.power <= hit.value)
              && (hit.Some? ==>
                    exists a :: a in e.abilities && CanUse(e.id, a) && Damages(terrain, e.place.value, a, p)
                                && a.power == hit.value)
    {
      ReadyMeans(e.id, e.abilities);
      var ready := Ready(e.id, e.abilities);
      StrongestIsStrongest(terrain, e.place.value, ready, p);
      if HitOf(e, p).Some? {
        var a :| a in ready && Damages(terrain, e.place.value, a, p) && a.power == HitOf(e, p).value;
        assert a in e.abilities;
      }
    }

    /** The closing loops for an enemy: its tag is removed everywhere. */
    method ClearTag(bit: nat)
      requires Valid() && bit > 0
      modifies damage
      ensures forall p | InArray(p) :: At(p) == ClearBit(old(At(p)), bit)
    {
      for i := 0 to SIZE
        invariant forall p | InArray(p) :: At(p) == if p.row < i then ClearBit(old(At(p)), bit) else old(At(p))
      {
        for j := 0 to SIZE
          invariant forall p | InArray(p) ::
            At(p) == if p.row < i || (p.row == i && p.col < j) then ClearBit(old(At(p)), bit) else old(At(p))
        {
          damage[i, j] := ClearBit(damage[i, j], bit);
        }
      }
    }

    /** What an enemy can do to a cell. */
    ghost function HitOf(e: Enemy, p: Pos): Option<nat>
      requires Valid() && Known(e)
      reads delay
    {
      if e.place.None? then None else StrongestHit(terrain, e.place.value, Ready(e.id, e.abilities), p)
    }

    predicate Known(e: Enemy) {
      && e.id < HEROES && (forall a | a in e.abilities :: a.cooldown < COOLDOWNS)
      && (e.place.Some? ==> terrain.m.InMap(e.place.value))
    }

    /** The turn of the main loop for an enemy in sight: exact on a cell if and only if the tag does not collide with the damage there. */
    method AddEnemy(e: Enemy)
      requires Valid() && Known(e) && e.place.Some?
      modifies damage
      ensures forall p | InArray(p) ::
          At(p) == Plus(old(At(p)), HitOf(e, p)) <==> BitFree(old(At(p)), BitOf(e.id), HitOf(e, p))
    {
      ghost var base := map p | p in Cells(Map(SIZE, SIZE, {})) :: At(p);
      ghost var was: Pos -> nat := p => if p in base then base[p] else 0;
      var from, bit := e.place.value, BitOf(e.id);
      var ready := CollectReady(e.id, e.abilities);
      var sorted := Sorted(ready);
      for k := 0 to |sorted|
        invariant forall p | InArray(p) :: Tagged(At(p), was(p), bit, FirstHit(terrain, from, sorted[..k], p))
      {
        ghost var hit := p => FirstHit(terrain, from, sorted[..k], p);
        AddAbility(bit, from, sorted[k], was, hit);
        assert sorted[..k + 1] == sorted[..k] + [sorted[k]];
        forall p | InArray(p) ensures Tagged(At(p), was(p), bit, FirstHit(terrain, from, sorted[..k + 1], p)) {
          FirstHitNext(terrain, from, sorted[..k], sorted[k], p);
        }
      }
      assert sorted[..|sorted|] == sorted;
      forall p | InArray(p)
        ensures FirstHit(terrain, from, sorted, p) == HitOf(e, p)
        ensures ClearBit(At(p), bit) == Plus(was(p), HitOf(e, p)) <==> BitFree(was(p), bit, HitOf(e, p))
      {
        SortedSorts(ready);
        SortedKeepsStrongest(terrain, from, ready, p);
        FirstIsStrongest(terrain, from, sorted, p);
        TagCleared(At(p), was(p), bit, HitOf(e, p));
      }
      ClearTag(bit);
    }

    /** The damage all enemies together can do to a cell. */
    ghost function Total(enemies: seq<Enemy>, p: Pos): nat
      requires Valid() && forall e | e in enemies :: Known(e)
      reads delay
    {
      if enemies == [] then 0
      else Plus(Total(enemies[..|enemies| - 1], p), HitOf(enemies[|enemies| - 1], p))
    }

    /** The tag of enemy k, if it is in sight, does not collide with the damage of the enemies up to it. */
    ghost predicate Clean(enemies: seq<Enemy>, k: nat, p: Pos)
      requires Valid() && k < |enemies| && forall e | e in enemies :: Known(e)
      reads delay
    {
      enemies[k].place.Some? ==> BitFree(Total(enemies[..k], p), BitOf(enemies[k].id), HitOf(enemies[k], p))
    }

    /** No tag of the first n enemies collides with the damage on the square. */
    ghost predicate AllClean(enemies: seq<Enemy>, n: nat, p: Pos)
      requires Valid() && n <= |enemies| && forall e | e in enemies :: Known(e)
      reads delay
    {
      forall k | 0 <= k < n :: Clean(enemies, k, p)
    }

    lemma TotalNext(enemies: seq<Enemy>, i: nat, p: Pos)
      requires Valid() && i < |enemies| && forall e | e in enemies :: Known(e)
      ensures enemies[i] in enemies
      ensures Total(enemies[..i + 1], p) == Plus(Total(enemies[..i], p), HitOf(enemies[i], p))
    {
      assert enemies[..i + 1][..i] == enemies[..i];
    }

    /** The turn of the main loop for enemy i. */
    method AddNext(enemies: seq<Enemy>, i: nat)
      requires Valid() && i < |enemies| && forall e | e in enemies :: Known(e)
      requires forall p | InArray(p) && AllClean(enemies, i, p) :: At(p) == Total(enemies[..i], p)
      modifies damage
      ensures forall p | InArray(p) && AllClean(enemies, i, p) ::
          At(p) == Total(enemies[..i + 1], p) <==> Clean(enemies, i, p)
    {
      forall p ensures Total(enemies[..i + 1], p) == Plus(Total(enemies[..i], p), HitOf(enemies[i], p)) {
        TotalNext(enemies, i, p);
      }
      if enemies[i].place.Some? {
        AddEnemy(enemies[i]);
      }
    }

    /**
     createDamageMap: the map holds the total wherever no tag collides with the damage.  If the first collision
     is that of the last enemy, the map is wrong there.
     */
    method CreateDamageMap(enemies: seq<Enemy>)
      requires Valid() && forall e | e in enemies :: Known(e)
      modifies damage
      ensures forall p | InArray(p) && AllClean(enemies, |enemies|, p) :: At(p) == Total(enemies, p)
      ensures enemies != [] ==>
        forall p | InArray(p) && AllClean(enemies, |enemies| - 1, p) ::
          At(p) == Total(enemies, p) <==> Clean(enemies, |enemies| - 1, p)
    {
      forall i, j | 0 <= i < SIZE && 0 <= j < SIZE {
        damage[i, j] := 0;
      }
      for i := 0 to |enemies|
        invariant forall p | InArray(p) && AllClean(enemies, i, p) :: At(p) == Total(enemies[..i], p)
        invariant i > 0 ==> forall p | InArray(p) && AllClean(enemies, i - 1, p) ::
            At(p) == Total(enemies[..i], p) <==> Clean(enemies, i - 1, p)
      {
        AddNext(enemies, i);
      }
      assert enemies[..|enemies|] == enemies;
    }

    lemma {:induction false} TotalGrows(enemies: seq<Enemy>, k: nat, p: Pos)
      requires Valid() && k < |enemies| && forall e | e in enemies :: Known(e)
      ensures Plus(Total(enemies[..k], p), HitOf(enemies[k], p)) <= Total(enemies, p)
      decreases |enemies|
    {
      var rest := enemies[..|enemies| - 1];
      if k < |rest| {
        TotalGrows(rest, k, p);
        assert rest[..k] == enemies[..k];
      }
    }

    /** No tag collides where the total stays below the tag bits of all enemies in sight, for instance below 1024. */
    lemma SmallTotalIsClean(enemies: seq<Enemy>, p: Pos)
      requires Valid() && forall e | e in enemies :: Known(e)
      requires Total(enemies, p) < 1024
               || forall k | 0 <= k < |enemies| && enemies[k].place.Some? :: Total(enemies, p) < BitOf(enemies[k].id)
      ensures AllClean(enemies, |enemies|, p)
    {
      forall k | 0 <= k < |enemies| ensures Clean(enemies, k, p) {
        TotalGrows(enemies, k, p);
        BitIsLarge(enemies[k].id);
        if enemies[k].place.Some? {
          BelowHasNone(Total(enemies[..k], p), BitOf(enemies[k].id));
          BelowHasNone(Plus(Total(enemies[..k], p), HitOf(enemies[k], p)), BitOf(enemies[k].id));
        }
      }
    }
  }

  /** Two enemies that can do 600 damage each: the tag of the second collides, and the map does not hold the 1200. */
  method CollidingTags() returns (map': DamageMap, enemies: seq<Enemy>, p: Pos)
    ensures map'.Valid() && InArray(p) && forall e | e in enemies :: map'.Known(e)
    ensures map'.Total(enemies, p) == 1200 && map'.At(p) != 1200
  {
    p := Pos(0, 0);
    var bomb := Ability(0, Offensive, true, 600, 0, 0, 1);
    enemies := [Enemy(1, Some(p), 1, 1, [bomb]), Enemy(0, Some(p), 1, 1, [bomb])];
    map' := new DamageMap(Terrain(Map(1, 1, {}), {}, {p}));
    BombHits(map', enemies[0], bomb, p);
    BombHits(map', enemies[1], bomb, p);
    assert enemies[..1] == [enemies[0]] && enemies[..0] == [] && [enemies[0]][..0] == [];
    assert map'.Total([enemies[0]], p) == 600;
    assert map'.Total(enemies, p) == 1200;
    TagsOfTwo();
    map'.CreateDamageMap(enemies);
  }

  lemma BombHits(map': DamageMap, e: Enemy, a: Ability, p: Pos)
    requires map'.Valid() && map'.Known(e) && e.place == Some(p) && e.abilities == [a]
    requires a.lobbing && a.kind == Offensive && map'.delay[e.id, a.cooldown] == 0 && Radius(a) >= 0
    ensures map'.HitOf(e, p) == Some(a.power)
  {
    assert [a][..0] == [];
    assert map'.Ready(e.id, [a]) == [] + [a] == [a];
    assert StrongestHit(map'.terrain, p, [a], p) == Some(a.power) by {
      assert [a][1..] == [];
    }
  }

  lemma TagsOfTwo()
    ensures BitFree(0, BitOf(1), Some(600)) && !BitFree(600, BitOf(0), Some(600))
  {
    assert Pow2(5) == 32;
    assert Pow2(10) == 1024;
    assert Pow2(11) == 2048;
  }
}
