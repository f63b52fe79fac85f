/** How the proposals of the bomb planner are ranked. */
module Scores {
  import opened FiniteSets
  import opened Heroes

  predicate Distinct(es: seq<Enemy>) {
    forall i, j | 0 <= i < j < |es| :: es[i].id != es[j].id
  }

  predicate Has(es: seq<Enemy>, id: int) {
    exists i | 0 <= i < |es| :: es[i].id == id
  }

  /** getHero, for the hit points of a hero that is there. */
  function CurrentHP(es: seq<Enemy>, id: int): int {
    if es == [] then 0 else if es[0].id == id then es[0].currentHP else CurrentHP(es[1..], id)
  }

  /** What hitting an enemy is worth: killing one is far above hurting one. */
  function Worth(power: int, hp: int): int {
    if power > hp then 100000 + hp else 500 - hp
  }

  /** The worth of all enemies of a group. */
  function Score(power: int, es: seq<Enemy>, group: set<int>): int {
    if es == [] then 0
    else (if es[0].id in group then Worth(power, es[0].currentHP) else 0) + Score(power, es[1..], group)
  }

  /** How many of a group the attack kills, and how many it hurts. */
  function Kills(power: int, es: seq<Enemy>, group: set<int>): nat {
    if es == [] then 0
    else (if es[0].id in group && power > es[0].currentHP then 1 else 0) + Kills(power, es[1..], group)
  }

  function Hurts(power: int, es: seq<Enemy>, group: set<int>): nat {
    if es == [] then 0
    else (if es[0].id in group && power <= es[0].currentHP then 1 else 0) + Hurts(power, es[1..], group)
  }

  // ---------- the loop over the members ----------

  lemma {:induction false} ScoreWithout(power: int, es: seq<Enemy>, group: set<int>, id: int)
    requires !Has(es, id)
    ensures Score(power, es, group + {id}) == Score(power, es, group)
  {
    if es != [] {
      assert es[0].id != id;
      forall i | 0 <= i < |es[1..]| ensures es[1..][i].id != id { assert es[1..][i] == es[i + 1]; }
      ScoreWithout(power, es[1..], group, id);
    }
  }

  lemma DistinctRest(es: seq<Enemy>)
    requires es != [] && Distinct(es)
    ensures Distinct(es[1..]) && !Has(es[1..], es[0].id)
  {
    forall i | 0 <= i < |es[1..]| ensures es[1..][i].id != es[0].id { assert es[1..][i] == es[i + 1]; }
  }

  /** A further member adds its worth, in whatever order the members come. */
  lemma {:induction false} ScoreOfMore(power: int, es: seq<Enemy>, group: set<int>, id: int)
    requires Distinct(es) && Has(es, id) && id !in group
    ensures Score(power, es, group + {id}) == Score(power, es, group) + Worth(power, CurrentHP(es, id))
  {
    DistinctRest(es);
    if es[0].id == id {
      ScoreWithout(power, es[1..], group, id);
    } else {
      var i :| 0 <= i < |es| && es[i].id == id;
      assert es[1..][i - 1].id == id;
      ScoreOfMore(power, es[1..], group, id);
    }
  }

  lemma {:induction false} ScoreOfNone(power: int, es: seq<Enemy>)
    ensures Score(power, es, {}) == 0
  {
    if es != [] { ScoreOfNone(power, es[1..]); }
  }

  /** The loop that adds up the score of a proposal; the order of the members does not matter. */
  method AddUp(power: int, es: seq<Enemy>, members: set<int>) returns (score: int)
    requires Distinct(es) && forall id | id in members :: Has(es, id)
    ensures score == Score(power, es, members)
  {
    score := 0;
    var rest := members;
    ScoreOfNone(power, es);
    assert members - rest == {};
    while rest != {}
      invariant rest <= members && score == Score(power, es, members - rest)
      decreases |rest|
    {
      var mem := Pick(rest);
      ScoreOfMore(power, es, members - rest, mem);
      assert members - rest + {mem} == members - (rest - {mem});
      score := score + Worth(power, CurrentHP(es, mem));
      rest := rest - {mem};
    }
    assert members - rest == members;
  }

  // ---------- what the score means ----------

  lemma {:induction false} ScoreBounds(power: int, es: seq<Enemy>, group: set<int>)
    requires forall i | 0 <= i < |es| :: 0 <= es[i].currentHP <= 500
    ensures Score(power, es, group) >= 100000 * Kills(power, es, group)
    ensures Score(power, es, group) <= 100500 * Kills(power, es, group) + 500 * Hurts(power, es, group)
  {
    if es != [] { ScoreBounds(power, es[1..], group); }
  }

  lemma {:induction false} GroupBounds(power: int, es: seq<Enemy>, group: set<int>)
    requires Distinct(es)
    ensures Kills(power, es, group) + Hurts(power, es, group) <= |group|
  {
    if es != [] {
      DistinctRest(es);
      var id := es[0].id;
      if id in group {
        GroupBounds(power, es[1..], group - {id});
        CountsWithout(power, es[1..], group, id);
      } else {
        GroupBounds(power, es[1..], group);
      }
    }
  }

  lemma {:induction false} CountsWithout(power: int, es: seq<Enemy>, group: set<int>, id: int)
    requires !Has(es, id)
    ensures Kills(power, es, group - {id}) == Kills(power, es, group)
    ensures Hurts(power, es, group - {id}) == Hurts(power, es, group)
  {
    if es != [] {
      assert es[0].id != id;
      forall i | 0 <= i < |es[1..]| ensures es[1..][i].id != id { assert es[1..][i] == es[i + 1]; }
      CountsWithout(power, es[1..], group, id);
    }
  }

  /** Among groups the planner compares, at most four enemies of at most 500 hit points, the one with more kills is ahead. */
  lemma MoreKillsScoreHigher(power: int, es: seq<Enemy>, group: set<int>, other: set<int>)
    requires Distinct(es) && (forall i | 0 <= i < |es| :: 0 <= es[i].currentHP <= 500)
    requires |other| <= 4 && Kills(power, es, group) > Kills(power, es, other)
    ensures Score(power, es, group) > Score(power, es, other)
  {
    ScoreBounds(power, es, group);
    ScoreBounds(power, es, other);
    GroupBounds(power, es, other);
  }

  /** The hit points of those an attack kills, and of those it hurts. */
  function KilledHP(power: int, es: seq<Enemy>, group: set<int>): int {
    if es == [] then 0
    else (if es[0].id in group && power > es[0].currentHP then es[0].currentHP else 0) + KilledHP(power, es[1..], group)
  }

  function HurtHP(power: int, es: seq<Enemy>, group: set<int>): int {
    if es == [] then 0
    else (if es[0].id in group && power <= es[0].currentHP then es[0].currentHP else 0) + HurtHP(power, es[1..], group)
  }

  lemma {:induction false} ScoreByHitPoints(power: int, es: seq<Enemy>, group: set<int>)
    ensures Score(power, es, group)
            == 100000 * Kills(power, es, group) + KilledHP(power, es, group)
               + 500 * Hurts(power, es, group) - HurtHP(power, es, group)
  {
    if es != [] { ScoreByHitPoints(power, es[1..], group); }
  }

  /** Of two groups with equal kills and equal size, more hit points killed and fewer left standing score higher. */
  lemma HitPointsDecide(power: int, es: seq<Enemy>, group: set<int>, other: set<int>)
    requires Kills(power, es, group) == Kills(power, es, other) && Hurts(power, es, group) == Hurts(power, es, other)
    ensures Score(power, es, group) > Score(power, es, other)
            <==> KilledHP(power, es, group) - HurtHP(power, es, group) > KilledHP(power, es, other) - HurtHP(power, es, other)
  {
    ScoreByHitPoints(power, es, group);
    ScoreByHitPoints(power, es, other);
  }
}
