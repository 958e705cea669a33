/** `Roll` (src/roll.ts): groups kept in a map keyed by die type, grown one
    die at a time. */
module RollMaps {
  import opened Outcomes
  import opened DieTypes
  import opened DiceGroups

  /** Every group sits under its own type, so there is one group per type. */
  predicate Keyed(m: map<DieType, DiceGroup>) {
    forall t :: t in m ==> m[t].dieType == t
  }

  /** `addDie(t)`: a new single die when `t` has no group yet, otherwise one
      more die in its group (through the `count` setter, which refuses a
      rolled group). */
  function AddDie(m: map<DieType, DiceGroup>, t: DieType): (r: Result<map<DieType, DiceGroup>>)
    ensures r.Ok? <==> t !in m || !m[t].HasRollResults()
    ensures r.Err? ==> r.failure == Locked
    ensures r.Ok? ==> r.value.Keys == m.Keys + {t}
    ensures r.Ok? ==> forall u :: u in m && u != t ==> r.value[u] == m[u]
    ensures r.Ok? && t !in m ==> r.value[t] == Single(t)
    ensures r.Ok? && t in m ==> r.value[t] == m[t].(count := m[t].count + 1)
    ensures r.Ok? && Keyed(m) ==> Keyed(r.value)
  {
    if t !in m then Ok(m[t := Single(t)])
    else
      var g :- SetCount(m[t], m[t].count + 1);
      Ok(m[t := g])
  }

  /** `k` calls of `addDie(t)`. */
  function AddMany(m: map<DieType, DiceGroup>, t: DieType, k: nat): Result<map<DieType, DiceGroup>> {
    if k == 0 then Ok(m)
    else
      var m' :- AddMany(m, t, k - 1);
      AddDie(m', t)
  }

  /** Starting empty, `k` calls of `addDie(t)` leave one group: `k` dice of
      type `t`, nothing dropped, unrolled. */
  lemma {:induction false} AddManyFromEmpty(t: DieType, k: nat)
    requires k >= 1
    ensures AddMany(map[], t, k) == Ok(map[t := Single(t).(count := k)])
  {
    if k > 1 {
      AddManyFromEmpty(t, k - 1);
      var m := map[t := Single(t).(count := k - 1)];
      var g := Single(t).(count := k);
      assert SetCount(m[t], k) == Ok(g);
      assert m[t := g] == map[t := g];
    }
  }
}
