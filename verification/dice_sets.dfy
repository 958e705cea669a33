/** The aggregate a controller composes and rolls: an ordered list of
    groups, at most one per die type. It is the `Dice` class that
    src/rollController.ts and src/rollView.ts import from ./diceGroup; that
    class is not part of this model, so only what its callers use is
    modelled: `groups`, `get`, `count`, `hasRollResults`, `rollTotal`,
    `clear`, and rolling every group. */
module DiceSets {
  import opened Outcomes
  import opened DieTypes
  import opened IndexOrders
  import opened DiceGroups

  datatype Dice = Dice(groups: seq<DiceGroup>)
  {
    /** `hasRollResults`: there are groups and every one of them is rolled.
        An empty aggregate reads as unrolled, which is what lets a cleared
        roll be composed again. */
    predicate HasRollResults() {
      |groups| > 0 && AllRolled(groups)
    }
  }

  /** `clear()`: no groups at all. */
  const Cleared := Dice([])

  predicate AllRolled(gs: seq<DiceGroup>) {
    forall i :: 0 <= i < |gs| ==> gs[i].HasRollResults()
  }

  predicate NoneRolled(gs: seq<DiceGroup>) {
    forall i :: 0 <= i < |gs| ==> !gs[i].HasRollResults()
  }

  /** No two groups share a die type. */
  predicate UniqueTypes(gs: seq<DiceGroup>) {
    forall i, j :: 0 <= i < j < |gs| ==> gs[i].dieType != gs[j].dieType
  }

  predicate AllWf(gs: seq<DiceGroup>) {
    forall i :: 0 <= i < |gs| ==> gs[i].Wf()
  }

  /** `count`: the number of dice over all groups. */
  function Count(gs: seq<DiceGroup>): nat {
    if |gs| == 0 then 0 else gs[0].count + Count(gs[1..])
  }

  /** `rollTotal`: the sum of the groups' totals (0 while unrolled). */
  function RollTotal(gs: seq<DiceGroup>): nat {
    if |gs| == 0 then 0 else gs[0].total + RollTotal(gs[1..])
  }

  /** `groups.find(dg => dg.type === t)`, as a position: the first group of
      type `t`, or `None` when there is none. */
  function Find(gs: seq<DiceGroup>, t: DieType): (r: Option<nat>)
    ensures r.None? <==> forall i :: 0 <= i < |gs| ==> gs[i].dieType != t
    ensures r.Some? ==> r.value < |gs| && gs[r.value].dieType == t
    ensures r.Some? ==> forall i :: 0 <= i < r.value ==> gs[i].dieType != t
  {
    if |gs| == 0 then None
    else if gs[0].dieType == t then Some(0)
    else match Find(gs[1..], t)
      case None => None
      case Some(k) => Some(k + 1)
  }

  /** `get(t)`: the group of type `t`, if any. */
  function Get(d: Dice, t: DieType): (r: Option<DiceGroup>)
    ensures r.None? <==> forall i :: 0 <= i < |d.groups| ==> d.groups[i].dieType != t
    ensures r.Some? ==> r.value in d.groups && r.value.dieType == t
  {
    match Find(d.groups, t)
    case None => None
    case Some(k) => Some(d.groups[k])
  }

  /** Replacing one group changes the count by the difference. */
  lemma {:induction false} CountUpdate(gs: seq<DiceGroup>, k: nat, g: DiceGroup)
    requires k < |gs|
    ensures Count(gs[k := g]) + gs[k].count == Count(gs) + g.count
  {
    if k > 0 {
      assert gs[k := g][1..] == gs[1..][k - 1 := g];
      CountUpdate(gs[1..], k - 1, g);
    } else {
      assert gs[k := g][1..] == gs[1..];
    }
  }

  /** Appending a group adds its count. */
  lemma {:induction false} CountAppend(gs: seq<DiceGroup>, g: DiceGroup)
    ensures Count(gs + [g]) == Count(gs) + g.count
  {
    if |gs| > 0 {
      assert (gs + [g])[1..] == gs[1..] + [g];
      CountAppend(gs[1..], g);
    } else {
      assert [g][1..] == [];
    }
  }

  /** The die-adding step shared by every composer: increment the group of
      type `t`, or append a fresh single die when there is none. The
      increment goes through the `count` setter, so it fails on a rolled
      group. */
  function AddTo(gs: seq<DiceGroup>, t: DieType): (r: Result<seq<DiceGroup>>)
    ensures r.Err? <==> Find(gs, t).Some? && gs[Find(gs, t).value].HasRollResults()
    ensures r.Err? ==> r.failure == Locked
    ensures r.Ok? ==> Count(r.value) == Count(gs) + 1
    ensures r.Ok? && Find(gs, t).None? ==> r.value == gs + [Single(t)]
    ensures r.Ok? && Find(gs, t).Some? ==> var k := Find(gs, t).value;
      && |r.value| == |gs|
      && r.value[k] == gs[k].(count := gs[k].count + 1)
      && forall i :: 0 <= i < |gs| && i != k ==> r.value[i] == gs[i]
    ensures r.Ok? && UniqueTypes(gs) ==> UniqueTypes(r.value)
    ensures r.Ok? && AllWf(gs) ==> AllWf(r.value)
  {
    match Find(gs, t)
    case None =>
      CountAppend(gs, Single(t));
      Ok(gs + [Single(t)])
    case Some(k) =>
      var g :- SetCount(gs[k], gs[k].count + 1);
      CountUpdate(gs, k, g);
      Ok(gs[k := g])
  }

  /** Every group has one draw per die, each in its type's range. */
  predicate DrawsFor(gs: seq<DiceGroup>, draws: seq<seq<nat>>) {
    && |draws| == |gs|
    && forall i :: 0 <= i < |gs| ==> |draws[i]| == gs[i].count && DrawsFit(gs[i].dieType, draws[i])
  }

  /** `for (const dg of groups) dg.roll()`: every group rolled with its own
      draws, in order. A group rolled before makes the whole step fail. */
  function RollAll(gs: seq<DiceGroup>, draws: seq<seq<nat>>): (r: Result<seq<DiceGroup>>)
    requires DrawsFor(gs, draws)
    ensures r.Ok? <==> NoneRolled(gs)
    ensures r.Err? ==> r.failure == RolledTwice
    ensures r.Ok? ==> |r.value| == |gs|
    ensures r.Ok? ==> forall i :: 0 <= i < |gs| ==> r.value[i] == Roll(gs[i], draws[i]).value
  {
    if |gs| == 0 then Ok([])
    else
      var h :- Roll(gs[0], draws[0]);
      var rest :- RollAll(gs[1..], draws[1..]);
      var out := [h] + rest;
      forall i | 0 <= i < |gs| ensures out[i] == Roll(gs[i], draws[i]).value {
        if i > 0 {
          assert out[i] == rest[i - 1] && gs[1..][i - 1] == gs[i] && draws[1..][i - 1] == draws[i];
        }
      }
      Ok(out)
  }

  /** Rolling every group leaves a fully rolled aggregate with the same
      dice: the count and the types are those of the groups rolled. */
  lemma {:induction false} RollAllKeepsDice(gs: seq<DiceGroup>, draws: seq<seq<nat>>)
    requires DrawsFor(gs, draws) && NoneRolled(gs)
    ensures var r := RollAll(gs, draws).value;
      && AllRolled(r) && AllWf(r)
      && Count(r) == Count(gs)
      && (forall i :: 0 <= i < |gs| ==> r[i].dieType == gs[i].dieType && r[i].count == gs[i].count)
      && (forall i :: 0 <= i < |gs| ==> r[i].DropsFit() == gs[i].DropsFit())
      && (UniqueTypes(gs) ==> UniqueTypes(r))
  {
    var r := RollAll(gs, draws).value;
    forall i | 0 <= i < |gs|
      ensures r[i].HasRollResults() && r[i].Wf()
      ensures r[i].dieType == gs[i].dieType && r[i].count == gs[i].count
      ensures r[i].DropsFit() == gs[i].DropsFit()
    {
      assert r[i] == Roll(gs[i], draws[i]).value;
    }
    if |gs| > 0 {
      RollAllKeepsDice(gs[1..], draws[1..]);
      assert RollAll(gs[1..], draws[1..]).value == r[1..];
    }
  }

  /** Rolling a d20 and three d1 (a flat +3) totals the d20's face plus 3. */
  lemma ExampleFlatBonus(gs: seq<DiceGroup>, draws: seq<seq<nat>>, x: nat)
    requires gs == [Single(D20), Single(D1).(count := 3)]
    requires draws == [[x], [0, 0, 0]] && x < 20
    ensures RollAll(gs, draws).Ok?
    ensures RollTotal(RollAll(gs, draws).value) == x + 1 + 3
  {
    assert DrawsFor(gs, draws);
    var r := RollAll(gs, draws).value;
    RollNoDrops(gs[0], draws[0]);
    RollNoDrops(gs[1], draws[1]);
    var a, b := r[0].results.value, r[1].results.value;
    assert a == [x + 1];
    assert b == [1, 1, 1];
    assert Sum(a) == Sum([]) + (x + 1);
    assert Sum(b) == 3 by {
      var b2: seq<nat> := [1, 1];
      var b1: seq<nat> := [1];
      assert b[..2] == b2 && b2[..1] == b1 && b1[..0] == [];
      assert Sum(b1) == 1;
      assert Sum(b2) == 2;
    }
    assert r[0].total == x + 1;
    assert r[1].total == 3;
    assert r[1..] == [r[1]] && r[1..][1..] == [];
    assert RollTotal(r[1..]) == 3 + RollTotal([]);
  }
}
