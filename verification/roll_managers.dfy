/** `RollManager` (src/rollManager.ts), the older single-user composer: an
    array of groups kept in descending type order, rolled all at once into
    a history of group lists, after which the dice are set up again
    unrolled. The display dice it keeps are not modelled. */
module RollManagers {
  import opened Outcomes
  import opened DieTypes
  import opened Numerals
  import opened DiceGroups
  import opened DiceSets
  import opened GroupOrders

  /** The active groups, every rolled group list so far, and the results text. */
  datatype Manager = Manager(active: seq<DiceGroup>, history: seq<seq<DiceGroup>>, resultsText: string)

  /** As constructed: nothing active, nothing rolled, `= ??` shown. */
  const Start := Manager([], [], "= ??")

  /** What the manager keeps true of its active groups: descending type
      order, one group per type, none rolled, and drops that fit (it never
      sets a drop, and every group holds a die). */
  predicate Valid(m: Manager) {
    && Sorted(m.active, true) && UniqueTypes(m.active) && NoneRolled(m.active) && AllWf(m.active)
    && forall i :: 0 <= i < |m.active| ==> m.active[i].DropsFit()
  }

  /** `addDie(t)`: increment the group of type `t` or push a new single die,
      then the display refresh sorts the groups. */
  function AddDie(m: Manager, t: DieType): (r: Result<Manager>)
    ensures r.Ok? <==> AddTo(m.active, t).Ok?
    ensures r.Ok? ==> Count(r.value.active) == Count(m.active) + 1 && Sorted(r.value.active, true)
    ensures r.Ok? ==> r.value.active == Sort(AddTo(m.active, t).value, true)
    ensures r.Ok? ==> r.value.history == m.history && r.value.resultsText == m.resultsText
  {
    var gs :- AddTo(m.active, t);
    Ok(m.(active := Sort(gs, true)))
  }

  /** Adding a die to a valid manager succeeds and keeps it valid. */
  lemma AddDieValid(m: Manager, t: DieType)
    requires Valid(m)
    ensures AddDie(m, t).Ok? && Valid(AddDie(m, t).value)
  {
    var gs := AddTo(m.active, t).value;
    assert NoneRolled(gs) && forall i :: 0 <= i < |gs| ==> gs[i].DropsFit() by {
      forall i | 0 <= i < |gs| ensures !gs[i].HasRollResults() && gs[i].DropsFit() {
        if Find(m.active, t).Some? && i == Find(m.active, t).value {
        } else if i < |m.active| {
          assert gs[i] == m.active[i];
        } else {
          assert gs[i] == Single(t);
        }
      }
    }
    var r := Sort(gs, true);
    forall i | 0 <= i < |r|
      ensures !r[i].HasRollResults() && r[i].DropsFit() && r[i].Wf()
    {
      assert r[i] in gs;
    }
  }

  /** `activeRoll.map(dg => new DiceGroup(dg))`: an unrolled copy of every group. */
  function CloneAll(gs: seq<DiceGroup>): (r: Result<seq<DiceGroup>>)
    ensures r.Ok? <==> forall i :: 0 <= i < |gs| ==> gs[i].DropsFit()
    ensures r.Err? ==> r.failure == DropAll
    ensures r.Ok? ==> |r.value| == |gs|
    ensures r.Ok? ==> forall i :: 0 <= i < |gs| ==> r.value[i] == Clone(gs[i]).value
  {
    if |gs| == 0 then Ok([])
    else
      var c :- Clone(gs[0]);
      var rest :- CloneAll(gs[1..]);
      assert forall i :: 1 <= i < |gs| ==> gs[i] == gs[1..][i - 1];
      Ok([c] + rest)
  }

  /** `roll()`: roll every group, show `= total`, push the rolled list to the
      history, and carry on with unrolled copies (which the refresh sorts). */
  function RollActive(m: Manager, draws: seq<seq<nat>>): (r: Result<Manager>)
    requires DrawsFor(m.active, draws)
    ensures r.Ok? <==> NoneRolled(m.active) && forall i :: 0 <= i < |m.active| ==> m.active[i].DropsFit()
    ensures r.Ok? ==> RollAll(m.active, draws).Ok?
    ensures r.Ok? ==> var rolled := RollAll(m.active, draws).value;
      && r.value.history == m.history + [rolled]
      && r.value.resultsText == TotalText(RollTotal(rolled))
  {
    var rolled :- RollAll(m.active, draws);
    CloneAfterRoll(m.active, draws);
    var copies :- CloneAll(rolled);
    Ok(Manager(Sort(copies, true), m.history + [rolled], TotalText(RollTotal(rolled))))
  }

  /** Rolled groups can be copied exactly when their drops fit before rolling. */
  lemma CloneAfterRoll(gs: seq<DiceGroup>, draws: seq<seq<nat>>)
    requires DrawsFor(gs, draws) && NoneRolled(gs)
    ensures CloneAll(RollAll(gs, draws).value).Ok? <==> forall i :: 0 <= i < |gs| ==> gs[i].DropsFit()
  {
    var r := RollAll(gs, draws).value;
    RollAllKeepsDice(gs, draws);
    if forall i :: 0 <= i < |gs| ==> gs[i].DropsFit() {
      forall i | 0 <= i < |r| ensures r[i].DropsFit() {
        assert gs[i].DropsFit();
      }
    } else {
      var i :| 0 <= i < |gs| && !gs[i].DropsFit();
      assert !r[i].DropsFit();
    }
  }

  /** `'= ' + total`: unlike the roll view, a total of 0 is printed as is. */
  function TotalText(total: nat): (s: string)
    ensures |s| > 2 && s[..2] == "= " && AllDigits(s[2..]) && ToNat(s[2..]) == total
  {
    var s := "= " + FromNat(total);
    assert s[2..] == FromNat(total);
    ToNatFromNat(total);
    s
  }

  /** Rolling a valid manager succeeds, leaves it valid, and the groups it
      goes on with are, position for position, unrolled groups with the
      settings it rolled. */
  lemma RollActiveValid(m: Manager, draws: seq<seq<nat>>)
    requires Valid(m) && DrawsFor(m.active, draws)
    ensures RollActive(m, draws).Ok?
    ensures var n := RollActive(m, draws).value;
      && Valid(n)
      && |n.active| == |m.active|
      && forall i :: 0 <= i < |m.active| ==>
           && n.active[i].dieType == m.active[i].dieType && n.active[i].count == m.active[i].count
           && n.active[i].dropHighest == m.active[i].dropHighest
           && n.active[i].dropLowest == m.active[i].dropLowest
  {
    var rolled := RollAll(m.active, draws).value;
    RollAllKeepsDice(m.active, draws);
    var copies := CloneAll(rolled).value;
    forall i | 0 <= i < |m.active|
      ensures copies[i] == m.active[i]
    {
      assert rolled[i] == Roll(m.active[i], draws[i]).value;
    }
    assert copies == m.active;
    SortSorted(copies, true);
  }
}
