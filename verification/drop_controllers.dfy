/** `DropController` (src/dropController.ts): the displayed dice of one type
    and the two drag handles that mark which of them are dropped. Handle
    positions are reduced to the indices of the dice they sit on. */
module DropControllers {
  import opened Outcomes
  import opened DieTypes
  import opened DiceGroups
  import opened RollViews

  /** The type of the group the controller was made for, and every die
      handed to it so far (the list is never emptied). */
  datatype DropController = DropController(groupType: DieType, dice: seq<DisplayDie>)

  /** A controller as constructed: no dice yet. */
  function ForType(t: DieType): DropController {
    DropController(t, [])
  }

  /** Every die the controller holds is of its group's type. */
  predicate OfType(dc: DropController) {
    forall k :: 0 <= k < |dc.dice| ==> dc.dice[k].dieType == dc.groupType
  }

  /** `addDice(...dice)`: all of them appended in order, or none when any is
      of another type. */
  function AddDice(dc: DropController, ds: seq<DisplayDie>): (r: Result<DropController>)
    ensures r.Ok? <==> forall k :: 0 <= k < |ds| ==> ds[k].dieType == dc.groupType
    ensures r.Err? ==> r.failure == OddDice
    ensures r.Ok? ==> r.value.groupType == dc.groupType && |r.value.dice| == |dc.dice| + |ds|
    ensures r.Ok? ==> r.value.dice[..|dc.dice|] == dc.dice && r.value.dice[|dc.dice|..] == ds
    ensures r.Ok? && OfType(dc) ==> OfType(r.value)
  {
    if forall k :: 0 <= k < |ds| ==> ds[k].dieType == dc.groupType then
      var all := dc.dice + ds;
      assert all[..|dc.dice|] == dc.dice && all[|dc.dice|..] == ds;
      Ok(dc.(dice := all))
    else Err(OddDice)
  }

  /** Handing dice over in two calls is handing them over in one. */
  lemma AddDiceTwice(dc: DropController, a: seq<DisplayDie>, b: seq<DisplayDie>)
    requires AddDice(dc, a).Ok?
    ensures AddDice(AddDice(dc, a).value, b) == AddDice(dc, a + b)
  {
    var once := AddDice(dc, a).value;
    assert once.dice == dc.dice + a;
    if forall k :: 0 <= k < |b| ==> b[k].dieType == dc.groupType {
      assert (dc.dice + a) + b == dc.dice + (a + b);
    } else {
      var k :| 0 <= k < |b| && b[k].dieType != dc.groupType;
      assert (a + b)[|a| + k] == b[k];
    }
  }

  /** Where the handles are: not yet created (their assets still loading),
      hidden, or on the dice at the two indices. */
  datatype Handles = Pending | Hidden | Shown(left: nat, right: nat)

  /** `update()`: nothing before both handles exist; hidden with no dice;
      otherwise the left handle on die `dropHighest` and the right one on
      die `length - dropLowest - 1`. An index off the list reads a die that
      is not there. */
  function Update(dc: DropController, g: DiceGroup, loaded: bool): (r: Result<Handles>)
    ensures !loaded ==> r == Ok(Pending)
    ensures loaded && |dc.dice| == 0 ==> r == Ok(Hidden)
    ensures r.Err? <==> loaded && 0 < |dc.dice| && (|dc.dice| <= g.dropHighest || |dc.dice| <= g.dropLowest)
    ensures r.Err? ==> r.failure == Undefined
    ensures r.Ok? && r.value.Shown? ==>
      && r.value.left == g.dropHighest && r.value.left < |dc.dice|
      && r.value.right + g.dropLowest + 1 == |dc.dice|
  {
    if !loaded then Ok(Pending)
    else if |dc.dice| == 0 then Ok(Hidden)
    else if g.dropHighest >= |dc.dice| then Err(Undefined)
    else
      var right := |dc.dice| - g.dropLowest - 1;
      if right < 0 then Err(Undefined) else Ok(Shown(g.dropHighest, right))
  }

  /** With at least as many dice as the group has and drops that fit, both
      handles land on dice, the left one not after the right one. */
  lemma HandlesInRange(dc: DropController, g: DiceGroup)
    requires g.DropsFit() && g.count <= |dc.dice|
    ensures Update(dc, g, true).Ok? && Update(dc, g, true).value.Shown?
    ensures var h := Update(dc, g, true).value;
      h.left <= h.right < |dc.dice|
  {
  }
}
