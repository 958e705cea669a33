/** A homogeneous group of dice with drop-highest/drop-lowest modifiers
    (src/diceGroup.ts). A group is editable until it is rolled; rolling
    fills in the results and locks it for good. */
module DiceGroups {
  import opened Outcomes
  import opened DieTypes
  import opened IndexOrders
  import opened RollCuts

  datatype DiceGroup = DiceGroup(
    dieType: DieType,
    count: nat,
    dropHighest: nat,
    dropLowest: nat,
    /** the raw rolls, one per die; `None` until rolled */
    results: Option<seq<nat>>,
    /** indices into `results` that make up the total; `None` until rolled */
    contributing: Option<seq<nat>>,
    total: nat)
  {
    /** `hasRollResults`: set once by `roll()`, never cleared. */
    predicate HasRollResults() {
      results.Some?
    }

    /** At least one die is left after the drops. */
    predicate DropsFit() {
      dropHighest + dropLowest < count
    }

    /** What rolling guarantees about the result fields of a group. */
    predicate Wf() {
      && (results.Some? <==> contributing.Some?)
      && (results.Some? ==> |results.value| == count && InRange(contributing.value, count))
      && (results.None? ==> total == 0)
    }
  }

  /** The `type` setter. */
  function SetType(g: DiceGroup, t: DieType): (r: Result<DiceGroup>)
    ensures r.Ok? <==> !g.HasRollResults()
    ensures r.Err? ==> r.failure == Locked
    ensures r.Ok? ==> r.value.dieType == t && r.value == g.(dieType := t)
  {
    if g.HasRollResults() then Err(Locked) else Ok(g.(dieType := t))
  }

  /** The `count` setter. It does not re-check the drops: shrinking a group
      below `dropHighest + dropLowest + 1` dice is accepted. */
  function SetCount(g: DiceGroup, v: nat): (r: Result<DiceGroup>)
    ensures r.Ok? <==> !g.HasRollResults()
    ensures r.Err? ==> r.failure == Locked
    ensures r.Ok? ==> r.value.count == v && r.value == g.(count := v)
  {
    if g.HasRollResults() then Err(Locked) else Ok(g.(count := v))
  }

  /** The `dropHighest` setter: refuses when rolled or when no die would be left. */
  function SetDropHighest(g: DiceGroup, v: nat): (r: Result<DiceGroup>)
    ensures r.Ok? <==> !g.HasRollResults() && v + g.dropLowest < g.count
    ensures r.Err? ==> r.failure == (if g.HasRollResults() then Locked else DropAll)
    ensures r.Ok? ==> r.value.DropsFit() && r.value == g.(dropHighest := v)
  {
    if g.HasRollResults() then Err(Locked)
    else if v >= g.count - g.dropLowest then Err(DropAll)
    else Ok(g.(dropHighest := v))
  }

  /** The `dropLowest` setter, symmetric to `SetDropHighest`. */
  function SetDropLowest(g: DiceGroup, v: nat): (r: Result<DiceGroup>)
    ensures r.Ok? <==> !g.HasRollResults() && g.dropHighest + v < g.count
    ensures r.Err? ==> r.failure == (if g.HasRollResults() then Locked else DropAll)
    ensures r.Ok? ==> r.value.DropsFit() && r.value == g.(dropLowest := v)
  {
    if g.HasRollResults() then Err(Locked)
    else if v >= g.count - g.dropHighest then Err(DropAll)
    else Ok(g.(dropLowest := v))
  }

  /** `new DiceGroup(type, count, dropHighest, dropLowest)`. The constructor
      runs the four setters on a fresh object. While `dropLowest` is still
      `undefined`, the `dropHighest` check compares against `NaN` and cannot
      fail, so only the final `dropLowest` check can refuse. */
  function New(t: DieType, c: nat, dh: nat, dl: nat): (r: Result<DiceGroup>)
    ensures r.Ok? <==> dh + dl < c
    ensures r.Err? ==> r.failure == DropAll
    ensures r.Ok? ==> var g := r.value;
      && g.dieType == t && g.count == c && g.dropHighest == dh && g.dropLowest == dl
      && !g.HasRollResults() && g.contributing.None? && g.total == 0 && g.Wf()
  {
    SetDropLowest(DiceGroup(t, c, dh, 0, None, None, 0), dl)
  }

  /** `new DiceGroup(toClone)`: an unrolled copy of the settings, whether or
      not the original was rolled. It refuses a group whose drops no longer
      fit, which only a shrinking `count` can produce. */
  function Clone(g: DiceGroup): (r: Result<DiceGroup>)
    ensures r.Ok? <==> g.DropsFit()
    ensures r.Ok? ==> var c := r.value;
      && c.dieType == g.dieType && c.count == g.count
      && c.dropHighest == g.dropHighest && c.dropLowest == g.dropLowest
      && !c.HasRollResults() && c.total == 0 && c.Wf()
  {
    New(g.dieType, g.count, g.dropHighest, g.dropLowest)
  }

  /** One die, count 1, no drops: what adding a new die type creates. */
  function Single(t: DieType): (g: DiceGroup)
    ensures New(t, 1, 0, 0) == Ok(g)
  {
    DiceGroup(t, 1, 0, 0, None, None, 0)
  }

  /** `roll()`, with the random source replaced by `draws`, one per die. */
  function Roll(g: DiceGroup, draws: seq<nat>): (r: Result<DiceGroup>)
    requires |draws| == g.count && DrawsFit(g.dieType, draws)
    ensures r.Err? <==> g.HasRollResults()
    ensures r.Err? ==> r.failure == RolledTwice
    ensures r.Ok? ==> var h := r.value;
      && h.HasRollResults() && h.Wf()
      && h.dieType == g.dieType && h.count == g.count
      && h.dropHighest == g.dropHighest && h.dropLowest == g.dropLowest
      && |h.results.value| == g.count
      && (forall i :: 0 <= i < g.count ==> 1 <= h.results.value[i] <= Sides(g.dieType))
      && (forall i :: 0 <= i < g.count ==> h.results.value[i] == Face(g.dieType, draws[i]))
  {
    if g.HasRollResults() then Err(RolledTwice)
    else
      var rs := seq(g.count, i requires 0 <= i < g.count => Face(g.dieType, draws[i]));
      var kept := Kept(rs, g.dropHighest, g.dropLowest);
      assert InRange(kept, |rs|) by {
        forall k | 0 <= k < |kept| ensures kept[k] < |rs| {
          assert kept[k] in StableOrder(rs);
        }
      }
      Ok(g.(results := Some(rs), contributing := Some(kept), total := SumAt(rs, kept)))
  }

  /** Rolling a group whose drops fit keeps `count - dropHighest - dropLowest`
      dice, cut from the stable order so that no dropped-low roll exceeds a
      kept one and no kept roll exceeds a dropped-high one; its total is the
      sum of all rolls less the dropped ones. */
  lemma RollPartition(g: DiceGroup, draws: seq<nat>)
    requires |draws| == g.count && DrawsFit(g.dieType, draws)
    requires !g.HasRollResults() && g.DropsFit()
    ensures var h := Roll(g, draws).value;
      var rs := h.results.value;
      var kept, lo, hi := h.contributing.value, LowCut(rs, g.dropLowest), HighCut(rs, g.dropHighest);
      && |kept| == g.count - g.dropHighest - g.dropLowest
      && IsStableOrder(rs, lo + kept + hi)
      && (forall j, k :: 0 <= j < |lo| && 0 <= k < |kept| ==> rs[lo[j]] <= rs[kept[k]])
      && (forall j, k :: 0 <= j < |kept| && 0 <= k < |hi| ==> rs[kept[j]] <= rs[hi[k]])
      && InRange(lo, |rs|) && InRange(hi, |rs|)
      && h.total + SumAt(rs, lo) + SumAt(rs, hi) == Sum(rs)
  {
    var h := Roll(g, draws).value;
    var rs := h.results.value;
    assert h.contributing.value == Kept(rs, g.dropHighest, g.dropLowest);
    KeptPartition(rs, g.dropHighest, g.dropLowest);
    KeptSum(rs, g.dropHighest, g.dropLowest);
  }

  /** With nothing dropped, the total is the sum of every roll. */
  lemma RollNoDrops(g: DiceGroup, draws: seq<nat>)
    requires |draws| == g.count && DrawsFit(g.dieType, draws)
    requires !g.HasRollResults() && g.dropHighest == 0 && g.dropLowest == 0
    ensures Roll(g, draws).value.total == Sum(Roll(g, draws).value.results.value)
  {
    if g.count > 0 {
      RollPartition(g, draws);
      var rs := Roll(g, draws).value.results.value;
      assert LowCut(rs, 0) == [] && HighCut(rs, 0) == [];
    }
  }

  /** A rolled group refuses every edit and a second roll. */
  lemma RolledGroupIsLocked(g: DiceGroup, t: DieType, v: nat, draws: seq<nat>)
    requires g.HasRollResults()
    requires |draws| == g.count && DrawsFit(g.dieType, draws)
    ensures SetType(g, t) == Err(Locked) && SetCount(g, v) == Err(Locked)
    ensures SetDropHighest(g, v) == Err(Locked) && SetDropLowest(g, v) == Err(Locked)
    ensures Roll(g, draws) == Err(RolledTwice)
  {
  }

  /** Four d6 dropping the highest, rolling 2, 6, 4, 1: the 6 is dropped and
      the total is 7. */
  lemma ExampleDropHighest(g: DiceGroup, draws: seq<nat>)
    requires New(D6, 4, 1, 0) == Ok(g) && draws == [1, 5, 3, 0]
    ensures Roll(g, draws).Ok?
    ensures var h := Roll(g, draws).value;
      h.results == Some([2, 6, 4, 1]) && h.contributing == Some([3, 0, 2]) && h.total == 7
  {
    var h := Roll(g, draws).value;
    RollUnfolds(g, draws);
    var rs := h.results.value;
    assert rs[0] == 2 && rs[1] == 6 && rs[2] == 4 && rs[3] == 1;
    assert rs == [2, 6, 4, 1];
    KeptOfFourD6(h);
  }

  /** Unfolding aid for the worked examples: what a roll keeps and totals,
      spelled out as the body computes them. It states no property of its own. */
  lemma RollUnfolds(g: DiceGroup, draws: seq<nat>)
    requires |draws| == g.count && DrawsFit(g.dieType, draws) && !g.HasRollResults()
    ensures var h := Roll(g, draws).value;
      && h.contributing.value == Kept(h.results.value, g.dropHighest, g.dropLowest)
      && h.total == SumAt(h.results.value, h.contributing.value)
  {
  }

  lemma KeptOfFourD6(h: DiceGroup)
    requires h.HasRollResults() && h.Wf() && h.results.value == [2, 6, 4, 1]
    requires h.dropHighest == 1 && h.dropLowest == 0
    requires h.contributing.value == Kept(h.results.value, 1, 0)
    requires h.total == SumAt(h.results.value, h.contributing.value)
    ensures h.contributing == Some([3, 0, 2]) && h.total == 7
  {
    var rs, e := h.results.value, [3, 0, 2, 1];
    KeptOfExample(h, rs, e, 3);
    SumOfThree(rs, 3, 0, 2);
    assert e[0..3] == [3, 0, 2];
  }

  /** Five d6 dropping four, shrunk to three dice: the shrink is accepted and
      `slice` reads the negative end (`3 - 4`) as counting from the back, so
      two of the three dice still count. */
  lemma ShrunkGroupKeepsWrappedSlice(g: DiceGroup, draws: seq<nat>)
    requires New(D6, 5, 4, 0) == Ok(g) && draws == [0, 1, 2]
    ensures SetCount(g, 3).Ok? && !SetCount(g, 3).value.DropsFit()
    ensures var s := SetCount(g, 3).value;
      Roll(s, draws).Ok? &&
      Roll(s, draws).value.contributing == Some([0, 1]) &&
      Roll(s, draws).value.total == 3
  {
    var s := SetCount(g, 3).value;
    var h := Roll(s, draws).value;
    RollUnfolds(s, draws);
    var rs := h.results.value;
    assert rs[0] == 1 && rs[1] == 2 && rs[2] == 3;
    assert rs == [1, 2, 3];
    KeptOfShrunkD6(h);
  }

  lemma KeptOfShrunkD6(h: DiceGroup)
    requires h.HasRollResults() && h.Wf() && h.results.value == [1, 2, 3]
    requires h.dropHighest == 4 && h.dropLowest == 0
    requires h.contributing.value == Kept(h.results.value, 4, 0)
    requires h.total == SumAt(h.results.value, h.contributing.value)
    ensures h.contributing == Some([0, 1]) && h.total == 3
  {
    var rs, e := h.results.value, [0, 1, 2];
    KeptOfExample(h, rs, e, 2);
    SumOfTwo(rs, 0, 1);
    assert e[0..2] == [0, 1];
  }

  /** The kept indices and total of a rolled group whose stable order is `e`
      and whose slice ends at `hi`. */
  lemma KeptOfExample(h: DiceGroup, rs: seq<nat>, e: seq<nat>, hi: nat)
    requires h.HasRollResults() && h.results.value == rs && h.Wf()
    requires h.contributing.value == Kept(rs, h.dropHighest, h.dropLowest)
    requires h.total == SumAt(rs, h.contributing.value)
    requires |e| == |rs| && InRange(e, |rs|)
    requires forall i :: 0 <= i < |rs| ==> i in e
    requires forall k :: 0 <= k < |e| - 1 ==> Precedes(rs, e[k], e[k + 1])
    requires JsBound(|rs| - h.dropHighest, |rs|) == hi && h.dropLowest <= hi
    ensures h.contributing.value == e[h.dropLowest..hi]
  {
    OrderedFromNeighbours(rs, e);
    assert IsStableOrder(rs, e);
    StableOrderUnique(rs, StableOrder(rs), e);
    SliceToBound(e, h.dropLowest, |rs| - h.dropHighest);
  }

  lemma SumOfThree(rs: seq<nat>, a: nat, b: nat, c: nat)
    requires a < |rs| && b < |rs| && c < |rs|
    ensures SumAt(rs, [a, b, c]) == rs[a] + rs[b] + rs[c]
  {
    var s: seq<nat> := [a, b, c];
    assert s[1..] == [b, c] && s[1..][1..] == [c];
    assert SumAt(rs, [c]) == rs[c] + SumAt(rs, []);
    assert SumAt(rs, [b, c]) == rs[b] + SumAt(rs, [c]);
  }

  lemma SumOfTwo(rs: seq<nat>, a: nat, b: nat)
    requires a < |rs| && b < |rs|
    ensures SumAt(rs, [a, b]) == rs[a] + rs[b]
  {
    var s: seq<nat> := [a, b];
    assert s[1..] == [b];
    assert SumAt(rs, [b]) == rs[b] + SumAt(rs, []);
  }
}
