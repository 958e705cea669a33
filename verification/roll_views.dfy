/** What `RollView.refresh()` (src/rollView.ts) computes from an aggregate:
    the groups in ascending type order, one displayed die per die (a d1
    group shows a single "+n" die), each die's label text and colour, the
    results text and whether the texts are shown. Actors, layout, the
    label's font size and the click-handler wiring are not modelled; a die
    records the index its click handler reports. */
module RollViews {
  import opened Outcomes
  import opened DieTypes
  import opened Numerals
  import opened DiceGroups
  import opened DiceSets
  import opened GroupOrders

  /** A label's colour: `Initial` is the colour a new die's label starts with. */
  datatype Tint = Initial | White | Gray

  /** A displayed die: its type, the index its click handler reports, and
      its label's text and colour. */
  datatype DisplayDie = DisplayDie(dieType: DieType, index: nat, text: string, tint: Tint)

  /** The view: the displayed dice, the button label, and the results text,
      with whether the two texts are shown. */
  datatype View = View(display: seq<DisplayDie>, labelText: string, enabled: bool, resultsText: string)

  /** The dice of type `t` among `ds`. */
  function Many(ds: seq<DisplayDie>, t: DieType): nat {
    if |ds| == 0 then 0 else (if ds[0].dieType == t then 1 else 0) + Many(ds[1..], t)
  }

  /** The dice of type `t` among `ds`, in their order. */
  function DiceOf(ds: seq<DisplayDie>, t: DieType): (r: seq<DisplayDie>)
    ensures |r| == Many(ds, t)
    ensures forall k :: 0 <= k < |r| ==> r[k].dieType == t
  {
    if |ds| == 0 then [] else (if ds[0].dieType == t then [ds[0]] else []) + DiceOf(ds[1..], t)
  }

  lemma {:induction false} ManyAppend(a: seq<DisplayDie>, b: seq<DisplayDie>, t: DieType)
    ensures Many(a + b, t) == Many(a, t) + Many(b, t)
  {
    if |a| > 0 {
      assert (a + b)[1..] == a[1..] + b;
      ManyAppend(a[1..], b, t);
    } else {
      assert a + b == b;
    }
  }

  /** `findIndex` by type, then `splice` of that die: the first old die of
      type `t` and the pool without it. */
  function Take(pool: seq<DisplayDie>, t: DieType): (r: Option<(DisplayDie, seq<DisplayDie>)>)
    ensures r.None? <==> Many(pool, t) == 0
    ensures r.Some? ==> r.value.0.dieType == t && r.value.0 in pool
    ensures r.Some? ==> |r.value.1| + 1 == |pool|
    ensures r.Some? ==> forall u :: Many(r.value.1, u) == Many(pool, u) - (if u == t then 1 else 0)
  {
    if |pool| == 0 then None
    else if pool[0].dieType == t then Some((pool[0], pool[1..]))
    else match Take(pool[1..], t)
      case None => None
      case Some((d, rest)) =>
        assert ([pool[0]] + rest)[1..] == rest;
        Some((d, [pool[0]] + rest))
  }

  /** A die made for a group: labelled with its type's name. */
  function Fresh(t: DieType): DisplayDie {
    DisplayDie(t, 0, Name(t), Initial)
  }

  /** The label the refresh gives die `i` of `g`: a d1 shows `+count`; a
      rolled die shows its result, white when it counts towards the total
      and gray when dropped; an unrolled die keeps its text and turns white. */
  function Dress(g: DiceGroup, i: nat, d: DisplayDie): DisplayDie
    requires g.Wf() && i < g.count
  {
    var d := d.(index := i);
    if g.dieType == D1 then d.(text := "+" + FromNat(g.count))
    else if g.HasRollResults() then
      d.(text := FromNat(g.results.value[i]), tint := if i in g.contributing.value then White else Gray)
    else d.(tint := White)
  }

  /** The label a die of `g` at index `i` ends up with, as the view promises it. */
  predicate Dressed(g: DiceGroup, i: nat, d: DisplayDie)
    requires g.Wf() && i < g.count
  {
    && d.dieType == g.dieType && d.index == i
    && (g.dieType == D1 ==> d.text == "+" + FromNat(g.count))
    && (g.dieType != D1 && g.HasRollResults() ==>
          d.text == FromNat(g.results.value[i]) && (d.tint == White <==> i in g.contributing.value)
          && d.tint != Initial)
    && (g.dieType != D1 && !g.HasRollResults() ==> d.tint == White)
  }

  /** The inner loop for one group from die `i` on: reuse an old die of the
      type if one is left, otherwise make one, except that a d1 group stops
      after its first die. */
  function GroupDice(g: DiceGroup, i: nat, pool: seq<DisplayDie>): (r: (seq<DisplayDie>, seq<DisplayDie>))
    requires g.Wf()
    ensures |r.0| > 0 ==> i + |r.0| <= g.count
    ensures forall k :: 0 <= k < |r.0| ==> Dressed(g, i + k, r.0[k])
    ensures g.dieType != D1 && i <= g.count ==> |r.0| == g.count - i
    ensures g.dieType == D1 && i > 0 ==> |r.0| <= Many(pool, D1)
    ensures g.dieType == D1 ==> |r.0| <= 1 || |r.0| <= Many(pool, D1)
    ensures g.dieType == D1 && i == 0 < g.count ==> |r.0| >= 1
    ensures forall u :: u != g.dieType ==> Many(r.1, u) == Many(pool, u)
    ensures Many(r.0, g.dieType) == |r.0|
    decreases g.count - i
  {
    if i >= g.count then ([], pool)
    else
      var next := Take(pool, g.dieType);
      if next.Some? then
        var (ds, p) := GroupDice(g, i + 1, next.value.1);
        var out := [Dress(g, i, next.value.0)] + ds;
        DressedCons(g, i, next.value.0, ds);
        (out, p)
      else if g.dieType != D1 || i == 0 then
        var (ds, p) := GroupDice(g, i + 1, pool);
        var out := [Dress(g, i, Fresh(g.dieType))] + ds;
        DressedCons(g, i, Fresh(g.dieType), ds);
        (out, p)
      else ([], pool)
  }

  /** A die of the group's type dressed as die `i`, ahead of dice dressed
      from `i + 1` on, gives dice dressed from `i` on, all of that type. */
  lemma DressedCons(g: DiceGroup, i: nat, d: DisplayDie, ds: seq<DisplayDie>)
    requires g.Wf() && i < g.count && d.dieType == g.dieType
    requires i + 1 + |ds| <= g.count
    requires forall k :: 0 <= k < |ds| ==> Dressed(g, i + 1 + k, ds[k])
    requires Many(ds, g.dieType) == |ds|
    ensures forall k :: 0 <= k < |[Dress(g, i, d)] + ds| ==> Dressed(g, i + k, ([Dress(g, i, d)] + ds)[k])
    ensures Many([Dress(g, i, d)] + ds, g.dieType) == 1 + |ds|
  {
    var out := [Dress(g, i, d)] + ds;
    assert out[1..] == ds;
    forall k | 0 <= k < |out| ensures Dressed(g, i + k, out[k]) {
      if k > 0 {
        var k1 := k - 1;
        assert out[k] == ds[k1];
        assert Dressed(g, i + 1 + k1, ds[k1]);
      } else {
        assert out[0] == Dress(g, i, d);
        assert Dressed(g, i + k, out[k]);
      }
    }
  }

  /** The outer loop: every group's dice in group order, and the old dice
      nobody reused (which the source destroys). */
  function Display(gs: seq<DiceGroup>, pool: seq<DisplayDie>): (r: (seq<DisplayDie>, seq<DisplayDie>))
    requires AllWf(gs)
  {
    if |gs| == 0 then ([], pool)
    else
      var (mine, p) := GroupDice(gs[0], 0, pool);
      var (rest, left) := Display(gs[1..], p);
      (mine + rest, left)
  }

  /** Some group of type `t` has dice. */
  predicate Holds(gs: seq<DiceGroup>, t: DieType) {
    exists j :: 0 <= j < |gs| && gs[j].count > 0 && gs[j].dieType == t
  }

  /** Only a type with dice in some group is displayed. */
  lemma {:induction false} DisplayTypes(gs: seq<DiceGroup>, pool: seq<DisplayDie>)
    requires AllWf(gs)
    ensures forall k :: 0 <= k < |Display(gs, pool).0| ==> Holds(gs, Display(gs, pool).0[k].dieType)
  {
    if |gs| > 0 {
      var (mine, p) := GroupDice(gs[0], 0, pool);
      var rest := Display(gs[1..], p).0;
      assert Display(gs, pool).0 == mine + rest;
      DisplayTypes(gs[1..], p);
      forall k | 0 <= k < |mine + rest| ensures Holds(gs, (mine + rest)[k].dieType) {
        if k < |mine| {
          assert Dressed(gs[0], k, mine[k]);
        } else {
          var k2 := k - |mine|;
          assert Holds(gs[1..], rest[k2].dieType);
          var j :| 0 <= j < |gs[1..]| && gs[1..][j].count > 0 && gs[1..][j].dieType == rest[k2].dieType;
          assert gs[j + 1] == gs[1..][j];
        }
      }
    }
  }

  /** A type no group has is neither displayed nor taken from the old dice. */
  lemma {:induction false} DisplayAbsent(gs: seq<DiceGroup>, pool: seq<DisplayDie>, u: DieType)
    requires AllWf(gs)
    requires forall j :: 0 <= j < |gs| ==> gs[j].dieType != u
    ensures Many(Display(gs, pool).0, u) == 0 && Many(Display(gs, pool).1, u) == Many(pool, u)
  {
    if |gs| > 0 {
      var (mine, p) := GroupDice(gs[0], 0, pool);
      var rest := Display(gs[1..], p).0;
      assert Display(gs, pool).0 == mine + rest;
      NoneOfOther(mine, gs[0].dieType, u);
      assert forall j :: 0 <= j < |gs[1..]| ==> gs[1..][j] == gs[j + 1];
      DisplayAbsent(gs[1..], p, u);
      ManyAppend(mine, rest, u);
    }
  }

  /** Given distinct types, a group of a type other than d1 shows exactly
      its count of dice. */
  lemma {:induction false} DisplayCounts(gs: seq<DiceGroup>, pool: seq<DisplayDie>, j: nat)
    requires AllWf(gs) && UniqueTypes(gs) && j < |gs| && gs[j].dieType != D1
    ensures Many(Display(gs, pool).0, gs[j].dieType) == gs[j].count
  {
    var t := gs[j].dieType;
    var (mine, p) := GroupDice(gs[0], 0, pool);
    var rest := Display(gs[1..], p).0;
    assert Display(gs, pool).0 == mine + rest;
    ManyAppend(mine, rest, t);
    if j == 0 {
      assert forall i :: 0 <= i < |gs[1..]| ==> gs[1..][i] == gs[i + 1];
      DisplayAbsent(gs[1..], p, t);
    } else {
      NoneOfOther(mine, gs[0].dieType, t);
      assert UniqueTypes(gs[1..]);
      assert gs[1..][j - 1] == gs[j];
      DisplayCounts(gs[1..], p, j - 1);
    }
  }

  /** Given distinct types and at most one old d1 die, at most one d1 die is
      displayed, however many d1 the group holds, and exactly one when a d1
      group has dice. */
  lemma {:induction false} DisplayOneD1(gs: seq<DiceGroup>, pool: seq<DisplayDie>)
    requires AllWf(gs) && UniqueTypes(gs) && Many(pool, D1) <= 1
    ensures Many(Display(gs, pool).0, D1) <= 1
    ensures Holds(gs, D1) ==> Many(Display(gs, pool).0, D1) == 1
  {
    if |gs| > 0 {
      var (mine, p) := GroupDice(gs[0], 0, pool);
      var rest := Display(gs[1..], p).0;
      assert Display(gs, pool).0 == mine + rest;
      ManyAppend(mine, rest, D1);
      assert UniqueTypes(gs[1..]);
      if gs[0].dieType == D1 {
        assert forall i :: 0 <= i < |gs[1..]| ==> gs[1..][i] == gs[i + 1];
        DisplayAbsent(gs[1..], p, D1);
        if Holds(gs, D1) {
          var j :| 0 <= j < |gs| && gs[j].count > 0 && gs[j].dieType == D1;
          assert j == 0;
        }
      } else {
        NoneOfOther(mine, gs[0].dieType, D1);
        DisplayOneD1(gs[1..], p);
        if Holds(gs, D1) {
          var j :| 0 <= j < |gs| && gs[j].count > 0 && gs[j].dieType == D1;
          assert gs[1..][j - 1] == gs[j];
          assert Holds(gs[1..], D1);
        }
      }
    }
  }

  /** Dice of one type, counted for another, are none. */
  lemma {:induction false} NoneOfOther(ds: seq<DisplayDie>, t: DieType, u: DieType)
    requires Many(ds, t) == |ds| && u != t
    ensures Many(ds, u) == 0
  {
    if |ds| > 0 {
      ManyBound(ds[1..], t);
      NoneOfOther(ds[1..], t, u);
    }
  }

  lemma {:induction false} ManyBound(ds: seq<DisplayDie>, t: DieType)
    ensures Many(ds, t) <= |ds|
  {
    if |ds| > 0 {
      ManyBound(ds[1..], t);
    }
  }

  /** The results text: the roll total once there is one, `??` before. */
  function ResultsText(total: nat): (s: string)
    ensures |s| > 2 && s[..2] == "= "
    ensures total > 0 ==> AllDigits(s[2..]) && ToNat(s[2..]) == total
    ensures total == 0 <==> s == "= ??"
  {
    ToNatFromNat(total);
    if total > 0 then
      var s := "= " + FromNat(total);
      assert s[2..] == FromNat(total);
      s
    else "= ??"
  }

  /** `refresh()`: sort the groups by ascending type, show and hide the two
      texts by whether there are dice, set the results text, and rebuild the
      displayed dice from the old ones. The label is left as it was. */
  function Refresh(v: View, d: Dice): (r: (Dice, View))
    requires AllWf(d.groups)
    ensures r.0.groups == Sort(d.groups, false)
    ensures r.1.labelText == v.labelText
    ensures r.1.enabled <==> Count(d.groups) > 0
    ensures r.1.resultsText == ResultsText(RollTotal(d.groups))
  {
    var sorted := Sort(d.groups, false);
    assert AllWf(sorted) by {
      forall i | 0 <= i < |sorted| ensures sorted[i].Wf() {
        assert sorted[i] in d.groups;
      }
    }
    var (display, _) := Display(sorted, v.display);
    (Dice(sorted), View(display, v.labelText, Count(d.groups) > 0, ResultsText(RollTotal(d.groups))))
  }

  /** The refreshed view shows the dice of the sorted groups. */
  lemma RefreshDisplays(v: View, d: Dice)
    requires AllWf(d.groups)
    ensures AllWf(Sort(d.groups, false))
    ensures Refresh(v, d).1.display == Display(Sort(d.groups, false), v.display).0
  {
    SortKeepsGroups(d.groups, false);
  }
}
