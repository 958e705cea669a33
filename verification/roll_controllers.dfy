/** `RollController` (src/rollController.ts): one user's session. The user
    composes a roll by picking die types, rolls it with the label button,
    and resets it with the same button; clicking a die takes one away, or
    resets once rolled. A drop controller is kept per type other than d1.
    Events arrive one at a time, so each handler is a function from the
    session before to the session after; draws, the clock and the highlight
    colour are parameters. */
module RollControllers {
  import opened Outcomes
  import opened DieTypes
  import opened DiceGroups
  import opened DiceSets
  import opened GroupOrders
  import opened RollViews
  import opened DropControllers
  import opened RollHistories

  /** The most dice a roll may hold. */
  const MaxDice: nat := 15

  /** The user, the roll being composed or shown, the drop controllers by
      type, the view of the roll, and the shared history. */
  datatype Session = Session(
    user: User,
    active: Dice,
    controllers: map<DieType, DropController>,
    view: View,
    history: History)

  /** A session as constructed: no dice, no controllers, and the view as its
      first refresh leaves it. */
  function Start(user: User, history: History): (s: Session)
    ensures Valid(s) && s.active.groups == [] && s.controllers == map[]
    ensures s.view.labelText == "ROLL" && !s.view.enabled && s.view.resultsText == "= ??"
  {
    Session(user, Cleared, map[], View([], "ROLL", false, ResultsText(0)), history)
  }

  /** Every controller sits under the type of its group. */
  predicate Keyed(cs: map<DieType, DropController>) {
    forall t :: t in cs ==> cs[t].groupType == t
  }

  /** No group drops any die: the controller never sets a drop. */
  predicate NoDrops(gs: seq<DiceGroup>) {
    forall i :: 0 <= i < |gs| ==> gs[i].dropHighest == 0 && gs[i].dropLowest == 0
  }

  /** What a refresh needs to succeed: one group per type, well-formed groups
      without drops, controllers under their own types, and at most one old
      d1 die to reuse. */
  predicate Ready(s: Session) {
    var gs := s.active.groups;
    && UniqueTypes(gs) && AllWf(gs) && NoDrops(gs)
    && Keyed(s.controllers)
    && Many(s.view.display, D1) <= 1
  }

  /** What every handler keeps true besides: groups in ascending type order,
      all rolled or none, at most `MaxDice` dice, and only types with dice on
      display. */
  predicate Valid(s: Session) {
    var gs := s.active.groups;
    && Ready(s)
    && Sorted(gs, false)
    && (NoneRolled(gs) || AllRolled(gs))
    && Count(gs) <= MaxDice
    && forall k :: 0 <= k < |s.view.display| ==> Holds(gs, s.view.display[k].dieType)
  }

  /** The first loop of `refresh()`: make a controller for a type other than
      d1 that lacks one; otherwise drop the controller of a group with no
      dice. */
  function Bookkeep(gs: seq<DiceGroup>, cs: map<DieType, DropController>): (r: map<DieType, DropController>)
    ensures Keyed(cs) ==> Keyed(r)
    ensures forall t :: (forall j :: 0 <= j < |gs| ==> gs[j].dieType != t) ==>
      (t in r <==> t in cs) && (t in cs ==> r[t] == cs[t])
    ensures UniqueTypes(gs) ==>
      forall j :: 0 <= j < |gs| && gs[j].dieType != D1 && gs[j].count > 0 ==> gs[j].dieType in r
    ensures D1 in r ==> D1 in cs
  {
    if |gs| == 0 then cs
    else
      var r := Bookkeep(gs[1..], KeepOne(gs[0], cs));
      BookkeepCons(gs, cs, r);
      r
  }

  /** One pass of the first loop, for group `g`. */
  function KeepOne(g: DiceGroup, cs: map<DieType, DropController>): map<DieType, DropController> {
    var t := g.dieType;
    if t != D1 && t !in cs then cs[t := ForType(t)]
    else if g.count == 0 && t in cs then cs - {t}
    else cs
  }

  /** What the loop promises after the first group, given what it promises
      for the rest from there on. */
  lemma BookkeepCons(gs: seq<DiceGroup>, cs: map<DieType, DropController>, r: map<DieType, DropController>)
    requires |gs| > 0
    requires var rest, next := gs[1..], KeepOne(gs[0], cs);
      && (Keyed(next) ==> Keyed(r))
      && (forall t :: (forall j :: 0 <= j < |rest| ==> rest[j].dieType != t) ==>
            (t in r <==> t in next) && (t in next ==> r[t] == next[t]))
      && (UniqueTypes(rest) ==>
            forall j :: 0 <= j < |rest| && rest[j].dieType != D1 && rest[j].count > 0 ==> rest[j].dieType in r)
      && (D1 in r ==> D1 in next)
    ensures Keyed(cs) ==> Keyed(r)
    ensures forall t :: (forall j :: 0 <= j < |gs| ==> gs[j].dieType != t) ==>
      (t in r <==> t in cs) && (t in cs ==> r[t] == cs[t])
    ensures UniqueTypes(gs) ==>
      forall j :: 0 <= j < |gs| && gs[j].dieType != D1 && gs[j].count > 0 ==> gs[j].dieType in r
    ensures D1 in r ==> D1 in cs
  {
    var rest, next, t0 := gs[1..], KeepOne(gs[0], cs), gs[0].dieType;
    assert forall j :: 1 <= j < |gs| ==> gs[j] == rest[j - 1];
    forall t | forall j :: 0 <= j < |gs| ==> gs[j].dieType != t
      ensures (t in r <==> t in cs) && (t in cs ==> r[t] == cs[t])
    {
      assert gs[0].dieType != t;
      forall j | 0 <= j < |rest| ensures rest[j].dieType != t {
        assert rest[j] == gs[j + 1];
      }
    }
    if UniqueTypes(gs) {
      assert UniqueTypes(rest);
      forall j | 0 <= j < |rest| ensures rest[j].dieType != t0 {
        assert rest[j] == gs[j + 1];
      }
      forall j | 0 <= j < |gs| && gs[j].dieType != D1 && gs[j].count > 0 ensures gs[j].dieType in r {
        if j > 0 {
          assert gs[j] == rest[j - 1];
        } else {
          assert t0 in next;
        }
      }
    }
  }

  /** The `else if` in the first loop: a group of a type other than d1 left
      with no dice loses its controller on one refresh and gets a new one on
      the next. */
  lemma {:induction false} BookkeepFlips(gs: seq<DiceGroup>, cs: map<DieType, DropController>, j: nat)
    requires UniqueTypes(gs) && j < |gs| && gs[j].dieType != D1 && gs[j].count == 0
    ensures gs[j].dieType in Bookkeep(gs, cs) <==> gs[j].dieType !in cs
  {
    var t := gs[j].dieType;
    var next := KeepOne(gs[0], cs);
    if j == 0 {
      assert t in next <==> t !in cs;
      assert forall i :: 0 <= i < |gs[1..]| ==> gs[1..][i].dieType != t by {
        forall i | 0 <= i < |gs[1..]| ensures gs[1..][i].dieType != t {
          assert gs[1..][i] == gs[i + 1];
        }
      }
    } else {
      assert gs[0].dieType != t;
      assert t in next <==> t in cs;
      assert UniqueTypes(gs[1..]) by {
        forall a, b | 0 <= a < b < |gs[1..]| ensures gs[1..][a].dieType != gs[1..][b].dieType {
          assert gs[1..][a] == gs[a + 1] && gs[1..][b] == gs[b + 1];
        }
      }
      assert gs[1..][j - 1] == gs[j];
      BookkeepFlips(gs[1..], next, j - 1);
    }
  }

  /** The last loop of `refresh()`: each displayed die other than a d1 goes
      to the controller of its type; a missing controller is read through
      `undefined`. */
  function Feed(cs: map<DieType, DropController>, ds: seq<DisplayDie>): (r: Result<map<DieType, DropController>>)
    ensures Keyed(cs) ==> (r.Ok? <==> forall k :: 0 <= k < |ds| && ds[k].dieType != D1 ==> ds[k].dieType in cs)
    ensures r.Err? && Keyed(cs) ==> r.failure == Undefined
    ensures r.Ok? ==> r.value.Keys == cs.Keys
    ensures r.Ok? && Keyed(cs) ==> Keyed(r.value)
    ensures r.Ok? && Keyed(cs) ==>
      forall t :: t in cs && t != D1 ==> r.value[t].dice == cs[t].dice + DiceOf(ds, t)
    ensures r.Ok? && Keyed(cs) ==>
      forall t :: t in cs && t != D1 ==> |r.value[t].dice| == |cs[t].dice| + Many(ds, t)
  {
    if |ds| == 0 then Ok(cs)
    else
      var d := ds[0];
      assert forall k :: 1 <= k < |ds| ==> ds[k] == ds[1..][k - 1];
      if d.dieType == D1 then Feed(cs, ds[1..])
      else if d.dieType !in cs then Err(Undefined)
      else
        var c :- AddDice(cs[d.dieType], [d]);
        var r := Feed(cs[d.dieType := c], ds[1..]);
        if r.Ok? && Keyed(cs) then
          assert c.dice == cs[d.dieType].dice + [d];
          FeedCons(cs, ds, c, r.value);
          r
        else r
  }

  /** One die handed to its controller ahead of the rest: each controller
      ends with its old dice, then the displayed dice of its type in order. */
  lemma {:induction false} FeedCons(cs: map<DieType, DropController>, ds: seq<DisplayDie>, c: DropController,
                 m: map<DieType, DropController>)
    requires |ds| > 0 && ds[0].dieType != D1 && ds[0].dieType in cs
    requires c.dice == cs[ds[0].dieType].dice + [ds[0]]
    requires m.Keys == cs.Keys
    requires forall t :: t in cs[ds[0].dieType := c] && t != D1 ==>
      m[t].dice == cs[ds[0].dieType := c][t].dice + DiceOf(ds[1..], t)
    ensures forall t :: t in cs && t != D1 ==> m[t].dice == cs[t].dice + DiceOf(ds, t)
  {
    forall t | t in cs && t != D1 ensures m[t].dice == cs[t].dice + DiceOf(ds, t) {
      FeedConsAt(cs, ds, c, m, t);
    }
  }

  lemma {:induction false} FeedConsAt(cs: map<DieType, DropController>, ds: seq<DisplayDie>, c: DropController,
                   m: map<DieType, DropController>, t: DieType)
    requires |ds| > 0 && ds[0].dieType in cs && t in cs && t in m
    requires c.dice == cs[ds[0].dieType].dice + [ds[0]]
    requires m[t].dice == cs[ds[0].dieType := c][t].dice + DiceOf(ds[1..], t)
    ensures m[t].dice == cs[t].dice + DiceOf(ds, t)
  {
    var d := ds[0];
    var tail := DiceOf(ds[1..], t);
    var next := cs[d.dieType := c];
    if t == d.dieType {
      assert next[t] == c;
      assert DiceOf(ds, t) == [d] + tail;
      assert m[t].dice == (cs[t].dice + [d]) + tail;
    } else {
      assert next[t] == cs[t];
      assert DiceOf(ds, t) == [] + tail;
    }
  }

  /** `refresh()`: controller bookkeeping, the view's refresh (which sorts the
      groups), the label, and the displayed dice handed to the controllers. */
  function Refresh(s: Session): (r: Result<Session>)
    requires AllWf(s.active.groups)
    ensures r.Err? && Keyed(s.controllers) ==> r.failure == Undefined
    ensures |s.active.groups| == 0 ==> r == Ok(s.(view := View([], "ROLL", false, "= ??")))
    ensures r.Ok? ==> r.value.active.groups == Sort(s.active.groups, false)
    ensures r.Ok? ==> r.value.user == s.user && r.value.history == s.history
    ensures r.Ok? ==> (r.value.view.labelText == "RESET" <==> s.active.HasRollResults())
    ensures r.Ok? ==> r.value.view.labelText in {"RESET", "ROLL"}
    ensures r.Ok? ==> (r.value.view.enabled <==> Count(s.active.groups) > 0)
    ensures r.Ok? ==> r.value.view.resultsText == ResultsText(RollTotal(s.active.groups))
    ensures r.Ok? ==> r.value.controllers.Keys == Bookkeep(s.active.groups, s.controllers).Keys
    ensures r.Ok? && Keyed(s.controllers) ==> forall t :: t in r.value.controllers && t != D1 ==>
      r.value.controllers[t].dice == Bookkeep(s.active.groups, s.controllers)[t].dice + DiceOf(r.value.view.display, t)
  {
    var cs := Bookkeep(s.active.groups, s.controllers);
    var (active, view) := RollViews.Refresh(s.view, s.active);
    SortKeepsGroups(s.active.groups, false);
    var view := view.(labelText := if active.HasRollResults() then "RESET" else "ROLL");
    var cs :- Feed(cs, view.display);
    Ok(Session(s.user, active, cs, view, s.history))
  }

  /** Sorting keeps groups without drops. */
  lemma SortNoDrops(gs: seq<DiceGroup>)
    requires NoDrops(gs)
    ensures NoDrops(Sort(gs, false))
  {
    var r := Sort(gs, false);
    forall i | 0 <= i < |r| ensures r[i].dropHighest == 0 && r[i].dropLowest == 0 {
      assert r[i] in gs;
    }
  }

  /** A session ready for it always refreshes without error, into a ready
      session over the sorted groups whose display shows only types with
      dice, and in which every group of a type other than d1 with dice has a
      controller holding at least as many dice as the group. */
  lemma RefreshReady(s: Session)
    requires Ready(s)
    ensures Refresh(s).Ok?
    ensures var n := Refresh(s).value;
      && Ready(n) && n.active.groups == Sort(s.active.groups, false)
      && (forall k :: 0 <= k < |n.view.display| ==> Holds(n.active.groups, n.view.display[k].dieType))
      && forall j :: 0 <= j < |n.active.groups| && n.active.groups[j].dieType != D1 && n.active.groups[j].count > 0 ==>
           n.active.groups[j].dieType in n.controllers
           && n.active.groups[j].count <= |n.controllers[n.active.groups[j].dieType].dice|
  {
    var gs := Sort(s.active.groups, false);
    RefreshFeeds(s);
    SortKeepsGroups(s.active.groups, false);
    SortNoDrops(s.active.groups);
    var display := Display(gs, s.view.display).0;
    DisplayTypes(gs, s.view.display);
    DisplayOneD1(gs, s.view.display);
    var n := Refresh(s).value;
    forall j | 0 <= j < |gs| && gs[j].dieType != D1 && gs[j].count > 0
      ensures gs[j].dieType in n.controllers && gs[j].count <= |n.controllers[gs[j].dieType].dice|
    {
      assert gs[j] in s.active.groups;
      DisplayCounts(gs, s.view.display, j);
    }
  }

  /** On a ready session every displayed die other than a d1 finds its
      controller, so the refresh succeeds and shows the sorted groups' dice. */
  lemma RefreshFeeds(s: Session)
    requires Ready(s)
    ensures AllWf(Sort(s.active.groups, false))
    ensures Refresh(s).Ok?
    ensures Refresh(s).value.view.display == Display(Sort(s.active.groups, false), s.view.display).0
  {
    var gs := Sort(s.active.groups, false);
    RollViews.RefreshDisplays(s.view, s.active);
    var cs := Bookkeep(s.active.groups, s.controllers);
    var display := Display(gs, s.view.display).0;
    assert RollViews.Refresh(s.view, s.active).1.display == display;
    DisplayTypes(gs, s.view.display);
    forall k | 0 <= k < |display| && display[k].dieType != D1 ensures display[k].dieType in cs {
      var j :| 0 <= j < |gs| && gs[j].count > 0 && gs[j].dieType == display[k].dieType;
      assert gs[j] in s.active.groups;
    }
    assert Feed(cs, display).Ok?;
  }

  /** A valid session refreshes into a valid session with the same groups. */
  lemma RefreshValid(s: Session)
    requires Valid(s)
    ensures Refresh(s).Ok? && Valid(Refresh(s).value)
    ensures Refresh(s).value.active == s.active
  {
    RefreshReady(s);
    SortSorted(s.active.groups, false);
  }

  /** With no drops and at least as many dice as the group, both handles of
      a controller land on dice once its assets are in. */
  lemma HandlesAfterRefresh(s: Session, j: nat)
    requires Ready(s) && j < |s.active.groups|
    requires var g := Sort(s.active.groups, false)[j]; g.dieType != D1 && g.count > 0
    ensures Refresh(s).Ok?
    ensures var n := Refresh(s).value; var g := n.active.groups[j];
      && g.dieType in n.controllers
      && var h := Update(n.controllers[g.dieType], g, true);
      && h.Ok? && h.value.Shown? && h.value.left == 0 && h.value.right + 1 == |n.controllers[g.dieType].dice|
  {
    RefreshReady(s);
    var n := Refresh(s).value;
    var g := n.active.groups[j];
    assert g.dropHighest == 0 && g.dropLowest == 0;
    var dc := n.controllers[g.dieType];
    assert g.count <= |dc.dice|;
    HandlesInRange(dc, g);
  }

  /** `addDie(t)`: ignored once the roll has results or holds `MaxDice`
      dice; otherwise one more die of type `t`, then a refresh. */
  function AddDie(s: Session, t: DieType): (r: Result<Session>)
    requires AllWf(s.active.groups)
    ensures s.active.HasRollResults() || Count(s.active.groups) >= MaxDice ==> r == Ok(s)
    ensures r.Ok? ==> r.value.history == s.history
    ensures r.Ok? && !s.active.HasRollResults() && Count(s.active.groups) < MaxDice ==>
      && Count(r.value.active.groups) == Count(s.active.groups) + 1
      && Holds(r.value.active.groups, t)
    ensures r.Ok? && !s.active.HasRollResults() && Count(s.active.groups) < MaxDice ==>
      && AddTo(s.active.groups, t).Ok?
      && r.value.active.groups == Sort(AddTo(s.active.groups, t).value, false)
  {
    if s.active.HasRollResults() || Count(s.active.groups) >= MaxDice then Ok(s)
    else
      var gs :- AddTo(s.active.groups, t);
      AddedHolds(s.active.groups, t);
      SortHolds(gs, t);
      Refresh(s.(active := Dice(gs)))
  }

  /** After adding a die of type `t`, some group of type `t` has dice. */
  lemma AddedHolds(gs: seq<DiceGroup>, t: DieType)
    requires AddTo(gs, t).Ok?
    ensures Holds(AddTo(gs, t).value, t)
  {
    var r := AddTo(gs, t).value;
    if Find(gs, t).None? {
      assert r[|gs|] == Single(t);
    } else {
      assert r[Find(gs, t).value].count > 0;
    }
  }

  /** Sorting keeps the types that have dice. */
  lemma SortHolds(gs: seq<DiceGroup>, t: DieType)
    requires Holds(gs, t)
    ensures Holds(Sort(gs, false), t)
  {
    var j :| 0 <= j < |gs| && gs[j].count > 0 && gs[j].dieType == t;
    assert gs[j] in Sort(gs, false);
  }

  /** Adding a die to an unrolled valid roll gives unrolled groups, still
      without drops and ready to refresh. */
  lemma AddKeepsReady(s: Session, t: DieType)
    requires Valid(s) && !s.active.HasRollResults()
    ensures AddTo(s.active.groups, t).Ok?
    ensures var gs := AddTo(s.active.groups, t).value;
      NoneRolled(gs) && Ready(s.(active := Dice(gs)))
  {
    var gs0 := s.active.groups;
    assert NoneRolled(gs0);
    var gs := AddTo(gs0, t).value;
    forall i | 0 <= i < |gs| ensures !gs[i].HasRollResults() && gs[i].dropHighest == 0 && gs[i].dropLowest == 0 {
      if Find(gs0, t).Some? && i == Find(gs0, t).value {
      } else if i < |gs0| {
        assert gs[i] == gs0[i];
      } else {
        assert gs[i] == Single(t);
      }
    }
  }

  /** Adding a die to a valid session succeeds and keeps it valid; the roll
      gains a die exactly when it is unrolled and below the cap. */
  lemma AddDieValid(s: Session, t: DieType)
    requires Valid(s)
    ensures AddDie(s, t).Ok? && Valid(AddDie(s, t).value)
    ensures Count(AddDie(s, t).value.active.groups) ==
      if s.active.HasRollResults() || Count(s.active.groups) >= MaxDice then Count(s.active.groups)
      else Count(s.active.groups) + 1
    ensures !s.active.HasRollResults() ==> NoneRolled(AddDie(s, t).value.active.groups)
  {
    if s.active.HasRollResults() || Count(s.active.groups) >= MaxDice {
      assert AddDie(s, t) == Ok(s);
    } else {
      AddedValid(s, t);
    }
  }

  /** The adding case: one more die, still unrolled and valid. */
  lemma AddedValid(s: Session, t: DieType)
    requires Valid(s) && !s.active.HasRollResults() && Count(s.active.groups) < MaxDice
    ensures AddDie(s, t).Ok?
    ensures var n := AddDie(s, t).value;
      && Valid(n) && NoneRolled(n.active.groups)
      && Count(n.active.groups) == Count(s.active.groups) + 1
  {
    AddKeepsReady(s, t);
    var gs := AddTo(s.active.groups, t).value;
    var s1 := s.(active := Dice(gs));
    assert AddDie(s, t) == Refresh(s1);
    RefreshReady(s1);
    SortKeepsGroups(gs, false);
    var n := Refresh(s1).value;
    assert n.active.groups == Sort(gs, false);
    assert Count(n.active.groups) == Count(gs) == Count(s.active.groups) + 1;
  }

  /** Whether a press of the label button rolls the dice. */
  predicate WillRoll(s: Session) {
    Count(s.active.groups) > 0 && !s.active.HasRollResults()
  }

  /** `rollButtonPressed()`: with unrolled dice, roll every group and record a
      copy of the roll in the history; with rolled dice, destroy the
      controllers and clear the roll; then refresh either way. */
  function RollButtonPressed(s: Session, draws: seq<seq<nat>>, now: int, colour: Colour): (r: Result<Session>)
    requires AllWf(s.active.groups)
    requires WillRoll(s) ==> DrawsFor(s.active.groups, draws)
    ensures r.Ok? ==> r.value.user == s.user
    ensures r.Ok? && !WillRoll(s) ==> r.value.history == s.history
    ensures r.Ok? && WillRoll(s) ==>
      |r.value.history.log| == |s.history.log| + 1 && r.value.history.log[..|s.history.log|] == s.history.log
  {
    var gs := s.active.groups;
    if WillRoll(s) then
      var rolled :- RollAll(gs, draws);
      RollAllKeepsDice(gs, draws);
      // the history accepts it: the roll is not empty and every group is rolled
      var h := AddRollToHistory(s.history, s.user, Dice(rolled), now, colour).value;
      Refresh(s.(active := Dice(rolled), history := h))
    else if Count(gs) > 0 then
      Refresh(s.(active := Cleared, controllers := map[]))
    else
      Refresh(s)
  }

  /** A roll records one entry for the user at the given time, holding the
      same groups the session goes on to show as rolled, and the results
      text shows that entry's total. */
  lemma RollPressRecords(s: Session, draws: seq<seq<nat>>, now: int, colour: Colour)
    requires AllWf(s.active.groups) && WillRoll(s) && DrawsFor(s.active.groups, draws)
    requires RollButtonPressed(s, draws, now, colour).Ok?
    ensures RollAll(s.active.groups, draws).Ok?
    ensures var n := RollButtonPressed(s, draws, now, colour).value;
      && n.active.HasRollResults() && n.view.labelText == "RESET"
      && var e := n.history.log[|s.history.log|];
      && e.user == s.user && e.timestamp == now
      && e.roll.groups == RollAll(s.active.groups, draws).value
      && n.active.groups == Sort(RollAll(s.active.groups, draws).value, false)
      && multiset(e.roll.groups) == multiset(n.active.groups)
      && n.view.resultsText == ResultsText(RollTotal(e.roll.groups))
  {
    var rolled := RollAll(s.active.groups, draws).value;
    RollAllKeepsDice(s.active.groups, draws);
    SortKeepsGroups(rolled, false);
  }

  /** Pressing the button on rolled dice clears the roll and every
      controller, and leaves the history alone. */
  lemma ResetPressClears(s: Session, draws: seq<seq<nat>>, now: int, colour: Colour)
    requires AllWf(s.active.groups) && Count(s.active.groups) > 0 && s.active.HasRollResults()
    ensures RollButtonPressed(s, draws, now, colour).Ok?
    ensures var n := RollButtonPressed(s, draws, now, colour).value;
      && n.active.groups == [] && n.controllers == map[]
      && n.view.labelText == "ROLL" && !n.view.enabled && n.view.resultsText == "= ??"
      && n.history == s.history
  {
  }

  /** With no dice, a press of the label button changes neither the roll nor
      the history of a valid session. */
  lemma IdlePressChangesNothing(s: Session, draws: seq<seq<nat>>, now: int, colour: Colour)
    requires Valid(s) && Count(s.active.groups) == 0
    ensures RollButtonPressed(s, draws, now, colour).Ok?
    ensures var n := RollButtonPressed(s, draws, now, colour).value;
      n.active == s.active && n.history == s.history
  {
    assert RollButtonPressed(s, draws, now, colour) == Refresh(s);
    RefreshValid(s);
  }

  /** Rolling keeps the groups free of drops. */
  lemma RollNoDropsKept(gs: seq<DiceGroup>, draws: seq<seq<nat>>)
    requires DrawsFor(gs, draws) && NoneRolled(gs) && NoDrops(gs)
    ensures NoDrops(RollAll(gs, draws).value)
  {
    var r := RollAll(gs, draws).value;
    forall i | 0 <= i < |r| ensures r[i].dropHighest == 0 && r[i].dropLowest == 0 {
      assert r[i] == Roll(gs[i], draws[i]).value;
    }
  }

  /** A roll with dice has groups. */
  lemma CountedGroups(gs: seq<DiceGroup>)
    requires Count(gs) > 0
    ensures |gs| > 0
  {
  }

  /** Pressing the label button of a valid session succeeds and keeps it
      valid, whichever of the three things it does. */
  lemma RollButtonPressedValid(s: Session, draws: seq<seq<nat>>, now: int, colour: Colour)
    requires Valid(s) && (WillRoll(s) ==> DrawsFor(s.active.groups, draws))
    ensures RollButtonPressed(s, draws, now, colour).Ok?
    ensures Valid(RollButtonPressed(s, draws, now, colour).value)
  {
    var gs := s.active.groups;
    if WillRoll(s) {
      CountedGroups(gs);
      assert NoneRolled(gs);
      var rolled := RollAll(gs, draws).value;
      RollAllKeepsDice(gs, draws);
      RollNoDropsKept(gs, draws);
      var h := AddRollToHistory(s.history, s.user, Dice(rolled), now, colour).value;
      var s1 := s.(active := Dice(rolled), history := h);
      assert Ready(s1);
      RefreshReady(s1);
      SortKeepsGroups(rolled, false);
    } else if Count(gs) > 0 {
      RefreshReady(s.(active := Cleared, controllers := map[]));
    } else {
      RefreshValid(s);
    }
  }

  /** Whether pressing the die reported at `dieIndex` goes on to press the
      label button: the die's group is rolled. */
  predicate PressesButton(s: Session, dieIndex: nat) {
    && dieIndex < |s.view.display|
    && var f := Find(s.active.groups, s.view.display[dieIndex].dieType);
    && f.Some? && s.active.groups[f.value].HasRollResults()
  }

  /** The `diePressed` listener, given the index the view reports: look the
      type up at that position of the displayed dice, then with the roll's
      group of that type either press the label button (rolled) or take one
      die away and refresh. An index past the display, or a type with no
      group, is read through `undefined`. */
  function DiePressed(s: Session, dieIndex: nat, draws: seq<seq<nat>>, now: int, colour: Colour): (r: Result<Session>)
    requires AllWf(s.active.groups)
    requires PressesButton(s, dieIndex) && WillRoll(s) ==> DrawsFor(s.active.groups, draws)
    ensures dieIndex >= |s.view.display| ==> r == Err(Undefined)
    ensures dieIndex < |s.view.display| && Find(s.active.groups, s.view.display[dieIndex].dieType).None? ==>
      r == Err(Undefined)
    ensures PressesButton(s, dieIndex) ==> r == RollButtonPressed(s, draws, now, colour)
    ensures r.Ok? ==> r.value.user == s.user
  {
    var gs := s.active.groups;
    if dieIndex >= |s.view.display| then Err(Undefined)
    else match Find(gs, s.view.display[dieIndex].dieType)
      case None => Err(Undefined)
      case Some(k) =>
        if gs[k].HasRollResults() then RollButtonPressed(s, draws, now, colour)
        else
          var g := SetCount(gs[k], if gs[k].count == 0 then 0 else gs[k].count - 1).value;
          assert AllWf(gs[k := g]) by {
            assert forall i :: 0 <= i < |gs| && i != k ==> gs[k := g][i] == gs[i];
          }
          Refresh(s.(active := Dice(gs[k := g])))
  }

  /** The group a displayed die belongs to in a valid session: the first of
      its type, which has dice. */
  lemma DisplayedGroup(s: Session, dieIndex: nat)
    requires Valid(s) && dieIndex < |s.view.display|
    ensures var t := s.view.display[dieIndex].dieType;
      Find(s.active.groups, t).Some? && s.active.groups[Find(s.active.groups, t).value].count > 0
  {
    var gs := s.active.groups;
    var t := s.view.display[dieIndex].dieType;
    var j :| 0 <= j < |gs| && gs[j].count > 0 && gs[j].dieType == t;
    assert Find(gs, t).Some? && Find(gs, t).value == j;
  }

  /** Pressing a displayed die of a valid roll with results resets it, as
      the label button would. */
  lemma PressRolledDie(s: Session, dieIndex: nat, draws: seq<seq<nat>>, now: int, colour: Colour)
    requires Valid(s) && dieIndex < |s.view.display| && s.active.HasRollResults()
    ensures DiePressed(s, dieIndex, draws, now, colour).Ok?
    ensures var n := DiePressed(s, dieIndex, draws, now, colour).value;
      Valid(n) && n.active.groups == [] && n.history == s.history
  {
    DisplayedGroup(s, dieIndex);
    var gs := s.active.groups;
    var k := Find(gs, s.view.display[dieIndex].dieType).value;
    CountUpdate(gs, k, gs[k].(count := 0));
    ResetPressClears(s, draws, now, colour);
    RollButtonPressedValid(s, draws, now, colour);
  }

  /** Taking one die from a group with dice of a valid unrolled roll, then
      refreshing, gives a valid session over exactly those groups. */
  lemma DecrementValid(s: Session, k: nat)
    requires Valid(s) && NoneRolled(s.active.groups) && k < |s.active.groups| && s.active.groups[k].count > 0
    ensures var gs1 := s.active.groups[k := s.active.groups[k].(count := s.active.groups[k].count - 1)];
      && Refresh(s.(active := Dice(gs1))).Ok?
      && Valid(Refresh(s.(active := Dice(gs1))).value)
      && Refresh(s.(active := Dice(gs1))).value.active.groups == gs1
      && Refresh(s.(active := Dice(gs1))).value.history == s.history
  {
    var gs := s.active.groups;
    var g := gs[k].(count := gs[k].count - 1);
    var gs1 := gs[k := g];
    CountUpdate(gs, k, g);
    assert NoneRolled(gs1) && NoDrops(gs1) && UniqueTypes(gs1) && AllWf(gs1) by {
      assert forall i :: 0 <= i < |gs| && i != k ==> gs1[i] == gs[i];
    }
    SortedSameTypes(gs, gs1, false);
    SortSorted(gs1, false);
    var s1 := s.(active := Dice(gs1));
    assert Ready(s1);
    RefreshReady(s1);
  }

  /** Pressing a displayed die of a valid unrolled roll takes exactly one die
      from the group of the die's type and changes nothing else. */
  lemma PressUnrolledDie(s: Session, dieIndex: nat, draws: seq<seq<nat>>, now: int, colour: Colour)
    requires Valid(s) && dieIndex < |s.view.display| && !s.active.HasRollResults()
    ensures !PressesButton(s, dieIndex)
    ensures DiePressed(s, dieIndex, draws, now, colour).Ok?
    ensures var n := DiePressed(s, dieIndex, draws, now, colour).value;
      && Valid(n)
      && var gs := s.active.groups;
      && var k := Find(gs, s.view.display[dieIndex].dieType).value;
      && |n.active.groups| == |gs| && n.history == s.history
      && n.active.groups[k].count + 1 == gs[k].count
      && n.active.groups[k].dieType == gs[k].dieType
      && forall i :: 0 <= i < |gs| && i != k ==> n.active.groups[i] == gs[i]
  {
    DisplayedGroup(s, dieIndex);
    var gs := s.active.groups;
    var k := Find(gs, s.view.display[dieIndex].dieType).value;
    assert NoneRolled(gs);
    assert !gs[k].HasRollResults();
    var gs1 := gs[k := gs[k].(count := gs[k].count - 1)];
    DecrementValid(s, k);
    assert DiePressed(s, dieIndex, draws, now, colour) == Refresh(s.(active := Dice(gs1)));
  }

  /** A click on displayed die `k`, as wired: the view's handler reports the
      die's index within its own group, and the listener reads that number
      as a position in the whole display. */
  function ClickDie(s: Session, k: nat, draws: seq<seq<nat>>, now: int, colour: Colour): (r: Result<Session>)
    requires AllWf(s.active.groups) && k < |s.view.display|
    requires PressesButton(s, s.view.display[k].index) && WillRoll(s) ==> DrawsFor(s.active.groups, draws)
    ensures s.view.display[k].index >= |s.view.display| ==> r == Err(Undefined)
    ensures r.Ok? ==> r.value.user == s.user
  {
    DiePressed(s, s.view.display[k].index, draws, now, colour)
  }

  /** A click on displayed die `k` as evidently intended: the listener gets
      the die's position in the display. */
  function ClickDieIntended(s: Session, k: nat, draws: seq<seq<nat>>, now: int, colour: Colour): (r: Result<Session>)
    requires AllWf(s.active.groups) && k < |s.view.display|
    requires PressesButton(s, k) && WillRoll(s) ==> DrawsFor(s.active.groups, draws)
    ensures r.Ok? ==> r.value.user == s.user
  {
    DiePressed(s, k, draws, now, colour)
  }

  /** With the intended wiring, clicking any displayed die of a valid unrolled
      roll takes one die from the group of the clicked die's type, and only
      from it. */
  lemma ClickIntendedTakesClickedDie(s: Session, k: nat, draws: seq<seq<nat>>, now: int, colour: Colour)
    requires Valid(s) && k < |s.view.display| && !s.active.HasRollResults()
    ensures !PressesButton(s, k)
    ensures ClickDieIntended(s, k, draws, now, colour).Ok?
    ensures var n := ClickDieIntended(s, k, draws, now, colour).value;
      && Valid(n)
      && var gs := s.active.groups;
      && Count(n.active.groups) + 1 == Count(gs)
      && forall j :: 0 <= j < |gs| ==>
           n.active.groups[j].count + (if gs[j].dieType == s.view.display[k].dieType then 1 else 0) == gs[j].count
  {
    PressUnrolledDie(s, k, draws, now, colour);
    var n := ClickDieIntended(s, k, draws, now, colour).value;
    var gs := s.active.groups;
    var i := Find(gs, s.view.display[k].dieType).value;
    CountUpdate(gs, i, n.active.groups[i]);
    assert n.active.groups == gs[i := n.active.groups[i]];
  }

  /** With no old dice to reuse, an unrolled group of a type other than d1
      shows new dice labelled with the type's name, numbered from `i`. */
  lemma {:induction false} NewDice(g: DiceGroup, i: nat)
    requires g.Wf() && !g.HasRollResults() && g.dieType != D1 && i <= g.count
    ensures var r := GroupDice(g, i, []);
      && r.1 == [] && |r.0| == g.count - i
      && forall k :: 0 <= k < |r.0| ==> r.0[k] == DisplayDie(g.dieType, i + k, Name(g.dieType), White)
    decreases g.count - i
  {
    if i < g.count {
      NewDice(g, i + 1);
      assert Take([], g.dieType) == None;
      var rest := GroupDice(g, i + 1, []).0;
      assert GroupDice(g, i, []) == ([Dress(g, i, Fresh(g.dieType))] + rest, []);
    }
  }

  /** A roll of one d4 and two d6, unrolled, as the refresh displays it from
      no old dice: the d4, then the two d6, whose handlers report 0 and 1. */
  lemma ExampleDisplay(s: Session)
    requires s.active.groups == [DiceGroup(D4, 1, 0, 0, None, None, 0), DiceGroup(D6, 2, 0, 0, None, None, 0)]
    requires s.view.display == [] && s.controllers == map[]
    ensures Refresh(s).Ok?
    ensures Refresh(s).value.view.display ==
      [DisplayDie(D4, 0, "d4", White), DisplayDie(D6, 0, "d6", White), DisplayDie(D6, 1, "d6", White)]
  {
    ExampleDice(s.active.groups);
    RefreshShows(s);
  }

  /** A ready session with sorted groups shows exactly the dice the view's
      refresh builds from its groups and old dice. */
  lemma RefreshShows(s: Session)
    requires Ready(s) && Sorted(s.active.groups, false)
    ensures Refresh(s).Ok? && Refresh(s).value.view.display == Display(s.active.groups, s.view.display).0
  {
    SortSorted(s.active.groups, false);
    RefreshReady(s);
  }

  lemma ExampleDice(gs: seq<DiceGroup>)
    requires gs == [DiceGroup(D4, 1, 0, 0, None, None, 0), DiceGroup(D6, 2, 0, 0, None, None, 0)]
    ensures AllWf(gs) && UniqueTypes(gs) && NoDrops(gs) && Sorted(gs, false)
    ensures Display(gs, []).0 ==
      [DisplayDie(D4, 0, "d4", White), DisplayDie(D6, 0, "d6", White), DisplayDie(D6, 1, "d6", White)]
  {
    NewDice(gs[0], 0);
    NewDice(gs[1], 0);
    assert Display(gs[1..], []).0 == GroupDice(gs[1], 0, []).0;
  }

  /** Clicking the first d6 of that display takes the d4 away instead: its
      handler reports 0, and position 0 of the display is the d4. With the
      intended wiring the same click takes a d6. */
  lemma ClickDieMisroutes(s: Session, draws: seq<seq<nat>>, now: int, colour: Colour)
    requires s.active.groups == [DiceGroup(D4, 1, 0, 0, None, None, 0), DiceGroup(D6, 2, 0, 0, None, None, 0)]
    requires s.view.display ==
      [DisplayDie(D4, 0, "d4", White), DisplayDie(D6, 0, "d6", White), DisplayDie(D6, 1, "d6", White)]
    requires s.controllers == map[]
    ensures !PressesButton(s, 0) && !PressesButton(s, 1)
    ensures ClickDie(s, 1, draws, now, colour).Ok? && ClickDieIntended(s, 1, draws, now, colour).Ok?
    ensures var wired := ClickDie(s, 1, draws, now, colour).value.active.groups;
      wired[0].dieType == D4 && wired[0].count == 0 && wired[1].count == 2
    ensures var meant := ClickDieIntended(s, 1, draws, now, colour).value.active.groups;
      meant[0].count == 1 && meant[1].dieType == D6 && meant[1].count == 1
  {
    var gs := s.active.groups;
    assert Sorted(gs, false);
    assert Count(gs) == 3 by {
      assert Count(gs[1..][1..]) == 0;
    }
    assert Holds(gs, D4) && Holds(gs, D6) by {
      assert gs[0].count > 0 && gs[1].count > 0;
    }
    var ds := s.view.display;
    assert Many(ds, D1) == 0 by {
      assert ds[1..] == ds[1..2] + ds[2..];
      assert Many(ds[2..], D1) == 0 by {
        assert ds[2..][1..] == [];
      }
      assert Many(ds[1..], D1) == 0 by {
        assert ds[1..][1..] == ds[2..];
      }
    }
    assert forall k :: 0 <= k < |ds| ==> Holds(gs, ds[k].dieType);
    assert Valid(s);
    PressUnrolledDie(s, 0, draws, now, colour);
    PressUnrolledDie(s, 1, draws, now, colour);
  }

  /** `n` presses of the selector for type `t`, one after the other, on a
      valid unrolled roll: one die per press until the roll holds `MaxDice`
      dice, and nothing after. */
  method AddRepeatedly(s: Session, t: DieType, n: nat) returns (r: Session)
    requires Valid(s) && NoneRolled(s.active.groups)
    ensures Valid(r) && NoneRolled(r.active.groups)
    ensures Count(r.active.groups) == Capped(Count(s.active.groups), n)
    ensures r.history == s.history
  {
    r := s;
    var i := 0;
    while i < n
      invariant i <= n
      invariant Valid(r) && NoneRolled(r.active.groups)
      invariant Count(r.active.groups) == Capped(Count(s.active.groups), i)
      invariant r.history == s.history
    {
      assert !r.active.HasRollResults() by {
        if |r.active.groups| > 0 {
          assert !r.active.groups[0].HasRollResults();
        }
      }
      AddDieValid(r, t);
      CappedStep(Count(s.active.groups), i);
      r := AddDie(r, t).value;
      i := i + 1;
    }
  }

  /** From a new session, sixteen presses of one selector leave fifteen dice. */
  method SixteenPresses(user: User, history: History, t: DieType) returns (r: Session)
    ensures Count(r.active.groups) == MaxDice && r.history == history
  {
    r := AddRepeatedly(Start(user, history), t, 16);
  }

  /** One more press moves the capped count on by one, up to the cap. */
  lemma CappedStep(c: nat, i: nat)
    ensures Capped(c, i + 1) == if Capped(c, i) >= MaxDice then Capped(c, i) else Capped(c, i) + 1
  {
  }

  /** The count after `n` more dice under the cap: no change once at or over
      it, otherwise up by `n` but not past it. */
  function Capped(c: nat, n: nat): nat {
    if c >= MaxDice then c else if c + n < MaxDice then c + n else MaxDice
  }
}
