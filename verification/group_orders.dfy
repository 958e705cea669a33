/** The two group comparators, ranking by `DieType` declaration order, and
    the stable sort (`Array.prototype.sort`) that uses them: ascending in
    the roll view (src/rollView.ts), descending in the older roll manager
    (src/rollManager.ts). */
module GroupOrders {
  import opened DieTypes
  import opened DiceGroups
  import opened DiceSets

  /** `sortDiceGroups` of the roll view: lower rank first. */
  function ViewCompare(a: DiceGroup, b: DiceGroup): (r: int)
    ensures r < 0 <==> RankOf(a.dieType) < RankOf(b.dieType)
    ensures r > 0 <==> RankOf(a.dieType) > RankOf(b.dieType)
    ensures r == 0 <==> a.dieType == b.dieType
  {
    RankIsDeclarationOrder(a.dieType);
    RankIsDeclarationOrder(b.dieType);
    RankInjective(a.dieType, b.dieType);
    var aRank, bRank := Rank(a.dieType), Rank(b.dieType);
    if aRank < bRank then -1
    else if aRank > bRank then 1
    else 0
  }

  /** `sortDiceGroups` of the roll manager: higher rank first. */
  function ManagerCompare(a: DiceGroup, b: DiceGroup): (r: int)
    ensures r < 0 <==> RankOf(a.dieType) > RankOf(b.dieType)
    ensures r > 0 <==> RankOf(a.dieType) < RankOf(b.dieType)
    ensures r == 0 <==> a.dieType == b.dieType
  {
    RankIsDeclarationOrder(a.dieType);
    RankIsDeclarationOrder(b.dieType);
    RankInjective(a.dieType, b.dieType);
    var aRank, bRank := Rank(a.dieType), Rank(b.dieType);
    if bRank < aRank then -1
    else if bRank > aRank then 1
    else 0
  }

  /** The manager's order is the view's order reversed. */
  lemma CompareDuality(a: DiceGroup, b: DiceGroup)
    ensures ManagerCompare(a, b) == ViewCompare(b, a) == -ViewCompare(a, b)
  {
  }

  /** The comparator in use: the manager's when `descending`. */
  function Compare(a: DiceGroup, b: DiceGroup, descending: bool): int {
    if descending then ManagerCompare(a, b) else ViewCompare(a, b)
  }

  /** The position a group's type takes in the order in use. */
  function Key(g: DiceGroup, descending: bool): nat {
    if descending then 7 - RankOf(g.dieType) else RankOf(g.dieType)
  }

  /** Both comparators order groups by their key. */
  lemma CompareByKey(a: DiceGroup, b: DiceGroup, descending: bool)
    ensures Compare(a, b, descending) < 0 <==> Key(a, descending) < Key(b, descending)
    ensures Compare(a, b, descending) <= 0 <==> Key(a, descending) <= Key(b, descending)
  {
  }

  /** No group comes after a later one by key. */
  predicate Sorted(gs: seq<DiceGroup>, descending: bool) {
    forall j, k :: 0 <= j < k < |gs| ==> Key(gs[j], descending) <= Key(gs[k], descending)
  }

  /** Sorted by key is sorted by the comparator. */
  lemma SortedByCompare(gs: seq<DiceGroup>, descending: bool)
    ensures Sorted(gs, descending) <==>
      forall j, k :: 0 <= j < k < |gs| ==> Compare(gs[j], gs[k], descending) <= 0
  {
    forall j, k | 0 <= j < k < |gs| {
      CompareByKey(gs[j], gs[k], descending);
    }
  }

  /** Places `x` after every group that does not compare after it. The test
      reads the key where the source calls the comparator; `CompareByKey`
      shows the two agree. */
  function Insert(s: seq<DiceGroup>, x: DiceGroup, descending: bool): (r: seq<DiceGroup>)
    ensures |r| == |s| + 1
    ensures multiset(r) == multiset(s) + multiset{x}
    ensures forall y :: y in r <==> y in s || y == x
    ensures Count(r) == Count(s) + x.count && RollTotal(r) == RollTotal(s) + x.total
  {
    if |s| == 0 then [x]
    else if Key(x, descending) < Key(s[0], descending) then [x] + s
    else
      var t := Insert(s[1..], x, descending);
      assert s == [s[0]] + s[1..];
      assert forall y :: y in s[1..] ==> y in s;
      [s[0]] + t
  }

  /** The stable sort: each group in turn is placed after the ones before it
      that do not compare after it, so groups that compare equal keep their
      order. */
  function Sort(gs: seq<DiceGroup>, descending: bool): (r: seq<DiceGroup>)
    ensures |r| == |gs| && Sorted(r, descending)
    ensures multiset(r) == multiset(gs)
    ensures forall y :: y in r <==> y in gs
    ensures Count(r) == Count(gs) && RollTotal(r) == RollTotal(gs)
    ensures UniqueTypes(gs) ==> UniqueTypes(r)
  {
    if |gs| == 0 then []
    else
      var init, last := gs[..|gs| - 1], gs[|gs| - 1];
      assert gs == init + [last];
      CountAppend(init, last);
      RollTotalAppend(init, last);
      var sorted := Sort(init, descending);
      InsertSorted(sorted, last, descending);
      assert UniqueTypes(gs) ==> UniqueTypes(Insert(sorted, last, descending)) by {
        if UniqueTypes(gs) {
          assert UniqueTypes(init);
          forall y | y in sorted ensures y.dieType != last.dieType {
            var j :| 0 <= j < |init| && init[j] == y;
            assert gs[j] == y;
          }
          InsertUnique(sorted, last, descending);
        }
      }
      Insert(sorted, last, descending)
  }

  /** A group placed before a sorted list that does not go after any of it. */
  lemma ConsSorted(a: DiceGroup, t: seq<DiceGroup>, descending: bool)
    requires Sorted(t, descending)
    requires forall y :: y in t ==> Key(a, descending) <= Key(y, descending)
    ensures Sorted([a] + t, descending)
  {
    forall j, k | 0 <= j < k < |t| + 1
      ensures Key(([a] + t)[j], descending) <= Key(([a] + t)[k], descending)
    {
      assert ([a] + t)[k] == t[k - 1];
      if j > 0 {
        assert ([a] + t)[j] == t[j - 1];
      } else {
        assert t[k - 1] in t;
      }
    }
  }

  /** Inserting into a sorted list keeps it sorted. */
  lemma {:induction false} InsertSorted(s: seq<DiceGroup>, x: DiceGroup, descending: bool)
    requires Sorted(s, descending)
    ensures Sorted(Insert(s, x, descending), descending)
  {
    if |s| == 0 {
    } else if Key(x, descending) < Key(s[0], descending) {
      forall y | y in s ensures Key(x, descending) <= Key(y, descending) {
        var j :| 0 <= j < |s| && s[j] == y;
      }
      ConsSorted(x, s, descending);
    } else {
      var t := Insert(s[1..], x, descending);
      assert Sorted(s[1..], descending);
      InsertSorted(s[1..], x, descending);
      forall y | y in t ensures Key(s[0], descending) <= Key(y, descending) {
        if y != x {
          var j :| 0 <= j < |s[1..]| && s[1..][j] == y;
          assert s[j + 1] == y;
        }
      }
      ConsSorted(s[0], t, descending);
    }
  }

  /** Inserting a group of a new type keeps the types distinct. */
  lemma {:induction false} InsertUnique(s: seq<DiceGroup>, x: DiceGroup, descending: bool)
    requires UniqueTypes(s)
    requires forall y :: y in s ==> y.dieType != x.dieType
    ensures UniqueTypes(Insert(s, x, descending))
  {
    if |s| == 0 {
    } else if Key(x, descending) < Key(s[0], descending) {
      ConsUnique(x, s);
    } else {
      var t := Insert(s[1..], x, descending);
      assert UniqueTypes(s[1..]);
      forall y | y in s[1..] ensures y.dieType != x.dieType {
        var j :| 0 <= j < |s[1..]| && s[1..][j] == y;
        assert s[j + 1] == y;
      }
      InsertUnique(s[1..], x, descending);
      forall y | y in t ensures y.dieType != s[0].dieType {
        if y != x {
          var j :| 0 <= j < |s[1..]| && s[1..][j] == y;
          assert s[j + 1] == y;
        } else {
          assert s[0] in s;
        }
      }
      ConsUnique(s[0], t);
    }
  }

  /** A group placed before a list of distinct types none of which is its own. */
  lemma ConsUnique(a: DiceGroup, t: seq<DiceGroup>)
    requires UniqueTypes(t)
    requires forall y :: y in t ==> y.dieType != a.dieType
    ensures UniqueTypes([a] + t)
  {
    forall j, k | 0 <= j < k < |t| + 1
      ensures ([a] + t)[j].dieType != ([a] + t)[k].dieType
    {
      assert ([a] + t)[k] == t[k - 1];
      if j > 0 {
        assert ([a] + t)[j] == t[j - 1];
      } else {
        assert t[k - 1] in t;
      }
    }
  }

  /** Appending a group adds its total. */
  lemma {:induction false} RollTotalAppend(gs: seq<DiceGroup>, g: DiceGroup)
    ensures RollTotal(gs + [g]) == RollTotal(gs) + g.total
  {
    if |gs| > 0 {
      assert (gs + [g])[1..] == gs[1..] + [g];
      RollTotalAppend(gs[1..], g);
    } else {
      assert [g][1..] == [];
    }
  }

  /** A group that no earlier group compares after goes to the end. */
  lemma {:induction false} InsertLast(s: seq<DiceGroup>, x: DiceGroup, descending: bool)
    requires forall i :: 0 <= i < |s| ==> Key(s[i], descending) <= Key(x, descending)
    ensures Insert(s, x, descending) == s + [x]
  {
    if |s| > 0 {
      assert forall i :: 0 <= i < |s[1..]| ==> s[1..][i] == s[i + 1];
      InsertLast(s[1..], x, descending);
      assert s + [x] == [s[0]] + (s[1..] + [x]);
    }
  }

  /** A nonempty list is its front followed by its last element. */
  lemma SplitLast(gs: seq<DiceGroup>)
    requires |gs| > 0
    ensures gs[..|gs| - 1] + [gs[|gs| - 1]] == gs
  {
  }

  /** Sorting what is already sorted changes nothing, so sorting twice is
      sorting once. */
  lemma {:induction false} SortSorted(gs: seq<DiceGroup>, descending: bool)
    requires Sorted(gs, descending)
    ensures Sort(gs, descending) == gs
  {
    if |gs| > 0 {
      var init, last := gs[..|gs| - 1], gs[|gs| - 1];
      SplitLast(gs);
      assert forall i :: 0 <= i < |init| ==> init[i] == gs[i];
      assert Sorted(init, descending);
      SortSorted(init, descending);
      InsertLast(init, last, descending);
    }
  }

  /** Sorting is idempotent. */
  lemma SortIdempotent(gs: seq<DiceGroup>, descending: bool)
    ensures Sort(Sort(gs, descending), descending) == Sort(gs, descending)
  {
    SortSorted(Sort(gs, descending), descending);
  }

  /** Groups of distinct types come out strictly ordered by rank: ascending
      for the view, descending for the manager. */
  lemma SortedStrictly(gs: seq<DiceGroup>, descending: bool, j: nat, k: nat)
    requires UniqueTypes(gs) && j < k < |gs|
    ensures var r := Sort(gs, descending);
      if descending then RankOf(r[j].dieType) > RankOf(r[k].dieType)
      else RankOf(r[j].dieType) < RankOf(r[k].dieType)
  {
    var r := Sort(gs, descending);
    assert Key(r[j], descending) <= Key(r[k], descending);
    assert r[j].dieType != r[k].dieType;
    RankIsDeclarationOrder(r[j].dieType);
    RankIsDeclarationOrder(r[k].dieType);
    RankInjective(r[j].dieType, r[k].dieType);
  }

  /** Sorting keeps what holds of every group, and whether there are any. */
  lemma SortKeepsGroups(gs: seq<DiceGroup>, descending: bool)
    ensures var r := Sort(gs, descending);
      && (AllRolled(r) <==> AllRolled(gs)) && (NoneRolled(r) <==> NoneRolled(gs))
      && (AllWf(r) <==> AllWf(gs)) && (|r| > 0 <==> |gs| > 0)
  {
    var r := Sort(gs, descending);
    assert forall y :: y in r <==> y in gs;
    if AllRolled(gs) { HoldsOfMembers(r, gs, (g: DiceGroup) => g.HasRollResults()); }
    if AllRolled(r) { HoldsOfMembers(gs, r, (g: DiceGroup) => g.HasRollResults()); }
    if NoneRolled(gs) { HoldsOfMembers(r, gs, (g: DiceGroup) => !g.HasRollResults()); }
    if NoneRolled(r) { HoldsOfMembers(gs, r, (g: DiceGroup) => !g.HasRollResults()); }
    if AllWf(gs) { HoldsOfMembers(r, gs, (g: DiceGroup) => g.Wf()); }
    if AllWf(r) { HoldsOfMembers(gs, r, (g: DiceGroup) => g.Wf()); }
  }

  /** What holds of every group of `b` holds of every group of `a` when all
      of `a`'s groups are in `b`. */
  lemma HoldsOfMembers(a: seq<DiceGroup>, b: seq<DiceGroup>, p: DiceGroup -> bool)
    requires forall y :: y in a ==> y in b
    requires forall i :: 0 <= i < |b| ==> p(b[i])
    ensures forall i :: 0 <= i < |a| ==> p(a[i])
  {
    forall i | 0 <= i < |a| ensures p(a[i]) {
      assert a[i] in b;
      var j :| 0 <= j < |b| && b[j] == a[i];
    }
  }

  /** Sortedness depends on the types alone. */
  lemma SortedSameTypes(a: seq<DiceGroup>, b: seq<DiceGroup>, descending: bool)
    requires |a| == |b| && forall i :: 0 <= i < |a| ==> a[i].dieType == b[i].dieType
    requires Sorted(a, descending)
    ensures Sorted(b, descending)
  {
    forall j, k | 0 <= j < k < |b| ensures Key(b[j], descending) <= Key(b[k], descending) {
      assert Key(a[j], descending) <= Key(a[k], descending);
    }
  }
}
