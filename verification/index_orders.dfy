/** The index arithmetic behind `DiceGroup.roll()` (src/diceGroup.ts):
    the stable ascending order of die indices by value, JavaScript's
    `Array.prototype.slice`, and sums of values picked by index. */
module IndexOrders {

  /** Every index in `idx` points into a sequence of length `n`. */
  predicate InRange(idx: seq<nat>, n: nat) {
    forall k :: 0 <= k < |idx| ==> idx[k] < n
  }

  /** Index `a` sorts before index `b`: a smaller value, or an equal value
      and an earlier position (what a stable sort does with a comparator
      that answers 0 on ties). */
  predicate Precedes(vals: seq<nat>, a: nat, b: nat)
    requires a < |vals| && b < |vals|
  {
    vals[a] < vals[b] || (vals[a] == vals[b] && a < b)
  }

  /** `idx` lists indices strictly in the stable ascending order. */
  predicate Ordered(vals: seq<nat>, idx: seq<nat>)
    requires InRange(idx, |vals|)
  {
    forall j, k :: 0 <= j < k < |idx| ==> Precedes(vals, idx[j], idx[k])
  }

  /** `idx` is a stable ascending ordering of ALL indices of `vals`. */
  predicate IsStableOrder(vals: seq<nat>, idx: seq<nat>) {
    && |idx| == |vals|
    && InRange(idx, |vals|)
    && (forall i :: 0 <= i < |vals| ==> i in idx)
    && Ordered(vals, idx)
  }

  /** The sum of `vals` at the given indices, in the order given. */
  function SumAt(vals: seq<nat>, idx: seq<nat>): nat
    requires InRange(idx, |vals|)
  {
    if |idx| == 0 then 0 else vals[idx[0]] + SumAt(vals, idx[1..])
  }

  /** The sum of all values. */
  function Sum(vals: seq<nat>): nat {
    if |vals| == 0 then 0 else Sum(vals[..|vals| - 1]) + vals[|vals| - 1]
  }

  /** Inserts index `x`, larger than every index present, after all indices
      of smaller or equal value. */
  function Insert(vals: seq<nat>, s: seq<nat>, x: nat): (r: seq<nat>)
    requires InRange(s, |vals|) && x < |vals| && Ordered(vals, s)
    requires forall k :: 0 <= k < |s| ==> s[k] < x
    ensures |r| == |s| + 1 && InRange(r, |vals|) && Ordered(vals, r)
    ensures forall k :: 0 <= k < |r| ==> r[k] == x || r[k] in s
    ensures forall k :: 0 <= k < |r| ==> r[k] <= x
    ensures x in r && forall y :: y in s ==> y in r
    ensures SumAt(vals, r) == SumAt(vals, s) + vals[x]
  {
    if |s| == 0 then [x]
    else if Precedes(vals, x, s[0]) then
      assert ([x] + s)[1..] == s;
      [x] + s
    else
      var t := Insert(vals, s[1..], x);
      InsertBehind(vals, s, x, t);
      [s[0]] + t
  }

  /** The head of `s` followed by `x` inserted into the rest is `x` inserted into `s`. */
  lemma InsertBehind(vals: seq<nat>, s: seq<nat>, x: nat, t: seq<nat>)
    requires InRange(s, |vals|) && x < |vals| && Ordered(vals, s) && |s| > 0
    requires forall k :: 0 <= k < |s| ==> s[k] < x
    requires !Precedes(vals, x, s[0])
    requires |t| == |s| && InRange(t, |vals|) && Ordered(vals, t)
    requires forall k :: 0 <= k < |t| ==> t[k] == x || t[k] in s[1..]
    requires forall k :: 0 <= k < |t| ==> t[k] <= x
    requires x in t && forall y :: y in s[1..] ==> y in t
    requires SumAt(vals, t) == SumAt(vals, s[1..]) + vals[x]
    ensures var r := [s[0]] + t;
      && InRange(r, |vals|) && Ordered(vals, r)
      && (forall k :: 0 <= k < |r| ==> r[k] == x || r[k] in s)
      && (forall k :: 0 <= k < |r| ==> r[k] <= x)
      && x in r && (forall y :: y in s ==> y in r)
      && SumAt(vals, r) == SumAt(vals, s) + vals[x]
  {
    var r := [s[0]] + t;
    assert r[1..] == t;
    InsertHeadPrecedes(vals, s, x, t);
    forall k | 0 <= k < |r| ensures r[k] == x || r[k] in s {
      if k > 0 && r[k] != x {
        assert r[k] == t[k - 1];
        var m :| 0 <= m < |s[1..]| && s[1..][m] == r[k];
        assert s[m + 1] == r[k];
      }
    }
    forall y | y in s ensures y in r {
      var m :| 0 <= m < |s| && s[m] == y;
      if m > 0 {
        assert s[1..][m - 1] == y;
      }
    }
  }

  /** The head of `s` precedes everything inserted behind it. */
  lemma InsertHeadPrecedes(vals: seq<nat>, s: seq<nat>, x: nat, t: seq<nat>)
    requires InRange(s, |vals|) && x < |vals| && Ordered(vals, s) && |s| > 0
    requires forall k :: 0 <= k < |s| ==> s[k] < x
    requires !Precedes(vals, x, s[0])
    requires InRange(t, |vals|) && Ordered(vals, t)
    requires forall k :: 0 <= k < |t| ==> t[k] == x || t[k] in s[1..]
    ensures Ordered(vals, [s[0]] + t)
  {
    var r := [s[0]] + t;
    forall j, k | 0 <= j < k < |r|
      ensures Precedes(vals, r[j], r[k])
    {
      if j == 0 {
        assert r[k] == t[k - 1];
        if t[k - 1] != x {
          var m :| 0 <= m < |s[1..]| && s[1..][m] == t[k - 1];
          assert s[m + 1] == r[k];
        }
      } else {
        assert r[j] == t[j - 1] && r[k] == t[k - 1];
      }
    }
  }

  /** The stable ascending order of the first `n` indices. */
  function OrderPrefix(vals: seq<nat>, n: nat): (r: seq<nat>)
    requires n <= |vals|
    ensures |r| == n && InRange(r, n) && InRange(r, |vals|) && Ordered(vals, r)
    ensures forall i :: 0 <= i < n ==> i in r
    ensures SumAt(vals, r) == Sum(vals[..n])
  {
    if n == 0 then []
    else
      var p := OrderPrefix(vals, n - 1);
      ExtendPrefix(vals, n, p);
      Insert(vals, p, n - 1)
  }

  /** Inserting index `n - 1` into the order of the first `n - 1` indices
      gives the order of the first `n`. */
  lemma ExtendPrefix(vals: seq<nat>, n: nat, p: seq<nat>)
    requires 0 < n <= |vals|
    requires |p| == n - 1 && InRange(p, n - 1) && InRange(p, |vals|) && Ordered(vals, p)
    requires forall i :: 0 <= i < n - 1 ==> i in p
    requires SumAt(vals, p) == Sum(vals[..n - 1])
    ensures var r := Insert(vals, p, n - 1);
      && |r| == n && InRange(r, n) && InRange(r, |vals|) && Ordered(vals, r)
      && (forall i :: 0 <= i < n ==> i in r)
      && SumAt(vals, r) == Sum(vals[..n])
  {
    var r := Insert(vals, p, n - 1);
    forall k | 0 <= k < |r| ensures r[k] < n {
      assert r[k] <= n - 1;
    }
    forall i | 0 <= i < n ensures i in r {
      if i < n - 1 {
        assert i in p;
      }
    }
    assert vals[..n][..n - 1] == vals[..n - 1];
    assert Sum(vals[..n]) == Sum(vals[..n - 1]) + vals[n - 1];
  }

  /** `contribs` before the slice: the indices of `vals` stably sorted by value. */
  function StableOrder(vals: seq<nat>): (r: seq<nat>)
    ensures IsStableOrder(vals, r)
    ensures SumAt(vals, r) == Sum(vals)
  {
    assert vals[..|vals|] == vals;
    OrderPrefix(vals, |vals|)
  }

  /** Two stable orders of the same values coincide: the order is unique. */
  lemma {:induction false} StableOrderUnique(vals: seq<nat>, a: seq<nat>, b: seq<nat>)
    requires IsStableOrder(vals, a) && IsStableOrder(vals, b)
    ensures a == b
  {
    forall k | 0 <= k < |a|
      ensures a[k] == b[k]
    {
      // the position of an index in a stable order is the number of indices preceding it
      PositionIsRank(vals, a, k);
      PositionIsRank(vals, b, k);
      assert a[k] < |vals|;
      assert a[k] in b;
      var i :| 0 <= i < |b| && b[i] == a[k];
      PositionIsRank(vals, b, i);
      assert i == k;
    }
  }

  /** Checking neighbours suffices: `Precedes` is transitive. */
  lemma {:induction false} OrderedFromNeighbours(vals: seq<nat>, idx: seq<nat>)
    requires InRange(idx, |vals|)
    requires forall k :: 0 <= k < |idx| - 1 ==> Precedes(vals, idx[k], idx[k + 1])
    ensures Ordered(vals, idx)
  {
    if |idx| > 1 {
      var t := idx[1..];
      assert forall k :: 0 <= k < |t| ==> t[k] == idx[k + 1];
      OrderedFromNeighbours(vals, t);
      forall j, k | 0 <= j < k < |idx|
        ensures Precedes(vals, idx[j], idx[k])
      {
        if j > 0 {
          assert idx[j] == t[j - 1] && idx[k] == t[k - 1];
        } else if k > 1 {
          assert Precedes(vals, idx[1], idx[k]) by {
            assert idx[1] == t[0] && idx[k] == t[k - 1];
          }
        }
      }
    }
  }

  /** The number of indices that precede index `x`. */
  function Before(vals: seq<nat>, x: nat, n: nat): nat
    requires x < |vals| && n <= |vals|
  {
    if n == 0 then 0
    else Before(vals, x, n - 1) + (if Precedes(vals, n - 1, x) then 1 else 0)
  }

  /** In a stable order, the index at position `k` is preceded by exactly `k` indices. */
  lemma PositionIsRank(vals: seq<nat>, idx: seq<nat>, k: nat)
    requires IsStableOrder(vals, idx) && k < |idx|
    ensures Before(vals, idx[k], |vals|) == k
  {
    var x := idx[k];
    var earlier := set j | 0 <= j < k :: idx[j];
    var prec := set i | 0 <= i < |vals| && Precedes(vals, i, x);
    forall i | i in prec
      ensures i in earlier
    {
      assert i < |vals|;
      assert i in idx;
      var p :| 0 <= p < |idx| && idx[p] == i;
      if p == k {
        assert false;
      } else if p > k {
        assert false;
      }
    }
    forall i | i in earlier
      ensures i in prec
    {
    }
    assert earlier == prec;
    DistinctImageSize(idx, k);
    BeforeCountsPrecedes(vals, x, |vals|);
  }

  /** The first `k` entries of a stable order are `k` distinct indices. */
  lemma DistinctImageSize(idx: seq<nat>, k: nat)
    requires k <= |idx|
    requires forall j, m :: 0 <= j < m < |idx| ==> idx[j] != idx[m]
    ensures |set j | 0 <= j < k :: idx[j]| == k
  {
    if k > 0 {
      DistinctImageSize(idx, k - 1);
      var s := set j | 0 <= j < k - 1 :: idx[j];
      assert (set j | 0 <= j < k :: idx[j]) == s + {idx[k - 1]};
      assert idx[k - 1] !in s;
    }
  }

  /** `Before` counts the set of preceding indices below `n`. */
  lemma BeforeCountsPrecedes(vals: seq<nat>, x: nat, n: nat)
    requires x < |vals| && n <= |vals|
    ensures Before(vals, x, n) == |set i | 0 <= i < n && Precedes(vals, i, x)|
  {
    if n > 0 {
      BeforeCountsPrecedes(vals, x, n - 1);
      var s := set i | 0 <= i < n - 1 && Precedes(vals, i, x);
      if Precedes(vals, n - 1, x) {
        assert (set i | 0 <= i < n && Precedes(vals, i, x)) == s + {n - 1};
      } else {
        assert (set i | 0 <= i < n && Precedes(vals, i, x)) == s;
      }
    }
  }

  /** How `slice` reads one of its bounds: a negative bound counts from the end. */
  function JsBound(k: int, len: nat): (i: nat)
    ensures i <= len
    ensures 0 <= k <= len ==> i == k
    ensures k < 0 && 0 <= len + k ==> i == len + k
  {
    if k < 0 then (if len + k < 0 then 0 else len + k)
    else if k < len then k
    else len
  }

  /** `Array.prototype.slice(start, end)`. */
  function JsSlice(s: seq<nat>, start: int, end: int): (r: seq<nat>)
    ensures 0 <= start <= end <= |s| ==> r == s[start..end]
    ensures 0 <= start && end < 0 && start <= |s| + end ==> r == s[start..|s| + end]
    ensures |r| <= |s|
    ensures forall k :: 0 <= k < |r| ==> r[k] in s
  {
    var lo := JsBound(start, |s|);
    var hi := JsBound(end, |s|);
    if lo < hi then s[lo..hi] else []
  }

  /** A slice whose start is not past its resolved end is the subsequence up to that end. */
  lemma SliceToBound(s: seq<nat>, start: nat, end: int)
    requires start <= JsBound(end, |s|)
    ensures JsSlice(s, start, end) == s[start..JsBound(end, |s|)]
  {
  }

  /** Summing over a concatenation sums the parts. */
  lemma {:induction false} SumAtAppend(vals: seq<nat>, a: seq<nat>, b: seq<nat>)
    requires InRange(a, |vals|) && InRange(b, |vals|)
    ensures InRange(a + b, |vals|)
    ensures SumAt(vals, a + b) == SumAt(vals, a) + SumAt(vals, b)
  {
    if |a| > 0 {
      assert (a + b)[1..] == a[1..] + b;
      SumAtAppend(vals, a[1..], b);
    } else {
      assert a + b == b;
    }
  }
}

/** Which rolls of a group count: the stable order cut at the drop counts. */
module RollCuts {
  import opened IndexOrders

  /** The indices the roll keeps: `contribs.slice(dropLowest, length - dropHighest)`. */
  function Kept(rs: seq<nat>, dh: nat, dl: nat): seq<nat> {
    JsSlice(StableOrder(rs), dl, |rs| - dh)
  }

  /** The indices cut off at the low end and at the high end of the stable order. */
  function LowCut(rs: seq<nat>, dl: nat): seq<nat>
    requires dl <= |rs|
  {
    StableOrder(rs)[..dl]
  }

  function HighCut(rs: seq<nat>, dh: nat): seq<nat>
    requires dh <= |rs|
  {
    StableOrder(rs)[|rs| - dh..]
  }

  /** When the drops fit, the kept indices are exactly the stable order with
      the `dl` lowest and `dh` highest cut off: the three parts partition the
      order, every dropped-low value is at most every kept value, and every
      kept value at most every dropped-high value. */
  lemma {:induction false} KeptPartition(rs: seq<nat>, dh: nat, dl: nat)
    requires dh + dl < |rs|
    ensures var kept, lo, hi := Kept(rs, dh, dl), LowCut(rs, dl), HighCut(rs, dh);
      && |kept| == |rs| - dh - dl && |lo| == dl && |hi| == dh
      && IsStableOrder(rs, lo + kept + hi)
      && (forall j, k :: 0 <= j < |lo| && 0 <= k < |kept| ==> rs[lo[j]] <= rs[kept[k]])
      && (forall j, k :: 0 <= j < |kept| && 0 <= k < |hi| ==> rs[kept[j]] <= rs[hi[k]])
  {
    var o := StableOrder(rs);
    var e := |rs| - dh;
    assert Kept(rs, dh, dl) == o[dl..e];
    ThreeCuts(o, dl, e);
    CutsAreOrdered(rs, o, dl, e);
  }

  /** Cutting a sequence at two positions and gluing the parts gives it back. */
  lemma ThreeCuts(o: seq<nat>, a: nat, b: nat)
    requires a <= b <= |o|
    ensures o[..a] + o[a..b] + o[b..] == o
  {
  }

  /** Cutting a stable order at two positions leaves each part's values
      bounded by the next part's. */
  lemma CutsAreOrdered(rs: seq<nat>, o: seq<nat>, dl: nat, e: nat)
    requires IsStableOrder(rs, o) && dl <= e <= |o|
    ensures forall j, k :: 0 <= j < dl && 0 <= k < e - dl ==> rs[o[..dl][j]] <= rs[o[dl..e][k]]
    ensures forall j, k :: 0 <= j < e - dl && 0 <= k < |o| - e ==> rs[o[dl..e][j]] <= rs[o[e..][k]]
  {
    forall j, k | 0 <= j < dl && 0 <= k < e - dl
      ensures rs[o[..dl][j]] <= rs[o[dl..e][k]]
    {
      assert Precedes(rs, o[j], o[dl + k]);
    }
    forall j, k | 0 <= j < e - dl && 0 <= k < |o| - e
      ensures rs[o[dl..e][j]] <= rs[o[e..][k]]
    {
      assert Precedes(rs, o[dl + j], o[e + k]);
    }
  }

  /** When the drops fit, the kept sum is the sum of all rolls less the dropped ones. */
  lemma {:induction false} KeptSum(rs: seq<nat>, dh: nat, dl: nat)
    requires dh + dl < |rs|
    ensures InRange(Kept(rs, dh, dl), |rs|)
    ensures InRange(LowCut(rs, dl), |rs|) && InRange(HighCut(rs, dh), |rs|)
    ensures SumAt(rs, Kept(rs, dh, dl)) + SumAt(rs, LowCut(rs, dl)) + SumAt(rs, HighCut(rs, dh)) == Sum(rs)
  {
    var o := StableOrder(rs);
    var e := |rs| - dh;
    var lo, kept, hi := o[..dl], o[dl..e], o[e..];
    assert Kept(rs, dh, dl) == kept;
    ThreeCuts(o, dl, e);
    assert InRange(lo, |rs|) && InRange(kept, |rs|) && InRange(hi, |rs|);
    SumAtAppend(rs, lo, kept);
    SumAtAppend(rs, lo + kept, hi);
  }
}
