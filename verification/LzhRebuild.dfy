/** Rebuilding the tree from its leaves with halved frequencies (`reconst`), as a value. */
module LzhRebuild {
  import opened LzhTree

  // ---------- collecting the leaves ----------

  /** The leaf marks among the first `n` nodes, in order. */
  function LeafSons(son: seq<int>, n: nat): seq<int>
    requires n <= |son|
  {
    if n == 0 then []
    else LeafSons(son, n - 1) + if son[n - 1] >= T then [son[n - 1]] else []
  }

  /** Their frequencies, halved and rounded up. */
  function LeafHalves(son: seq<int>, freq: seq<int>, n: nat): (r: seq<int>)
    requires n <= |son| && n <= |freq|
    ensures |r| == |LeafSons(son, n)|
  {
    if n == 0 then []
    else LeafHalves(son, freq, n - 1) + if son[n - 1] >= T then [Half(freq[n - 1])] else []
  }

  function Half(f: int): int { (f + 1) / 2 }

  function SumTo(f: seq<int>, n: nat): int
    requires n <= |f|
  {
    if n == 0 then 0 else SumTo(f, n - 1) + f[n - 1]
  }

  lemma {:induction false} SumToSame(f: seq<int>, g: seq<int>, n: nat)
    requires n <= |f| && n <= |g| && forall i :: 0 <= i < n ==> f[i] == g[i]
    ensures SumTo(f, n) == SumTo(g, n)
  {
    if n == 0 {
    } else {
      SumToSame(f, g, n - 1);
    }
  }

  /** Halving rounds up each leaf by at most one half. */
  lemma {:induction false} HalvesTotal(son: seq<int>, freq: seq<int>, n: nat)
    requires n <= |son| && n <= |freq|
    ensures var h := LeafHalves(son, freq, n);
            2 * SumTo(h, |h|) <= LeafTotal(son, freq, n) + |h|
  {
    if n == 0 {
    } else {
      HalvesTotal(son, freq, n - 1);
      var h, g := LeafHalves(son, freq, n), LeafHalves(son, freq, n - 1);
      SumToSame(h, g, |g|);
    }
  }

  /** Each collected entry comes from a leaf, later entries from later leaves. */
  lemma {:induction false} CollectedFrom(son: seq<int>, freq: seq<int>, n: nat, p: int) returns (i: int)
    requires n <= |son| && n <= |freq| && 0 <= p < |LeafSons(son, n)|
    ensures 0 <= i < n && son[i] >= T && LeafSons(son, n)[p] == son[i] && LeafHalves(son, freq, n)[p] == Half(freq[i])
    ensures p == |LeafSons(son, i)|
  {
    if p < |LeafSons(son, n - 1)| {
      i := CollectedFrom(son, freq, n - 1, p);
    } else {
      i := n - 1;
    }
  }

  lemma {:induction false} LeafSonsGrow(son: seq<int>, m: nat, n: nat)
    requires m <= n <= |son|
    ensures LeafSons(son, m) <= LeafSons(son, n)
    ensures forall i :: m <= i < n && son[i] >= T ==> son[i] in LeafSons(son, n)
  {
    if m >= n {
    } else {
      LeafSonsGrow(son, m, n - 1);
    }
  }

  // ---------- the forest while it is being joined ----------

  ghost predicate IsInsert(s: seq<int>, k: nat, x: int, r: seq<int>) {
    && |r| == |s| + 1
    && k <= |s|
    && (forall p {:trigger r[p]} :: 0 <= p < |r| ==> r[p] == if p < k then s[p] else if p == k then x else s[p - 1])
  }

  function InsertAt(s: seq<int>, k: nat, x: int): (r: seq<int>)
    requires k <= |s|
    ensures IsInsert(s, k, x, r)
  {
    s[..k] + [x] + s[k..]
  }

  /** One above the last entry, looking down from `k`, that does not exceed `f`. */
  function Above(freq: seq<int>, k: nat, f: int): (r: nat)
    requires k < |freq| && freq[0] <= f
    ensures 0 < r <= k + 1 && freq[r - 1] <= f
    ensures forall p :: r <= p <= k ==> f < freq[p]
  {
    if f < freq[k] then Above(freq, k - 1, f) else k + 1
  }

  ghost predicate Distinct(s: seq<int>) {
    forall p, q :: 0 <= p < q < |s| ==> s[p] != s[q]
  }

  /** The first `i` nodes are joined in pairs, under nodes already in the table;
      `w` gives the weight of each symbol. */
  ghost predicate Forest(freq: seq<int>, son: seq<int>, i: int, w: seq<int>) {
    && |w| == N_CHAR
    && N_CHAR <= |son| == |freq| <= T
    && i == 2 * (|son| - N_CHAR)
    && Sorted(freq, |freq|)
    && (forall p :: 0 <= p < |freq| ==> freq[p] >= 1)
    && Distinct(son)
    && (forall x :: IsLeafMark(x) ==> x in son)
    && (forall x :: 0 <= x < i && x % 2 == 0 ==> x in son)
    && (forall p :: 0 <= p < |son| ==> Entry(freq, son, i, w, p))
  }

  ghost predicate Entry(freq: seq<int>, son: seq<int>, i: int, w: seq<int>, p: int)
    requires |w| == N_CHAR && |freq| == |son| && 0 <= p < |son|
  {
    if son[p] >= T then IsLeafMark(son[p]) && freq[p] == w[son[p] - T]
    else 0 <= son[p] < i && son[p] % 2 == 0 && son[p] + 1 < p && freq[p] == freq[son[p]] + freq[son[p] + 1]
  }

  /** Where the next pair's parent goes. */
  function Slot(freq: seq<int>, i: nat): (k: nat)
    requires i + 1 < |freq| && freq[0] <= freq[i] + freq[i + 1]
    ensures 0 < k <= |freq|
  {
    Above(freq, |freq| - 1, freq[i] + freq[i + 1])
  }

  /** The parent of a pair lands above the pair. */
  lemma SlotAbovePair(freq: seq<int>, i: nat)
    requires i + 1 < |freq| && Sorted(freq, |freq|) && forall p :: 0 <= p < |freq| ==> freq[p] >= 1
    ensures freq[0] <= freq[i] + freq[i + 1]
    ensures i + 2 <= Slot(freq, i)
  {
    assert freq[0] <= freq[i];
  }

  lemma JoinKeeps(freq: seq<int>, son: seq<int>, i: int, w: seq<int>)
    requires Forest(freq, son, i, w) && |freq| < T
    ensures 0 <= i && i + 1 < |freq| && freq[0] <= freq[i] + freq[i + 1]
    ensures var k := Slot(freq, i);
            Forest(InsertAt(freq, k, freq[i] + freq[i + 1]), InsertAt(son, k, i), i + 2, w)
  {
    SlotAbovePair(freq, i);
    var k, f := Slot(freq, i), freq[i] + freq[i + 1];
    InsertSorted(freq, k, f);
    JoinMembers(freq, son, i, w, k);
    JoinEntries(freq, son, i, w, k, InsertAt(freq, k, f), InsertAt(son, k, i), i + 2);
  }

  lemma JoinMembers(freq: seq<int>, son: seq<int>, i: nat, w: seq<int>, k: nat)
    requires Forest(freq, son, i, w) && k <= |son|
    ensures var son' := InsertAt(son, k, i);
            && Distinct(son')
            && (forall x :: IsLeafMark(x) ==> x in son')
            && (forall x :: 0 <= x < i + 2 && x % 2 == 0 ==> x in son')
  {
    InsertMembers(son, k, i);
    forall p | 0 <= p < |son| ensures son[p] != i {
      assert Entry(freq, son, i, w, p);
    }
    InsertDistinct(son, k, i);
  }

  lemma JoinEntry(freq: seq<int>, son: seq<int>, i: nat, w: seq<int>, k: nat, freq': seq<int>, son': seq<int>, p: nat)
    requires |w| == N_CHAR && |freq| == |son| && i + 2 <= k <= |son| && i % 2 == 0 && i < T
    requires IsInsert(freq, k, freq[i] + freq[i + 1], freq') && IsInsert(son, k, i, son')
    requires p <= |son| && (p != k ==> Entry(freq, son, i, w, if p < k then p else p - 1))
    ensures Entry(freq', son', i + 2, w, p)
  {
    var p0 := if p < k then p else p - 1;
    if p != k && son[p0] < T {
      assert son[p0] + 1 < k;
    }
  }

  lemma JoinEntries(freq: seq<int>, son: seq<int>, i: nat, w: seq<int>, k: nat,
                    freq': seq<int>, son': seq<int>, i': nat)
    requires |w| == N_CHAR && |freq| == |son| && i + 2 <= k <= |son| && i % 2 == 0 && i < T && i' == i + 2
    requires forall p :: 0 <= p < |son| ==> Entry(freq, son, i, w, p)
    requires IsInsert(freq, k, freq[i] + freq[i + 1], freq') && IsInsert(son, k, i, son')
    ensures forall p :: 0 <= p < |son'| ==> Entry(freq', son', i', w, p)
  {
    forall p | 0 <= p < |son'|
      ensures Entry(freq', son', i', w, p)
    {
      JoinEntry(freq, son, i, w, k, freq', son', p);
    }
  }

  lemma InsertSorted(freq: seq<int>, k: nat, f: int)
    requires Sorted(freq, |freq|) && 0 < k <= |freq| && freq[k - 1] <= f
    requires forall p :: k <= p < |freq| ==> f < freq[p]
    ensures Sorted(InsertAt(freq, k, f), |freq| + 1)
  {
    var g := InsertAt(freq, k, f);
    forall a, b | 0 <= a <= b < |g| ensures g[a] <= g[b] {
      if a < k == b { assert freq[a] <= freq[k - 1]; }
    }
  }

  lemma InsertMembers(s: seq<int>, k: nat, x: int)
    requires k <= |s|
    ensures x in InsertAt(s, k, x)
    ensures forall y :: y in s ==> y in InsertAt(s, k, x)
  {
    var r := InsertAt(s, k, x);
    assert r[k] == x;
    forall y | y in s ensures y in r {
      var p :| 0 <= p < |s| && s[p] == y;
      assert r[if p < k then p else p + 1] == y;
    }
  }

  lemma InsertDistinct(s: seq<int>, k: nat, x: int)
    requires k <= |s| && Distinct(s) && forall p :: 0 <= p < |s| ==> s[p] != x
    ensures Distinct(InsertAt(s, k, x))
  {
  }

  lemma {:induction false} SumToInsert(f: seq<int>, k: nat, x: int, n: nat)
    requires k <= n <= |f|
    ensures SumTo(InsertAt(f, k, x), n + 1) == SumTo(f, n) + x
    decreases n
  {
    var g := InsertAt(f, k, x);
    if n == k {
      SumToSame(g, f, k);
    } else {
      SumToInsert(f, k, x, n - 1);
    }
  }

  lemma {:induction false} LeafTotalInsert(son: seq<int>, freq: seq<int>, k: nat, x: int, f: int, n: nat)
    requires k <= n <= |son| == |freq| && x < T
    ensures LeafTotal(InsertAt(son, k, x), InsertAt(freq, k, f), n + 1) == LeafTotal(son, freq, n)
    decreases n
  {
    var s, g := InsertAt(son, k, x), InsertAt(freq, k, f);
    if n == k {
      LeafTotalSame(s, g, son, freq, k);
    } else {
      LeafTotalInsert(son, freq, k, x, f, n - 1);
    }
  }

  /** The total weight of the nodes that have no parent yet. */
  function Unjoined(freq: seq<int>, i: int): int
    requires 0 <= i <= |freq|
  {
    SumTo(freq, |freq|) - SumTo(freq, i)
  }

  /** Joining a pair conserves the weight of the unjoined nodes, and the weight of the leaves. */
  lemma JoinConserves(freq: seq<int>, son: seq<int>, i: int)
    requires |freq| == |son| && 0 <= i < T && i + 1 < |freq| && Sorted(freq, |freq|)
    requires forall p :: 0 <= p < |freq| ==> freq[p] >= 1
    ensures freq[0] <= freq[i] + freq[i + 1]
    ensures var k := Slot(freq, i);
            var freq', son' := InsertAt(freq, k, freq[i] + freq[i + 1]), InsertAt(son, k, i);
            Unjoined(freq', i + 2) == Unjoined(freq, i)
            && LeafTotal(son', freq', |freq'|) == LeafTotal(son, freq, |freq|)
  {
    SlotAbovePair(freq, i);
    var k, f := Slot(freq, i), freq[i] + freq[i + 1];
    SumToInsert(freq, k, f, |freq|);
    SumToSame(InsertAt(freq, k, f), freq, i + 2);
    LeafTotalInsert(son, freq, k, i, f, |freq|);
  }

  /** The whole joining loop, from the state at index `i`. */
  function Joined(freq: seq<int>, son: seq<int>, i: int, ghost w: seq<int>): (r: (seq<int>, seq<int>))
    requires Forest(freq, son, i, w)
    ensures Forest(r.0, r.1, R, w)
    ensures Unjoined(r.0, R) == Unjoined(freq, i)
    ensures LeafTotal(r.1, r.0, T) == LeafTotal(son, freq, |freq|)
    decreases T - |freq|
  {
    if |freq| == T then (freq, son)
    else
      JoinKeeps(freq, son, i, w);
      JoinConserves(freq, son, i);
      var k := Slot(freq, i);
      Joined(InsertAt(freq, k, freq[i] + freq[i + 1]), InsertAt(son, k, i), i + 2, w)
  }

  lemma JoinedDone(freq: seq<int>, son: seq<int>, i: int, w: seq<int>)
    requires Forest(freq, son, i, w) && |freq| == T
    ensures Joined(freq, son, i, w) == (freq, son)
  {
    hide Forest;
  }

  lemma JoinedUnfold(freq: seq<int>, son: seq<int>, i: int, w: seq<int>)
    requires Forest(freq, son, i, w) && |freq| < T
    requires 0 <= i && i + 1 < |freq| && freq[0] <= freq[i] + freq[i + 1]
    requires var k := Slot(freq, i);
             Forest(InsertAt(freq, k, freq[i] + freq[i + 1]), InsertAt(son, k, i), i + 2, w)
    ensures var k := Slot(freq, i);
            Joined(freq, son, i, w) == Joined(InsertAt(freq, k, freq[i] + freq[i + 1]), InsertAt(son, k, i), i + 2, w)
  {
    hide Forest, InsertAt, Slot;
  }

  lemma JoinedStep(freq: seq<int>, son: seq<int>, i: int, w: seq<int>)
    requires Forest(freq, son, i, w) && |freq| < T
    ensures 0 <= i && i + 1 < |freq| && freq[0] <= freq[i] + freq[i + 1]
    ensures var k := Slot(freq, i);
            var freq', son' := InsertAt(freq, k, freq[i] + freq[i + 1]), InsertAt(son, k, i);
            Forest(freq', son', i + 2, w) && Joined(freq, son, i, w) == Joined(freq', son', i + 2, w)
  {
    hide Forest;
    JoinKeeps(freq, son, i, w);
    JoinedUnfold(freq, son, i, w);
  }

  // ---------- connecting the parents ----------

  /** `prnt` after the first `n` nodes have announced themselves to their children. */
  function Connected(son: seq<int>, prnt: seq<int>, n: nat): (r: seq<int>)
    requires n <= |son| == T && |prnt| == T + N_CHAR
    requires forall p :: 0 <= p < T ==> IsLeafMark(son[p]) || (0 <= son[p] < R && son[p] % 2 == 0)
    ensures |r| == |prnt|
  {
    if n == 0 then prnt else Relink(Connected(son, prnt, n - 1), son[n - 1], n - 1)
  }

  lemma {:induction false} ConnectedAt(son: seq<int>, prnt: seq<int>, n: nat, x: int)
    requires n <= |son| == T && |prnt| == T + N_CHAR && Distinct(son) && 0 <= x < T + N_CHAR
    requires forall p :: 0 <= p < T ==> IsLeafMark(son[p]) || (0 <= son[p] < R && son[p] % 2 == 0)
    ensures var r := Connected(son, prnt, n)[x];
            && (forall p :: 0 <= p < n && son[p] == Pair(x) ==> r == p)
            && ((forall p :: 0 <= p < n ==> son[p] != Pair(x)) ==> r == prnt[x])
  {
    if n == 0 {
    } else {
      ConnectedAt(son, prnt, n - 1, x);
    }
  }

  lemma ConnectedLinks(son: seq<int>, prnt: seq<int>)
    requires |son| == T && |prnt| == T + N_CHAR && prnt[R] == 0 && Distinct(son) && SonsBelow(son, T)
    requires forall x :: IsLeafMark(x) ==> x in son
    requires forall x :: 0 <= x < R && x % 2 == 0 ==> x in son
    ensures Linked(son, Connected(son, prnt, T))
  {
    hide Connected, Distinct;
    var q := Connected(son, prnt, T);
    ConnectedAt(son, prnt, T, R);
    assert forall p :: 0 <= p < T ==> son[p] != R;
    forall i | 0 <= i < T
      ensures q[son[i]] == i && (son[i] < T ==> q[son[i] + 1] == i)
    {
      ConnectedSon(son, prnt, T, i);
    }
    forall x | 0 <= x < R || IsLeafMark(x)
      ensures 0 <= q[x] < T && son[q[x]] == Pair(x)
    {
      ConnectedAt(son, prnt, T, x);
      assert Pair(x) in son;
    }
  }

  lemma ConnectedSon(son: seq<int>, prnt: seq<int>, n: nat, i: int)
    requires n == |son| == T && |prnt| == T + N_CHAR && Distinct(son) && 0 <= i < T
    requires forall p :: 0 <= p < T ==> IsLeafMark(son[p]) || (0 <= son[p] < R && son[p] % 2 == 0)
    ensures var q := Connected(son, prnt, n);
            q[son[i]] == i && (son[i] < T ==> q[son[i] + 1] == i)
  {
    ConnectedAt(son, prnt, n, son[i]);
    if son[i] < T {
      assert Pair(son[i] + 1) == son[i];
      ConnectedAt(son, prnt, n, son[i] + 1);
    }
  }

  // ---------- the collected leaves are a forest of single nodes ----------

  function HalfWeights(t: Tree): (w: seq<int>)
    requires Framed(t)
    ensures |w| == N_CHAR
  {
    seq(N_CHAR, s requires 0 <= s < N_CHAR => Half(Weight(t, s)))
  }

  lemma {:induction false} RangeSize(lo: int, n: nat, s: set<int>)
    requires forall x :: x in s <==> lo <= x < lo + n
    ensures |s| == n
  {
    if n == 0 {
      forall x ensures x !in s {}
      assert s == {};
    } else {
      RangeSize(lo, n - 1, s - {lo + n - 1});
    }
  }

  lemma {:induction false} DistinctSize(q: seq<int>, s: set<int>)
    requires Distinct(q) && forall x :: x in s <==> x in q
    ensures |s| == |q|
  {
    if q == [] {
      forall x ensures x !in s { assert x !in q; }
      assert s == {};
    } else {
      var l := q[|q| - 1];
      DistinctSize(q[..|q| - 1], s - {l});
    }
  }

  lemma CollectedAll(t: Tree)
    requires Framed(t)
    ensures Distinct(LeafSons(t.son, T))
    ensures forall x :: IsLeafMark(x) <==> x in LeafSons(t.son, T)
    ensures |LeafSons(t.son, T)| == N_CHAR
  {
    var q := LeafSons(t.son, T);
    forall p1, p2 | 0 <= p1 < p2 < |q| ensures q[p1] != q[p2] {
      var i1 := CollectedFrom(t.son, t.freq, T, p1);
      var i2 := CollectedFrom(t.son, t.freq, T, p2);
      assert t.prnt[t.son[i1]] == i1 && t.prnt[t.son[i2]] == i2;
    }
    forall x ensures IsLeafMark(x) <==> x in q {
      if IsLeafMark(x) {
        assert t.son[t.prnt[x]] == x;
        LeafSonsGrow(t.son, 0, T);
      }
      if x in q {
        var p :| 0 <= p < |q| && q[p] == x;
        var i := CollectedFrom(t.son, t.freq, T, p);
      }
    }
    var marks := set x | T <= x < T + N_CHAR && IsLeafMark(x);
    RangeSize(T, N_CHAR, marks);
    DistinctSize(q, marks);
  }

  lemma CollectedSorted(t: Tree)
    requires Framed(t)
    ensures var f := LeafHalves(t.son, t.freq, T); Sorted(f, |f|)
  {
    var f := LeafHalves(t.son, t.freq, T);
    forall a, b | 0 <= a <= b < |f| ensures f[a] <= f[b] {
      CollectedOrder(t.son, t.freq, T, a, b);
    }
  }

  lemma CollectedOrder(son: seq<int>, freq: seq<int>, n: nat, a: nat, b: nat)
    requires n == T <= |son| && n <= |freq| && Sorted(freq, n) && a <= b < |LeafSons(son, n)|
    ensures LeafHalves(son, freq, n)[a] <= LeafHalves(son, freq, n)[b]
  {
    hide LeafHalves;
    var i1 := CollectedFrom(son, freq, n, a);
    var i2 := CollectedFrom(son, freq, n, b);
    if i2 < i1 { LeafSonsGrow(son, i2 + 1, i1); }
    assert freq[i1] <= freq[i2];
  }

  lemma CollectedEntry(t: Tree, n: nat, p: int)
    requires Framed(t) && n == T && 0 <= p < |LeafSons(t.son, n)|
    ensures Entry(LeafHalves(t.son, t.freq, n), LeafSons(t.son, n), 0, HalfWeights(t), p)
    ensures LeafHalves(t.son, t.freq, n)[p] >= 1
  {
    var i := CollectedFrom(t.son, t.freq, n, p);
    assert t.prnt[t.son[i]] == i;
    assert HalfWeights(t)[t.son[i] - T] == Half(Weight(t, t.son[i] - T));
  }

  lemma CollectedForest(t: Tree)
    requires Framed(t)
    ensures Forest(LeafHalves(t.son, t.freq, T), LeafSons(t.son, T), 0, HalfWeights(t))
  {
    var f, q, w := LeafHalves(t.son, t.freq, T), LeafSons(t.son, T), HalfWeights(t);
    CollectedAll(t);
    CollectedSorted(t);
    forall p | 0 <= p < |q| ensures Entry(f, q, 0, w, p) && f[p] >= 1 {
      CollectedEntry(t, T, p);
    }
  }

  lemma {:induction false} LeavesOnly(son: seq<int>, freq: seq<int>, n: nat)
    requires n <= |son| && n <= |freq| && forall p :: 0 <= p < n ==> son[p] >= T
    ensures LeafTotal(son, freq, n) == SumTo(freq, n)
  {
    if n == 0 {
    } else {
      LeavesOnly(son, freq, n - 1);
    }
  }

  // ---------- the rebuilt tree ----------

  function RebuiltTables(t: Tree): (r: (seq<int>, seq<int>))
    requires Framed(t)
    ensures Forest(r.0, r.1, R, HalfWeights(t))
  {
    CollectedForest(t);
    Joined(LeafHalves(t.son, t.freq, T), LeafSons(t.son, T), 0, HalfWeights(t))
  }

  lemma ForestComplete(freq: seq<int>, son: seq<int>, w: seq<int>)
    requires Forest(freq, son, R, w)
    ensures |freq| == T && SonsBelow(son, T)
    ensures forall p :: 0 <= p < T ==> IsLeafMark(son[p]) || (0 <= son[p] < R && son[p] % 2 == 0)
    ensures forall p :: 0 <= p < T && son[p] < T ==> freq[p] == freq[son[p]] + freq[son[p] + 1]
    ensures forall p :: 0 <= p < T && son[p] >= T ==> freq[p] == w[son[p] - T]
  {
    forall p | 0 <= p < T
      ensures IsLeafMark(son[p]) || (0 <= son[p] < R && son[p] % 2 == 0 && son[p] + 1 < p)
      ensures son[p] < T ==> freq[p] == freq[son[p]] + freq[son[p] + 1]
      ensures son[p] >= T ==> freq[p] == w[son[p] - T]
    {
      assert Entry(freq, son, R, w, p);
    }
  }

  /** `reconst`: leaves with halved counts, joined into a tree again, parents reconnected. */
  function Rebuilt(t: Tree): Tree
    requires Framed(t)
  {
    var q := RebuiltTables(t);
    ForestComplete(q.0, q.1, HalfWeights(t));
    Tree(q.0 + [t.freq[T]], q.1, Connected(q.1, t.prnt, T))
  }

  /** The weight of the rebuilt root. */
  lemma RebuiltRoot(t: Tree)
    requires Valid(t)
    ensures var q := RebuiltTables(t);
            |q.0| == |q.1| == T && q.0[R] == LeafTotal(q.1, q.0, T) && q.0[R] < MAX_FREQ
  {
    var f, s := LeafHalves(t.son, t.freq, T), LeafSons(t.son, T);
    CollectedForest(t);
    CollectedAll(t);
    var q := Joined(f, s, 0, HalfWeights(t));
    forall p | 0 <= p < N_CHAR ensures s[p] >= T { assert s[p] in s; }
    LeavesOnly(s, f, N_CHAR);
    HalvesTotal(t.son, t.freq, T);
    assert SumTo(q.0, R + 1) == SumTo(q.0, R) + q.0[R];
  }

  lemma ForestFacts(freq: seq<int>, son: seq<int>, w: seq<int>)
    requires Forest(freq, son, R, w)
    ensures |freq| == |son| == T && Sorted(freq, T) && (forall i :: 0 <= i < T ==> freq[i] >= 1)
    ensures SonsBelow(son, T) && Distinct(son)
    ensures forall x :: IsLeafMark(x) ==> x in son
    ensures forall x :: 0 <= x < R && x % 2 == 0 ==> x in son
  {
    ForestComplete(freq, son, w);
  }

  lemma RebuiltFramed(t: Tree)
    requires Valid(t)
    ensures Framed(Rebuilt(t))
  {
    hide Forest, Valid, Framed, Linked, Sorted, SonsBelow, RebuiltTables, Connected, LeafTotal;
    RebuiltFacts(t);
    var q := RebuiltTables(t);
    ForestFacts(q.0, q.1, HalfWeights(t));
    RebuiltRoot(t);
    ConnectedLinks(q.1, t.prnt);
    FrameTables(q.0, q.1, Connected(q.1, t.prnt, T));
  }

  lemma RebuiltFacts(t: Tree)
    requires Valid(t)
    ensures Framed(t) && Sized(t) && t.prnt[R] == 0 && t.freq[T] == SENTINEL
  {
  }

  /** Rebuilding a well-formed tree gives a well-formed tree over the same symbols, every
      frequency halved (rounded up), and a root below the rebuild threshold. */
  lemma RebuiltValid(t: Tree)
    requires Valid(t)
    ensures Valid(Rebuilt(t)) && Rebuilt(t).freq[R] < MAX_FREQ
    ensures forall s :: 0 <= s < N_CHAR ==> Weight(Rebuilt(t), s) == Half(Weight(t, s))
  {
    RebuiltFramed(t);
    RebuiltWeights(t, RebuiltTables(t), Rebuilt(t));
    RebuiltSums(t, RebuiltTables(t), Rebuilt(t));
  }

  lemma RebuiltSums(t: Tree, q: (seq<int>, seq<int>), r: Tree)
    requires Valid(t) && q == RebuiltTables(t) && r == Rebuilt(t) && Framed(r)
    ensures SumsExcept(r, -1) && LeafTotal(r.son, r.freq, T) == r.freq[R] < MAX_FREQ
  {
    hide Forest, Valid, Framed, Linked, Sorted, RebuiltTables, Connected, LeafTotal;
    RebuiltFacts(t);
    ForestComplete(q.0, q.1, HalfWeights(t));
    RebuiltRoot(t);
    LeafTotalSame(r.son, r.freq, q.1, q.0, T);
  }

  lemma RebuiltWeights(t: Tree, q: (seq<int>, seq<int>), r: Tree)
    requires Valid(t) && q == RebuiltTables(t) && r == Rebuilt(t) && Framed(r)
    ensures forall s :: 0 <= s < N_CHAR ==> Weight(r, s) == Half(Weight(t, s))
  {
    hide Forest, RebuiltTables, Connected, LeafTotal, Sorted, SumsExcept;
    ForestComplete(q.0, q.1, HalfWeights(t));
    forall s | 0 <= s < N_CHAR ensures Weight(r, s) == Half(Weight(t, s)) {
      assert IsLeafMark(T + s) && r.son[r.prnt[T + s]] == T + s;
      assert HalfWeights(t)[s] == Half(Weight(t, s));
    }
  }
}
