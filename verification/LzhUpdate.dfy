/** `StartHuff` and `update` as functions on trees, and what they preserve. */
module LzhUpdate {
  import opened LzhTree
  import opened LzhRebuild

  // ---------- the climb to the root ----------

  /** The rounds of `update` from node `c` up to and including the root. */
  function Climb(t: Tree, c: int): (r: Tree)
    requires Pending(t, c)
    ensures Valid(r)
    ensures r.freq[R] == t.freq[R] + 1
    decreases R - c
  {
    BumpKeeps(t, c);
    var t' := Bump(t, c);
    var p := t'.prnt[Landing(t, c)];
    if p == 0 then t' else Climb(t', p)
  }

  /** One round of the climb. */
  lemma ClimbStep(t: Tree, c: int)
    requires Pending(t, c)
    ensures var t', l := Bump(t, c), Landing(t, c);
            0 <= l < |t'.prnt|
            && (t'.prnt[l] == 0 ==> Climb(t, c) == t' && Valid(t'))
            && (t'.prnt[l] != 0 ==> c <= l < t'.prnt[l] && IsNode(t'.prnt[l]) && Pending(t', t'.prnt[l])
                                    && Climb(t, c) == Climb(t', t'.prnt[l]))
  {
    BumpKeeps(t, c);
  }

  /** Climbing adds one to the symbol whose leaf it starts at, and to no other symbol. */
  lemma {:induction false} ClimbWeights(t: Tree, c: int, s: int)
    requires Pending(t, c) && 0 <= s < N_CHAR
    ensures Weight(Climb(t, c), s) == Weight(t, s) + (if t.son[c] == T + s then 1 else 0)
    decreases R - c
  {
    BumpKeeps(t, c);
    BumpWeights(t, c, s);
    var t', l := Bump(t, c), Landing(t, c);
    if l >= R {
    } else {
      InnerParent(t', l);
      ClimbWeights(t', t'.prnt[l], s);
    }
  }

  lemma InnerParent(t: Tree, x: int)
    requires Framed(t) && 0 <= x < R
    ensures IsNode(t.prnt[x]) && t.son[t.prnt[x]] < T
  {
    assert t.son[t.prnt[x]] == Pair(x);
  }

  // ---------- update ----------

  /** The tree that `update` works on, after a rebuild if the root has reached its limit. */
  function Relaxed(t: Tree): (r: Tree)
    requires Valid(t)
    ensures Valid(r) && r.freq[R] < MAX_FREQ
  {
    if t.freq[R] == MAX_FREQ then RebuiltValid(t); Rebuilt(t) else t
  }

  lemma LeafPending(t: Tree, s: int)
    requires Valid(t) && t.freq[R] < MAX_FREQ && 0 <= s < N_CHAR
    ensures Pending(t, t.prnt[T + s]) && t.son[t.prnt[T + s]] == T + s
  {
    assert IsLeafMark(T + s) && t.son[t.prnt[T + s]] == Pair(T + s);
  }

  function Updated(t: Tree, s: int): (r: Tree)
    requires Valid(t) && 0 <= s < N_CHAR
    ensures Valid(r)
  {
    var t1 := Relaxed(t);
    LeafPending(t1, s);
    Climb(t1, t1.prnt[T + s])
  }

  /** What `update` does to the recorded frequencies: a rebuild halves them all exactly when
      the root stands at its limit, then the symbol gains one.  The root counts the total. */
  lemma UpdatedWeights(t: Tree, s: int, x: int)
    requires Valid(t) && 0 <= s < N_CHAR && 0 <= x < N_CHAR
    ensures Weight(Updated(t, s), x)
         == (if t.freq[R] == MAX_FREQ then Half(Weight(t, x)) else Weight(t, x)) + (if x == s then 1 else 0)
    ensures t.freq[R] < MAX_FREQ ==> Updated(t, s).freq[R] == t.freq[R] + 1
  {
    var t1 := Relaxed(t);
    LeafPending(t1, s);
    ClimbWeights(t1, t1.prnt[T + s], x);
    if t.freq[R] == MAX_FREQ { RebuiltValid(t); }
  }

  // ---------- the start state ----------

  /** The first `N_CHAR + n` frequencies of the start tree. */
  function StartFreq(n: nat): (f: seq<int>)
    requires n < N_CHAR
    ensures |f| == N_CHAR + n
  {
    if n == 0 then seq(N_CHAR, _ => 1)
    else var f := StartFreq(n - 1); f + [f[2 * (n - 1)] + f[2 * (n - 1) + 1]]
  }

  function StartSon(n: nat): (s: seq<int>)
    requires n < N_CHAR
    ensures |s| == N_CHAR + n
    ensures forall i :: 0 <= i < |s| ==> s[i] == if i < N_CHAR then i + T else 2 * (i - N_CHAR)
  {
    seq(N_CHAR + n, i => if i < N_CHAR then i + T else 2 * (i - N_CHAR))
  }

  function StartPrnt(): (p: seq<int>)
    ensures |p| == T + N_CHAR
    ensures forall x :: 0 <= x < |p| ==> p[x] == if x >= T then x - T else if x == R then 0 else N_CHAR + x / 2
  {
    seq(T + N_CHAR, x => if x >= T then x - T else if x == R then 0 else N_CHAR + x / 2)
  }

  function StartTables(): Tree {
    Tree(StartFreq(N_CHAR - 1) + [SENTINEL], StartSon(N_CHAR - 1), StartPrnt())
  }

  /** Node `i` carries the sum of the pair that the start tree puts under it. */
  ghost predicate PairSum(f: seq<int>, i: int)
    requires N_CHAR <= i < |f| <= T
  {
    f[i] == f[2 * (i - N_CHAR)] + f[2 * (i - N_CHAR) + 1]
  }

  ghost predicate StartOrder(f: seq<int>) {
    && N_CHAR <= |f| <= T
    && Sorted(f, |f|)
    && (forall i :: 0 <= i < |f| ==> f[i] >= 1)
    && (forall i :: 0 <= i < N_CHAR ==> f[i] == 1)
    && (forall i :: N_CHAR <= i < |f| ==> PairSum(f, i))
  }

  lemma StartOrderBase()
    ensures StartOrder(StartFreq(0))
  {
  }

  lemma {:induction false} StartFreqOrder(n: nat)
    requires n < N_CHAR
    ensures StartOrder(StartFreq(n))
  {
    hide StartOrder;
    if n > 0 {
      StartFreqOrder(n - 1);
      StartOrderStep(StartFreq(n - 1), n);
    } else {
      StartOrderBase();
    }
  }

  lemma StartOrderStep(g: seq<int>, n: nat)
    requires 0 < n < N_CHAR && |g| == N_CHAR + n - 1 && StartOrder(g)
    ensures StartOrder(g + [g[2 * (n - 1)] + g[2 * (n - 1) + 1]])
  {
    var k := 2 * (n - 1);
    var f := g + [g[k] + g[k + 1]];
    var l := |g| - 1;
    assert g[l] <= g[k] + g[k + 1] by {
      if n > 1 {
        assert PairSum(g, l);
        assert g[k - 2] <= g[k] && g[k - 1] <= g[k + 1];
      }
    }
    forall i, j | 0 <= i <= j < |f| ensures f[i] <= f[j] {
      if i < j == |g| { assert g[i] <= g[l]; }
    }
    forall i | N_CHAR <= i < |f| ensures PairSum(f, i) {
      if i < |g| { assert PairSum(g, i); }
    }
  }

  /** The weight of the nodes without a parent, and of the leaves, is the number of symbols. */
  lemma {:induction false} StartFreqTotals(n: nat)
    requires n < N_CHAR
    ensures var f := StartFreq(n);
            && SumTo(f, |f|) - SumTo(f, 2 * n) == N_CHAR
            && LeafTotal(StartSon(n), f, |f|) == N_CHAR
  {
    var f := StartFreq(n);
    if n == 0 {
      SumOfOnes(f, N_CHAR);
      LeavesOnly(StartSon(0), f, N_CHAR);
    } else {
      StartFreqTotals(n - 1);
      var g := StartFreq(n - 1);
      var i := 2 * (n - 1);
      SumToSame(f, g, |g|);
      SumToSame(f, g, i);
      assert SumTo(f, i + 2) == SumTo(f, i) + f[i] + f[i + 1] by { assert SumTo(f, i + 1) == SumTo(f, i) + f[i]; }
      LeafTotalSame(StartSon(n), f, StartSon(n - 1), g, |g|);
    }
  }

  lemma {:induction false} SumOfOnes(f: seq<int>, n: nat)
    requires n <= |f| && forall i :: 0 <= i < n ==> f[i] == 1
    ensures SumTo(f, n) == n
  {
    if n == 0 {
    } else {
      SumOfOnes(f, n - 1);
    }
  }

  lemma StartRoot(f: seq<int>, n: nat)
    requires n == N_CHAR - 1 && f == StartFreq(n)
    ensures |f| == T && f[R] == N_CHAR && LeafTotal(StartSon(n), f, T) == N_CHAR
  {
    StartFreqTotals(n);
    assert SumTo(f, R + 1) == SumTo(f, R) + f[R];
  }

  lemma StartFramed(f: seq<int>, t: Tree)
    requires f == StartFreq(N_CHAR - 1) && t == Tree(f + [SENTINEL], StartSon(N_CHAR - 1), StartPrnt())
    ensures Framed(t)
  {
    StartFreqOrder(N_CHAR - 1);
    StartRoot(f, N_CHAR - 1);
    FrameTables(f, t.son, t.prnt);
  }

  lemma StartSums(f: seq<int>, t: Tree)
    requires f == StartFreq(N_CHAR - 1) && t == Tree(f + [SENTINEL], StartSon(N_CHAR - 1), StartPrnt())
    requires Framed(t)
    ensures SumsExcept(t, -1)
  {
    StartFreqOrder(N_CHAR - 1);
    forall i | 0 <= i < T && t.son[i] < T ensures t.freq[i] == t.freq[t.son[i]] + t.freq[t.son[i] + 1] {
      assert PairSum(f, i);
    }
  }

  lemma StartTotal(f: seq<int>, t: Tree, n: nat)
    requires n == N_CHAR - 1 && f == StartFreq(n) && t == Tree(f + [SENTINEL], StartSon(n), StartPrnt())
    ensures LeafTotal(t.son, t.freq, T) == t.freq[R] == N_CHAR
  {
    StartRoot(f, n);
    LeafTotalSame(t.son, t.freq, StartSon(n), f, T);
  }

  lemma StartOnes(f: seq<int>, t: Tree)
    requires f == StartFreq(N_CHAR - 1) && t == Tree(f + [SENTINEL], StartSon(N_CHAR - 1), StartPrnt())
    requires Framed(t)
    ensures forall s :: 0 <= s < N_CHAR ==> Weight(t, s) == 1
  {
    StartFreqOrder(N_CHAR - 1);
  }

  /** The start tree is well formed and gives every symbol frequency 1. */
  lemma StartValid()
    ensures Valid(StartTables())
    ensures forall s :: 0 <= s < N_CHAR ==> Weight(StartTables(), s) == 1
  {
    var f, t := StartFreq(N_CHAR - 1), StartTables();
    StartFramed(f, t);
    StartSums(f, t);
    StartTotal(f, t, N_CHAR - 1);
    StartOnes(f, t);
  }

  function Start(): (t: Tree)
    ensures Valid(t)
  {
    StartValid();
    StartTables()
  }
}
