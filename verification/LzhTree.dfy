/** The adaptive Huffman tree of the LZH unpacker, as a value.

    The tree lives in three tables.  Nodes are numbered 0..R in order of frequency;
    `son[i]` is either the first of two adjacent children or `T + c` for the leaf of
    symbol `c`; `prnt` is the way back, with the parents of the leaves at `T + c`.
    `freq[T]` is a sentinel above every frequency. */
module LzhTree {
  const N_CHAR: int := 314
  const T: int := 627
  const R: int := 626
  const MAX_FREQ: int := 0x8000
  const SENTINEL: int := 0xffff

  datatype Tree = Tree(freq: seq<int>, son: seq<int>, prnt: seq<int>)

  // ---------- what a well-formed tree is ----------

  predicate Sized(t: Tree) {
    |t.freq| == T + 1 && |t.son| == T && |t.prnt| == T + N_CHAR
  }

  predicate IsNode(x: int) { 0 <= x < T }

  predicate IsLeafMark(x: int) { T <= x < T + N_CHAR }

  /** The first of the two adjacent positions that share a parent (a leaf mark is alone). */
  function Pair(x: int): int { if x < T then x - x % 2 else x }

  ghost predicate Sorted(freq: seq<int>, n: int)
    requires n <= |freq|
  {
    forall i, j :: 0 <= i <= j < n ==> freq[i] <= freq[j]
  }

  /** Every node is a leaf, or the parent of an even-numbered pair strictly below it. */
  ghost predicate SonsBelow(son: seq<int>, n: int)
    requires n <= |son|
  {
    forall i :: 0 <= i < n ==> IsLeafMark(son[i]) || (0 <= son[i] && son[i] + 1 < i && son[i] % 2 == 0)
  }

  /** `prnt` and `son` are inverse to each other, and the root is marked by parent 0. */
  ghost predicate Linked(son: seq<int>, prnt: seq<int>)
    requires |son| == T && |prnt| == T + N_CHAR && SonsBelow(son, T)
  {
    && prnt[R] == 0
    && (forall i :: 0 <= i < T ==> prnt[son[i]] == i && (son[i] < T ==> prnt[son[i] + 1] == i))
    && (forall x :: (0 <= x < R || IsLeafMark(x)) ==> 0 <= prnt[x] < T && son[prnt[x]] == Pair(x))
  }

  /** The sum of the frequencies of the leaves among the first `n` nodes. */
  function LeafTotal(son: seq<int>, freq: seq<int>, n: nat): int
    requires n <= |son| && n <= |freq|
  {
    if n == 0 then 0
    else LeafTotal(son, freq, n - 1) + if son[n - 1] >= T then freq[n - 1] else 0
  }

  ghost predicate Framed(t: Tree) {
    && Sized(t)
    && t.freq[T] == SENTINEL
    && (forall i :: 0 <= i < T ==> 1 <= t.freq[i] <= MAX_FREQ)
    && Sorted(t.freq, T)
    && SonsBelow(t.son, T)
    && Linked(t.son, t.prnt)
  }

  /** Each internal node carries the sum of its children, except that node `c`
      (if it is internal) is still owed one. */
  ghost predicate SumsExcept(t: Tree, c: int)
    requires Sized(t) && SonsBelow(t.son, T)
  {
    forall i :: 0 <= i < T && t.son[i] < T ==>
      t.freq[i] + (if i == c then 1 else 0) == t.freq[t.son[i]] + t.freq[t.son[i] + 1]
  }

  ghost predicate Valid(t: Tree) {
    && Framed(t)
    && SumsExcept(t, -1)
    && LeafTotal(t.son, t.freq, T) == t.freq[R]
  }

  /** The state in which `update` starts a round at node `c`. */
  ghost predicate Pending(t: Tree, c: int) {
    && Framed(t)
    && IsNode(c)
    && SumsExcept(t, c)
    && t.freq[R] < MAX_FREQ
    && LeafTotal(t.son, t.freq, T) == t.freq[R] + (if t.son[c] < T then 1 else 0)
  }

  /** The frequency recorded for a symbol. */
  function Weight(t: Tree, s: int): int
    requires Framed(t) && 0 <= s < N_CHAR
  {
    assert IsLeafMark(T + s);
    t.freq[t.prnt[T + s]]
  }

  // ---------- one round of update ----------

  /** The highest node above `l` whose frequency is still below `k`. */
  function Leader(freq: seq<int>, l: int, k: int): (r: int)
    requires |freq| == T + 1 && 0 <= l < T && freq[l] < k <= freq[T]
    ensures l <= r < T && freq[r] < k <= freq[r + 1]
    ensures forall i :: l <= i <= r ==> freq[i] < k
    decreases T - l
  {
    if k > freq[l + 1] then Leader(freq, l + 1, k) else l
  }

  /** Point the children of a node (or the leaf mark) `m` at position `p`. */
  function Relink(prnt: seq<int>, m: int, p: int): (r: seq<int>)
    requires |prnt| == T + N_CHAR && (IsLeafMark(m) || (0 <= m < R && m % 2 == 0))
    ensures |r| == |prnt|
    ensures forall x :: 0 <= x < |r| ==> r[x] == if Pair(x) == m then p else prnt[x]
  {
    if m < T then prnt[m := p][m + 1 := p] else prnt[m := p]
  }

  /** Nodes `c` and `l` trade places; the subtree of `c` takes its new count along. */
  function Exchanged(t: Tree, c: int, l: int, k: int): Tree
    requires Framed(t) && IsNode(c) && IsNode(l)
  {
    Tree(t.freq[c := t.freq[l]][l := k],
         t.son[c := t.son[l]][l := t.son[c]],
         Relink(Relink(t.prnt, t.son[c], l), t.son[l], c))
  }

  /** Where the count of node `c` ends up when it is raised by one. */
  function Landing(t: Tree, c: int): (l: int)
    requires Framed(t) && IsNode(c)
    ensures c <= l < T
  {
    var k := t.freq[c] + 1;
    if k > t.freq[c + 1] then Leader(t.freq, c + 1, k) else c
  }

  function Bump(t: Tree, c: int): Tree
    requires Framed(t) && IsNode(c)
  {
    var l := Landing(t, c);
    if l == c then t.(freq := t.freq[c := t.freq[c] + 1]) else Exchanged(t, c, l, t.freq[c] + 1)
  }

  lemma ParentAbove(t: Tree, x: int)
    requires Framed(t) && (0 <= x < R || IsLeafMark(x))
    ensures IsNode(t.prnt[x])
    ensures x < T ==> t.prnt[x] > x && t.prnt[x] > 0
  {
    assert t.son[t.prnt[x]] == Pair(x);
  }

  /** The root is strictly heavier than every other node. */
  lemma RootHeaviest(t: Tree, c: int, x: int)
    requires Framed(t) && SumsExcept(t, c) && 0 <= x < R
    requires c != R
    ensures t.freq[x] < t.freq[R]
  {
    ParentAbove(t, R - 1);
    assert t.prnt[R - 1] == R;
    assert t.son[t.prnt[R - 1]] == Pair(R - 1) == R - 2;
    assert t.freq[R] == t.freq[R - 2] + t.freq[R - 1];
  }

  /** Sorted tables under the sentinel make a framed tree. */
  lemma FrameTables(f: seq<int>, son: seq<int>, prnt: seq<int>)
    requires |f| == |son| == T && |prnt| == T + N_CHAR
    requires Sorted(f, T) && f[R] <= MAX_FREQ && forall i :: 0 <= i < T ==> f[i] >= 1
    requires SonsBelow(son, T) && Linked(son, prnt)
    ensures Framed(Tree(f + [SENTINEL], son, prnt))
  {
    hide SonsBelow, Linked;
    var t := Tree(f + [SENTINEL], son, prnt);
    forall i | 0 <= i < T ensures 1 <= t.freq[i] <= MAX_FREQ {
      assert f[i] <= f[R];
    }
    forall i, j | 0 <= i <= j < T ensures t.freq[i] <= t.freq[j] {
      assert f[i] <= f[j];
    }
  }

  /** What `update` reads off before it starts a round. */
  lemma PendingFacts(t: Tree, x: int)
    requires Pending(t, x)
    ensures Framed(t) && Sized(t) && IsNode(x) && t.freq[T] == SENTINEL
    ensures t.freq[x] < MAX_FREQ && SonsBelow(t.son, T)
  {
    assert t.freq[x] <= t.freq[R];
  }

  /** The node that takes the extra count is the last one of its weight, and is not the root
      unless it started there. */
  lemma LandingPlace(t: Tree, c: int)
    requires Pending(t, c)
    ensures var l := Landing(t, c);
            && t.freq[l] == t.freq[c]
            && (l < R ==> t.freq[c] < t.freq[l + 1])
            && (c < R ==> l < R)
  {
    var l := Landing(t, c);
    if c < l {
      assert t.freq[c] <= t.freq[l];
    }
    if c < R {
      RootHeaviest(t, c, c);
    }
  }

  /** The children of a node of the same weight as `c` lie below `c`. */
  lemma ChildrenBelow(t: Tree, c: int, l: int)
    requires Pending(t, c) && c <= l < T && t.freq[l] == t.freq[c] && t.son[l] < T
    ensures t.son[l] + 1 < c || l == c
  {
    if l != c {
      var j := t.son[l];
      assert t.freq[l] == t.freq[j] + t.freq[j + 1];
      assert t.freq[j + 1] < t.freq[c];
    }
  }

  lemma LeafTotalSame(son: seq<int>, freq: seq<int>, son': seq<int>, freq': seq<int>, n: nat)
    requires n <= |son| && n <= |freq| && n <= |son'| && n <= |freq'|
    requires forall i :: 0 <= i < n ==> son[i] == son'[i] && freq[i] == freq'[i]
    ensures LeafTotal(son, freq, n) == LeafTotal(son', freq', n)
  {
  }

  function Share(son: seq<int>, freq: seq<int>, i: int): int
    requires 0 <= i < |son| && i < |freq|
  {
    if son[i] >= T then freq[i] else 0
  }

  /** Changing two entries changes the total by what changed at those two. */
  lemma {:induction false} LeafTotalTwo(son: seq<int>, freq: seq<int>, son': seq<int>, freq': seq<int>,
                                        a: int, b: int, n: nat)
    requires n <= |son| && n <= |freq| && n <= |son'| && n <= |freq'|
    requires 0 <= a < b < n
    requires forall i :: 0 <= i < n && i != a && i != b ==> son[i] == son'[i] && freq[i] == freq'[i]
    ensures LeafTotal(son', freq', n) == LeafTotal(son, freq, n)
              + Share(son', freq', a) - Share(son, freq, a) + Share(son', freq', b) - Share(son, freq, b)
  {
    if b < n - 1 {
      LeafTotalTwo(son, freq, son', freq', a, b, n - 1);
    } else {
      LeafTotalOne(son, freq, son', freq', a, n - 1);
    }
  }

  lemma {:induction false} LeafTotalOne(son: seq<int>, freq: seq<int>, son': seq<int>, freq': seq<int>, a: int, n: nat)
    requires n <= |son| && n <= |freq| && n <= |son'| && n <= |freq'|
    requires 0 <= a < n
    requires forall i :: 0 <= i < n && i != a ==> son[i] == son'[i] && freq[i] == freq'[i]
    ensures LeafTotal(son', freq', n) == LeafTotal(son, freq, n) + Share(son', freq', a) - Share(son, freq, a)
  {
    if a < n - 1 {
      LeafTotalOne(son, freq, son', freq', a, n - 1);
    } else {
      LeafTotalSame(son, freq, son', freq', n - 1);
    }
  }

  /** Exchanging the subtrees of two nodes, children below both, keeps the links. */
  lemma SwapLinks(son: seq<int>, prnt: seq<int>, son': seq<int>, prnt': seq<int>, c: int, l: int)
    requires |son| == |son'| == T && |prnt| == |prnt'| == T + N_CHAR
    requires SonsBelow(son, T) && SonsBelow(son', T) && Linked(son, prnt)
    requires 0 <= c < l < T
    requires forall i :: 0 <= i < T ==> son'[i] == son[if i == c then l else if i == l then c else i]
    requires forall x :: 0 <= x < |prnt| ==>
      prnt'[x] == if Pair(x) == son[l] then c else if Pair(x) == son[c] then l else prnt[x]
    ensures Linked(son', prnt')
  {
    assert prnt[son[c]] == c && prnt[son[l]] == l;
    assert Pair(R) == R;
    assert son[c] < R || son[c] >= T;
    forall i | 0 <= i < T
      ensures prnt'[son'[i]] == i && (son'[i] < T ==> prnt'[son'[i] + 1] == i)
    {
      var i0 := if i == c then l else if i == l then c else i;
      assert prnt[son[i0]] == i0 && (son[i0] < T ==> prnt[son[i0] + 1] == i0);
      assert Pair(son[i0]) == son[i0];
      assert son[i0] < T ==> Pair(son[i0] + 1) == son[i0];
    }
    forall x | 0 <= x < R || IsLeafMark(x)
      ensures 0 <= prnt'[x] < T && son'[prnt'[x]] == Pair(x)
    {
      assert 0 <= prnt[x] < T && son[prnt[x]] == Pair(x);
    }
  }

  /** What one round does, entry by entry: one unit more at `l`, and `c` and `l` trade sons. */
  ghost predicate Bumped(t: Tree, t': Tree, c: int, l: int)
    requires Sized(t) && 0 <= c <= l < T
  {
    && Sized(t')
    && (forall i :: 0 <= i <= T ==> t'.freq[i] == t.freq[i] + (if i == l then 1 else 0))
    && (forall i :: 0 <= i < T ==> t'.son[i] == t.son[Other(i, c, l)])
    && (if c == l then t'.prnt == t.prnt
        else forall x :: 0 <= x < T + N_CHAR ==>
               t'.prnt[x] == if Pair(x) == t.son[l] then c else if Pair(x) == t.son[c] then l else t.prnt[x])
  }

  function Other(i: int, c: int, l: int): int { if i == c then l else if i == l then c else i }

  /** What the proofs below need to know about the landing place `l` of node `c`. */
  ghost predicate Lands(t: Tree, c: int, l: int)
    requires Framed(t)
  {
    && 0 <= c <= l < T
    && t.freq[l] == t.freq[c]
    && t.freq[l] < t.freq[l + 1]
    && (c < R ==> l < R)
    && (t.son[l] < T && c < l ==> t.son[l] + 1 < c)
  }

  lemma BumpIsBumped(t: Tree, c: int)
    requires Pending(t, c)
    ensures Lands(t, c, Landing(t, c))
    ensures Bumped(t, Bump(t, c), c, Landing(t, c))
  {
    var l := Landing(t, c);
    LandingPlace(t, c);
    assert t.freq[c] <= t.freq[R];
    if t.son[l] < T { ChildrenBelow(t, c, l); }
  }

  lemma BumpedOrder(t: Tree, t': Tree, c: int, l: int)
    requires Framed(t) && Lands(t, c, l) && Bumped(t, t', c, l) && t.freq[R] < MAX_FREQ
    ensures Sorted(t'.freq, T)
    ensures forall i :: 0 <= i < T ==> 1 <= t'.freq[i] <= MAX_FREQ
  {
    assert t.freq[l] <= t.freq[R];
    forall i, j | 0 <= i <= j < T ensures t'.freq[i] <= t'.freq[j] {
      assert t.freq[i] <= t.freq[j];
      if i == l < j { assert t.freq[l + 1] <= t.freq[j]; }
    }
  }

  lemma BumpedFrame(t: Tree, t': Tree, c: int, l: int)
    requires Framed(t) && Lands(t, c, l) && Bumped(t, t', c, l) && t.freq[R] < MAX_FREQ
    ensures Framed(t')
  {
    BumpedOrder(t, t', c, l);
    assert SonsBelow(t'.son, T);
    if c < l {
      SwapLinks(t.son, t.prnt, t'.son, t'.prnt, c, l);
    } else {
      assert t'.son == t.son;
    }
  }

  lemma BumpedTotal(t: Tree, t': Tree, c: int, l: int)
    requires Framed(t) && Lands(t, c, l) && Bumped(t, t', c, l)
    ensures LeafTotal(t'.son, t'.freq, T)
         == LeafTotal(t.son, t.freq, T) + (if t.son[c] >= T then 1 else 0)
  {
    if c < l {
      LeafTotalTwo(t.son, t.freq, t'.son, t'.freq, c, l, T);
    } else {
      LeafTotalOne(t.son, t.freq, t'.son, t'.freq, c, T);
    }
  }

  lemma IsParent(t: Tree, i: int, x: int)
    requires Framed(t) && 0 <= i < T && t.son[i] < T && 0 <= x < T
    ensures (t.son[i] == x || t.son[i] + 1 == x) == (x < R && i == t.prnt[x])
  {
    if x < R { assert t.son[t.prnt[x]] == Pair(x); }
    assert t.prnt[t.son[i]] == i;
  }

  lemma BumpedSum(t: Tree, t': Tree, c: int, l: int, i: int)
    requires Framed(t) && Lands(t, c, l) && Bumped(t, t', c, l) && Framed(t')
    requires SumsExcept(t, c) && 0 <= i < T && t'.son[i] < T
    ensures t'.freq[i] + (if l < R && i == t'.prnt[l] then 1 else 0)
         == t'.freq[t'.son[i]] + t'.freq[t'.son[i] + 1]
  {
    hide Linked, Sorted;
    IsParent(t', i, l);
    SumMoves(t.freq, t'.freq, Other(i, c, l), i, t'.son[i], c, l);
  }

  /** After a round only the parent of the landing place is short, by one. */
  lemma BumpedSums(t: Tree, t': Tree, c: int, l: int)
    requires Framed(t) && Lands(t, c, l) && Bumped(t, t', c, l) && Framed(t')
    requires SumsExcept(t, c)
    ensures SumsExcept(t', if l < R then t'.prnt[l] else -1)
  {
    var e := if l < R then t'.prnt[l] else -1;
    forall i | 0 <= i < T && t'.son[i] < T
      ensures t'.freq[i] + (if i == e then 1 else 0) == t'.freq[t'.son[i]] + t'.freq[t'.son[i] + 1]
    {
      BumpedSum(t, t', c, l, i);
    }
  }

  lemma SumMoves(f: seq<int>, f': seq<int>, i0: int, i: int, j: int, c: int, l: int)
    requires |f| == |f'| == T + 1 && 0 <= c <= l < T && 0 <= i < T && 0 <= j < j + 1 < T
    requires i0 == Other(i, c, l) && f[c] == f[l]
    requires forall x :: 0 <= x <= T ==> f'[x] == f[x] + (if x == l then 1 else 0)
    requires f[i0] + (if i0 == c then 1 else 0) == f[j] + f[j + 1]
    ensures f'[i] + (if j == l || j + 1 == l then 1 else 0) == f'[j] + f'[j + 1]
  {
  }

  /** One round of the loop in `update`: the debt moves up to a parent, or is settled at the root. */
  lemma BumpKeeps(t: Tree, c: int)
    requires Pending(t, c)
    ensures var t', l := Bump(t, c), Landing(t, c);
            && Framed(t')
            && (l == R ==> Valid(t') && t'.prnt[l] == 0)
            && (l < R ==> t'.prnt[l] > l && Pending(t', t'.prnt[l]))
            && t'.freq[R] == t.freq[R] + (if l == R then 1 else 0)
  {
    var l, t' := Landing(t, c), Bump(t, c);
    BumpIsBumped(t, c);
    BumpedFrame(t, t', c, l);
    BumpedTotal(t, t', c, l);
    BumpedSums(t, t', c, l);
    if l < R {
      ParentAbove(t', l);
      assert t'.son[t'.prnt[l]] == Pair(l);
    } else {
      ParentAbove(t, R - 1);
      assert t.son[t.prnt[R - 1]] == Pair(R - 1);
    }
  }

  lemma BumpWeights(t: Tree, c: int, s: int)
    requires Pending(t, c) && 0 <= s < N_CHAR
    ensures Framed(Bump(t, c))
    ensures Weight(Bump(t, c), s) == Weight(t, s) + (if t.son[c] == T + s then 1 else 0)
  {
    var l, t' := Landing(t, c), Bump(t, c);
    BumpIsBumped(t, c);
    BumpedFrame(t, t', c, l);
    BumpedWeight(t, t', c, l, s);
  }

  lemma BumpedWeight(t: Tree, t': Tree, c: int, l: int, s: int)
    requires Framed(t) && Lands(t, c, l) && Bumped(t, t', c, l) && Framed(t') && 0 <= s < N_CHAR
    ensures Weight(t', s) == Weight(t, s) + (if t.son[c] == T + s then 1 else 0)
  {
    var p := t.prnt[T + s];
    assert IsLeafMark(T + s) && t.son[p] == T + s;
    assert t'.son[Other(p, c, l)] == T + s;
    assert t'.prnt[t'.son[Other(p, c, l)]] == Other(p, c, l);
    assert t.prnt[t.son[c]] == c;
  }
}
