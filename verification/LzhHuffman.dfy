/** The tree tables as the unpacker keeps them: three global arrays changed in place. */
module LzhHuffman {
  import opened LzhTree
  import opened LzhRebuild
  import opened LzhUpdate

  lemma ValidFramed(t: Tree)
    requires Valid(t)
    ensures Framed(t) && Sized(t)
  {
  }

  lemma ValidFacts(t: Tree)
    requires Valid(t)
    ensures Sized(t) && t.freq[R] <= MAX_FREQ
  {
  }

  class HuffTree {
    const freq: array<int>
    const son: array<int>
    const prnt: array<int>

    ghost predicate Allocated() {
      freq.Length == T + 1 && son.Length == T && prnt.Length == T + N_CHAR && son != freq && son != prnt && freq != prnt
    }

    ghost function Value(): Tree
      reads freq, son, prnt
    {
      Tree(freq[..], son[..], prnt[..])
    }

    constructor ()
      ensures Allocated() && fresh(freq) && fresh(son) && fresh(prnt)
    {
      freq := new int[T + 1];
      son := new int[T];
      prnt := new int[T + N_CHAR];
    }

    method StartHuff()
      requires Allocated()
      modifies freq, son, prnt
      ensures Value() == Start() && Valid(Value())
    {
      hide Valid;
      var i := 0;
      while i < N_CHAR
        invariant 0 <= i <= N_CHAR
        invariant forall k :: 0 <= k < i ==> freq[k] == 1
        invariant forall k :: 0 <= k < i ==> son[k] == k + T
        invariant forall x :: T <= x < T + i ==> prnt[x] == x - T
      {
        freq[i] := 1;
        son[i] := i + T;
        prnt[i + T] := i;
        i := i + 1;
      }
      PairUp();
      freq[T] := SENTINEL;
      prnt[R] := 0;
      assert freq[..] == freq[..T] + [SENTINEL];
      assert son[..] == son[..T];
      assert prnt[..] == StartPrnt();
    }

    /** The second loop of `StartHuff`: each next node becomes the parent of the next pair. */
    method PairUp()
      requires Allocated()
      requires freq[..N_CHAR] == StartFreq(0) && son[..N_CHAR] == StartSon(0)
      requires forall x :: T <= x < T + N_CHAR ==> prnt[x] == x - T
      modifies freq, son, prnt
      ensures freq[..T] == StartFreq(N_CHAR - 1) && son[..T] == StartSon(N_CHAR - 1)
      ensures forall x :: 0 <= x < R || T <= x < T + N_CHAR ==> prnt[x] == StartPrnt()[x]
    {
      var i := 0;
      var j := N_CHAR;
      while j <= R
        invariant N_CHAR <= j <= T && i == 2 * (j - N_CHAR)
        invariant freq[..j] == StartFreq(j - N_CHAR)
        invariant son[..j] == StartSon(j - N_CHAR)
        invariant forall x :: 0 <= x < i || T <= x < T + N_CHAR ==> prnt[x] == StartPrnt()[x]
      {
        PairNext(i, j);
        i := i + 2;
        j := j + 1;
      }
    }

    /** Node `j` becomes the parent of nodes `i` and `i + 1`. */
    method PairNext(i: int, j: int)
      requires Allocated() && N_CHAR <= j < T && i == 2 * (j - N_CHAR)
      requires freq[..j] == StartFreq(j - N_CHAR) && son[..j] == StartSon(j - N_CHAR)
      modifies freq, son, prnt
      ensures freq[..j + 1] == StartFreq(j + 1 - N_CHAR) && son[..j + 1] == StartSon(j + 1 - N_CHAR)
      ensures forall x :: 0 <= x < prnt.Length ==> prnt[x] == if x == i || x == i + 1 then j else old(prnt[x])
    {
      freq[j] := freq[i] + freq[i + 1];
      son[j] := i;
      prnt[i] := j;
      prnt[i + 1] := j;
      assert freq[..j + 1] == freq[..j] + [freq[j]];
      assert son[..j + 1] == son[..j] + [son[j]];
    }

    method Update(c: int)
      requires Allocated() && Valid(Value()) && 0 <= c < N_CHAR
      modifies freq, son, prnt
      ensures Value() == Updated(old(Value()), c) && Valid(Value())
    {
      hide Valid, Pending, Climb, Bump, Landing;
      ValidFacts(Value());
      if freq[R] == MAX_FREQ {
        Reconst();
      }
      ghost var start := Value();
      ValidFacts(start);
      LeafPending(start, c);
      var x := prnt[c + T];
      ghost var goal := Climb(start, x);
      PendingFacts(start, x);
      while true
        invariant IsNode(x) && Pending(Value(), x) && Climb(Value(), x) == goal
        decreases R - x
      {
        ClimbStep(Value(), x);
        x := Raise(x);
        x := prnt[x];
        if x == 0 { break; }
      }
    }

    /** One round of `update`: raise the count of node `x`; `l` is where the count ends up. */
    method Raise(x: int) returns (l: int)
      requires Allocated() && Pending(Value(), x)
      modifies freq, son, prnt
      ensures Value() == Bump(old(Value()), x) && l == Landing(old(Value()), x)
    {
      hide Pending, Framed, SonsBelow, Linked, SumsExcept, LeafTotal, Relink;
      ghost var v := Value();
      PendingFacts(v, x);
      var k := freq[x] + 1;
      freq[x] := k;
      l := x;
      assert freq[x + 1] == v.freq[x + 1];
      if k > freq[x + 1] {
        l := FindLeader(v.freq, x, k);
        freq[x] := freq[l];
        freq[l] := k;
        assert freq[..] == v.freq[x := v.freq[l]][l := k];
        Exchange(x, l);
      }
    }

    /** Scan upwards for the last node lighter than `k`. */
    method FindLeader(ghost f: seq<int>, x: int, k: int) returns (l: int)
      requires Allocated() && 0 <= x < R && |f| == T + 1 && f[x + 1] < k <= f[T]
      requires forall i :: x < i <= T ==> freq[i] == f[i]
      ensures l == Leader(f, x + 1, k)
    {
      l := x + 2;
      while k > freq[l]
        invariant x + 1 < l <= T
        invariant f[l - 1] < k && Leader(f, x + 1, k) == Leader(f, l - 1, k)
        decreases T - l
      {
        l := l + 1;
      }
      l := l - 1;
    }

    /** Swap the sons of two nodes and tell the children. */
    method Exchange(c: int, l: int)
      requires Allocated() && IsNode(c) && IsNode(l) && SonsBelow(son[..], T)
      modifies son, prnt
      ensures son[..] == old(son[..])[c := old(son[l])][l := old(son[c])]
      ensures prnt[..] == Relink(Relink(old(prnt[..]), old(son[c]), l), old(son[l]), c)
    {
      var i := son[c];
      prnt[i] := l;
      if i < T { prnt[i + 1] := l; }
      assert prnt[..] == Relink(old(prnt[..]), i, l);
      var j := son[l];
      son[l] := i;
      prnt[j] := c;
      if j < T { prnt[j + 1] := c; }
      son[c] := j;
    }

    method Reconst()
      requires Allocated() && Valid(Value())
      modifies freq, son, prnt
      ensures Value() == Rebuilt(old(Value())) && Valid(Value()) && freq[R] < MAX_FREQ
    {
      hide Valid, Framed, Forest, Joined, LeafSons, LeafHalves, SonsBelow, Distinct;
      ghost var t := Value();
      ValidFramed(t);
      CollectedForest(t);
      CollectedAll(t);
      CollectLeaves();
      JoinPairs(HalfWeights(t));
      ghost var q := RebuiltTables(t);
      ForestComplete(q.0, q.1, HalfWeights(t));
      assert freq[..] == q.0 + [t.freq[T]] by { assert freq[..] == freq[..T] + [freq[T]]; }
      assert son[..] == q.1 by { assert son[..] == son[..T]; }
      ConnectParents();
      RebuiltValid(t);
    }

    /** Collect the leaves in the first half of the tables, with halved counts. */
    method CollectLeaves()
      requires Allocated() && |LeafSons(son[..], T)| == N_CHAR
      modifies freq, son
      ensures freq[..N_CHAR] == LeafHalves(old(son[..]), old(freq[..]), T)
      ensures son[..N_CHAR] == LeafSons(old(son[..]), T)
      ensures freq[T] == old(freq[T])
    {
      ghost var s0, f0 := son[..], freq[..];
      var j, i := 0, 0;
      while i < T
        invariant 0 <= j <= i <= T && j == |LeafSons(s0, i)|
        invariant freq[..j] == LeafHalves(s0, f0, i) && son[..j] == LeafSons(s0, i)
        invariant freq[i..] == f0[i..] && son[i..] == s0[i..]
      {
        assert freq[i] == freq[i..][0] && son[i] == son[i..][0];
        assert freq[i + 1..] == f0[i + 1..] && son[i + 1..] == s0[i + 1..];
        if son[i] >= T {
          freq[j] := (freq[i] + 1) / 2;
          son[j] := son[i];
          j := j + 1;
          assert freq[..j] == freq[..j - 1] + [freq[j - 1]] && son[..j] == son[..j - 1] + [son[j - 1]];
        }
        i := i + 1;
      }
      assert freq[T] == freq[T..][0];
    }

    /** Join nodes in pairs, inserting each parent after the nodes it does not outweigh. */
    method JoinPairs(ghost w: seq<int>)
      requires Allocated() && Forest(freq[..N_CHAR], son[..N_CHAR], 0, w)
      modifies freq, son
      ensures freq[..T] == Joined(old(freq[..N_CHAR]), old(son[..N_CHAR]), 0, w).0
      ensures son[..T] == Joined(old(freq[..N_CHAR]), old(son[..N_CHAR]), 0, w).1
      ensures freq[T] == old(freq[T])
    {
      hide Forest, Joined;
      ghost var f, s := freq[..N_CHAR], son[..N_CHAR];
      ghost var goal := Joined(f, s, 0, w);
      var i, j := 0, N_CHAR;
      while j < T
        invariant N_CHAR <= j <= T && freq[T] == old(freq[T])
        invariant freq[..j] == f && son[..j] == s
        invariant Forest(f, s, i, w) && Joined(f, s, i, w) == goal
      {
        f, s := JoinPair(i, j, f, s, w);
        i := i + 2;
        j := j + 1;
      }
      JoinedDone(f, s, i, w);
    }

    /** One step of the joining loop; `f` and `s` are the tables so far. */
    method JoinPair(i: int, j: int, ghost f0: seq<int>, ghost s0: seq<int>, ghost w: seq<int>)
      returns (ghost f1: seq<int>, ghost s1: seq<int>)
      requires Allocated() && N_CHAR <= j < T && freq[..j] == f0 && son[..j] == s0 && Forest(f0, s0, i, w)
      modifies freq, son
      ensures freq[..j + 1] == f1 && son[..j + 1] == s1 && Forest(f1, s1, i + 2, w)
      ensures Joined(f1, s1, i + 2, w) == Joined(f0, s0, i, w)
      ensures freq[T] == old(freq[T])
    {
      hide Forest, Joined;
      JoinedStep(f0, s0, i, w);
      var k := i + 1;
      var f := freq[i] + freq[k];
      freq[j] := f;
      k := FindSlot(f0, j - 1, f);
      InsertInto(freq, k, j, f);
      InsertInto(son, k, j, i);
      f1, s1 := freq[..j + 1], son[..j + 1];
    }

    /** Scan downwards for the last entry that does not exceed `f`; the slot is one above it. */
    method FindSlot(ghost f0: seq<int>, start: nat, f: int) returns (k: nat)
      requires Allocated() && start < |f0| <= T && f0[0] <= f && freq[..|f0|] == f0
      ensures k == Above(f0, start, f)
    {
      k := start;
      while f < freq[k]
        invariant 0 <= k <= start && Above(f0, k, f) == Above(f0, start, f)
        decreases k
      {
        k := k - 1;
      }
      k := k + 1;
    }

    /** The overlapping block move (entries k..j-1 go one place up), and the store at `k`. */
    static method InsertInto(a: array<int>, k: nat, j: nat, x: int)
      requires k <= j < a.Length
      modifies a
      ensures a[..j + 1] == InsertAt(old(a[..j]), k, x)
      ensures forall p :: j < p < a.Length ==> a[p] == old(a[p])
    {
      var p := j;
      while p > k
        invariant k <= p <= j
        invariant forall q :: p < q <= j ==> a[q] == old(a[q - 1])
        invariant forall q :: 0 <= q <= p || j < q < a.Length ==> a[q] == old(a[q])
      {
        a[p] := a[p - 1];
        p := p - 1;
      }
      a[k] := x;
      ghost var s := old(a[..j]);
      assert a[..j + 1] == InsertAt(s, k, x);
    }

    method ConnectParents()
      requires Allocated()
      requires forall p :: 0 <= p < T ==> IsLeafMark(son[p]) || (0 <= son[p] < R && son[p] % 2 == 0)
      modifies prnt
      ensures prnt[..] == Connected(son[..], old(prnt[..]), T)
    {
      ghost var p0 := prnt[..];
      assert forall p :: 0 <= p < T ==> son[..][p] == son[p];
      var i := 0;
      while i < T
        invariant 0 <= i <= T && prnt[..] == Connected(son[..], p0, i)
      {
        var k := son[i];
        if k >= T {
          prnt[k] := i;
        } else {
          prnt[k] := i;
          prnt[k + 1] := i;
        }
        i := i + 1;
      }
    }
  }
}
