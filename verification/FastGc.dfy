/**
  fast_GC of log.c: one pass over the tree of chunk descriptors that unlinks every
  chunk whose bitmap is empty.  The tree's comparator is reversed, so its in-order
  walk visits chunks from the highest address down.
 */
module FastGc {
  import opened Interleave
  import opened LogStore

  /** vlchunk_cmp. */
  function Compare(a: int, b: int): int {
    (if a < b then 1 else 0) - (if a > b then 1 else 0)
  }

  /** The in-order walk of the tree. */
  ghost predicate InOrder(order: seq<int>) {
    forall i, j :: 0 <= i < j < |order| ==> Compare(order[i], order[j]) < 0
  }

  type Links = map<int, int>

  /** The links after the first `k` chunks of the walk have been visited. */
  function Sweep(next: Links, pre: Links, empty: set<int>, order: seq<int>, k: nat): (r: Links)
    requires k <= |order| && forall c :: c in order ==> c in next && c in pre
    ensures next.Keys <= r.Keys
  {
    if k == 0 then next
    else
      var n := Sweep(next, pre, empty, order, k - 1);
      var c := order[k - 1];
      if c in empty && pre[c] != 0 then n[pre[c] := n[c]] else n
  }

  /** The chain from `root`, and each chunk's exact link back. */
  ghost predicate Exact(next: Links, pre: Links, root: int, chain: seq<int>) {
    && |chain| > 0 && Distinct([root] + chain) && 0 !in [root] + chain && root in next
    && (forall c :: c in chain ==> c in next && c in pre) && (forall c :: c in next ==> c in [root] + chain)
    && next[root] == chain[0] && pre[chain[0]] == root
    && (forall i :: 0 < i < |chain| ==> next[chain[i - 1]] == chain[i] && pre[chain[i]] == chain[i - 1])
    && next[chain[|chain| - 1]] == 0
  }

  /** The chunks that stay, in their order, and what their links lead to. */
  function Kept(chain: seq<int>, empty: set<int>): seq<int>
    decreases |chain|
  {
    if chain == [] then [] else (if chain[0] in empty then [] else [chain[0]]) + Kept(chain[1..], empty)
  }

  function NextKept(chain: seq<int>, empty: set<int>, i: nat): int
    decreases |chain| - i
  {
    if i >= |chain| then 0 else if chain[i] in empty then NextKept(chain, empty, i + 1) else chain[i]
  }

  /** The chunks met by following the links from `c`. */
  function Walk(next: Links, c: int, fuel: nat): seq<int>
    decreases fuel
  {
    if c == 0 || c !in next || fuel == 0 then [] else [c] + Walk(next, next[c], fuel - 1)
  }

  function Prev(root: int, chain: seq<int>, i: nat): int
    requires i <= |chain|
  {
    if i == 0 then root else chain[i - 1]
  }

  /** Chunk `i` of the chain is among the first `k` of the walk. */
  ghost predicate Seen(chain: seq<int>, order: seq<int>, k: nat, i: nat)
    requires i < |chain| && k <= |order|
  {
    chain[i] in order[..k]
  }

  /** Two empty chunks side by side are met later one first. */
  ghost predicate BackToFront(chain: seq<int>, empty: set<int>) {
    forall i :: 0 < i < |chain| && chain[i - 1] in empty && chain[i] in empty ==> chain[i - 1] < chain[i]
  }

  lemma SeenNext(chain: seq<int>, order: seq<int>, k: nat, i: nat)
    requires i < |chain| && k < |order|
    ensures Seen(chain, order, k + 1, i) <==> Seen(chain, order, k, i) || chain[i] == order[k]
  {
    assert order[..k + 1] == order[..k] + [order[k]];
  }

  /** Of two chunks the higher is seen first. */
  lemma HigherFirst(chain: seq<int>, order: seq<int>, k: nat, i: nat, j: nat)
    requires InOrder(order) && i < |chain| && j < |chain| && chain[i] < chain[j] && chain[j] in order && k <= |order| && Seen(chain, order, k, i)
    ensures Seen(chain, order, k, j)
  {
    var a :| 0 <= a < k && order[a] == chain[i];
    var b :| 0 <= b < |order| && order[b] == chain[j];
    assert order[..k][b] == chain[j];
  }

  /** The links part way through, when neighbours are met later one first: a link past a seen empty chunk already leads to the next chunk that stays. */
  lemma {:induction false} SweepAt(next: Links, pre: Links, empty: set<int>, root: int, chain: seq<int>, order: seq<int>, k: nat, i: nat)
    requires Exact(next, pre, root, chain) && InOrder(order) && (forall c :: c in order <==> c in chain) && k <= |order| && i <= |chain|
    requires BackToFront(chain, empty)
    ensures var n := Sweep(next, pre, empty, order, k);
      n[Prev(root, chain, i)] == if i == |chain| then 0 else if chain[i] in empty && Seen(chain, order, k, i) then NextKept(chain, empty, i + 1) else chain[i]
    decreases k, |chain| - i
  {
    hide Exact, InOrder, Sweep, Seen, NextKept, Prev;
    if k > 0 {
      SweepAt(next, pre, empty, root, chain, order, k - 1, i);
      SweepTurn(next, pre, empty, root, chain, order, k, i);
      if i < |chain| {
        SeenNext(chain, order, k - 1, i);
        NextKeptAt(chain, empty, i);
        if order[k - 1] == chain[i] && chain[i] in empty {
          SweepAt(next, pre, empty, root, chain, order, k - 1, i + 1);
          NextKeptAt(chain, empty, i + 1);
          if i + 1 < |chain| && chain[i + 1] in empty {
            assert chain[i + 1 - 1] in empty;
            SeenNext(chain, order, k - 1, i + 1);
            HigherFirst(chain, order, k, i, i + 1);
          }
        }
      }
    } else {
      SweepNone(next, pre, empty, root, chain, order, i);
    }
  }

  lemma NextKeptAt(chain: seq<int>, empty: set<int>, i: nat)
    ensures NextKept(chain, empty, i) == if i >= |chain| then 0 else if chain[i] in empty then NextKept(chain, empty, i + 1) else chain[i]
  {
  }

  lemma SweepNone(next: Links, pre: Links, empty: set<int>, root: int, chain: seq<int>, order: seq<int>, i: nat)
    requires Exact(next, pre, root, chain) && (forall c :: c in order ==> c in chain) && i <= |chain|
    ensures forall c :: c in order ==> c in next && c in pre
    ensures Prev(root, chain, i) in next && Sweep(next, pre, empty, order, 0)[Prev(root, chain, i)] == if i == |chain| then 0 else chain[i]
    ensures i < |chain| ==> !Seen(chain, order, 0, i)
  {
  }

  /** One turn of the walk changes the link before place `i` only when it meets the chunk there and that is empty. */
  lemma SweepTurn(next: Links, pre: Links, empty: set<int>, root: int, chain: seq<int>, order: seq<int>, k: nat, i: nat)
    requires Exact(next, pre, root, chain) && (forall c :: c in order ==> c in chain) && 0 < k <= |order| && i <= |chain|
    ensures forall c :: c in order ==> c in next && c in pre
    ensures Prev(root, chain, i) in next && (i < |chain| ==> Prev(root, chain, i + 1) in next)
    ensures Sweep(next, pre, empty, order, k)[Prev(root, chain, i)] ==
      Sweep(next, pre, empty, order, k - 1)[if i < |chain| && order[k - 1] == chain[i] && chain[i] in empty then Prev(root, chain, i + 1) else Prev(root, chain, i)]
  {
    PreIs(next, pre, root, chain, order[k - 1], i);
  }

  /** The link back of `c` leads to the chunk before place `i` only when `c` is at `i`. */
  lemma PreIs(next: Links, pre: Links, root: int, chain: seq<int>, c: int, i: nat)
    requires Exact(next, pre, root, chain) && c in chain && i <= |chain|
    ensures pre[c] != 0 && (pre[c] == Prev(root, chain, i) <==> i < |chain| && c == chain[i])
  {
    var j :| 0 <= j < |chain| && chain[j] == c;
    var all := [root] + chain;
    assert pre[c] == Prev(root, chain, j) == all[j] && Prev(root, chain, i) == all[i];
    assert all[j] in all;
    if i < |chain| { assert all[i + 1] == chain[i] && all[j + 1] == c; }
  }

  /** Two empty neighbours met earlier one first: a link from before them leads, from then on, to no further than the later one. */
  lemma {:induction false} SweepStuck(next: Links, pre: Links, empty: set<int>, root: int, chain: seq<int>, order: seq<int>, k: nat, x: nat, i: nat)
    requires Exact(next, pre, root, chain) && InOrder(order) && (forall c :: c in order <==> c in chain) && k <= |order|
    requires 0 < x < |chain| && chain[x - 1] in empty && chain[x] in empty && chain[x - 1] > chain[x] && i <= x
    ensures forall c :: c in order ==> c in next && c in pre
    ensures Prev(root, chain, i) in next
    ensures i < x || !Seen(chain, order, k, x) ==> Within(chain, i, x, Sweep(next, pre, empty, order, k)[Prev(root, chain, i)])
    decreases k, |chain| - i
  {
    hide Exact, InOrder, Sweep, Seen, Prev, Within;
    if k == 0 {
      SweepNone(next, pre, empty, root, chain, order, i);
      WithinAt(chain, i, x);
    } else {
      SeenNext(chain, order, k - 1, x);
      SweepTurn(next, pre, empty, root, chain, order, k, i);
      SweepStuck(next, pre, empty, root, chain, order, k - 1, x, i);
      if order[k - 1] == chain[i] && chain[i] in empty && i < x {
        SweepStuck(next, pre, empty, root, chain, order, k - 1, x, i + 1);
        if i + 1 == x { NotBefore(chain, order, k - 1, x); }
        WithinAt(chain, i, x);
      }
    }
  }

  /** A link to one of the chunks from place `i` to place `x`. */
  ghost predicate Within(chain: seq<int>, i: nat, x: nat, c: int)
    requires x < |chain|
  {
    exists m :: i <= m <= x && c == chain[m]
  }

  lemma WithinAt(chain: seq<int>, i: nat, x: nat)
    requires i <= x < |chain|
    ensures Within(chain, i, x, chain[i]) && forall c :: Within(chain, i + 1, x, c) ==> Within(chain, i, x, c)
  {
  }

  /** A chunk is not seen before its turn, and one lower than it not before it. */
  lemma NotBefore(chain: seq<int>, order: seq<int>, k: nat, i: nat)
    requires InOrder(order) && i < |chain| && k < |order| && chain[i] <= order[k]
    ensures !Seen(chain, order, k, i)
  {
    forall a | 0 <= a < k ensures order[..k][a] != chain[i] { assert Compare(order[a], order[k]) < 0; }
  }

  // ------------------------------------------------------------------ what the links thread together

  /** The links from `c` on thread `s` and end. */
  predicate Threads(next: Links, c: int, s: seq<int>)
    decreases |s|
  {
    if s == [] then c == 0 else c == s[0] && c in next && Threads(next, next[c], s[1..])
  }

  lemma {:induction false} WalkThreads(next: Links, c: int, s: seq<int>, fuel: nat)
    requires fuel > |s| && 0 !in s && (c != 0 ==> c in next) && Closed(next)
    ensures Walk(next, c, fuel) == s <==> Threads(next, c, s)
    decreases |s|
  {
    if s != [] && c == s[0] {
      assert s == [s[0]] + s[1..];
      WalkThreads(next, next[c], s[1..], fuel - 1);
      assert ([c] + Walk(next, next[c], fuel - 1))[1..] == Walk(next, next[c], fuel - 1);
    }
  }

  /** The chunks that stay are threaded exactly when each of their links leads to the next of them. */
  lemma {:induction false} ThreadsKept(next: Links, c: int, chain: seq<int>, empty: set<int>, i: nat)
    requires i <= |chain| && (forall j :: 0 <= j < |chain| ==> chain[j] in next) && 0 !in chain
    ensures Threads(next, c, Kept(chain[i..], empty)) <==>
      c == NextKept(chain, empty, i) && forall j :: i <= j < |chain| && chain[j] !in empty ==> next[chain[j]] == NextKept(chain, empty, j + 1)
    decreases |chain| - i
  {
    if i < |chain| {
      assert chain[i..][1..] == chain[i + 1..];
      if chain[i] in empty {
        ThreadsKept(next, c, chain, empty, i + 1);
        assert Kept(chain[i..], empty) == Kept(chain[i + 1..], empty);
        assert forall j :: i + 1 <= j < |chain| && chain[j] !in empty ==> i <= j;
      } else {
        var s := Kept(chain[i..], empty);
        assert s == [chain[i]] + Kept(chain[i + 1..], empty) && s[1..] == Kept(chain[i + 1..], empty);
        ThreadsKept(next, next[chain[i]], chain, empty, i + 1);
        assert Threads(next, c, s) <==> c == chain[i] && Threads(next, next[c], s[1..]);
      }
    }
  }

  lemma NextKeptIn(chain: seq<int>, empty: set<int>, i: nat)
    ensures NextKept(chain, empty, i) == 0 || (NextKept(chain, empty, i) in chain && NextKept(chain, empty, i) !in empty)
    decreases |chain| - i
  {
    if i < |chain| { NextKeptIn(chain, empty, i + 1); }
  }

  lemma {:induction false} SweepClosed(next: Links, pre: Links, empty: set<int>, root: int, chain: seq<int>, order: seq<int>, k: nat)
    requires Exact(next, pre, root, chain) && (forall c :: c in order ==> c in chain) && k <= |order|
    ensures forall c :: c in order ==> c in next && c in pre
    ensures var n := Sweep(next, pre, empty, order, k); n.Keys == next.Keys && Closed(n)
  {
    hide Exact, Closed;
    LinksIn(next, pre, root, chain);
    if k > 0 {
      SweepClosed(next, pre, empty, root, chain, order, k - 1);
      var n, c := Sweep(next, pre, empty, order, k - 1), order[k - 1];
      PreIn(next, pre, root, chain, c);
      ClosedPut(n, pre[c], c);
    }
  }

  /** Each link leads to a chunk with a link, or ends the chain. */
  ghost predicate Closed(n: Links) {
    forall c :: c in n ==> n[c] == 0 || n[c] in n
  }

  lemma ClosedPut(n: Links, p: int, c: int)
    requires Closed(n) && p in n && c in n
    ensures Closed(n[p := n[c]]) && n[p := n[c]].Keys == n.Keys
  {
  }

  lemma LinksIn(next: Links, pre: Links, root: int, chain: seq<int>)
    requires Exact(next, pre, root, chain)
    ensures Closed(next) && forall c :: c in chain ==> c in next && c in pre
  {
    forall c | c in next ensures next[c] == 0 || next[c] in next {
      if c != root {
        assert c in chain;
        var i :| 0 <= i < |chain| && chain[i] == c;
        if i + 1 < |chain| { assert next[chain[i + 1 - 1]] == chain[i + 1]; }
      }
    }
  }

  lemma PreIn(next: Links, pre: Links, root: int, chain: seq<int>, c: int)
    requires Exact(next, pre, root, chain) && c in chain
    ensures pre[c] in next && pre[c] != 0
  {
    var i :| 0 <= i < |chain| && chain[i] == c;
    assert i > 0 ==> chain[i - 1] in chain;
    assert ([root] + chain)[i] == pre[c];
  }

  lemma KeptFacts(chain: seq<int>, empty: set<int>)
    ensures |Kept(chain, empty)| <= |chain| && forall c :: c in Kept(chain, empty) <==> c in chain && c !in empty
    decreases |chain|
  {
    if chain != [] {
      KeptFacts(chain[1..], empty);
      var rest := Kept(chain[1..], empty);
      assert Kept(chain, empty) == (if chain[0] in empty then [] else [chain[0]]) + rest;
      assert chain == [chain[0]] + chain[1..];
      forall c ensures c in Kept(chain, empty) <==> c in chain && c !in empty {
        assert c in chain <==> c == chain[0] || c in chain[1..];
      }
    }
  }

  /** Where the run of empty chunks that reaches `x` begins. */
  lemma {:induction false} RunStart(chain: seq<int>, empty: set<int>, x: nat) returns (i: nat)
    requires x < |chain| && chain[x] in empty
    ensures i <= x && (forall m :: i <= m <= x ==> chain[m] in empty) && (i > 0 ==> chain[i - 1] !in empty)
  {
    i := x;
    if x > 0 && chain[x - 1] in empty {
      i := RunStart(chain, empty, x - 1);
    }
  }

  /**
    One pass leaves the root's links threading exactly the chunks that are not
    empty, in their order, if and only if of two empty neighbours the later in the
    chain has the higher address.
   */
  lemma SweepRight(next: Links, pre: Links, empty: set<int>, root: int, chain: seq<int>, order: seq<int>)
    requires Exact(next, pre, root, chain) && InOrder(order) && forall c :: c in order <==> c in chain
    ensures forall c :: c in order ==> c in next && c in pre
    ensures var n := Sweep(next, pre, empty, order, |order|);
      root in n && (Walk(n, n[root], |chain| + 1) == Kept(chain, empty) <==> BackToFront(chain, empty))
  {
    hide Exact, InOrder, Sweep, NextKept, BackToFront, Walk, Kept;
    SweepClosed(next, pre, empty, root, chain, order, |order|);
    ExactParts(next, pre, root, chain);
    var n := Sweep(next, pre, empty, order, |order|);
    KeptFacts(chain, empty);
    assert chain[0..] == chain;
    WalkThreads(n, n[root], Kept(chain, empty), |chain| + 1);
    ThreadsKept(n, n[root], chain, empty, 0);
    if BackToFront(chain, empty) {
      AllRight(next, pre, empty, root, chain, order);
    } else {
      SomeStuck(next, pre, empty, root, chain, order);
    }
  }

  lemma ExactParts(next: Links, pre: Links, root: int, chain: seq<int>)
    requires Exact(next, pre, root, chain)
    ensures root in next && |chain| > 0 && 0 !in chain && forall j :: 0 <= j < |chain| ==> chain[j] in next
  {
    forall c | c in chain ensures c in [root] + chain { }
    assert forall j :: 0 <= j < |chain| ==> chain[j] in chain;
  }

  /** Each link of the root and of the chunks that stay leads to the next that stays. */
  ghost predicate LinksRight(n: Links, root: int, chain: seq<int>, empty: set<int>)
    requires root in n && forall j :: 0 <= j < |chain| ==> chain[j] in n
  {
    n[root] == NextKept(chain, empty, 0) && forall j :: 0 <= j < |chain| && chain[j] !in empty ==> n[chain[j]] == NextKept(chain, empty, j + 1)
  }

  lemma AllRight(next: Links, pre: Links, empty: set<int>, root: int, chain: seq<int>, order: seq<int>)
    requires Exact(next, pre, root, chain) && InOrder(order) && (forall c :: c in order <==> c in chain) && BackToFront(chain, empty)
    ensures forall c :: c in order ==> c in next && c in pre
    ensures root in next && (forall j :: 0 <= j < |chain| ==> chain[j] in next)
    ensures LinksRight(Sweep(next, pre, empty, order, |order|), root, chain, empty)
  {
    hide Exact, InOrder, Sweep, BackToFront;
    ExactParts(next, pre, root, chain);
    SweepClosed(next, pre, empty, root, chain, order, |order|);
    assert order[..|order|] == order;
    forall i: nat | i <= |chain|
      ensures i < |chain| ==> Seen(chain, order, |order|, i)
      ensures Prev(root, chain, i) in next && Sweep(next, pre, empty, order, |order|)[Prev(root, chain, i)] == NextKept(chain, empty, i)
    {
      SweepAt(next, pre, empty, root, chain, order, |order|, i);
    }
    assert Prev(root, chain, 0) == root;
    assert forall j: nat :: j < |chain| ==> Prev(root, chain, j + 1) == chain[j];
  }

  lemma SomeStuck(next: Links, pre: Links, empty: set<int>, root: int, chain: seq<int>, order: seq<int>)
    requires Exact(next, pre, root, chain) && InOrder(order) && (forall c :: c in order <==> c in chain) && !BackToFront(chain, empty)
    ensures forall c :: c in order ==> c in next && c in pre
    ensures root in next && (forall j :: 0 <= j < |chain| ==> chain[j] in next)
    ensures !LinksRight(Sweep(next, pre, empty, order, |order|), root, chain, empty)
  {
    ExactParts(next, pre, root, chain);
    SweepClosed(next, pre, empty, root, chain, order, |order|);
    var x :| 0 < x < |chain| && chain[x - 1] in empty && chain[x] in empty && chain[x - 1] >= chain[x];
    var i := RunStart(chain, empty, x);
    StuckAt(next, pre, empty, root, chain, order, x, i);
  }

  lemma StuckAt(next: Links, pre: Links, empty: set<int>, root: int, chain: seq<int>, order: seq<int>, x: nat, i: nat)
    requires Exact(next, pre, root, chain) && InOrder(order) && (forall c :: c in order <==> c in chain)
    requires 0 < x < |chain| && chain[x - 1] in empty && chain[x] in empty && chain[x - 1] >= chain[x] && i <= x
    requires (forall m :: i <= m <= x ==> chain[m] in empty) && (i > 0 ==> chain[i - 1] !in empty)
    ensures forall c :: c in order ==> c in next && c in pre
    ensures root in next && (forall j :: 0 <= j < |chain| ==> chain[j] in next)
    ensures !LinksRight(Sweep(next, pre, empty, order, |order|), root, chain, empty)
  {
    hide InOrder, Sweep, NextKept;
    ExactParts(next, pre, root, chain);
    SweepClosed(next, pre, empty, root, chain, order, |order|);
    NeighboursDiffer(next, pre, root, chain, x);
    var at := if i == x then i - 1 else i;
    SweepStuck(next, pre, empty, root, chain, order, |order|, x, at);
    NextKeptIn(chain, empty, at);
    var n := Sweep(next, pre, empty, order, |order|);
    var m :| at <= m <= x && n[Prev(root, chain, at)] == chain[m];
    assert chain[m] in chain;
  }

  lemma NeighboursDiffer(next: Links, pre: Links, root: int, chain: seq<int>, x: nat)
    requires Exact(next, pre, root, chain) && 0 < x < |chain|
    ensures chain[x - 1] != chain[x]
  {
    assert ([root] + chain)[x] == chain[x - 1] && ([root] + chain)[x + 1] == chain[x];
  }

  /** In a chain of falling addresses no two empty neighbours come out; slow_GC leaves the free chunks in that order, and vlchunk_alloc takes them first. */
  lemma FallingChain(next: Links, pre: Links, empty: set<int>, root: int, chain: seq<int>, order: seq<int>)
    requires Exact(next, pre, root, chain) && InOrder(order) && (forall c :: c in order <==> c in chain)
    requires exists x :: 0 < x < |chain| && chain[x] < chain[x - 1] && chain[x] in empty && chain[x - 1] in empty
    ensures forall c :: c in order ==> c in next && c in pre
    ensures var n := Sweep(next, pre, empty, order, |order|); root in n && Walk(n, n[root], |chain| + 1) != Kept(chain, empty)
  {
    hide Exact, InOrder, Sweep, Walk, Kept;
    SweepRight(next, pre, empty, root, chain, order);
  }

  /** Chunks `a`, `b`, `c` and `d` in this order with falling addresses: when `b` and `c` are empty, `c` stays in the chain. */
  lemma FallingRun(next: Links, pre: Links, root: int, a: int, b: int, c: int, d: int)
    requires Exact(next, pre, root, [a, b, c, d]) && a > b > c > d
    ensures InOrder([a, b, c, d]) && (forall x :: x in [a, b, c, d] ==> x in next && x in pre)
    ensures var n := Sweep(next, pre, {b, c}, [a, b, c, d], 4); root in n && Walk(n, n[root], 5) == [a, c, d]
    ensures Dropped([a, b, c, d], {b, c}, 4) == [b, c] && Kept([a, b, c, d], {b, c}) == [a, d]
  {
    hide Exact, Sweep, Dropped, Kept, Walk;
    FourLinks(next, pre, root, a, b, c, d);
    FourSwept(next, pre, {b, c}, [a, b, c, d], a, b, c, d);
    WalkFour(next[a := c][b := d], a, c, d);
    KeptFour(a, b, c, d);
  }

  lemma FourSwept(next: Links, pre: Links, empty: set<int>, order: seq<int>, a: int, b: int, c: int, d: int)
    requires |order| == 4 && order[0] == a && order[1] == b && order[2] == c && order[3] == d && forall x :: x in order ==> x in next && x in pre
    requires a !in empty && b in empty && c in empty && d !in empty && a != 0 && b != 0 && a != b && b != c && a != c
    requires pre[b] == a && pre[c] == b && next[b] == c && next[c] == d
    ensures Sweep(next, pre, empty, order, 4) == next[a := c][b := d] && Dropped(order, empty, 4) == [b, c]
  {
    hide Sweep, Dropped;
    assert Sweep(next, pre, empty, order, 1) == next && Dropped(order, empty, 1) == [] by {
      SweepZero(next, pre, empty, order);
      SweepOne(next, pre, empty, order, 0, a);
    }
    assert Sweep(next, pre, empty, order, 2) == next[a := c] && Dropped(order, empty, 2) == [b] by { SweepOne(next, pre, empty, order, 1, b); }
    assert Sweep(next, pre, empty, order, 3) == next[a := c][b := d] && Dropped(order, empty, 3) == [b, c] by { SweepOne(next, pre, empty, order, 2, c); }
    SweepOne(next, pre, empty, order, 3, d);
  }

  lemma FourLinks(next: Links, pre: Links, root: int, a: int, b: int, c: int, d: int)
    requires Exact(next, pre, root, [a, b, c, d])
    ensures forall x :: x in [a, b, c, d] ==> x in next && x in pre
    ensures root in next && next[root] == a && next[b] == c && next[c] == d && next[d] == 0 && pre[b] == a && pre[c] == b
    ensures 0 !in [a, b, c, d] && root !in [a, b, c, d]
  {
    var chain := [a, b, c, d];
    assert chain[0] == a && chain[1] == b && chain[2] == c && chain[3] == d;
    assert next[chain[1]] == chain[2] && next[chain[2]] == chain[3] && pre[chain[1]] == chain[0] && pre[chain[2]] == chain[1];
    forall k | 0 <= k < 4 ensures chain[k] != 0 && chain[k] != root { assert ([root] + chain)[k + 1] == chain[k] && ([root] + chain)[0] == root; }
  }

  lemma WalkFour(n: Links, a: int, c: int, d: int)
    requires a in n && c in n && d in n && n[a] == c && n[c] == d && n[d] == 0 && a != 0 && c != 0 && d != 0
    ensures Walk(n, a, 5) == [a, c, d]
  {
    assert Walk(n, 0, 2) == [];
    assert Walk(n, d, 3) == [d];
    assert Walk(n, c, 4) == [c, d];
  }

  lemma KeptFour(a: int, b: int, c: int, d: int)
    requires a > b > c > d
    ensures Kept([a, b, c, d], {b, c}) == [a, d]
  {
    assert [d][1..] == [] && [c, d][1..] == [d] && [b, c, d][1..] == [c, d] && [a, b, c, d][1..] == [b, c, d];
    assert Kept([], {b, c}) == [];
    assert Kept([d], {b, c}) == [d];
    assert Kept([c, d], {b, c}) == [d];
    assert Kept([b, c, d], {b, c}) == [d];
  }

  const REUSED_NEXT: Links := map[5120 := 6144, 6144 := 4096, 4096 := 3072, 3072 := 2048, 2048 := 0]
  const REUSED_PRE: Links := map[6144 := 5120, 4096 := 6144, 3072 := 4096, 2048 := 3072]

  /**
    A chain the code builds: slow_GC copied a log of root 1024 and chunks 2048, 3072
    and 4096 to root 5120 and chunk 6144 and gave the old chunks back; the appends
    that followed took 4096, 3072 and 2048.  With 4096 and 3072 empty, one pass of
    fast_GC leaves 3072 in the chain, though its id is cleared and it is free.
   */
  lemma ReusedChain()
    ensures Exact(REUSED_NEXT, REUSED_PRE, 5120, [6144, 4096, 3072, 2048])
    ensures forall c :: c in [6144, 4096, 3072, 2048] ==> c in REUSED_NEXT && c in REUSED_PRE
    ensures var n := Sweep(REUSED_NEXT, REUSED_PRE, {4096, 3072}, [6144, 4096, 3072, 2048], 4);
      5120 in n && Walk(n, n[5120], 5) == [6144, 3072, 2048]
    ensures Dropped([6144, 4096, 3072, 2048], {4096, 3072}, 4) == [4096, 3072] && Kept([6144, 4096, 3072, 2048], {4096, 3072}) == [6144, 2048]
  {
    hide Sweep, Walk, Dropped, Kept;
    assert Exact(REUSED_NEXT, REUSED_PRE, 5120, [6144, 4096, 3072, 2048]);
    FallingRun(REUSED_NEXT, REUSED_PRE, 5120, 6144, 4096, 3072, 2048);
  }

  /** In a chain of rising addresses every set of empty chunks comes out, runs of them included; the tail stays in place when it is not empty. */
  lemma RisingChain(next: Links, pre: Links, empty: set<int>, root: int, chain: seq<int>, order: seq<int>)
    requires Exact(next, pre, root, chain) && InOrder(order) && (forall c :: c in order <==> c in chain)
    requires forall i :: 0 < i < |chain| ==> chain[i - 1] < chain[i]
    ensures forall c :: c in order ==> c in next && c in pre
    ensures var n := Sweep(next, pre, empty, order, |order|); root in n && Walk(n, n[root], |chain| + 1) == Kept(chain, empty)
    ensures chain[|chain| - 1] !in empty ==> Kept(chain, empty) != [] && Kept(chain, empty)[|Kept(chain, empty)| - 1] == chain[|chain| - 1]
  {
    SweepRight(next, pre, empty, root, chain, order);
    if chain[|chain| - 1] !in empty { KeptTail(chain, empty); }
  }

  /** The tail a FREE record was just appended to has a bit set, so the pass that the append starts never takes it. */
  lemma TailStays(s: Store, item: Item)
    requires Formed(s) && s.v.tree[s.v.tail].count < CLOSES && item != Empty
    ensures NextIndex(s) < |s.mem[s.v.tail].items| && NextIndex(s) < |s.v.tree[s.v.tail].bits|
    ensures var s' := Fill(s, item);
      s'.v.tail in s'.v.tree && s'.v.tail !in Empties(s'.v.tree)
      && Kept(s'.chain, Empties(s'.v.tree)) != [] && Kept(s'.chain, Empties(s'.v.tree))[|Kept(s'.chain, Empties(s'.v.tree))| - 1] == s'.v.tail
  {
    hide Fill, Kept;
    Room(s);
    FillFormed(s, item);
    FillIs(s, item);
    var s' := Fill(s, item);
    assert s'.v.tree[s'.v.tail].bits[LogIndex(s.v.tree[s.v.tail].count)];
    KeptTail(s'.chain, Empties(s'.v.tree));
  }

  lemma {:induction false} KeptTail(chain: seq<int>, empty: set<int>)
    requires chain != [] && chain[|chain| - 1] !in empty
    ensures Kept(chain, empty) != [] && Kept(chain, empty)[|Kept(chain, empty)| - 1] == chain[|chain| - 1]
    decreases |chain|
  {
    if |chain| > 1 { KeptTail(chain[1..], empty); }
  }

  /** The links back are not mended: after the pass they are exact for the chunks that stay only when none was unlinked. */
  lemma LinksBackStale(next: Links, pre: Links, empty: set<int>, root: int, chain: seq<int>)
    requires Exact(next, pre, root, chain) && chain[|chain| - 1] !in empty
    ensures forall c :: c in Kept(chain, empty) ==> c in pre
    ensures (forall c :: c in Kept(chain, empty) ==> pre[c] !in empty || pre[c] == root) <==> forall c :: c in chain ==> c !in empty
  {
    KeptFacts(chain, empty);
    if exists c :: c in chain && c in empty {
      var c :| c in chain && c in empty;
      var x :| 0 <= x < |chain| && chain[x] == c;
      var i := RunEnd(chain, empty, x);
      assert pre[chain[i + 1]] == chain[i + 1 - 1];
      assert chain[i + 1] in Kept(chain, empty) && ([root] + chain)[i + 1] == chain[i] != ([root] + chain)[0];
    } else {
      forall c | c in Kept(chain, empty) ensures pre[c] !in empty || pre[c] == root {
        var i :| 0 <= i < |chain| && chain[i] == c;
        assert i > 0 ==> chain[i - 1] in chain;
      }
    }
  }

  lemma {:induction false} RunEnd(chain: seq<int>, empty: set<int>, x: nat) returns (i: nat)
    requires x < |chain| && chain[x] in empty && chain[|chain| - 1] !in empty
    ensures x <= i < |chain| - 1 && chain[i] in empty && chain[i + 1] !in empty
    decreases |chain| - x
  {
    i := x;
    if chain[x + 1] in empty { i := RunEnd(chain, empty, x + 1); }
  }

  // ------------------------------------------------------------------ the pass itself

  /** The links of the chunks at `nodes`, and the links back. */
  function NextOf(mem: Memory, nodes: set<int>): Links {
    map c | c in nodes && c in mem :: mem[c].next
  }

  function PreOf(tree: map<int, VChunk>): Links {
    map c | c in tree :: tree[c].pre
  }

  /** The chunks of a walk that are empty. */
  function Dropped(order: seq<int>, empty: set<int>, k: nat): (r: seq<int>)
    requires k <= |order|
    ensures forall c :: c in r <==> c in order[..k] && c in empty
  {
    if k == 0 then [] else
      assert order[..k] == order[..k - 1] + [order[k - 1]];
      Dropped(order, empty, k - 1) + if order[k - 1] in empty then [order[k - 1]] else []
  }

  /** An empty chunk's id is cleared and the chunk before it is linked past it. */
  function Unlinked(mem: Memory, c: int, p: int): Memory
    requires c in mem && p in mem
  {
    var m := mem[c := mem[c].(id := 0)];
    m[p := m[p].(next := m[c].next)]
  }

  lemma UnlinkedLinks(mem: Memory, c: int, p: int, nodes: set<int>)
    requires c in nodes && p in nodes && forall x :: x in nodes ==> x in mem
    ensures NextOf(Unlinked(mem, c, p), nodes) == NextOf(mem, nodes)[p := NextOf(mem, nodes)[c]]
    ensures Unlinked(mem, c, p).Keys == mem.Keys
    ensures forall x :: x in mem ==> Unlinked(mem, c, p)[x].items == mem[x].items && Unlinked(mem, c, p)[x].id == if x == c then 0 else mem[x].id
    ensures forall x :: x in mem && x !in nodes ==> Unlinked(mem, c, p)[x] == mem[x]
  {
  }

  /** Descriptors and chunks when the first `k` of the walk have been visited: only ids and links have changed. */
  ghost predicate Visiting(mem0: Memory, tree0: map<int, VChunk>, mem: Memory, tree: map<int, VChunk>, empty: set<int>, order: seq<int>, k: nat, nodes: set<int>)
    requires k <= |order|
  {
    && (forall c :: c in tree <==> c in tree0) && (forall c :: c in tree && c !in empty ==> tree[c] == tree0[c])
    && (forall c :: c in tree ==> tree[c].bits == tree0[c].bits && tree[c].pre == tree0[c].pre)
    && (forall c :: c in mem <==> c in mem0) && (forall c :: c in mem ==> mem[c].items == mem0[c].items)
    && (forall c :: c in mem ==> mem[c].id == if c in order[..k] && c in empty then 0 else mem0[c].id)
    && (forall c :: c in mem && c !in nodes ==> mem[c] == mem0[c])
  }

  lemma VisitNone(mem: Memory, tree: map<int, VChunk>, empty: set<int>, order: seq<int>, nodes: set<int>)
    ensures Visiting(mem, tree, mem, tree, empty, order, 0, nodes)
  {
  }

  lemma VisitReads(mem0: Memory, tree0: map<int, VChunk>, mem: Memory, tree: map<int, VChunk>, empty: set<int>, order: seq<int>, k: nat, nodes: set<int>, c: int)
    requires k <= |order| && Visiting(mem0, tree0, mem, tree, empty, order, k, nodes)
    ensures forall x :: x in mem <==> x in mem0
    ensures c in tree <==> c in tree0
    ensures c in tree ==> tree[c].bits == tree0[c].bits && tree[c].pre == tree0[c].pre
  {
  }

  lemma VisitEmpty(mem0: Memory, tree0: map<int, VChunk>, mem: Memory, tree: map<int, VChunk>, empty: set<int>, order: seq<int>, k: nat, nodes: set<int>, c: int)
    requires k < |order| && Visiting(mem0, tree0, mem, tree, empty, order, k, nodes) && order[k] == c && c in empty
    requires c in tree && c in mem && tree[c].pre in mem && c in nodes && tree[c].pre in nodes
    ensures Visiting(mem0, tree0, Unlinked(mem, c, tree[c].pre), tree[c := tree[c].(id := 0)], empty, order, k + 1, nodes)
  {
    assert order[..k + 1] == order[..k] + [c];
  }

  lemma VisitUsed(mem0: Memory, tree0: map<int, VChunk>, mem: Memory, tree: map<int, VChunk>, empty: set<int>, order: seq<int>, k: nat, nodes: set<int>, c: int)
    requires k < |order| && Visiting(mem0, tree0, mem, tree, empty, order, k, nodes) && order[k] == c && c !in empty
    ensures Visiting(mem0, tree0, mem, tree, empty, order, k + 1, nodes)
  {
    assert order[..k + 1] == order[..k] + [c];
  }

  lemma VisitedAll(mem0: Memory, tree0: map<int, VChunk>, mem: Memory, tree: map<int, VChunk>, empty: set<int>, order: seq<int>, nodes: set<int>)
    requires Visiting(mem0, tree0, mem, tree, empty, order, |order|, nodes) && forall c :: c in empty ==> c in order
    ensures (forall c :: c in tree <==> c in tree0) && (forall c :: c in tree && c !in empty ==> tree[c] == tree0[c])
    ensures (forall c :: c in mem <==> c in mem0) && (forall c :: c in mem ==> mem[c].items == mem0[c].items)
    ensures (forall c :: c in mem ==> mem[c].id == if c in empty then 0 else mem0[c].id)
    ensures (forall c :: c in mem && c !in nodes ==> mem[c] == mem0[c])
  {
    assert order[..|order|] == order;
  }

  lemma SweepZero(next: Links, pre: Links, empty: set<int>, order: seq<int>)
    requires forall c :: c in order ==> c in next && c in pre
    ensures Sweep(next, pre, empty, order, 0) == next && Dropped(order, empty, 0) == []
  {
  }

  lemma SweepOne(next: Links, pre: Links, empty: set<int>, order: seq<int>, k: nat, c: int)
    requires k < |order| && c == order[k] && forall x :: x in order ==> x in next && x in pre
    ensures var n := Sweep(next, pre, empty, order, k);
      Sweep(next, pre, empty, order, k + 1) == if c in empty && pre[c] != 0 then n[pre[c] := n[c]] else n
    ensures Dropped(order, empty, k + 1) == Dropped(order, empty, k) + if c in empty then [c] else []
  {
  }

  lemma DroppedAre(order: seq<int>, empty: set<int>)
    requires forall c :: c in empty ==> c in order
    ensures (set c | c in Dropped(order, empty, |order|)) == empty
    ensures forall c :: c in Dropped(order, empty, |order|) <==> c in empty
  {
    assert order[..|order|] == order;
    var d := Dropped(order, empty, |order|);
    forall c ensures c in d <==> c in empty { }
  }

  method BitmapEmpty(bits: seq<bool>) returns (e: bool)
    ensures e <==> Unused(bits)
  {
    for i := 0 to |bits|
      invariant forall j :: 0 <= j < i ==> !bits[j]
    {
      if bits[i] {
        return false;
      }
    }
    return true;
  }

  class ChunkLog {
    const root: int
    var mem: Memory
    var tree: map<int, VChunk>
    var order: seq<int>        // the tree's in-order walk
    var freeList: seq<int>

    constructor (root: int, mem: Memory, tree: map<int, VChunk>, order: seq<int>, freeList: seq<int>)
      ensures this.root == root && this.mem == mem && this.tree == tree && this.order == order && this.freeList == freeList
    {
      this.root, this.mem, this.tree, this.order, this.freeList := root, mem, tree, order, freeList;
    }

    ghost predicate Chained(chain: seq<int>)
      reads this
    {
      && root !in tree && InOrder(order) && (forall c :: c in order <==> c in tree) && (forall c :: c in chain <==> c in tree)
      && Exact(NextOf(mem, {root} + tree.Keys), PreOf(tree), root, chain)
    }

    lemma NodesLinked(chain: seq<int>)
      requires Chained(chain)
      ensures forall c :: c in NextOf(mem, {root} + tree.Keys) ==> NextOf(mem, {root} + tree.Keys)[c] == mem[c].next
      ensures forall c :: c in order ==> c in tree && c in mem && tree[c].pre in mem && tree[c].pre != 0 && tree[c].pre in {root} + tree.Keys
      ensures forall c :: c in order ==> c in NextOf(mem, {root} + tree.Keys) && c in PreOf(tree) && PreOf(tree)[c] == tree[c].pre
      ensures forall c :: c in {root} + tree.Keys ==> c in mem
      ensures forall c :: c in Empties(tree) <==> c in order && Unused(tree[c].bits)
    {
      hide Unused;
      var next, pre := NextOf(mem, {root} + tree.Keys), PreOf(tree);
      forall c | c in order ensures tree[c].pre in next && tree[c].pre != 0 { PreIn(next, pre, root, chain, c); }
      forall c | c in tree ensures c in mem { assert c in next; }
      assert root in next;
    }

    /** What the walk does at an empty chunk. */
    method UnlinkOne(c: int)
      requires c in tree && c in mem && tree[c].pre in mem && tree[c].pre != 0
      modifies `mem, `tree
      ensures mem == Unlinked(old(mem), c, old(tree)[c].pre) && tree == old(tree)[c := old(tree)[c].(id := 0)]
    {
      tree := tree[c := tree[c].(id := 0)];
      mem := mem[c := mem[c].(id := 0)];
      if tree[c].pre != 0 {
        mem := mem[tree[c].pre := mem[tree[c].pre].(next := mem[c].next)];
      }
    }

    /** The walk of fast_GC: empty chunks are unlinked and gathered. */
    method Unlink(ghost chain: seq<int>) returns (removed: seq<int>)
      requires Chained(chain)
      modifies `mem, `tree
      ensures removed == Dropped(order, Empties(old(tree)), |order|)
      ensures forall c :: c in order ==> c in NextOf(old(mem), {root} + old(tree).Keys) && c in PreOf(old(tree))
      ensures NextOf(mem, {root} + old(tree).Keys) == Sweep(NextOf(old(mem), {root} + old(tree).Keys), PreOf(old(tree)), Empties(old(tree)), order, |order|)
      ensures (forall c :: c in tree <==> c in old(tree)) && forall c :: c in tree && c !in Empties(old(tree)) ==> tree[c] == old(tree)[c]
      ensures (forall c :: c in mem <==> c in old(mem)) && forall c :: c in mem ==> mem[c].items == old(mem)[c].items
      ensures forall c :: c in mem ==> mem[c].id == if c in Empties(old(tree)) then 0 else old(mem)[c].id
      ensures forall c :: c in mem && c !in old(tree) && c != root ==> mem[c] == old(mem)[c]
    {
      ghost var nodes, next, pre, empty := {root} + tree.Keys, NextOf(mem, {root} + tree.Keys), PreOf(tree), Empties(tree);
      hide *;
      NodesLinked(chain);
      removed := [];
      SweepZero(next, pre, empty, order);
      VisitNone(mem, tree, empty, order, nodes);
      for k := 0 to |order|
        invariant NextOf(mem, nodes) == Sweep(next, pre, empty, order, k) && removed == Dropped(order, empty, k)
        invariant Visiting(old(mem), old(tree), mem, tree, empty, order, k, nodes)
      {
        var c: int := order[k];
        SweepOne(next, pre, empty, order, k, c);
        VisitReads(old(mem), old(tree), mem, tree, empty, order, k, nodes, c);
        var e := BitmapEmpty(tree[c].bits);
        if e {
          UnlinkedLinks(mem, c, tree[c].pre, nodes);
          VisitEmpty(old(mem), old(tree), mem, tree, empty, order, k, nodes, c);
          UnlinkOne(c);
          removed := removed + [c];
        } else {
          VisitUsed(old(mem), old(tree), mem, tree, empty, order, k, nodes, c);
        }
      }
      VisitedAll(old(mem), old(tree), mem, tree, empty, order, nodes);
    }

    /** The chunks gathered leave the tree and become free. */
    method Discard(removed: seq<int>)
      modifies `tree, `freeList
      ensures (forall c :: c in tree <==> c in old(tree) && c !in removed) && (forall c :: c in tree ==> tree[c] == old(tree)[c])
      ensures freeList == old(freeList) + removed
    {
      for k := 0 to |removed|
        invariant forall c :: c in tree <==> c in old(tree) && c !in removed[..k]
        invariant forall c :: c in tree ==> tree[c] == old(tree)[c]
        invariant freeList == old(freeList) + removed[..k]
      {
        var c: int := removed[k];
        assert removed[..k + 1] == removed[..k] + [c];
        tree := tree - {c};
        freeList := freeList + [c];
      }
      assert removed[..|removed|] == removed;
    }

    /** fast_GC. */
    method FastGC(ghost chain: seq<int>)
      requires Chained(chain)
      modifies this
      ensures (forall c :: c in tree <==> c in old(tree) && c !in Empties(old(tree))) && forall c :: c in tree ==> tree[c] == old(tree)[c]
      ensures order == Kept(old(order), Empties(old(tree)))
      ensures freeList == old(freeList) + Dropped(old(order), Empties(old(tree)), |old(order)|)
      ensures (forall c :: c in mem <==> c in old(mem)) && forall c :: c in mem ==> mem[c].items == old(mem)[c].items
      ensures forall c :: c in mem ==> mem[c].id == if c in Empties(old(tree)) then 0 else old(mem)[c].id
      ensures forall c :: c in mem && c !in old(tree) && c != root ==> mem[c] == old(mem)[c]
      ensures forall c :: c in old(order) ==> c in NextOf(old(mem), {root} + old(tree).Keys) && c in PreOf(old(tree))
      ensures NextOf(mem, {root} + old(tree).Keys) == Sweep(NextOf(old(mem), {root} + old(tree).Keys), PreOf(old(tree)), Empties(old(tree)), old(order), |old(order)|)
      ensures var n := NextOf(mem, {root} + old(tree).Keys);
        root in n && (Walk(n, n[root], |chain| + 1) == Kept(chain, Empties(old(tree))) <==> BackToFront(chain, Empties(old(tree))))
    {
      hide Exact, InOrder, Sweep, Walk, Kept, BackToFront, NextOf, Unused, Dropped;
      SweepRight(NextOf(mem, {root} + tree.Keys), PreOf(tree), Empties(tree), root, chain, order);
      ghost var empty := Empties(tree);
      var removed := Unlink(chain);
      DroppedAre(order, empty);
      Discard(removed);
      assert (set c | c in removed) == empty;
      order := Kept(order, set c | c in removed);
    }
  }
}
