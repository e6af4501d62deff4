/** The order-statistic treap that holds the scheduler's ready queue
    (threads/treap.h). A node is identified with its key: the comparison
    function the treap is given is a strict total order on the nodes it
    holds (thread.h breaks priority ties with a FIFO counter), and any such
    order on a finite set of nodes is an order on ints. The node's rank is
    the value treap_rand generated for it and is an input here. */
module Treap {
  import opened Wrappers

  datatype Tree = Nil | Node(left: Tree, key: int, rank: int, size: int, right: Tree)

  /** The nodes of t in symmetric order. */
  function InOrder(t: Tree): seq<int>
  {
    match t
    case Nil => []
    case Node(l, k, _, _, r) => InOrder(l) + [k] + InOrder(r)
  }

  /** The `p->child[i] ? p->child[i]->size : 0` idiom. */
  function SizeOf(t: Tree): int
  {
    if t.Nil? then 0 else t.size
  }

  predicate Sorted(s: seq<int>)
  {
    forall i, j :: 0 <= i < j < |s| ==> s[i] < s[j]
  }

  /** Every stored size is 1 + the sizes of the children. */
  predicate SizesOk(t: Tree)
  {
    t.Nil? || (SizesOk(t.left) && SizesOk(t.right) && t.size == 1 + SizeOf(t.left) + SizeOf(t.right))
  }

  predicate RanksAtLeast(t: Tree, m: int)
  {
    t.Nil? || (t.rank >= m && RanksAtLeast(t.left, m) && RanksAtLeast(t.right, m))
  }

  /** Heap order on ranks: no node has a smaller rank than its parent. */
  predicate HeapOk(t: Tree)
  {
    t.Nil? || (HeapOk(t.left) && HeapOk(t.right) && RanksAtLeast(t.left, t.rank) && RanksAtLeast(t.right, t.rank))
  }

  predicate IsTreap(t: Tree)
  {
    Sorted(InOrder(t)) && SizesOk(t) && HeapOk(t)
  }

  function Clamp(k: int, n: nat): (c: nat)
  {
    if k <= 0 then 0 else if k >= n then n else k
  }

  /** The number of elements of s below x (at most x when inclusive). */
  function CountBelow(s: seq<int>, x: int, inclusive: bool): (n: nat)
    ensures n <= |s|
  {
    if s == [] then 0
    else (if s[0] < x || (inclusive && s[0] == x) then 1 else 0) + CountBelow(s[1..], x, inclusive)
  }

  /** Reference definition of inserting into a sorted sequence, before any
      equal element. */
  function InsertSorted(s: seq<int>, x: int): seq<int>
  {
    if s == [] then [x] else if x <= s[0] then [x] + s else [s[0]] + InsertSorted(s[1..], x)
  }

  /** Reference definition of removing every occurrence of x. */
  function Without(s: seq<int>, x: int): seq<int>
  {
    if s == [] then [] else (if s[0] == x then [] else [s[0]]) + Without(s[1..], x)
  }

  // ---------------------------------------------------------------------
  // Facts about sequences

  lemma {:induction false} SizeIsCount(t: Tree)
    ensures SizesOk(t) ==> SizeOf(t) == |InOrder(t)|
  {
    if t.Node? {
      SizeIsCount(t.left);
      SizeIsCount(t.right);
    }
  }

  lemma SortedParts(a: seq<int>, k: int, b: seq<int>)
    requires Sorted(a + [k] + b)
    ensures Sorted(a) && Sorted(b)
    ensures forall y :: y in a ==> y < k
    ensures forall y :: y in b ==> k < y
  {
    var s := a + [k] + b;
    assert forall i :: 0 <= i < |a| ==> s[i] == a[i];
    assert forall i :: 0 <= i < |b| ==> s[|a| + 1 + i] == b[i];
    assert s[|a|] == k;
  }

  lemma {:induction false} CountBelowConcat(a: seq<int>, b: seq<int>, x: int, inclusive: bool)
    ensures CountBelow(a + b, x, inclusive) == CountBelow(a, x, inclusive) + CountBelow(b, x, inclusive)
  {
    if a == [] {
      assert a + b == b;
    } else {
      var ab := a + b;
      assert ab[0] == a[0];
      assert ab[1..] == a[1..] + b;
      CountBelowConcat(a[1..], b, x, inclusive);
    }
  }

  lemma {:induction false} CountBelowAll(a: seq<int>, x: int, inclusive: bool)
    requires forall y :: y in a ==> y < x
    ensures CountBelow(a, x, inclusive) == |a|
  {
    if a != [] {
      assert a[0] in a;
      assert forall y :: y in a[1..] ==> y in a;
      CountBelowAll(a[1..], x, inclusive);
    }
  }

  lemma {:induction false} CountBelowNone(a: seq<int>, x: int, inclusive: bool)
    requires forall y :: y in a ==> x < y || (!inclusive && x == y)
    ensures CountBelow(a, x, inclusive) == 0
  {
    if a != [] {
      assert a[0] in a;
      assert forall y :: y in a[1..] ==> y in a;
      CountBelowNone(a[1..], x, inclusive);
    }
  }

  /** In a sorted sequence the counted elements are exactly a prefix. */
  lemma {:induction false} CountBelowPrefix(s: seq<int>, x: int, inclusive: bool)
    requires Sorted(s)
    ensures var k := CountBelow(s, x, inclusive);
      (forall i :: 0 <= i < k ==> s[i] < x || (inclusive && s[i] == x)) &&
      (forall i :: k <= i < |s| ==> x < s[i] || (!inclusive && s[i] == x))
  {
    if s != [] {
      CountBelowPrefix(s[1..], x, inclusive);
      if |s| > 1 {
        assert s[1..][0] == s[1] && s[0] < s[1];
      }
    }
  }

  /** Together, the two directions: x occurs iff it sits where CountBelow
      points. */
  lemma MemberAtLowerRank(s: seq<int>, x: int)
    requires Sorted(s)
    ensures var k := CountBelow(s, x, false); x in s <==> (k < |s| && s[k] == x)
  {
    CountBelowPrefix(s, x, false);
  }

  lemma {:induction false} InsertSortedAt(s: seq<int>, x: int)
    requires Sorted(s)
    ensures var k := CountBelow(s, x, false); InsertSorted(s, x) == s[..k] + ([x] + s[k..])
  {
    if s != [] {
      CountBelowPrefix(s, x, false);
      var k := CountBelow(s, x, false);
      if x <= s[0] {
        assert k == 0;
      } else {
        assert Sorted(s[1..]);
        InsertSortedAt(s[1..], x);
        assert k == 1 + CountBelow(s[1..], x, false);
        assert s[1..][..k - 1] == s[1..k];
        assert s[1..][k - 1..] == s[k..];
        assert InsertSorted(s, x) == [s[0]] + (s[1..k] + ([x] + s[k..]));
        assert s[..k] == [s[0]] + s[1..k];
      }
    }
  }

  lemma InsertSortedSorted(s: seq<int>, x: int)
    requires Sorted(s) && x !in s
    ensures var k := CountBelow(s, x, false); Sorted(s[..k] + ([x] + s[k..]))
  {
    CountBelowPrefix(s, x, false);
    var k := CountBelow(s, x, false);
    var r := s[..k] + ([x] + s[k..]);
    assert |r| == |s| + 1 && r[k] == x;
    assert forall i :: 0 <= i < k ==> r[i] == s[i];
    assert forall i :: k < i < |r| ==> r[i] == s[i - 1];
    forall i, j | 0 <= i < j < |r|
      ensures r[i] < r[j]
    {
      if j < k {
        assert r[i] == s[i] && r[j] == s[j];
      } else if j == k {
        assert r[i] == s[i];
      } else if i == k {
        assert r[j] == s[j - 1] && s[j - 1] != x;
      } else if i < k {
        assert r[i] == s[i] && r[j] == s[j - 1];
      } else {
        assert r[i] == s[i - 1] && r[j] == s[j - 1];
      }
    }
  }

  lemma {:induction false} WithoutAbsent(s: seq<int>, x: int)
    requires x !in s
    ensures Without(s, x) == s
  {
    if s != [] {
      assert forall y :: y in s[1..] ==> y in s;
      WithoutAbsent(s[1..], x);
    }
  }

  lemma {:induction false} WithoutAt(s: seq<int>, k: nat, x: int)
    requires Sorted(s) && k < |s| && s[k] == x
    ensures Without(s, x) == s[..k] + s[k + 1..]
  {
    if k == 0 {
      assert forall i :: 1 <= i < |s| ==> s[i] != x;
      assert x !in s[1..];
      WithoutAbsent(s[1..], x);
    } else {
      assert Sorted(s[1..]);
      WithoutAt(s[1..], k - 1, x);
      assert s[1..][..k - 1] == s[1..k];
      assert s[1..][k..] == s[k + 1..];
      assert s[..k] == [s[0]] + s[1..k];
    }
  }

  lemma SortedWithout(s: seq<int>, k: nat)
    requires Sorted(s) && k < |s|
    ensures Sorted(s[..k] + s[k + 1..])
  {
    var r := s[..k] + s[k + 1..];
    assert forall i :: 0 <= i < k ==> r[i] == s[i];
    assert forall i :: k <= i < |r| ==> r[i] == s[i + 1];
  }

  // ---------------------------------------------------------------------
  // treap_node_maintain, treap_node_merge, treap_node_split

  /** treap_node_maintain: recompute the node's size from its children. */
  function Maintain(t: Tree): (m: Tree)
    requires t.Node?
    ensures m.Node? && InOrder(m) == InOrder(t)
    ensures SizesOk(t.left) && SizesOk(t.right) ==> SizesOk(m) && m.size == |InOrder(m)|
  {
    var m := Node(t.left, t.key, t.rank, 1 + SizeOf(t.left) + SizeOf(t.right), t.right);
    SizeIsCount(m);
    m
  }

  /** treap_node_merge: the lower rank becomes the root (v on a tie). */
  function Merge(u: Tree, v: Tree): (w: Tree)
    decreases u, v
    ensures InOrder(w) == InOrder(u) + InOrder(v)
    ensures SizesOk(u) && SizesOk(v) ==> SizesOk(w)
  {
    if u.Nil? then v
    else if v.Nil? then u
    else if u.rank < v.rank then
      Maintain(Node(u.left, u.key, u.rank, u.size, Merge(u.right, v)))
    else
      Maintain(Node(Merge(u, v.left), v.key, v.rank, v.size, v.right))
  }

  /** treap_node_split: the first k nodes in order go left, the rest right. */
  function Split(p: Tree, k: int): (lr: (Tree, Tree))
    ensures InOrder(lr.0) + InOrder(lr.1) == InOrder(p)
    ensures SizesOk(p) ==> SizesOk(lr.0) && SizesOk(lr.1) && |InOrder(lr.0)| == Clamp(k, |InOrder(p)|)
  {
    match p
    case Nil => (Nil, Nil)
    case Node(l, key, rk, sz, r) =>
      var ls := SizeOf(l);
      if k <= ls then
        var (a, b) := Split(l, k);
        SizeIsCount(l);
        (a, Maintain(Node(b, key, rk, sz, r)))
      else
        var (a, b) := Split(r, k - ls - 1);
        SizeIsCount(l);
        (Maintain(Node(l, key, rk, sz, a)), b)
  }

  /** Split described on the in-order sequence. */
  lemma SplitTakesPrefix(p: Tree, k: int)
    requires SizesOk(p)
    ensures var c := Clamp(k, |InOrder(p)|);
      InOrder(Split(p, k).0) == InOrder(p)[..c] && InOrder(Split(p, k).1) == InOrder(p)[c..]
  {
    var (a, b) := Split(p, k);
    var s := InOrder(p);
    assert s == InOrder(a) + InOrder(b);
    assert s[..|InOrder(a)|] == InOrder(a);
  }

  lemma {:induction false} RanksAtLeastWeaken(t: Tree, m: int, m': int)
    requires RanksAtLeast(t, m) && m' <= m
    ensures RanksAtLeast(t, m')
  {
    if t.Node? {
      RanksAtLeastWeaken(t.left, m, m');
      RanksAtLeastWeaken(t.right, m, m');
    }
  }

  /** Merge keeps the rank bounds of its operands. */
  lemma {:induction false} MergeRanks(u: Tree, v: Tree, m: int)
    requires RanksAtLeast(u, m) && RanksAtLeast(v, m)
    ensures RanksAtLeast(Merge(u, v), m)
    decreases u, v
  {
    if u.Node? && v.Node? {
      if u.rank < v.rank {
        MergeRanks(u.right, v, m);
      } else {
        MergeRanks(u, v.left, m);
      }
    }
  }

  /** Merge of two heaps is a heap, rooted at the smaller of the two roots'
      ranks (v's on a tie). */
  lemma {:induction false} MergeHeap(u: Tree, v: Tree)
    requires HeapOk(u) && HeapOk(v)
    ensures HeapOk(Merge(u, v))
    ensures u.Node? && v.Node? ==> Merge(u, v).rank == (if u.rank < v.rank then u.rank else v.rank)
    decreases u, v
  {
    if u.Node? && v.Node? {
      if u.rank < v.rank {
        MergeHeap(u.right, v);
        RanksAtLeastWeaken(v, v.rank, u.rank);
        assert RanksAtLeast(v.left, v.rank) && RanksAtLeast(v.right, v.rank);
        RanksAtLeastWeaken(v.left, v.rank, u.rank);
        RanksAtLeastWeaken(v.right, v.rank, u.rank);
        MergeRanks(u.right, v, u.rank);
      } else {
        MergeHeap(u, v.left);
        assert RanksAtLeast(u.left, u.rank) && RanksAtLeast(u.right, u.rank);
        RanksAtLeastWeaken(u.left, u.rank, v.rank);
        RanksAtLeastWeaken(u.right, u.rank, v.rank);
        MergeRanks(u, v.left, v.rank);
      }
    }
  }

  lemma {:induction false} SplitRanks(p: Tree, k: int, m: int)
    requires RanksAtLeast(p, m)
    ensures RanksAtLeast(Split(p, k).0, m) && RanksAtLeast(Split(p, k).1, m)
  {
    if p.Node? {
      var ls := SizeOf(p.left);
      if k <= ls {
        SplitRanks(p.left, k, m);
      } else {
        SplitRanks(p.right, k - ls - 1, m);
      }
    }
  }

  /** Both halves of a split heap are heaps. */
  lemma {:induction false} SplitHeap(p: Tree, k: int)
    requires HeapOk(p)
    ensures HeapOk(Split(p, k).0) && HeapOk(Split(p, k).1)
  {
    if p.Node? {
      var ls := SizeOf(p.left);
      if k <= ls {
        SplitHeap(p.left, k);
        SplitRanks(p.left, k, p.rank);
      } else {
        SplitHeap(p.right, k - ls - 1);
        SplitRanks(p.right, k - ls - 1, p.rank);
      }
    }
  }

  lemma NodeFacts(p: Tree)
    requires p.Node? && Sorted(InOrder(p)) && SizesOk(p)
    ensures Sorted(InOrder(p.left)) && Sorted(InOrder(p.right))
    ensures forall y :: y in InOrder(p.left) ==> y < p.key
    ensures forall y :: y in InOrder(p.right) ==> p.key < y
    ensures SizeOf(p.left) == |InOrder(p.left)| && SizeOf(p.right) == |InOrder(p.right)|
  {
    SortedParts(InOrder(p.left), p.key, InOrder(p.right));
    SizeIsCount(p.left);
    SizeIsCount(p.right);
  }

  /** How CountBelow splits at a node of a search tree. */
  lemma CountAtNode(p: Tree, x: int, inclusive: bool)
    requires p.Node? && Sorted(InOrder(p)) && SizesOk(p)
    ensures var goRight := p.key < x || (inclusive && p.key == x);
      CountBelow(InOrder(p), x, inclusive) ==
        if goRight then SizeOf(p.left) + 1 + CountBelow(InOrder(p.right), x, inclusive)
        else CountBelow(InOrder(p.left), x, inclusive)
  {
    NodeFacts(p);
    var l, r := InOrder(p.left), InOrder(p.right);
    CountBelowConcat(l + [p.key], r, x, inclusive);
    CountBelowConcat(l, [p.key], x, inclusive);
    assert CountBelow([p.key], x, inclusive) == if p.key < x || (inclusive && p.key == x) then 1 else 0;
    if p.key < x || (inclusive && p.key == x) {
      CountBelowAll(l, x, inclusive);
    } else {
      CountBelowNone(r, x, inclusive);
    }
  }

  // ---------------------------------------------------------------------
  // treap_lower_rank, treap_upper_rank, treap_select

  /** treap_lower_rank: the number of nodes ordered before x (when
      !inclusive), or the number not ordered after x (treap_upper_rank,
      when inclusive). */
  method Rank(t: Tree, x: int, inclusive: bool) returns (ret: int)
    requires Sorted(InOrder(t)) && SizesOk(t)
    ensures ret == CountBelow(InOrder(t), x, inclusive)
  {
    ret := 0;
    var p := t;
    while p.Node?
      invariant Sorted(InOrder(p)) && SizesOk(p)
      invariant ret + CountBelow(InOrder(p), x, inclusive) == CountBelow(InOrder(t), x, inclusive)
      decreases p
    {
      var leftSize := SizeOf(p.left);
      CountAtNode(p, x, inclusive);
      NodeFacts(p);
      var goLeft := if inclusive then x < p.key else !(p.key < x);
      if goLeft {
        p := p.left;
      } else {
        ret := ret + leftSize + 1;
        p := p.right;
      }
    }
  }

  method LowerRank(t: Tree, x: int) returns (ret: int)
    requires Sorted(InOrder(t)) && SizesOk(t)
    ensures ret == CountBelow(InOrder(t), x, false)
  {
    ret := Rank(t, x, false);
  }

  method UpperRank(t: Tree, x: int) returns (ret: int)
    requires Sorted(InOrder(t)) && SizesOk(t)
    ensures ret == CountBelow(InOrder(t), x, true)
  {
    ret := Rank(t, x, true);
  }

  /** treap_select: the k-th smallest node (1-based), or NULL when there is
      none. */
  method Select(t: Tree, k: int) returns (o: Option<int>)
    requires SizesOk(t)
    ensures 1 <= k <= |InOrder(t)| ==> o == Some(InOrder(t)[k - 1])
    ensures !(1 <= k <= |InOrder(t)|) ==> o == None
  {
    if k <= 0 {
      return None;
    }
    var p := t;
    var j := k;
    while p.Node?
      invariant SizesOk(p) && j >= 1
      invariant (1 <= k <= |InOrder(t)|) == (j <= |InOrder(p)|)
      invariant j <= |InOrder(p)| ==> InOrder(p)[j - 1] == InOrder(t)[k - 1]
      decreases p
    {
      var leftSize := SizeOf(p.left);
      SizeIsCount(p.left);
      SizeIsCount(p.right);
      if leftSize + 1 == j {
        break;
      }
      if j <= leftSize {
        p := p.left;
      } else {
        j := j - leftSize - 1;
        p := p.right;
      }
    }
    o := if p.Node? then Some(p.key) else None;
  }

  /** treap_find: select (lower_rank (node) + 1) == node. */
  method Find(t: Tree, x: int) returns (found: bool)
    requires Sorted(InOrder(t)) && SizesOk(t)
    ensures found <==> x in InOrder(t)
  {
    var k := LowerRank(t, x);
    var o := Select(t, k + 1);
    MemberAtLowerRank(InOrder(t), x);
    found := o == Some(x);
  }

  /** treap_foreach: the actions applied, one per node, in order. */
  function Foreach<A>(t: Tree, f: int -> A): (acts: seq<A>)
    ensures |acts| == |InOrder(t)|
    ensures forall i :: 0 <= i < |acts| ==> acts[i] == f(InOrder(t)[i])
  {
    match t
    case Nil => []
    case Node(l, k, _, _, r) => Foreach(l, f) + [f(k)] + Foreach(r, f)
  }

  /** The body of treap_insert once the rank k is known: split at k and
      merge the new single node in between. */
  function InsertAt(t: Tree, k: int, x: int, rank: int): Tree
  {
    var lr := Split(t, k);
    Merge(lr.0, Merge(Node(Nil, x, rank, 1, Nil), lr.1))
  }

  /** The body of treap_erase once the rank k is known: cut out the one
      node after the first k. */
  function EraseAt(t: Tree, k: int): Tree
  {
    var lr := Split(t, k);
    Merge(lr.0, Split(lr.1, 1).1)
  }

  lemma InsertAtShape(t: Tree, k: int, x: int, rank: int)
    requires SizesOk(t) && HeapOk(t)
    ensures SizesOk(InsertAt(t, k, x, rank)) && HeapOk(InsertAt(t, k, x, rank))
  {
    var lr := Split(t, k);
    SplitHeap(t, k);
    var single := Node(Nil, x, rank, 1, Nil);
    assert HeapOk(single) && SizesOk(single) by {
      assert RanksAtLeast(Nil, rank) && HeapOk(Nil) && SizesOk(Nil);
    }
    MergeHeap(single, lr.1);
    MergeHeap(lr.0, Merge(single, lr.1));
  }

  lemma InsertAtOrder(t: Tree, k: int, x: int, rank: int)
    requires SizesOk(t)
    ensures var s, c := InOrder(t), Clamp(k, |InOrder(t)|);
      InOrder(InsertAt(t, k, x, rank)) == s[..c] + ([x] + s[c..])
  {
    var s, c := InOrder(t), Clamp(k, |InOrder(t)|);
    var lr := Split(t, k);
    SplitTakesPrefix(t, k);
    var single := Node(Nil, x, rank, 1, Nil);
    assert InOrder(single) == [x];
    var m := Merge(single, lr.1);
    assert InOrder(m) == [x] + s[c..];
    var w := Merge(lr.0, m);
    assert InOrder(w) == s[..c] + ([x] + s[c..]);
    assert InsertAt(t, k, x, rank) == w;
  }

  /** Inserting an absent x at its lower rank keeps the treap invariants and
      puts x at its sorted place. */
  lemma InsertAtLowerRank(t: Tree, x: int, rank: int)
    requires IsTreap(t) && x !in InOrder(t)
    ensures var w := InsertAt(t, CountBelow(InOrder(t), x, false), x, rank);
      IsTreap(w) && InOrder(w) == InsertSorted(InOrder(t), x)
  {
    var s := InOrder(t);
    var k := CountBelow(s, x, false);
    InsertAtShape(t, k, x, rank);
    InsertAtOrder(t, k, x, rank);
    InsertSortedSorted(s, x);
    InsertSortedAt(s, x);
  }

  lemma EraseAtShape(t: Tree, k: int)
    requires SizesOk(t) && HeapOk(t) && 0 <= k < |InOrder(t)|
    ensures SizesOk(EraseAt(t, k)) && HeapOk(EraseAt(t, k))
    ensures var s := InOrder(t); InOrder(EraseAt(t, k)) == s[..k] + s[k + 1..]
  {
    var s := InOrder(t);
    var lr := Split(t, k);
    SplitTakesPrefix(t, k);
    SplitHeap(t, k);
    var rest := Split(lr.1, 1).1;
    SplitTakesPrefix(lr.1, 1);
    SplitHeap(lr.1, 1);
    assert s[k..][1..] == s[k + 1..];
    MergeHeap(lr.0, rest);
  }

  /** Erasing a present x at its lower rank keeps the treap invariants and
      removes exactly x. */
  lemma EraseAtLowerRank(t: Tree, x: int)
    requires IsTreap(t) && x in InOrder(t)
    ensures var w := EraseAt(t, CountBelow(InOrder(t), x, false));
      IsTreap(w) && InOrder(w) == Without(InOrder(t), x)
  {
    var s := InOrder(t);
    var k := CountBelow(s, x, false);
    MemberAtLowerRank(s, x);
    EraseAtShape(t, k);
    SortedWithout(s, k);
    WithoutAt(s, k, x);
  }

  /** A treap: its root pointer is the only state. */
  class Treap {
    var root: Tree

    ghost predicate Valid()
      reads this
    {
      IsTreap(root)
    }

    function Contents(): seq<int>
      reads this
    {
      InOrder(root)
    }

    /** treap_init */
    constructor ()
      ensures Valid() && Contents() == []
    {
      root := Nil;
    }

    /** treap_size */
    method Size() returns (n: int)
      requires Valid()
      ensures n == |Contents()|
    {
      SizeIsCount(root);
      n := SizeOf(root);
    }

    /** treap_insert, with the new node's rank as input. A node already
        present leaves the treap unchanged. */
    method Insert(x: int, rank: int) returns (inserted: bool)
      requires Valid()
      modifies this
      ensures Valid()
      ensures inserted <==> x !in old(Contents())
      ensures Contents() == if inserted then InsertSorted(old(Contents()), x) else old(Contents())
    {
      var found := Find(root, x);
      if found {
        return false;
      }
      var k := LowerRank(root, x);
      InsertAtLowerRank(root, x, rank);
      root := InsertAt(root, k, x, rank);
      inserted := true;
    }

    /** treap_erase. A node that is absent leaves the treap unchanged. */
    method Erase(x: int) returns (erased: bool)
      requires Valid()
      modifies this
      ensures Valid()
      ensures erased <==> x in old(Contents())
      ensures Contents() == Without(old(Contents()), x)
    {
      var found := Find(root, x);
      if !found {
        WithoutAbsent(InOrder(root), x);
        return false;
      }
      var k := LowerRank(root, x);
      EraseAtLowerRank(root, x);
      root := EraseAt(root, k);
      erased := true;
    }

    /** treap_front: the first node, NULL when empty. */
    method Front() returns (o: Option<int>)
      requires Valid()
      ensures o == if Contents() == [] then None else Some(Contents()[0])
    {
      o := Select(root, 1);
    }

    /** treap_pop_front: remove and return the first node; NULL and no
        change when empty. */
    method PopFront() returns (o: Option<int>)
      requires Valid()
      modifies this
      ensures Valid()
      ensures old(Contents()) == [] ==> o == None && Contents() == []
      ensures old(Contents()) != [] ==> o == Some(old(Contents())[0]) && Contents() == old(Contents())[1..]
    {
      o := Front();
      if o.Some? {
        ghost var s := Contents();
        var _ := Erase(o.value);
        WithoutAt(s, 0, s[0]);
      }
    }

    /** treap_node_update: erase the node, let the action change its key,
        and insert it again with a fresh rank. With nodes identified by
        keys, the new key must not be another node's. */
    method NodeUpdate(x: int, newKey: int, newRank: int) returns (updated: bool)
      requires Valid()
      requires newKey == x || newKey !in Contents()
      modifies this
      ensures Valid()
      ensures updated <==> x in old(Contents())
      ensures Contents() == if updated then InsertSorted(Without(old(Contents()), x), newKey) else old(Contents())
      ensures |Contents()| == |old(Contents())|
    {
      var found := Find(root, x);
      if !found {
        return false;
      }
      ghost var s := Contents();
      var _ := Erase(x);
      ghost var k := CountBelow(s, x, false);
      MemberAtLowerRank(s, x);
      WithoutAt(s, k, x);
      assert newKey !in Contents() by {
        assert forall y :: y in s[..k] + s[k + 1..] ==> y in s && y != x by {
          forall y | y in s[..k] + s[k + 1..] ensures y in s && y != x {
            var i :| 0 <= i < |s[..k] + s[k + 1..]| && (s[..k] + s[k + 1..])[i] == y;
            if i < k { assert y == s[i]; } else { assert y == s[i + 1]; }
          }
        }
      }
      var _ := Insert(newKey, newRank);
      CountBelowPrefix(Without(s, x), newKey, false);
      InsertSortedAt(Without(s, x), newKey);
      updated := true;
    }
  }
}
