/**
 * The Huffman tree and its construction: one leaf per distinct character,
 * then repeated merging of the two lightest trees of a min-priority queue.
 */
module HuffmanTree {
  import opened Frequency

  /** Largest Java `int`. String lengths, and so every weight here, stay within it. */
  const MaxInt: int := 0x7fff_ffff

  /** A tree node: a leaf holds a character, an internal node holds both children. */
  datatype Tree =
    | Leaf(c: char, w: nat)
    | Node(left: Tree, right: Tree, w: nat)

  /** Java `int` arithmetic: the two's-complement wrap-around of an integer. */
  function Wrap32(x: int): int
  {
    var m := x % 0x1_0000_0000;
    if m <= MaxInt then m else m - 0x1_0000_0000
  }

  /** The queue's comparator: the 32-bit difference of the two weights. */
  function Compare(x: Tree, y: Tree): (r: int)
    ensures -MaxInt - 1 <= r <= MaxInt
    ensures x.w <= MaxInt && y.w <= MaxInt ==>
      && (r < 0 <==> x.w < y.w)
      && (r == 0 <==> x.w == y.w)
      && (r > 0 <==> x.w > y.w)
  {
    Wrap32(x.w - y.w)
  }

  /** The characters at the leaves, with their multiplicities. */
  function Bag(t: Tree): multiset<char>
  {
    match t
    case Leaf(c, _) => multiset{c}
    case Node(l, r, _) => Bag(l) + Bag(r)
  }

  /** A tree is a bare leaf exactly when it has one leaf; otherwise it has two or more. */
  lemma LeafIffOneLeaf(t: Tree)
    ensures t.Leaf? <==> |Bag(t)| == 1
  {
    if t.Node? {
      BagNonEmpty(t.left);
      BagNonEmpty(t.right);
    }
  }

  lemma BagNonEmpty(t: Tree)
    ensures |Bag(t)| >= 1
  {
  }

  /** Every internal node weighs the sum of its two children. */
  predicate Conserved(t: Tree)
  {
    match t
    case Leaf(_, _) => true
    case Node(l, r, w) => w == l.w + r.w && Conserved(l) && Conserved(r)
  }

  /** Every leaf carries a character of `hm` with that character's count as weight. */
  predicate LeafWeights(t: Tree, hm: Table)
  {
    match t
    case Leaf(c, w) => c in hm && w == hm[c]
    case Node(l, r, _) => LeafWeights(l, hm) && LeafWeights(r, hm)
  }

  /** The summed weight of the trees in a queue. */
  function ForestWeight(q: seq<Tree>): nat
  {
    if q == [] then 0 else q[0].w + ForestWeight(q[1..])
  }

  /** The leaf characters of all trees in a queue. */
  function ForestBag(q: seq<Tree>): multiset<char>
  {
    if q == [] then multiset{} else Bag(q[0]) + ForestBag(q[1..])
  }

  /** The queue without its element at `i`. */
  function Without(q: seq<Tree>, i: nat): (r: seq<Tree>)
    requires i < |q|
    ensures |r| == |q| - 1
  {
    if i == 0 then q[1..] else [q[0]] + Without(q[1..], i - 1)
  }

  /** The elements before `i` keep their place; those after it move down by one. */
  lemma {:induction false} WithoutIndex(q: seq<Tree>, i: nat, j: nat)
    requires i < |q| && j < |q| - 1
    ensures Without(q, i)[j] == q[if j < i then j else j + 1]
  {
    if i > 0 && j > 0 {
      WithoutIndex(q[1..], i - 1, j - 1);
    }
  }

  /** Taking out the element at `i` takes exactly that tree out of the queue. */
  lemma {:induction false} WithoutMultiset(q: seq<Tree>, i: nat)
    requires i < |q|
    ensures multiset(q) == multiset{q[i]} + multiset(Without(q, i))
  {
    assert q == [q[0]] + q[1..];
    if i > 0 {
      WithoutMultiset(q[1..], i - 1);
    }
  }

  /** Taking out the element at `i` takes its weight out of the queue's weight. */
  lemma {:induction false} WithoutWeight(q: seq<Tree>, i: nat)
    requires i < |q|
    ensures ForestWeight(q) == q[i].w + ForestWeight(Without(q, i))
  {
    if i > 0 {
      var w := Without(q[1..], i - 1);
      WithoutWeight(q[1..], i - 1);
      PushFront(q[0], w);
    }
  }

  /** Taking out the element at `i` takes its leaves out of the queue's leaves. */
  lemma {:induction false} WithoutBag(q: seq<Tree>, i: nat)
    requires i < |q|
    ensures ForestBag(q) == Bag(q[i]) + ForestBag(Without(q, i))
  {
    if i > 0 {
      var w := Without(q[1..], i - 1);
      var a, b, c := Bag(q[0]), Bag(q[i]), ForestBag(w);
      assert ForestBag(q[1..]) == b + c by {
        WithoutBag(q[1..], i - 1);
        assert q[1..][i - 1] == q[i];
      }
      assert ForestBag(Without(q, i)) == a + c by {
        PushFront(q[0], w);
      }
      Swap(a, b, c);
    }
  }

  /** No tree of a queue outweighs the whole queue. */
  lemma {:induction false} MemberWeight(q: seq<Tree>, i: int)
    requires 0 <= i < |q|
    ensures q[i].w <= ForestWeight(q)
  {
    if i > 0 {
      MemberWeight(q[1..], i - 1);
    }
  }

  lemma WeightsBounded(q: seq<Tree>)
    requires ForestWeight(q) <= MaxInt
    ensures forall i :: 0 <= i < |q| ==> q[i].w <= MaxInt
  {
    forall i | 0 <= i < |q|
      ensures q[i].w <= MaxInt
    {
      MemberWeight(q, i);
    }
  }

  /** `q[i]` is a head the queue may hand out: no element compares below it. */
  predicate IsMinAt(q: seq<Tree>, i: int)
  {
    0 <= i < |q| && forall j :: 0 <= j < |q| ==> Compare(q[i], q[j]) <= 0
  }

  /** A non-empty queue whose weights fit in an `int` has a minimum. */
  lemma {:induction false} MinExists(q: seq<Tree>)
    requires |q| > 0
    requires ForestWeight(q) <= MaxInt
    ensures exists i :: IsMinAt(q, i)
  {
    WeightsBounded(q);
    if |q| == 1 {
      assert IsMinAt(q, 0);
    } else {
      MinExists(q[1..]);
      var k :| IsMinAt(q[1..], k);
      var m := if q[0].w <= q[k + 1].w then 0 else k + 1;
      forall j | 0 <= j < |q|
        ensures Compare(q[m], q[j]) <= 0
      {
        if j > 0 {
          assert Compare(q[1..][k], q[1..][j - 1]) <= 0;
        }
      }
      assert IsMinAt(q, m);
    }
  }

  /**
   * Removes a head of the queue. Any element that the comparator ranks
   * lowest may come out: ties are broken arbitrarily.
   */
  method Poll(q: seq<Tree>) returns (t: Tree, rest: seq<Tree>)
    requires |q| > 0
    requires ForestWeight(q) <= MaxInt
    ensures |rest| == |q| - 1
    ensures t in q
    ensures multiset(q) == multiset{t} + multiset(rest)
    ensures forall j :: 0 <= j < |rest| ==> t.w <= rest[j].w
    ensures ForestWeight(q) == t.w + ForestWeight(rest)
    ensures ForestBag(q) == Bag(t) + ForestBag(rest)
  {
    MinExists(q);
    var i :| IsMinAt(q, i);
    t, rest := q[i], Without(q, i);
    WithoutMultiset(q, i);
    WithoutWeight(q, i);
    WithoutBag(q, i);
    MinBelowRest(q, i);
  }

  /** The minimum weighs no more than any tree left after it is taken out. */
  lemma MinBelowRest(q: seq<Tree>, i: nat)
    requires IsMinAt(q, i)
    requires ForestWeight(q) <= MaxInt
    ensures forall j :: 0 <= j < |Without(q, i)| ==> q[i].w <= Without(q, i)[j].w
  {
    WeightsBounded(q);
    forall j | 0 <= j < |Without(q, i)|
      ensures q[i].w <= Without(q, i)[j].w
    {
      WithoutIndex(q, i, j);
      assert Compare(q[i], q[if j < i then j else j + 1]) <= 0;
    }
  }

  /**
   * One round of the construction loop: polls the two lightest trees,
   * leaving `rest`, and enqueues their merge, whose weight is the sum of
   * theirs. Where in the sequence the merge goes does not matter: the
   * queue is only ever read through its minima.
   */
  method MergeStep(pq: seq<Tree>) returns (left: Tree, right: Tree, rest: seq<Tree>, next: seq<Tree>)
    requires |pq| > 1
    requires ForestWeight(pq) <= MaxInt
    ensures |next| == |pq| - 1
    ensures next == [Node(left, right, left.w + right.w)] + rest
    ensures multiset(pq) == multiset(rest) + multiset{left, right}
    ensures left.w <= right.w
    ensures forall j :: 0 <= j < |rest| ==> right.w <= rest[j].w
    ensures ForestWeight(next) == ForestWeight(pq)
    ensures ForestBag(next) == ForestBag(pq)
  {
    var rest1;
    left, rest1 := Poll(pq);
    right, rest := Poll(rest1);
    var parent := Node(left, right, left.w + right.w);
    next := [parent] + rest;
    TwoOut(multiset(pq), multiset(rest1), multiset(rest), left, right);
    PushFront(parent, rest);
    Regroup(ForestBag(pq), ForestBag(rest1), ForestBag(rest), Bag(left), Bag(right));
  }

  /** A tree put in front of a queue adds its weight and its leaves. */
  lemma PushFront(t: Tree, q: seq<Tree>)
    ensures ForestWeight([t] + q) == t.w + ForestWeight(q)
    ensures ForestBag([t] + q) == Bag(t) + ForestBag(q)
  {
    assert ([t] + q)[0] == t && ([t] + q)[1..] == q;
  }

  lemma TwoOut<T>(p: multiset<T>, q: multiset<T>, r: multiset<T>, a: T, b: T)
    requires p == multiset{a} + q && q == multiset{b} + r
    ensures p == r + multiset{a, b}
  {
  }

  lemma Swap<T>(a: multiset<T>, b: multiset<T>, c: multiset<T>)
    ensures a + (b + c) == b + (a + c)
  {
  }

  lemma Regroup<T>(p: multiset<T>, q: multiset<T>, r: multiset<T>, x: multiset<T>, y: multiset<T>)
    requires p == x + q && q == y + r
    ensures p == (x + y) + r
  {
  }

  /** Every tree of the queue conserves weight and carries table weights at its leaves. */
  predicate Shaped(pq: seq<Tree>, hm: Table)
  {
    forall t :: t in pq ==> Conserved(t) && LeafWeights(t, hm)
  }

  /**
   * Enqueues one leaf per table entry, in an arbitrary order: the order in
   * which a hash map hands out its entries is not specified.
   */
  method EnqueueLeaves(hm: Table) returns (pq: seq<Tree>)
    ensures forall t :: t in pq ==> t.Leaf? && t.c in hm && t.w == hm[t.c]
    ensures ForestWeight(pq) == Total(hm)
    ensures ForestBag(pq) == multiset(hm.Keys)
  {
    pq := [];
    var todo := hm;
    while todo.Keys != {}
      invariant forall k :: k in todo ==> k in hm && todo[k] == hm[k]
      invariant forall t :: t in pq ==> t.Leaf? && t.c in hm && t.w == hm[t.c]
      invariant ForestWeight(pq) + Total(todo) == Total(hm)
      invariant ForestBag(pq) + multiset(todo.Keys) == multiset(hm.Keys)
      decreases todo.Keys
    {
      var k :| k in todo.Keys;
      TotalRemove(todo, k);
      var leaf := Leaf(k, todo[k]);
      SetTakeOut(todo.Keys, k);
      assert (todo - {k}).Keys == todo.Keys - {k};
      PushFront(leaf, pq);
      pq := [leaf] + pq;
      todo := todo - {k};
    }
  }

  lemma SetTakeOut<T>(s: set<T>, x: T)
    requires x in s
    ensures multiset(s) == multiset(s - {x}) + multiset{x}
  {
    assert s == (s - {x}) + {x};
  }

  /** A merge step keeps every tree of the queue well shaped. */
  lemma MergeKeepsShape(pq: seq<Tree>, left: Tree, right: Tree, rest: seq<Tree>, hm: Table)
    requires Shaped(pq, hm)
    requires multiset(pq) == multiset(rest) + multiset{left, right}
    ensures Shaped([Node(left, right, left.w + right.w)] + rest, hm)
  {
    assert left in multiset(pq) && right in multiset(pq);
    var next := [Node(left, right, left.w + right.w)] + rest;
    forall u | u in next
      ensures Conserved(u) && LeafWeights(u, hm)
    {
      if u in rest {
        assert u in multiset(pq);
      }
    }
  }

  /**
   * Builds the tree: one leaf per table entry, then merges the two lightest
   * trees until a single tree, the root, is left.
   */
  method BuildTree(hm: Table) returns (root: Tree)
    requires |hm| > 0
    requires Total(hm) <= MaxInt
    ensures Conserved(root)
    ensures root.w == Total(hm)
    ensures Bag(root) == multiset(hm.Keys)
    ensures LeafWeights(root, hm)
    ensures root.Leaf? <==> |hm| == 1
  {
    var pq := EnqueueLeaves(hm);
    while |pq| > 1
      invariant |pq| >= 1
      invariant ForestWeight(pq) == Total(hm)
      invariant ForestBag(pq) == multiset(hm.Keys)
      invariant Shaped(pq, hm)
      decreases |pq|
    {
      var left, right, rest, next := MergeStep(pq);
      MergeKeepsShape(pq, left, right, rest, hm);
      pq := next;
    }
    root := pq[0];
    assert root in pq;
    assert pq[1..] == [];
    LeafIffOneLeaf(root);
    assert |Bag(root)| == |multiset(hm.Keys)| == |hm.Keys|;
  }
}
