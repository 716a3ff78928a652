/**
  Values and index arithmetic of the prefetching proposal tree: the node
  record, the node-count guard of the constructor (with std::size_t
  wrap-around), the complete-binary-tree parent law, the law by which the
  constructor fills every node, an independent recursive definition of each
  node's value, and what evaluating the tree does to its nodes.
*/
module TreeSpec {

  /** One more than the largest std::size_t on a 64-bit target. */
  const SizeTModulus: int := 0x1_0000_0000_0000_0000

  /** The values a std::size_t can hold. */
  type SizeT = n: int | 0 <= n < SizeTModulus

  /** Unsigned subtraction `a - b` on std::size_t: wraps modulo 2^64. */
  function SizeSub(a: SizeT, b: SizeT): (r: SizeT)
    ensures a >= b ==> r == a - b
    ensures a < b ==> r == a - b + SizeTModulus
  {
    (a - b) % SizeTModulus
  }

  /** The constructor's guard `(n_procs - 1) % 2 != 0`: when it holds, the
      constructor throws std::invalid_argument. */
  predicate RejectsNodeCount(n: SizeT)
  {
    SizeSub(n, 1) % 2 != 0
  }

  /** The guard rejects exactly the even counts; 0 is among them because
      `0 - 1` wraps to 2^64 - 1, which is odd. */
  lemma RejectsExactlyEven(n: SizeT)
    ensures RejectsNodeCount(n) <==> n % 2 == 0
    ensures RejectsNodeCount(0)
    ensures !RejectsNodeCount(n) ==> n >= 1
  {
  }

  /** One position of the tree: the chain state it assumes already accepted,
      that state plus one jump offset, and the log density of the proposal
      (meaningful only once the tree has been evaluated). */
  datatype Node = Node(x: real, proposal: real, proposalDensity: real)

  /** Index `i >= 1` is a right child (the "accepted" branch) when even. */
  predicate IsRightChild(i: nat)
  {
    i % 2 == 0
  }

  /** Parent index of a non-root node: `(i - 2) / 2` for a right child,
      `(i - 1) / 2` for a left child. */
  function Parent(i: nat): (p: nat)
    requires i >= 1
    ensures p < i
    ensures IsRightChild(i) ==> i == 2 * p + 2
    ensures !IsRightChild(i) ==> i == 2 * p + 1
  {
    if IsRightChild(i) then (i - 2) / 2 else (i - 1) / 2
  }

  /** The value a non-root node inherits: its parent's proposal for a right
      child, its parent's current value for a left child. */
  function Inherited(thetas: seq<real>, proposals: seq<real>, i: nat): (v: real)
    requires 1 <= i < |thetas| == |proposals|
  {
    if IsRightChild(i) then proposals[Parent(i)] else thetas[Parent(i)]
  }

  /** The law the constructor fills the tree by, for root value `xT` and the
      jump offsets `jump(0), jump(1), ...` drawn in index order. */
  ghost predicate TreeLaw(xT: real, jump: nat -> real, thetas: seq<real>, proposals: seq<real>)
  {
    && |thetas| == |proposals| > 0
    && thetas[0] == xT
    && (forall i :: 0 <= i < |proposals| ==> proposals[i] == thetas[i] + jump(i))
    && (forall i {:trigger Inherited(thetas, proposals, i)} :: 1 <= i < |thetas| ==> thetas[i] == Inherited(thetas, proposals, i))
  }

  /** Appending the next node, filled by the inheritance rule and given the
      next offset, keeps the tree law. */
  lemma TreeLawExtend(xT: real, jump: nat -> real, thetas: seq<real>, proposals: seq<real>, current: real)
    requires TreeLaw(xT, jump, thetas, proposals)
    requires current == (if IsRightChild(|thetas|) then proposals[Parent(|thetas|)] else thetas[Parent(|thetas|)])
    ensures TreeLaw(xT, jump, thetas + [current], proposals + [current + jump(|thetas|)])
  {
    var thetas', proposals' := thetas + [current], proposals + [current + jump(|thetas|)];
    forall j | 1 <= j < |thetas'|
      ensures thetas'[j] == Inherited(thetas', proposals', j)
    {
      if j < |thetas| {
        assert thetas'[j] == thetas[j] == Inherited(thetas, proposals, j);
      }
    }
  }

  /** Reference definition of a node's current value: the chain state reached
      from `xT` by following the accept/reject decisions on the path from the
      root down to node `i`. */
  function ThetaAt(xT: real, jump: nat -> real, i: nat): (v: real)
    decreases i
  {
    if i == 0 then xT
    else if IsRightChild(i) then ThetaAt(xT, jump, Parent(i)) + jump(Parent(i))
    else ThetaAt(xT, jump, Parent(i))
  }

  /** Any pair of sequences that obeys the tree law holds, at every index,
      exactly the reference value and the reference value plus its offset. */
  lemma {:induction false} TreeLawIsThetaAt(xT: real, jump: nat -> real, thetas: seq<real>, proposals: seq<real>, i: nat)
    requires TreeLaw(xT, jump, thetas, proposals)
    requires i < |thetas|
    ensures thetas[i] == ThetaAt(xT, jump, i)
    ensures proposals[i] == ThetaAt(xT, jump, i) + jump(i)
    decreases i
  {
    if i > 0 {
      assert thetas[i] == Inherited(thetas, proposals, i);
      TreeLawIsThetaAt(xT, jump, thetas, proposals, Parent(i));
    }
  }

  /** Conversely, the table of reference values obeys the tree law, so the law
      determines the tree of every size uniquely. */
  lemma ThetaTableObeysTreeLaw(xT: real, jump: nat -> real, n: nat)
    requires n > 0
    ensures TreeLaw(xT, jump,
                    seq(n, i requires 0 <= i => ThetaAt(xT, jump, i)),
                    seq(n, i requires 0 <= i => ThetaAt(xT, jump, i) + jump(i)))
  {
  }

  /** The three-node tree: the left child stays at `xT`, the right child starts
      from the root's proposal. */
  lemma ThreeNodeTree(xT: real, jump: nat -> real, thetas: seq<real>, proposals: seq<real>)
    requires TreeLaw(xT, jump, thetas, proposals)
    requires |thetas| == 3
    ensures thetas == [xT, xT, xT + jump(0)]
    ensures proposals == [xT + jump(0), xT + jump(1), xT + jump(0) + jump(2)]
  {
    assert Parent(1) == 0 && Parent(2) == 0;
    assert thetas[1] == Inherited(thetas, proposals, 1);
    assert thetas[2] == Inherited(thetas, proposals, 2);
  }

  /** The current values of the nodes, in index order. */
  function Thetas(nodes: seq<Node>): (s: seq<real>)
  {
    seq(|nodes|, i requires 0 <= i < |nodes| => nodes[i].x)
  }

  /** The proposals of the nodes, in index order. */
  function Proposals(nodes: seq<Node>): (s: seq<real>)
  {
    seq(|nodes|, i requires 0 <= i < |nodes| => nodes[i].proposal)
  }

  /** Every node carries the target's log density of its own proposal. */
  ghost predicate DensitiesMatch(target: real -> real, nodes: seq<Node>)
  {
    forall i :: 0 <= i < |nodes| ==> nodes[i].proposalDensity == target(nodes[i].proposal)
  }

  /** The nodes after evaluation: each node's density is replaced by the target
      at its proposal; each iteration touches only its own node. */
  function EvaluateAll(target: real -> real, nodes: seq<Node>): (r: seq<Node>)
    ensures |r| == |nodes|
    ensures Thetas(r) == Thetas(nodes) && Proposals(r) == Proposals(nodes)
    ensures DensitiesMatch(target, r)
  {
    seq(|nodes|, i requires 0 <= i < |nodes| => nodes[i].(proposalDensity := target(nodes[i].proposal)))
  }

  /** Evaluation leaves nodes unchanged exactly when they already carry the
      target's densities. */
  lemma EvaluatedIsFixedPoint(target: real -> real, nodes: seq<Node>)
    ensures DensitiesMatch(target, nodes) <==> EvaluateAll(target, nodes) == nodes
  {
  }

  /** Evaluating twice is evaluating once. */
  lemma EvaluateIdempotent(target: real -> real, nodes: seq<Node>)
    ensures EvaluateAll(target, EvaluateAll(target, nodes)) == EvaluateAll(target, nodes)
  {
  }
}
