/**
  The prefetching tree for one Metropolis chain, as an object whose node
  array is filled once at construction, whose densities are written in place
  by evaluation, and whose walk emits the realized sub-chain.
*/
module PosteriorTrees {
  import opened TreeSpec
  import opened WalkSpec

  /** Outcome of constructing a tree: the tree, or the invalid-argument error
      the constructor throws. */
  datatype Result<T> = Ok(value: T) | InvalidArgument(message: string)

  class PosteriorTree {
    /** Log density of the root's value, as the caller asserted it. */
    const xDensity: real
    /** The log posterior. */
    const target: real -> real
    /** The nodes, in index order; each node is owned by its slot. */
    const heap: array<Node>

    /** The root value and the jump offsets the tree was built from. */
    ghost const rootValue: real
    ghost const offsets: nat -> real

    /** Object invariant: an odd, non-empty node count, and node values that
        obey the tree law for the root value and offsets. */
    ghost predicate Valid()
      reads heap
    {
      && heap.Length % 2 == 1
      && TreeLaw(rootValue, offsets, Thetas(heap[..]), Proposals(heap[..]))
    }

    /** Construction with a node count the guard accepts: `n` offsets are
        drawn in index order, the root holds `xT`, and every other node is
        filled by the inheritance rule. Densities are not set. */
    constructor (xT: real, eT: real, posterior: real -> real, jump: nat -> real, n: SizeT)
      requires n % 2 == 1
      ensures Valid() && fresh(heap)
      ensures heap.Length == n
      ensures xDensity == eT && target == posterior
      ensures rootValue == xT && offsets == jump
    {
      xDensity := eT;
      target := posterior;
      rootValue := xT;
      offsets := jump;

      var epsilons := DrawOffsets(jump, n);
      var currentValues, proposals := Propagate(xT, jump, epsilons);

      assert |currentValues| == |proposals| == n;

      // Set up the nodes, in index order.
      var nodes := new Node[n](i requires 0 <= i < n => Node(currentValues[i], proposals[i], 0.0));
      heap := nodes;
      new;
      assert Valid() by {
        assert Thetas(heap[..]) == currentValues;
        assert Proposals(heap[..]) == proposals;
      }
    }

    /** The `n` jump distances, drawn before any node is built, in index
        order. */
    static method DrawOffsets(jump: nat -> real, n: nat) returns (epsilons: seq<real>)
      ensures |epsilons| == n
      ensures forall j :: 0 <= j < n ==> epsilons[j] == jump(j)
    {
      epsilons := [];
      for i := 0 to n
        invariant |epsilons| == i
        invariant forall j :: 0 <= j < i ==> epsilons[j] == jump(j)
      {
        epsilons := epsilons + [jump(i)];
      }
    }

    /** Pops the offsets front to back: the root gets `xT` and its offset,
        and every further node inherits its parent's proposal (right child)
        or current value (left child) and adds its own offset. */
    static method Propagate(xT: real, jump: nat -> real, epsilons: seq<real>)
      returns (currentValues: seq<real>, proposals: seq<real>)
      requires |epsilons| > 0
      requires forall j :: 0 <= j < |epsilons| ==> epsilons[j] == jump(j)
      ensures |currentValues| == |epsilons|
      ensures TreeLaw(xT, jump, currentValues, proposals)
    {
      ghost var n := |epsilons|;
      var rest := epsilons;

      // The root.
      var epsInit := rest[0];
      rest := rest[1..];
      currentValues := [xT];
      proposals := [xT + epsInit];

      // Every further node inherits from its parent.
      while rest != []
        invariant |currentValues| + |rest| == n
        invariant forall j :: |currentValues| <= j < n ==> rest[j - |currentValues|] == jump(j)
        invariant TreeLaw(xT, jump, currentValues, proposals)
        decreases |rest|
      {
        var eps := rest[0];
        rest := rest[1..];
        var ii := |currentValues|;
        var isRight := ii % 2 == 0;
        var parent := if isRight then (ii - 2) / 2 else (ii - 1) / 2;
        var current := if isRight then proposals[parent] else currentValues[parent];
        assert parent == Parent(ii) && eps == jump(ii);
        TreeLawExtend(xT, jump, currentValues, proposals, current);
        currentValues := currentValues + [current];
        proposals := proposals + [current + eps];
      }
    }

    /** The constructor with its guard: an even node count (0 included)
        throws invalid_argument; any other builds the tree. */
    static method Create(xT: real, eT: real, posterior: real -> real, jump: nat -> real, n: SizeT)
      returns (r: Result<PosteriorTree>)
      ensures r.InvalidArgument? <==> n % 2 == 0
      ensures r.Ok? ==> fresh(r.value) && fresh(r.value.heap) && r.value.Valid()
      ensures r.Ok? ==> r.value.heap.Length == n && r.value.xDensity == eT && r.value.target == posterior
      ensures r.Ok? ==> r.value.rootValue == xT && r.value.offsets == jump
    {
      RejectsExactlyEven(n);
      if SizeSub(n, 1) % 2 != 0 {
        return InvalidArgument("n_procs must be odd.");
      }
      var t := new PosteriorTree(xT, eT, posterior, jump, n);
      return Ok(t);
    }

    /** Each node's current value, in index order. */
    method GetThetas() returns (thetas: seq<real>)
      ensures thetas == Thetas(heap[..])
    {
      thetas := [];
      for i := 0 to heap.Length
        invariant |thetas| == i
        invariant forall j :: 0 <= j < i ==> thetas[j] == heap[j].x
      {
        thetas := thetas + [heap[i].x];
      }
    }

    /** Each node's proposal, in index order. */
    method GetProposals() returns (proposals: seq<real>)
      ensures proposals == Proposals(heap[..])
    {
      proposals := [];
      for i := 0 to heap.Length
        invariant |proposals| == i
        invariant forall j :: 0 <= j < i ==> proposals[j] == heap[j].proposal
      {
        proposals := proposals + [heap[i].proposal];
      }
    }

    /** Sets every node's density to the target at its proposal; each
        iteration reads and writes only its own node. Internal to Draw. */
    method Evaluate()
      requires Valid()
      modifies heap
      ensures Valid()
      ensures heap[..] == EvaluateAll(target, old(heap[..]))
    {
      for ii := 0 to heap.Length
        invariant forall j :: 0 <= j < ii ==>
                    heap[j] == old(heap[j]).(proposalDensity := target(old(heap[j]).proposal))
        invariant forall j :: ii <= j < heap.Length ==> heap[j] == old(heap[j])
      {
        var proposal := heap[ii].proposal;
        var density := target(proposal);
        heap[ii] := heap[ii].(proposalDensity := density);
      }
      assert heap[..] == EvaluateAll(target, old(heap[..]));
    }

    /** Evaluates the tree, then walks it from the root with the log-uniform
        variates `logU(0), logU(1), ...`, one per step, and returns the
        emitted values and densities. */
    method Draw(logU: nat -> real) returns (draws: seq<real>, densities: seq<real>)
      requires Valid()
      modifies heap
      ensures Valid()
      ensures heap[..] == EvaluateAll(target, old(heap[..]))
      ensures draws == Draws(Walk(heap[..], logU, Cursor(0, rootValue, xDensity), 0))
      ensures densities == Densities(Walk(heap[..], logU, Cursor(0, rootValue, xDensity), 0))
      ensures |draws| == |densities|
      ensures (heap.Length + 1) / 2 <= |draws| <= heap.Length
      ensures xDensity == target(rootValue) ==>
                forall m :: 0 <= m < |draws| ==> densities[m] == target(draws[m])
    {
      Evaluate();
      ghost var nodes := heap[..];

      var ii := 0;
      var k := 0;
      var currentDensity := xDensity;
      var current := heap[0].x;
      assert current == Thetas(nodes)[0] == rootValue;
      ghost var start := Cursor(0, current, currentDensity);
      ghost var trace: seq<Cursor> := [];
      draws, densities := [], [];

      while ii < heap.Length
        invariant heap[..] == nodes
        invariant k == |trace|
        invariant Walk(nodes, logU, start, 0) == trace + Walk(nodes, logU, Cursor(ii, current, currentDensity), k)
        invariant draws == Draws(trace) && densities == Densities(trace)
        decreases heap.Length - ii
      {
        ghost var before := Cursor(ii, current, currentDensity);
        var p := heap[ii];
        var proposal := p.proposal;
        var proposalDensity := p.proposalDensity;

        var r := proposalDensity - currentDensity;
        var u := logU(k);
        var accept := u <= r;

        if accept {
          current := proposal;
          currentDensity := proposalDensity;
          ii := ii + 2;
        } else {
          ii := ii + 1;
        }

        draws := draws + [current];
        densities := densities + [currentDensity];
        ghost var after := Cursor(ii, current, currentDensity);
        assert after == Step(nodes, before, logU(k));
        WalkAppendStep(nodes, logU, start, trace, before, k);
        trace := trace + [after];
        k := k + 1;
      }

      WalkLength(nodes, logU, start, 0);
      if xDensity == target(rootValue) {
        WalkKeepsDensityCoupling(target, nodes, logU, start, 0);
      }
    }
  }
}
