/** The Huffman tree of src/huff.rs (`build_tree`): 514 nodes, the leaves
    0..256 (256 is the end-of-stream symbol), internal nodes appended from
    257 on, and the sentinel 513 whose count is `u32::MAX`. */
module Tree {
  import opened Common

  /** A node of the array (`Node`). */
  datatype Node = Node(count: nat, savedCount: nat, child0: nat, child1: nat)

  /** `u32::MAX`, the count of the sentinel node. */
  const U32Max: nat := 0xFFFF_FFFF

  /** The sentinel index both minimum trackers start from. */
  const Sentinel: nat := 513

  /** The child a bit selects (`child_1` for a one bit, `child_0` otherwise). */
  function Child(n: Node, b: bit): nat
  {
    if b == 0 then n.child0 else n.child1
  }

  /** Every node above the leaves has children with smaller indices: the
      merge loop only links nodes that already exist. */
  ghost predicate Shaped(nodes: seq<Node>)
  {
    forall j :: EndOfStream < j < |nodes| ==> nodes[j].child0 < j && nodes[j].child1 < j
  }

  /** Leaf `leaf` lies in the subtree of `node`. */
  ghost predicate Reaches(nodes: seq<Node>, node: nat, leaf: nat)
    requires Shaped(nodes) && node < |nodes|
    decreases node
  {
    if node <= EndOfStream then node == leaf
    else Reaches(nodes, nodes[node].child0, leaf) || Reaches(nodes, nodes[node].child1, leaf)
  }

  /** Following the bits `path` from `node` passes only internal nodes and
      stops on the leaf `leaf`. */
  ghost predicate LeadsTo(nodes: seq<Node>, node: nat, path: seq<bit>, leaf: nat)
    requires Shaped(nodes) && node < |nodes|
    decreases |path|
  {
    if |path| == 0 then node == leaf && node <= EndOfStream
    else node > EndOfStream && LeadsTo(nodes, Child(nodes[node], path[0]), path[1..], leaf)
  }

  /** The path to `leaf` that a depth-first walk visiting `child_0` before
      `child_1` records last. */
  ghost function PathTo(nodes: seq<Node>, node: nat, leaf: nat): (path: seq<bit>)
    requires Shaped(nodes) && node < |nodes| && Reaches(nodes, node, leaf)
    ensures LeadsTo(nodes, node, path, leaf)
    decreases node
  {
    if node <= EndOfStream then []
    else
      if Reaches(nodes, nodes[node].child1, leaf) then [1] + PathTo(nodes, nodes[node].child1, leaf)
      else [0] + PathTo(nodes, nodes[node].child0, leaf)
  }

  /** A path that leads to a leaf is not a proper prefix of another path that
      leads to a leaf: the walk stops at the first leaf. */
  lemma {:induction false} LeadsToPrefixFree(nodes: seq<Node>, node: nat, p: seq<bit>, q: seq<bit>, l1: nat, l2: nat)
    requires Shaped(nodes) && node < |nodes|
    requires LeadsTo(nodes, node, p, l1) && LeadsTo(nodes, node, q, l2)
    requires |p| <= |q| && q[..|p|] == p
    ensures p == q && l1 == l2
    decreases |p|
  {
    if |p| > 0 {
      var next := Child(nodes[node], p[0]);
      assert q[0] == p[0];
      assert q[1..][..|p| - 1] == p[1..];
      LeadsToPrefixFree(nodes, next, p[1..], q[1..], l1, l2);
      assert p == [p[0]] + p[1..] && q == [q[0]] + q[1..];
    }
  }

  /** Two node arrays that agree on the children of every node up to `j`
      have the same subtree below `j`. */
  ghost predicate SameLinksUpTo(a: seq<Node>, b: seq<Node>, j: nat)
  {
    |a| == |b| && forall k :: 0 <= k <= j && k < |a| ==> a[k].child0 == b[k].child0 && a[k].child1 == b[k].child1
  }

  lemma {:induction false} ReachesFrame(a: seq<Node>, b: seq<Node>, node: nat, leaf: nat)
    requires Shaped(a) && Shaped(b) && node < |a| && SameLinksUpTo(a, b, node)
    ensures Reaches(a, node, leaf) == Reaches(b, node, leaf)
    ensures Reaches(a, node, leaf) ==> PathTo(a, node, leaf) == PathTo(b, node, leaf)
    decreases node
  {
    if node > EndOfStream {
      ReachesFrame(a, b, a[node].child0, leaf);
      ReachesFrame(a, b, a[node].child1, leaf);
    }
  }

  // ---------------------------------------------------------------------
  // Live nodes and their weight
  // ---------------------------------------------------------------------

  /** The number of nodes among the first `n` whose count is nonzero: the
      roots of the subtrees still waiting to be merged. */
  function Live(nodes: seq<Node>, n: nat): (k: nat)
    requires n <= |nodes|
    ensures k <= n
  {
    if n == 0 then 0 else Live(nodes, n - 1) + (if nodes[n - 1].count != 0 then 1 else 0)
  }

  /** The sum of the counts of the first `n` nodes. */
  function Weight(nodes: seq<Node>, n: nat): nat
    requires n <= |nodes|
  {
    if n == 0 then 0 else Weight(nodes, n - 1) + nodes[n - 1].count
  }

  /** Changing one node below `n` changes the live tally by that node alone. */
  lemma {:induction false} LiveUpdate(nodes: seq<Node>, n: nat, j: nat, x: Node)
    requires j < n <= |nodes|
    ensures Live(nodes[j := x], n) + (if nodes[j].count != 0 then 1 else 0)
      == Live(nodes, n) + (if x.count != 0 then 1 else 0)
  {
    if n - 1 != j {
      LiveUpdate(nodes, n - 1, j, x);
    } else {
      LiveFrame(nodes, nodes[j := x], n - 1);
    }
  }

  /** Changing one node below `n` changes the weight by that node alone. */
  lemma {:induction false} WeightUpdate(nodes: seq<Node>, n: nat, j: nat, x: Node)
    requires j < n <= |nodes|
    ensures Weight(nodes[j := x], n) + nodes[j].count == Weight(nodes, n) + x.count
  {
    if n - 1 != j {
      WeightUpdate(nodes, n - 1, j, x);
    } else {
      WeightFrame(nodes, nodes[j := x], n - 1);
    }
  }

  lemma {:induction false} LiveFrame(a: seq<Node>, b: seq<Node>, n: nat)
    requires n <= |a| && n <= |b| && forall k :: 0 <= k < n ==> a[k].count == b[k].count
    ensures Live(a, n) == Live(b, n)
  {
    if n > 0 {
      LiveFrame(a, b, n - 1);
    }
  }

  lemma {:induction false} WeightFrame(a: seq<Node>, b: seq<Node>, n: nat)
    requires n <= |a| && n <= |b| && forall k :: 0 <= k < n ==> a[k].count == b[k].count
    ensures Weight(a, n) == Weight(b, n)
  {
    if n > 0 {
      WeightFrame(a, b, n - 1);
    }
  }

  /** No single count exceeds the weight. */
  lemma {:induction false} CountBelowWeight(nodes: seq<Node>, n: nat, j: nat)
    requires j < n <= |nodes|
    ensures nodes[j].count <= Weight(nodes, n)
  {
    if j < n - 1 {
      CountBelowWeight(nodes, n - 1, j);
    }
  }

  /** With at most one live node, every live node is that one. */
  lemma {:induction false} LiveOne(nodes: seq<Node>, n: nat, i: nat, j: nat)
    requires n <= |nodes| && Live(nodes, n) <= 1
    requires i < n && j < n && nodes[i].count != 0 && nodes[j].count != 0
    ensures i == j
  {
    if i != j {
      var lo, hi := if i < j then i else j, if i < j then j else i;
      LiveAtLeastTwo(nodes, n, lo, hi);
    }
  }

  lemma {:induction false} LiveAtLeastTwo(nodes: seq<Node>, n: nat, lo: nat, hi: nat)
    requires lo < hi < n <= |nodes| && nodes[lo].count != 0 && nodes[hi].count != 0
    ensures Live(nodes, n) >= 2
  {
    if hi < n - 1 {
      LiveAtLeastTwo(nodes, n - 1, lo, hi);
    } else {
      LiveAtLeastOne(nodes, n - 1, lo);
    }
  }

  lemma {:induction false} LiveAtLeastOne(nodes: seq<Node>, n: nat, j: nat)
    requires j < n <= |nodes| && nodes[j].count != 0
    ensures Live(nodes, n) >= 1
  {
    if j < n - 1 {
      LiveAtLeastOne(nodes, n - 1, j);
    }
  }

  // ---------------------------------------------------------------------
  // The scan for the two smallest live nodes (lines 93-105)
  // ---------------------------------------------------------------------

  /** Node `a` is chosen before node `b`: a smaller count, or the same count
      and a smaller index (the scan only replaces a minimum on `<`). */
  ghost predicate Before(nodes: seq<Node>, a: nat, b: nat)
    requires a < |nodes| && b < |nodes|
  {
    nodes[a].count < nodes[b].count || (nodes[a].count == nodes[b].count && a < b)
  }

  /** The node array the scan runs over: the sentinel in place and every
      scanned count below it. */
  ghost predicate Scannable(nodes: seq<Node>, n: nat)
  {
    |nodes| == MaxNodes && n <= Sentinel && nodes[Sentinel].count == U32Max
    && forall j :: 0 <= j < n ==> nodes[j].count < U32Max
  }

  /** `m1` and `m2` are the first and second live nodes below `i` in the
      order `Before`, the sentinel standing for "none". */
  ghost predicate MinPair(nodes: seq<Node>, i: nat, m1: nat, m2: nat)
    requires |nodes| == MaxNodes && i <= Sentinel
  {
    && (m1 == Sentinel || (m1 < i && nodes[m1].count != 0))
    && (m2 == Sentinel || (m2 < i && nodes[m2].count != 0))
    && (m2 != Sentinel ==> m1 != Sentinel && m1 != m2 && Before(nodes, m1, m2))
    && (forall j :: 0 <= j < i && nodes[j].count != 0 && j != m1 ==> Before(nodes, m1, j))
    && (forall j :: 0 <= j < i && nodes[j].count != 0 && j != m1 && j != m2 ==> Before(nodes, m2, j))
  }

  /** The scan from index `i` on, with the minima found so far. */
  function Scan(nodes: seq<Node>, n: nat, i: nat, m1: nat, m2: nat): (r: (nat, nat))
    requires Scannable(nodes, n) && i <= n && m1 < MaxNodes && m2 < MaxNodes
    requires MinPair(nodes, i, m1, m2)
    ensures MinPair(nodes, n, r.0, r.1)
    decreases n - i
  {
    if i == n then (m1, m2)
    else if nodes[i].count != 0 && nodes[i].count < nodes[m1].count then Scan(nodes, n, i + 1, i, m1)
    else if nodes[i].count != 0 && nodes[i].count < nodes[m2].count then Scan(nodes, n, i + 1, m1, i)
    else Scan(nodes, n, i + 1, m1, m2)
  }

  /** `min_1` and `min_2` after the scan over the first `n` nodes. */
  function FindMins(nodes: seq<Node>, n: nat): (r: (nat, nat))
    requires Scannable(nodes, n)
    ensures MinPair(nodes, n, r.0, r.1)
  {
    Scan(nodes, n, 0, Sentinel, Sentinel)
  }

  /** The scan finds a second minimum exactly when at least two nodes are
      live, and otherwise its first minimum is the only live node, if any. */
  lemma FindMinsLive(nodes: seq<Node>, n: nat)
    requires Scannable(nodes, n)
    ensures var (m1, m2) := FindMins(nodes, n);
      && (m2 != Sentinel <==> Live(nodes, n) >= 2)
      && (m2 == Sentinel ==> forall j :: 0 <= j < n && nodes[j].count != 0 ==> j == m1)
  {
    var (m1, m2) := FindMins(nodes, n);
    if m2 != Sentinel {
      var lo, hi := if m1 < m2 then m1 else m2, if m1 < m2 then m2 else m1;
      LiveAtLeastTwo(nodes, n, lo, hi);
    } else {
      forall j | 0 <= j < n && nodes[j].count != 0
        ensures j == m1
      {
        if j != m1 {
          assert false;
        }
      }
      if Live(nodes, n) >= 2 {
        var a, b := LiveTwoWitnesses(nodes, n);
        assert false;
      }
    }
  }

  lemma {:induction false} LiveTwoWitnesses(nodes: seq<Node>, n: nat) returns (a: nat, b: nat)
    requires n <= |nodes| && Live(nodes, n) >= 2
    ensures a < b < n && nodes[a].count != 0 && nodes[b].count != 0
  {
    if nodes[n - 1].count != 0 && Live(nodes, n - 1) >= 1 {
      a := LiveWitness(nodes, n - 1);
      b := n - 1;
    } else {
      a, b := LiveTwoWitnesses(nodes, n - 1);
    }
  }

  lemma {:induction false} LiveWitness(nodes: seq<Node>, n: nat) returns (a: nat)
    requires n <= |nodes| && Live(nodes, n) >= 1
    ensures a < n && nodes[a].count != 0
  {
    if nodes[n - 1].count != 0 {
      a := n - 1;
    } else {
      a := LiveWitness(nodes, n - 1);
    }
  }

  // ---------------------------------------------------------------------
  // Merging and the build loop (lines 89-123)
  // ---------------------------------------------------------------------

  /** One merge (lines 109-119): node `nf` becomes the parent of `m1` and
      `m2` with the sum of their counts; `m1` and `m2` keep their count in
      `saved_count` and drop out of the scan. */
  function Merge(nodes: seq<Node>, nf: nat, m1: nat, m2: nat): (merged: seq<Node>)
    requires nf < |nodes| && m1 < nf && m2 < nf && m1 != m2
    ensures |merged| == |nodes|
    ensures merged[nf] == Node(nodes[m1].count + nodes[m2].count, nodes[nf].savedCount, m1, m2)
    ensures merged[m1] == nodes[m1].(count := 0, savedCount := nodes[m1].count)
    ensures merged[m2] == nodes[m2].(count := 0, savedCount := nodes[m2].count)
    ensures forall k :: 0 <= k < |nodes| && k != nf && k != m1 && k != m2 ==> merged[k] == nodes[k]
  {
    var withSum := nodes[nf := nodes[nf].(count := nodes[m1].count + nodes[m2].count)];
    var first := withSum[m1 := withSum[m1].(savedCount := withSum[m1].count, count := 0)];
    var second := first[m2 := first[m2].(savedCount := first[m2].count, count := 0)];
    second[nf := second[nf].(child0 := m1, child1 := m2)]
  }

  /** The state of the build loop at the top of an iteration, with `nf` the
      next free node: the sentinel in place, the live weight below it,
      every link pointing down, and room for one node per pending merge. */
  ghost predicate Ready(nodes: seq<Node>, nf: nat)
  {
    && |nodes| == MaxNodes && EndOfStream < nf <= Sentinel
    && nodes[Sentinel].count == U32Max
    && Weight(nodes, nf) < U32Max
    && nf + Live(nodes, nf) <= MaxNodes
    && Shaped(nodes)
  }

  lemma ReadyScannable(nodes: seq<Node>, nf: nat)
    requires Ready(nodes, nf)
    ensures Scannable(nodes, nf)
  {
    forall j | 0 <= j < nf
      ensures nodes[j].count < U32Max
    {
      CountBelowWeight(nodes, nf, j);
    }
  }

  /** A merge of two live nodes keeps the loop state, removes one live node
      and keeps the live weight. */
  lemma MergeReady(nodes: seq<Node>, nf: nat, m1: nat, m2: nat)
    requires Ready(nodes, nf) && m1 < nf && m2 < nf && m1 != m2
    requires nodes[m1].count != 0 && nodes[m2].count != 0
    ensures nf + 1 <= Sentinel
    ensures Ready(Merge(nodes, nf, m1, m2), nf + 1)
    ensures Live(Merge(nodes, nf, m1, m2), nf + 1) + 1 == Live(nodes, nf)
    ensures Weight(Merge(nodes, nf, m1, m2), nf + 1) == Weight(nodes, nf)
  {
    var merged := Merge(nodes, nf, m1, m2);
    var lo, hi := if m1 < m2 then m1 else m2, if m1 < m2 then m2 else m1;
    LiveAtLeastTwo(nodes, nf, lo, hi);
    var zero1 := nodes[m1 := merged[m1]];
    var zero2 := zero1[m2 := merged[m2]];
    LiveUpdate(nodes, nf, m1, merged[m1]);
    LiveUpdate(zero1, nf, m2, merged[m2]);
    WeightUpdate(nodes, nf, m1, merged[m1]);
    WeightUpdate(zero1, nf, m2, merged[m2]);
    assert forall k :: 0 <= k < nf ==> merged[k] == zero2[k];
    LiveFrame(merged, zero2, nf);
    WeightFrame(merged, zero2, nf);
  }

  /** The build loop from the next free node `nf`: merge the two smallest
      live nodes until fewer than two are left; the root is the last node
      filled, and its count is copied to `saved_count`. */
  function BuildFrom(nodes: seq<Node>, nf: nat): (r: (seq<Node>, nat))
    requires Ready(nodes, nf)
    ensures |r.0| == MaxNodes && Shaped(r.0)
    ensures EndOfStream <= r.1 < Sentinel
    decreases Live(nodes, nf)
  {
    ReadyScannable(nodes, nf);
    var (m1, m2) := FindMins(nodes, nf);
    if m2 == Sentinel then
      var root := nf - 1;
      (nodes[root := nodes[root].(savedCount := nodes[root].count)], root)
    else
      MergeReady(nodes, nf, m1, m2);
      BuildFrom(Merge(nodes, nf, m1, m2), nf + 1)
  }

  /** The node array `scale_counts` or `input_counts` leaves for the build:
      the 257 leaf counts, everything else zero, and the sentinel set. */
  function Leaves(table: seq<nat>): (nodes: seq<Node>)
    requires |table| == EndOfStream + 1
    ensures |nodes| == MaxNodes
    ensures forall j :: 0 <= j <= EndOfStream ==> nodes[j].count == table[j]
    ensures forall j :: EndOfStream < j < Sentinel ==> nodes[j].count == 0
    ensures nodes[Sentinel].count == U32Max
  {
    seq(MaxNodes, j requires 0 <= j < MaxNodes =>
      if j == Sentinel then Node(U32Max, 0, 0, 0) else Node(if j <= EndOfStream then table[j] else 0, 0, 0, 0))
  }

  /** `build_tree` on the leaf counts `table`: the final node array and the
      root index. */
  function BuildTree(table: seq<nat>): (r: (seq<Node>, nat))
    requires |table| == EndOfStream + 1
    requires Weight(Leaves(table), EndOfStream + 1) < U32Max
    ensures |r.0| == MaxNodes && Shaped(r.0)
    ensures EndOfStream <= r.1 < Sentinel
  {
    var nodes := Leaves(table);
    assert Shaped(nodes);
    BuildFrom(nodes, EndOfStream + 1)
  }

  // ---------------------------------------------------------------------
  // What the build computes
  // ---------------------------------------------------------------------

  /** The build invariant relative to the leaf counts `table`: every symbol
      with a nonzero count hangs below exactly the live nodes' subtrees, and
      only such symbols do; one node is appended per live node lost; the live
      weight is the total count; and the last filled node is live. */
  ghost predicate Covers(table: seq<nat>, nodes: seq<Node>, nf: nat)
    requires |table| == EndOfStream + 1 && Ready(nodes, nf)
  {
    && (forall l :: 0 <= l <= EndOfStream && table[l] != 0 ==>
          exists j :: 0 <= j < nf && nodes[j].count != 0 && Reaches(nodes, j, l))
    && (forall j: nat, l: nat :: j < nf && nodes[j].count != 0 && Reaches(nodes, j, l) ==>
          l <= EndOfStream && table[l] != 0)
    && nf + Live(nodes, nf) == EndOfStream + 1 + Live(Leaves(table), EndOfStream + 1)
    && Weight(nodes, nf) == Weight(Leaves(table), EndOfStream + 1)
    && nodes[nf - 1].count != 0
  }

  /** A merge keeps the build invariant. */
  lemma MergeCovers(table: seq<nat>, nodes: seq<Node>, nf: nat, m1: nat, m2: nat)
    requires |table| == EndOfStream + 1 && Ready(nodes, nf) && Covers(table, nodes, nf)
    requires m1 < nf && m2 < nf && m1 != m2 && nodes[m1].count != 0 && nodes[m2].count != 0
    ensures Ready(Merge(nodes, nf, m1, m2), nf + 1)
    ensures Covers(table, Merge(nodes, nf, m1, m2), nf + 1)
  {
    var merged := Merge(nodes, nf, m1, m2);
    MergeReady(nodes, nf, m1, m2);
    assert SameLinksUpTo(nodes, merged, nf - 1);
    forall j: nat, l: nat | j < nf
      ensures Reaches(nodes, j, l) == Reaches(merged, j, l)
    {
      ReachesFrame(nodes, merged, j, l);
    }
    forall l | 0 <= l <= EndOfStream && table[l] != 0
      ensures exists j :: 0 <= j < nf + 1 && merged[j].count != 0 && Reaches(merged, j, l)
    {
      var j :| 0 <= j < nf && nodes[j].count != 0 && Reaches(nodes, j, l);
      if j == m1 || j == m2 {
        assert Reaches(merged, nf, l);
      } else {
        assert merged[j].count != 0 && Reaches(merged, j, l);
      }
    }
    forall j: nat, l: nat | j < nf + 1 && merged[j].count != 0 && Reaches(merged, j, l)
      ensures l <= EndOfStream && table[l] != 0
    {
      if j == nf {
        assert Reaches(nodes, m1, l) || Reaches(nodes, m2, l);
      } else {
        assert nodes[j].count != 0 && Reaches(nodes, j, l);
      }
    }
  }

  /** With a single live node, the weight is that node's count. */
  lemma {:induction false} WeightSingle(nodes: seq<Node>, n: nat, r: nat)
    requires r < n <= |nodes|
    requires forall j :: 0 <= j < n && nodes[j].count != 0 ==> j == r
    ensures Weight(nodes, n) == nodes[r].count
  {
    if n - 1 > r {
      WeightSingle(nodes, n - 1, r);
    } else {
      WeightZero(nodes, n - 1);
    }
  }

  lemma {:induction false} WeightZero(nodes: seq<Node>, n: nat)
    requires n <= |nodes| && forall j :: 0 <= j < n ==> nodes[j].count == 0
    ensures Weight(nodes, n) == 0
  {
    if n > 0 {
      WeightZero(nodes, n - 1);
    }
  }

  /** What the build loop returns from a state satisfying the invariant. */
  lemma {:induction false} BuildFromCorrect(table: seq<nat>, nodes: seq<Node>, nf: nat)
    requires |table| == EndOfStream + 1 && Ready(nodes, nf) && Covers(table, nodes, nf)
    ensures var (tree, root) := BuildFrom(nodes, nf);
      && (forall l: nat :: Reaches(tree, root, l) <==> l <= EndOfStream && table[l] != 0)
      && tree[root].count == Weight(Leaves(table), EndOfStream + 1)
      && tree[root].savedCount == tree[root].count
      && root == EndOfStream - 1 + Live(Leaves(table), EndOfStream + 1)
    decreases Live(nodes, nf)
  {
    ReadyScannable(nodes, nf);
    var (m1, m2) := FindMins(nodes, nf);
    FindMinsLive(nodes, nf);
    if m2 == Sentinel {
      var root := nf - 1;
      var tree := nodes[root := nodes[root].(savedCount := nodes[root].count)];
      assert BuildFrom(nodes, nf) == (tree, root);
      assert root == m1;
      LiveAtLeastOne(nodes, nf, root);
      forall l: nat
        ensures Reaches(tree, root, l) <==> l <= EndOfStream && table[l] != 0
      {
        ReachesFrame(nodes, tree, root, l);
        if l <= EndOfStream && table[l] != 0 {
          var j :| 0 <= j < nf && nodes[j].count != 0 && Reaches(nodes, j, l);
          assert j == root;
        }
      }
      WeightSingle(nodes, nf, root);
    } else {
      MergeCovers(table, nodes, nf, m1, m2);
      MergeReady(nodes, nf, m1, m2);
      BuildFromCorrect(table, Merge(nodes, nf, m1, m2), nf + 1);
    }
  }

  /** `build_tree`, when the end-of-stream leaf has a nonzero count (both
      callers set it to 1): the root's subtree holds exactly the symbols with
      a nonzero count, the root carries the total count, and one internal node
      was added per merge, so the root sits at 255 plus the number of symbols. */
  lemma BuildTreeCorrect(table: seq<nat>)
    requires |table| == EndOfStream + 1
    requires Weight(Leaves(table), EndOfStream + 1) < U32Max
    requires table[EndOfStream] != 0
    ensures var (tree, root) := BuildTree(table);
      && (forall l: nat :: Reaches(tree, root, l) <==> l <= EndOfStream && table[l] != 0)
      && tree[root].count == Weight(Leaves(table), EndOfStream + 1)
      && tree[root].savedCount == tree[root].count
      && root == EndOfStream - 1 + Live(Leaves(table), EndOfStream + 1)
  {
    var nodes := Leaves(table);
    assert Shaped(nodes);
    forall l | 0 <= l <= EndOfStream && table[l] != 0
      ensures exists j :: 0 <= j < EndOfStream + 1 && nodes[j].count != 0 && Reaches(nodes, j, l)
    {
      assert Reaches(nodes, l, l);
    }
    BuildFromCorrect(table, nodes, EndOfStream + 1);
  }

  /** Only the end-of-stream symbol present (an empty source): no merge, and
      the root is the end-of-stream leaf itself. */
  lemma BuildTreeSingleLeaf(table: seq<nat>)
    requires |table| == EndOfStream + 1 && Weight(Leaves(table), EndOfStream + 1) < U32Max
    requires table[EndOfStream] != 0 && forall l :: 0 <= l < EndOfStream ==> table[l] == 0
    ensures BuildTree(table).1 == EndOfStream
  {
    BuildTreeCorrect(table);
    var nodes := Leaves(table);
    forall j | 0 <= j < EndOfStream + 1 && nodes[j].count != 0
      ensures j == EndOfStream
    {
    }
    LiveAtLeastOne(nodes, EndOfStream + 1, EndOfStream);
  }

  /** Counts that fit a byte, as `scale_counts` and `input_counts` produce,
      cannot overflow the `u32` sums of the build. */
  lemma ByteTableWeight(table: seq<nat>)
    requires |table| == EndOfStream + 1 && forall i :: 0 <= i < |table| ==> table[i] < 256
    ensures Weight(Leaves(table), EndOfStream + 1) < U32Max
  {
    WeightBound(Leaves(table), EndOfStream + 1, 255);
  }

  lemma {:induction false} WeightBound(nodes: seq<Node>, n: nat, b: nat)
    requires n <= |nodes| && forall j :: 0 <= j < n ==> nodes[j].count <= b
    ensures Weight(nodes, n) <= n * b
  {
    if n > 0 {
      WeightBound(nodes, n - 1, b);
    }
  }
}
