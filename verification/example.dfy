/** The worked example of the codec: the source `AAAB` (bytes 0x41, 0x41,
    0x41, 0x42), its frequency model, its header, the tree `build_tree` makes
    for it, and the codes `convert_tree_to_code` gives that tree. */
module Example {
  import opened Common
  import opened Frequency
  import opened Header
  import opened Tree
  import opened Codes
  import opened Transcode

  const Source: seq<byte> := [0x41, 0x41, 0x41, 0x42]

  /** The model of the source: A three times, B once, the end of stream
      once, and nothing else. */
  ghost predicate ExampleTable(t: seq<nat>)
  {
    && |t| == EndOfStream + 1
    && t[0x41] == 3 && t[0x42] == 1 && t[EndOfStream] == 1
    && forall k :: 0 <= k < 256 && k != 0x41 && k != 0x42 ==> t[k] == 0
  }

  /** The tally and the scaling of `AAAB`: the counts are small, so scaling
      keeps them as they are. */
  lemma ExampleModel()
    ensures ExampleTable(Model(Source))
  {
    var counts := CountBytes(Source);
    assert multiset(Source) == multiset{0x41, 0x41, 0x41, 0x42};
    assert counts[0x41] == 3 && counts[0x42] == 1;
    forall k | 0 <= k < 256
      ensures counts[k] <= 3
      ensures k != 0x41 && k != 0x42 ==> counts[k] == 0
    {
    }
    assert MaxCount(counts) <= 254;
  }

  /** `NextNonzero` from `i` lands on `j` when the slots in between are zero. */
  lemma {:induction false} SkipTo(t: seq<nat>, i: nat, j: nat)
    requires IsTable(t) && i <= j <= 256
    requires forall k :: i <= k < j ==> t[k] == 0
    requires j < 256 ==> t[j] != 0
    ensures NextNonzero(t, i) == j
    decreases j - i
  {
    if i < j {
      SkipTo(t, i + 1, j);
    }
  }

  /** The header of the example: one run 0x41..0x42 holding 3 and 1, then
      the closing 0. */
  lemma ExampleHeader(t: seq<nat>)
    requires ExampleTable(t)
    ensures OutputCounts(t) == [0x41, 0x42, 3, 1, 0]
  {
    SkipTo(t, 0, 0x41);
    assert ExtendNonzero(t, 0x42) == 0x42;
    assert ExtendNonzero(t, 0x41) == 0x42;
    SkipTo(t, 0x43, 256);
    assert RunEnd(t, 0x41) == (0x42, 256);
    assert RunsFrom(t, 256) == [];
    var runs := RunsFrom(t, 0x41);
    assert runs == [Run(0x41, 0x42)];
    assert RunCounts(t, 0x43, 0x42) == [];
    assert RunCounts(t, 0x41, 0x42) == [3, 1];
    assert RunsBytes(t, runs[1..]) == [];
  }

  /** The example table read back from its header. */
  lemma ExampleHeaderReads(t: seq<nat>)
    requires ExampleTable(t)
    ensures InputCounts([0x41, 0x42, 3, 1, 0], 0) == Ok((t, 5))
  {
    ExampleHeader(t);
    assert exists k :: 0 <= k < 256 && t[k] != 0 by {
      assert t[0x41] != 0;
    }
    var header := OutputCounts(t);
    HeaderRoundTrip(t, []);
    assert header + [] == header;
    assert t[..256] + [1] == t;
  }

  /** The live leaves and their weight among the first `n` leaves of the
      example table. */
  lemma {:induction false} ExampleTally(t: seq<nat>, n: nat)
    requires ExampleTable(t) && n <= EndOfStream + 1
    ensures Live(Leaves(t), n)
      == (if n > 0x41 then 1 else 0) + (if n > 0x42 then 1 else 0) + (if n > EndOfStream then 1 else 0)
    ensures Weight(Leaves(t), n)
      == (if n > 0x41 then 3 else 0) + (if n > 0x42 then 1 else 0) + (if n > EndOfStream then 1 else 0)
  {
    if n > 0 {
      ExampleTally(t, n - 1);
      assert Leaves(t)[n - 1].count == t[n - 1];
    }
  }

  /** `build_tree` on the example makes two merges: the root is node 258,
      its count is the total 5, and its leaves are A, B and the end of
      stream. */
  lemma ExampleBuild(t: seq<nat>)
    requires ExampleTable(t)
    ensures Weight(Leaves(t), EndOfStream + 1) < U32Max
    ensures var (tree, root) := BuildTree(t);
      && root == 258 && tree[root].count == 5
      && forall l: nat :: Reaches(tree, root, l) <==> l == 0x41 || l == 0x42 || l == EndOfStream
  {
    ExampleTally(t, EndOfStream + 1);
    BuildTreeCorrect(t);
  }

  /** The tree of the example: node 257 joins B (`child_0`) and the end of
      stream (`child_1`), and the root 258 joins node 257 (`child_0`) and A
      (`child_1`). */
  ghost predicate ExampleTree(nodes: seq<Node>)
  {
    && |nodes| == MaxNodes && Shaped(nodes)
    && nodes[257].child0 == 0x42 && nodes[257].child1 == EndOfStream
    && nodes[258].child0 == 257 && nodes[258].child1 == 0x41
  }

  /** The scan's pair is `a` then `b` when both are live, `a` comes first,
      and every other live node comes after both. */
  lemma MinsAre(nodes: seq<Node>, n: nat, m1: nat, m2: nat, a: nat, b: nat)
    requires Scannable(nodes, n) && MinPair(nodes, n, m1, m2)
    requires a < n && b < n && a != b && nodes[a].count != 0 && nodes[b].count != 0
    requires Before(nodes, a, b)
    requires forall j :: 0 <= j < n && nodes[j].count != 0 && j != a && j != b ==>
      Before(nodes, a, j) && Before(nodes, b, j)
    ensures m1 == a && m2 == b
  {
  }

  /** Below `n`, exactly `a` and `b` are live, with counts `ca` and `cb`. */
  ghost predicate TwoLive(nodes: seq<Node>, n: nat, a: nat, ca: nat, b: nat, cb: nat)
  {
    && |nodes| == MaxNodes && n <= Sentinel && a < n && b < n && a != b
    && forall j :: 0 <= j < n ==> nodes[j].count == if j == a then ca else if j == b then cb else 0
  }

  /** The first scan over the example's leaves picks B, then the end of
      stream: both have count 1, and B has the lower index. */
  lemma FirstScan(t: seq<nat>)
    requires ExampleTable(t)
    ensures Ready(Leaves(t), 257) && Live(Leaves(t), 257) == 3
    ensures Scannable(Leaves(t), 257) && FindMins(Leaves(t), 257) == (0x42, EndOfStream)
  {
    ExampleTally(t, EndOfStream + 1);
    var nodes := Leaves(t);
    assert Shaped(nodes);
    ReadyScannable(nodes, 257);
    var (m1, m2) := FindMins(nodes, 257);
    MinsAre(nodes, 257, m1, m2, 0x42, EndOfStream);
  }

  /** After the first merge, node 257 (count 2) and A (count 3) are the
      only live nodes. */
  lemma FirstMerged(t: seq<nat>)
    requires ExampleTable(t)
    ensures TwoLive(Merge(Leaves(t), 257, 0x42, EndOfStream), 258, 257, 2, 0x41, 3)
  {
  }

  /** With node 257 and A the only live nodes, the scan picks node 257 (the
      smaller count) first. */
  lemma SecondScan(nodes: seq<Node>)
    requires Ready(nodes, 258) && TwoLive(nodes, 258, 257, 2, 0x41, 3)
    ensures Scannable(nodes, 258) && FindMins(nodes, 258) == (257, 0x41)
  {
    ReadyScannable(nodes, 258);
    var (m1, m2) := FindMins(nodes, 258);
    MinsAre(nodes, 258, m1, m2, 257, 0x41);
  }

  /** With one live node left, the scan finds no second minimum. */
  lemma LastScan(nodes: seq<Node>, n: nat, root: nat)
    requires Ready(nodes, n) && Live(nodes, n) == 1 && root < n && nodes[root].count != 0
    ensures Scannable(nodes, n) && FindMins(nodes, n) == (root, Sentinel)
  {
    ReadyScannable(nodes, n);
    FindMinsLive(nodes, n);
  }

  /** `build_tree` on the example: the scan first picks B and the end of
      stream (equal counts, B has the lower index) for node 257, then node
      257 and A for the root 258. */
  lemma ExampleShape(t: seq<nat>)
    requires ExampleTable(t)
    ensures Weight(Leaves(t), EndOfStream + 1) < U32Max
    ensures ExampleTree(BuildTree(t).0) && BuildTree(t).1 == 258
  {
    ExampleTally(t, EndOfStream + 1);
    var nodes0 := Leaves(t);
    FirstScan(t);
    MergeReady(nodes0, 257, 0x42, EndOfStream);
    var nodes1 := Merge(nodes0, 257, 0x42, EndOfStream);
    assert BuildFrom(nodes0, 257) == BuildFrom(nodes1, 258);

    FirstMerged(t);
    SecondScan(nodes1);
    MergeReady(nodes1, 258, 257, 0x41);
    var nodes2 := Merge(nodes1, 258, 257, 0x41);
    assert BuildFrom(nodes1, 258) == BuildFrom(nodes2, 259);

    LastScan(nodes2, 259, 258);
  }

  /** The leaves of the example tree are A, B and the end of stream. */
  lemma ExampleLeaves(nodes: seq<Node>, l: nat)
    requires ExampleTree(nodes)
    ensures Reaches(nodes, 258, l) <==> l == 0x41 || l == 0x42 || l == EndOfStream
  {
    assert Reaches(nodes, 257, l) <==> l == 0x42 || l == EndOfStream;
  }

  /** The codes of a tree of the example's shape: A is `1`, B is `00` and the
      end of stream is `01`. */
  lemma TreeCodes(nodes: seq<Node>)
    requires ExampleTree(nodes)
    ensures var codes := CodeTable(nodes, 258);
      && CodeBits(codes[0x41]) == [1]
      && CodeBits(codes[0x42]) == [0, 0]
      && CodeBits(codes[EndOfStream]) == [0, 1]
  {
    ExampleLeaves(nodes, 0x41);
    ExampleLeaves(nodes, 0x42);
    ExampleLeaves(nodes, EndOfStream);
    assert PathTo(nodes, 258, 0x41) == [1];
    assert !Reaches(nodes, 0x41, 0x42) && !Reaches(nodes, EndOfStream, 0x42);
    assert PathTo(nodes, 257, 0x42) == [0];
    assert PathTo(nodes, 258, 0x42) == [0, 0];
    assert !Reaches(nodes, 0x41, EndOfStream);
    assert PathTo(nodes, 257, EndOfStream) == [1];
    assert PathTo(nodes, 258, EndOfStream) == [0, 1];
    assert FitsU32(nodes, 258) by {
      forall l | 0 <= l <= EndOfStream && Reaches(nodes, 258, l)
        ensures |PathTo(nodes, 258, l)| <= 32
      {
        ExampleLeaves(nodes, l);
      }
    }
    CodeTableCorrect(nodes, 258, 0x41);
    CodeTableCorrect(nodes, 258, 0x42);
    CodeTableCorrect(nodes, 258, EndOfStream);
  }

  /** The codes the compressor derives for the example: A is `1`, B is `00`
      and the end of stream is `01`. */
  lemma ExampleCodes(t: seq<nat>)
    requires ExampleTable(t)
    ensures Weight(Leaves(t), EndOfStream + 1) < U32Max
    ensures var (nodes, root) := BuildTree(t);
      var codes := CodeTable(nodes, root);
      && root == 258
      && CodeBits(codes[0x41]) == [1]
      && CodeBits(codes[0x42]) == [0, 0]
      && CodeBits(codes[EndOfStream]) == [0, 1]
  {
    ExampleShape(t);
    TreeCodes(BuildTree(t).0);
  }
}
