/** The code table of src/huff.rs (`convert_tree_to_code`): a depth-first
    walk of the tree that gives every leaf the bits of its path from the root,
    accumulated in a `u32`. */
module Codes {
  import opened Common
  import opened Tree

  /** One entry of the code table (`Code`): the code value and its length. */
  datatype Code = Code(code: nat, bits: nat)

  /** The range of a `u32`. */
  const U32Range: nat := 0x1_0000_0000

  /** The table before the walk: every entry zero (`Code::default()`). */
  function NoCodes(): (codes: seq<Code>)
    ensures |codes| == EndOfStream + 1
    ensures forall l :: 0 <= l <= EndOfStream ==> codes[l] == Code(0, 0)
  {
    seq(EndOfStream + 1, _ => Code(0, 0))
  }

  /** `(code << 1) | b` on a `u32`: the shift drops bit 31, and the low bit
      it frees is where `b` goes. */
  function ShiftIn(code: nat, b: bit): nat
  {
    (2 * code) % U32Range + b
  }

  /** The entry the walk records for `leaf` when it enters `node` with
      `code` and `bits`: the path below `node` appended to `code`, kept to 32
      bits, and its length added to `bits`. */
  ghost function CodeBelow(nodes: seq<Node>, node: nat, code: nat, bits: nat, leaf: nat): Code
    requires Shaped(nodes) && node < |nodes| && Reaches(nodes, node, leaf)
  {
    var path := PathTo(nodes, node, leaf);
    Code((code * Pow2(|path|) + BitsValue(path)) % U32Range, bits + |path|)
  }

  /** `convert_tree_to_code` from `node`: every leaf below `node` gets the
      entry of its last-recorded path, and every other entry is unchanged. */
  function ConvertTreeToCode(nodes: seq<Node>, codes: seq<Code>, code: nat, bits: nat, node: nat): (codes': seq<Code>)
    requires Shaped(nodes) && node < |nodes| && |codes| == EndOfStream + 1 && code < U32Range
    ensures |codes'| == EndOfStream + 1
    ensures forall l :: 0 <= l <= EndOfStream ==>
      codes'[l] == if Reaches(nodes, node, l) then CodeBelow(nodes, node, code, bits, l) else codes[l]
    decreases node
  {
    if node <= EndOfStream then
      codes[node := Code(code, bits)]
    else
      var n := nodes[node];
      ShiftInBound(code, 0);
      ShiftInBound(code, 1);
      var left := ConvertTreeToCode(nodes, codes, ShiftIn(code, 0), bits + 1, n.child0);
      var right := ConvertTreeToCode(nodes, left, ShiftIn(code, 1), bits + 1, n.child1);
      forall l | 0 <= l <= EndOfStream && Reaches(nodes, node, l)
        ensures right[l] == CodeBelow(nodes, node, code, bits, l)
      {
        if Reaches(nodes, n.child1, l) {
          CodeBelowStep(nodes, node, code, bits, l, 1);
        } else {
          CodeBelowStep(nodes, node, code, bits, l, 0);
        }
      }
      right
  }

  lemma ShiftInBound(code: nat, b: bit)
    ensures ShiftIn(code, b) < U32Range
  {
    assert (2 * code) % U32Range % 2 == 0 by {
      ModOfEven(code, U32Range / 2);
    }
  }

  /** Reducing an even number modulo an even number leaves it even. */
  lemma ModOfEven(c: nat, h: nat)
    requires h > 0
    ensures (2 * c) % (2 * h) % 2 == 0
  {
    DivUnique(2 * c, 2 * h, c / h, 2 * (c % h));
  }

  /** One level of the walk: the entry recorded through child `b` is the entry
      recorded from `node` itself. */
  lemma CodeBelowStep(nodes: seq<Node>, node: nat, code: nat, bits: nat, leaf: nat, b: bit)
    requires Shaped(nodes) && EndOfStream < node < |nodes| && code < U32Range
    requires Reaches(nodes, Child(nodes[node], b), leaf)
    requires b == 0 ==> !Reaches(nodes, nodes[node].child1, leaf)
    ensures Reaches(nodes, node, leaf)
    ensures CodeBelow(nodes, Child(nodes[node], b), ShiftIn(code, b), bits + 1, leaf)
      == CodeBelow(nodes, node, code, bits, leaf)
  {
    var sub := PathTo(nodes, Child(nodes[node], b), leaf);
    var path := PathTo(nodes, node, leaf);
    assert path == [b] + sub;
    BitsValuePrepend(b, sub);
    Pow2Add(1, |sub|);
    CodeArith(code, b, Pow2(|sub|), BitsValue(sub));
  }

  /** The arithmetic of one level: shifting `b` into the code and then
      appending `k` more bits of value `v` is appending `b` and those bits to
      the code, all modulo 2 to the 32. */
  lemma CodeArith(code: nat, b: bit, p: nat, v: nat)
    ensures (ShiftIn(code, b) * p + v) % U32Range == (code * (2 * p) + (b * p + v)) % U32Range
  {
    var x := 2 * code;
    assert (x % U32Range + b) * p + v == (x % U32Range) * p + (b * p + v);
    ModMulAdd(x, p, b * p + v, U32Range);
    assert x * p == code * (2 * p);
  }

  /** Replacing a factor by its remainder does not change a remainder. */
  lemma ModMulAdd(x: nat, y: nat, z: nat, m: nat)
    requires m > 0
    ensures ((x % m) * y + z) % m == (x * y + z) % m
  {
    var q := x / m;
    assert x * y == (x % m) * y + m * (q * y) by {
      assert x == m * q + x % m;
    }
    var v := (x % m) * y + z;
    DivUnique(v + m * (q * y), m, v / m + q * y, v % m);
  }

  lemma {:induction false} BitsValuePrepend(b: bit, bs: seq<bit>)
    ensures BitsValue([b] + bs) == b * Pow2(|bs|) + BitsValue(bs)
    decreases |bs|
  {
    if |bs| > 0 {
      var init := bs[..|bs| - 1];
      assert ([b] + bs)[..|bs|] == [b] + init;
      BitsValuePrepend(b, init);
    }
  }

  /** The code table the compressor builds: the walk from the root with an
      empty code. */
  function CodeTable(nodes: seq<Node>, root: nat): (codes: seq<Code>)
    requires Shaped(nodes) && root < |nodes|
    ensures |codes| == EndOfStream + 1
    ensures forall l :: 0 <= l <= EndOfStream && Reaches(nodes, root, l) ==> codes[l].bits == |PathTo(nodes, root, l)|
    ensures forall l :: 0 <= l <= EndOfStream && !Reaches(nodes, root, l) ==> codes[l] == Code(0, 0)
  {
    ConvertTreeToCode(nodes, NoCodes(), 0, 0, root)
  }

  /** Every leaf below `root` lies at depth 32 or less, so its code fits the
      `u32` of the walk. */
  ghost predicate FitsU32(nodes: seq<Node>, root: nat)
    requires Shaped(nodes) && root < |nodes|
  {
    forall l :: 0 <= l <= EndOfStream && Reaches(nodes, root, l) ==> |PathTo(nodes, root, l)| <= 32
  }

  /** The bits `output_bits` writes for a code table entry. */
  function CodeBits(c: Code): (bits: seq<bit>)
    ensures |bits| == c.bits
  {
    LowBits(c.code, c.bits)
  }

  /** The code of every leaf in the tree is its path from the root, and the
      leaves outside the tree keep the empty code. */
  lemma CodeTableCorrect(nodes: seq<Node>, root: nat, leaf: nat)
    requires Shaped(nodes) && root < |nodes| && FitsU32(nodes, root) && leaf <= EndOfStream
    ensures Reaches(nodes, root, leaf) ==>
      CodeBits(CodeTable(nodes, root)[leaf]) == PathTo(nodes, root, leaf)
      && CodeTable(nodes, root)[leaf].bits <= 32
    ensures !Reaches(nodes, root, leaf) ==> CodeTable(nodes, root)[leaf] == Code(0, 0)
  {
    if Reaches(nodes, root, leaf) {
      var path := PathTo(nodes, root, leaf);
      var v := BitsValue(path);
      assert CodeTable(nodes, root)[leaf] == CodeBelow(nodes, root, 0, 0, leaf);
      CodeBelowRoot(nodes, root, leaf);
      BitsValueBound(path);
      Pow2Mono(|path|, 32);
      Pow2ThirtyTwo();
      DivUnique(v, U32Range, 0, v);
      ValueLowBits(path);
    }
  }

  lemma CodeBelowRoot(nodes: seq<Node>, root: nat, leaf: nat)
    requires Shaped(nodes) && root < |nodes| && Reaches(nodes, root, leaf)
    ensures var path := PathTo(nodes, root, leaf);
      CodeBelow(nodes, root, 0, 0, leaf) == Code(BitsValue(path) % U32Range, |path|)
  {
    var path := PathTo(nodes, root, leaf);
    var p := Pow2(|path|);
    assert 0 * p == 0;
  }

  lemma Pow2ThirtyTwo()
    ensures Pow2(32) == U32Range
  {
    assert Pow2(8) == 256;
    Pow2Add(8, 8);
    Pow2Add(16, 16);
  }

  lemma {:induction false} Pow2Mono(a: nat, b: nat)
    requires a <= b
    ensures Pow2(a) <= Pow2(b)
    decreases b
  {
    if a < b {
      Pow2Mono(a, b - 1);
    }
  }

  /** No code in the table is a prefix of another leaf's code. */
  lemma CodesPrefixFree(nodes: seq<Node>, root: nat, l1: nat, l2: nat)
    requires Shaped(nodes) && root < |nodes| && FitsU32(nodes, root)
    requires l1 <= EndOfStream && l2 <= EndOfStream && l1 != l2
    requires Reaches(nodes, root, l1) && Reaches(nodes, root, l2)
    ensures var c1 := CodeBits(CodeTable(nodes, root)[l1]);
      var c2 := CodeBits(CodeTable(nodes, root)[l2]);
      !(|c1| <= |c2| && c2[..|c1|] == c1)
  {
    CodeTableCorrect(nodes, root, l1);
    CodeTableCorrect(nodes, root, l2);
    var p1, p2 := PathTo(nodes, root, l1), PathTo(nodes, root, l2);
    if |p1| <= |p2| && p2[..|p1|] == p1 {
      LeadsToPrefixFree(nodes, root, p1, p2, l1, l2);
    }
  }
}
