/** The bit channel of src/bitio.rs: bits are packed most-significant first
    into bytes through a one-hot `mask` and an accumulator `rack`, and unpacked
    the same way. The file behind the channel is a byte sequence: a writer
    appends to `out`, a reader consumes `input` from index `pos`. */
module BitIo {
  import opened Common

  /** The mask a freshly opened channel starts with. */
  const FirstMask: byte := 0x80

  /** The masks a channel can hold: exactly one of the eight bits set. */
  predicate OneHot(mask: int)
  {
    mask == 0x80 || mask == 0x40 || mask == 0x20 || mask == 0x10 ||
    mask == 0x08 || mask == 0x04 || mask == 0x02 || mask == 0x01
  }

  /** Number of bit positions at or below a one-hot mask: 8 for 0x80, 1 for 0x01. */
  function MaskWidth(mask: nat): nat
  {
    if mask >= 0x80 then 8 else if mask >= 0x40 then 7 else if mask >= 0x20 then 6
    else if mask >= 0x10 then 5 else if mask >= 0x08 then 4 else if mask >= 0x04 then 3
    else if mask >= 0x02 then 2 else 1
  }

  /** `v & mask != 0` for a one-hot mask. */
  function TestBit(v: nat, mask: nat): bit
  {
    if mask == 0 then 0 else (v / mask) % 2
  }

  /** `v | mask` for a one-hot mask. */
  function SetBit(v: nat, mask: nat): nat
  {
    if TestBit(v, mask) == 1 then v else v + mask
  }

  /** The bits of a byte sequence, each byte most-significant bit first. */
  function Unpack(bytes: seq<byte>): (r: seq<bit>)
    ensures |r| == 8 * |bytes|
  {
    if |bytes| == 0 then [] else Unpack(bytes[..|bytes| - 1]) + LowBits(bytes[|bytes| - 1], 8)
  }

  lemma {:induction false} UnpackAppend(a: seq<byte>, b: seq<byte>)
    ensures Unpack(a + b) == Unpack(a) + Unpack(b)
  {
    if |b| > 0 {
      var b' := b[..|b| - 1];
      assert (a + b)[..|a + b| - 1] == a + b';
      assert (a + b)[|a + b| - 1] == b[|b| - 1];
      UnpackAppend(a, b');
      assert Unpack(b) == Unpack(b') + LowBits(b[|b| - 1], 8);
    } else {
      assert a + b == a;
    }
  }

  lemma UnpackSingle(c: byte)
    ensures Unpack([c]) == LowBits(c, 8)
  {
    var one: seq<byte> := [c];
    assert one[..0] == [];
  }

  lemma {:induction false} UnpackCons(bytes: seq<byte>)
    requires |bytes| > 0
    ensures Unpack(bytes) == LowBits(bytes[0], 8) + Unpack(bytes[1..])
    decreases |bytes|
  {
    var init, last := bytes[..|bytes| - 1], bytes[|bytes| - 1];
    if |bytes| == 1 {
      assert bytes[1..] == [] && init == [];
    } else {
      UnpackCons(init);
      assert init[0] == bytes[0];
      assert bytes[1..][..|bytes| - 2] == init[1..];
      assert Unpack(bytes[1..]) == Unpack(init[1..]) + LowBits(last, 8);
    }
  }

  /** What the eight masks have in common, checked mask by mask. */
  lemma MaskFacts(m: nat)
    requires OneHot(m)
    ensures 1 <= MaskWidth(m) <= 8
    ensures m == Pow2(MaskWidth(m) - 1)
    ensures 2 * m == Pow2(MaskWidth(m))
    ensures Pow2(8 - MaskWidth(m)) * (2 * m) == 256
    ensures m == 0x80 <==> MaskWidth(m) == 8
    ensures m == 0x01 <==> MaskWidth(m) == 1
    ensures m != 0x01 ==> OneHot(m / 2) && MaskWidth(m / 2) == MaskWidth(m) - 1
  {
    assert Pow2(1) == 2 && Pow2(2) == 4 && Pow2(3) == 8 && Pow2(4) == 16;
    assert Pow2(5) == 32 && Pow2(6) == 64 && Pow2(7) == 128 && Pow2(8) == 256;
  }

  /** `v * 2^k` shows `k` zero bits below the bits of `v`. */
  lemma {:induction false} LowBitsShifted(x: nat, n: nat, k: nat)
    ensures LowBits(x * Pow2(k), n + k) == LowBits(x, n) + Zeros(k)
  {
    if k > 0 {
      var h := x * Pow2(k - 1);
      MulTwice(x, Pow2(k - 1));
      var v := x * Pow2(k);
      assert v == 2 * h;
      assert v / 2 == h && v % 2 == 0;
      LowBitsShifted(x, n, k - 1);
    }
  }

  /** Peeling the most significant of `n + 1` low bits. */
  lemma {:induction false} LowBitsCons(v: nat, n: nat)
    ensures LowBits(v, n + 1) == [BitOf(v, n)] + LowBits(v, n)
  {
    if n > 0 {
      LowBitsCons(v / 2, n - 1);
      DivDiv(v, 2, Pow2(n - 1));
    }
  }

  // ---------------------------------------------------------------------
  // Writing
  // ---------------------------------------------------------------------

  datatype BitWriter = BitWriter(mask: byte, rack: nat, out: seq<byte>)

  /** `BitFile::open` for writing: an empty file, mask 0x80, empty rack. */
  function OpenWriter(): (w: BitWriter)
    ensures WriterValid(w) && Written(w) == []
  {
    BitWriter(FirstMask, 0, [])
  }

  /** The output invariant: the mask is one-hot, the rack holds one byte, and
      only positions above the mask (those already written) may be set. */
  predicate WriterValid(w: BitWriter)
  {
    OneHot(w.mask) && w.rack < 256 && w.rack % (2 * w.mask) == 0
  }

  /** The bits packed into the rack but not yet written out. */
  function Pending(w: BitWriter): seq<bit>
    requires OneHot(w.mask)
  {
    LowBits(w.rack / (2 * w.mask), 8 - MaskWidth(w.mask))
  }

  /** Every bit the writer has accepted so far, in order. */
  function Written(w: BitWriter): seq<bit>
    requires OneHot(w.mask)
  {
    Unpack(w.out) + Pending(w)
  }

  /** `output_bit`: set the rack bit under the mask when `bit` is nonzero, shift
      the mask right, and once all eight positions are used append the rack as
      one byte and start a fresh rack. */
  function OutputBit(w: BitWriter, bit: int): (w': BitWriter)
    ensures WriterValid(w) ==> WriterValid(w')
    ensures WriterValid(w) ==> Written(w') == Written(w) + [if bit != 0 then 1 else 0]
    ensures w'.mask == if w.mask / 2 == 0 then FirstMask else w.mask / 2
    ensures |w'.out| == |w.out| + (if w.mask <= 1 then 1 else 0)
    ensures w'.out[..|w.out|] == w.out
  {
    var rack := if bit != 0 then SetBit(w.rack, w.mask) else w.rack;
    var mask := w.mask / 2;
    if mask == 0 then
      var w' := BitWriter(FirstMask, 0, w.out + [rack % 256]);
      OutputBitStep(w, bit, w');
      w'
    else
      var w' := BitWriter(mask, rack, w.out);
      OutputBitStep(w, bit, w');
      w'
  }

  /** The arithmetic behind one `output_bit` step, for any of the eight
      masks: the bit under the mask is clear, and setting it to `b` keeps the
      higher bits and makes `b` the bit under the mask. */
  lemma OutputBitArith(rack: nat, m: nat, b: bit)
    requires OneHot(m) && rack < 256 && rack % (2 * m) == 0
    ensures TestBit(rack, m) == 0
    ensures rack + b * m < 256
    ensures (rack + b * m) % m == 0
    ensures (rack + b * m) / m / 2 == rack / (2 * m)
    ensures (rack + b * m) / m % 2 == b
  {
    RackDivs(rack, m, b);
    RackRoom(rack, m);
    assert b * m <= m;
  }

  /** Setting the bit under `m` in a rack whose bits at and below `m` are clear. */
  lemma RackDivs(rack: nat, m: nat, b: bit)
    requires m > 0 && rack % (2 * m) == 0
    ensures (rack / m) % 2 == 0
    ensures (rack + b * m) % m == 0
    ensures (rack + b * m) / m / 2 == rack / (2 * m)
    ensures (rack + b * m) / m % 2 == b
  {
    var q := rack / (2 * m);
    assert rack == m * (2 * q) by {
      DivUnique(rack, 2 * m, q, 0);
    }
    DivUnique(rack, m, 2 * q, 0);
    assert rack + b * m == m * (2 * q + b);
    DivUnique(rack + b * m, m, 2 * q + b, 0);
  }

  /** A rack whose bits at and below the mask are clear has room for the bit
      under the mask. */
  lemma RackRoom(rack: nat, m: nat)
    requires OneHot(m) && rack < 256 && rack % (2 * m) == 0
    ensures rack + m < 256
  {
    if m == 0x80 {
      assert rack % 0x100 == 0;
    } else if m == 0x40 {
      assert rack % 0x80 == 0;
    } else if m == 0x20 {
      assert rack % 0x40 == 0;
    } else if m == 0x10 {
      assert rack % 0x20 == 0;
    } else if m == 0x08 {
      assert rack % 0x10 == 0;
    } else if m == 0x04 {
      assert rack % 0x08 == 0;
    } else if m == 0x02 {
      assert rack % 0x04 == 0;
    }
  }

  lemma OutputBitStep(w: BitWriter, bit: int, w': BitWriter)
    requires w'.mask == (if w.mask / 2 == 0 then FirstMask else w.mask / 2)
    requires w'.mask == FirstMask ==>
      w' == BitWriter(FirstMask, 0, w.out + [(if bit != 0 then SetBit(w.rack, w.mask) else w.rack) % 256])
    requires w.mask / 2 != 0 ==>
      w' == BitWriter(w.mask / 2, if bit != 0 then SetBit(w.rack, w.mask) else w.rack, w.out)
    ensures WriterValid(w) ==> WriterValid(w')
    ensures WriterValid(w) ==> Written(w') == Written(w) + [if bit != 0 then 1 else 0]
  {
    if WriterValid(w) {
      var m, rack, out := w.mask, w.rack, w.out;
      var b: bit := if bit != 0 then 1 else 0;
      OutputBitArith(rack, m, b);
      assert (if bit != 0 then SetBit(rack, m) else rack) == rack + b * m;
      assert w == BitWriter(m, rack, out);
      if m == 1 {
        assert w' == BitWriter(FirstMask, 0, out + [rack + b]);
        FlushStep(out, rack, b);
      } else {
        assert w' == BitWriter(m / 2, rack + b * m, out);
        ShiftStep(out, rack, m, b);
      }
    }
  }

  /** A step that fills the last position of the rack emits the byte. */
  lemma FlushStep(out: seq<byte>, rack: nat, b: bit)
    requires rack < 256 && rack % 2 == 0
    ensures WriterValid(BitWriter(1, rack, out))
    ensures WriterValid(BitWriter(FirstMask, 0, out + [rack + b]))
    ensures Written(BitWriter(FirstMask, 0, out + [rack + b])) == Written(BitWriter(1, rack, out)) + [b]
  {
    MaskFacts(1);
    MaskFacts(FirstMask);
    var c: byte := rack + b;
    assert Pending(BitWriter(FirstMask, 0, out + [c])) == [];
    assert Pending(BitWriter(1, rack, out)) == LowBits(rack / 2, 7);
    UnpackAppend(out, [c]);
    UnpackSingle(c);
    assert LowBits(c, 8) == LowBits(c / 2, 7) + [c % 2];
    assert c / 2 == rack / 2 && c % 2 == b;
  }

  /** A step that does not fill the rack sets the bit under the mask and
      shifts the mask. */
  lemma ShiftStep(out: seq<byte>, rack: nat, m: nat, b: bit)
    requires OneHot(m) && m != 1 && rack < 256 && rack % (2 * m) == 0
    ensures OneHot(m / 2) && WriterValid(BitWriter(m / 2, rack + b * m, out))
    ensures Written(BitWriter(m / 2, rack + b * m, out)) == Written(BitWriter(m, rack, out)) + [b]
  {
    var width := MaskWidth(m);
    assert OneHot(m / 2) && MaskWidth(m / 2) == width - 1 && 2 * (m / 2) == m && 2 <= width <= 8 by {
      MaskFacts(m);
    }
    OutputBitArith(rack, m, b);
    var rack' := rack + b * m;
    var high := LowBits(rack / (2 * m), 8 - width);
    assert Pending(BitWriter(m / 2, rack', out)) == high + [b] by {
      assert Pending(BitWriter(m / 2, rack', out)) == LowBits(rack' / m, 9 - width);
      PushLowBit(rack' / m, rack / (2 * m), b, 8 - width);
    }
    assert Written(BitWriter(m, rack, out)) == Unpack(out) + high;
    assert Unpack(out) + (high + [b]) == (Unpack(out) + high) + [b];
  }

  /** A value whose halving is `high` and whose parity is `b` shows the bits
      of `high`, then `b`. */
  lemma PushLowBit(v: nat, high: nat, b: bit, n: nat)
    requires v / 2 == high && v % 2 == b
    ensures LowBits(v, n + 1) == LowBits(high, n) + [b]
  {
  }

  /** `output_bit` applied to each bit of `bits` in turn. */
  function OutputBitSeq(w: BitWriter, bits: seq<bit>): (w': BitWriter)
    ensures WriterValid(w) ==> WriterValid(w')
    ensures |w'.out| >= |w.out|
    decreases |bits|
  {
    if |bits| == 0 then w else OutputBitSeq(OutputBit(w, bits[0]), bits[1..])
  }

  /** Writing a bit sequence adds exactly those bits to what has been written. */
  lemma {:induction false} OutputBitSeqWritten(w: BitWriter, bits: seq<bit>)
    requires WriterValid(w)
    ensures WriterValid(OutputBitSeq(w, bits))
    ensures Written(OutputBitSeq(w, bits)) == Written(w) + bits
    decreases |bits|
  {
    if |bits| > 0 {
      OutputBitSeqWritten(OutputBit(w, bits[0]), bits[1..]);
      assert bits == [bits[0]] + bits[1..];
    }
  }

  /** Writing bits never changes the bytes already in the file. */
  lemma {:induction false} OutputBitSeqKeepsOutput(w: BitWriter, bits: seq<bit>)
    ensures |OutputBitSeq(w, bits).out| >= |w.out|
    ensures OutputBitSeq(w, bits).out[..|w.out|] == w.out
    decreases |bits|
  {
    if |bits| > 0 {
      var w1 := OutputBit(w, bits[0]);
      OutputBitSeqKeepsOutput(w1, bits[1..]);
      assert w1.out[..|w.out|] == w.out;
      assert OutputBitSeq(w, bits).out[..|w1.out|][..|w.out|] == OutputBitSeq(w, bits).out[..|w.out|];
    }
  }

  lemma {:induction false} OutputBitSeqAppend(w: BitWriter, a: seq<bit>, b: seq<bit>)
    ensures OutputBitSeq(w, a + b) == OutputBitSeq(OutputBitSeq(w, a), b)
    decreases |a|
  {
    if |a| > 0 {
      assert (a + b)[1..] == a[1..] + b;
      assert (a + b)[0] == a[0];
      OutputBitSeqAppend(OutputBit(w, a[0]), a[1..], b);
    } else {
      assert a + b == b;
    }
  }

  /** `output_bits`: writes bits `count-1` down to `0` of `code`, most
      significant first, by the same steps as `output_bit`. */
  method OutputBits(w: BitWriter, code: nat, count: nat) returns (w': BitWriter)
    requires count <= 64
    ensures w' == OutputBitSeq(w, LowBits(code, count))
  {
    w' := w;
    if count == 0 {
      return;
    }
    var bitMask: nat := Pow2(count - 1);
    ghost var left: nat := count;
    while bitMask != 0
      invariant left <= count
      invariant bitMask == if left == 0 then 0 else Pow2(left - 1)
      invariant OutputBitSeq(w', LowBits(code, count)[count - left..]) == OutputBitSeq(w, LowBits(code, count))
      decreases left
    {
      LowBitsIndex(code, count, count - left);
      var suffix := LowBits(code, count)[count - left..];
      assert suffix[1..] == LowBits(code, count)[count - left + 1..];
      w' := OutputBit(w', if TestBit(code, bitMask) == 1 then 1 else 0);
      HalveMask(left);
      bitMask := bitMask / 2;
      left := left - 1;
    }
  }

  /** `output_bits(code, 0)` leaves the channel as it was. */
  lemma OutputBitsNothing(w: BitWriter, code: nat)
    ensures OutputBitSeq(w, LowBits(code, 0)) == w
  {
  }

  /** Bits of `code` at position `count` or higher do not reach the channel. */
  lemma OutputBitsIgnoresHighBits(w: BitWriter, code: nat, count: nat)
    ensures OutputBitSeq(w, LowBits(code % Pow2(count), count)) == OutputBitSeq(w, LowBits(code, count))
  {
    LowBitsMod(code, count);
  }

  /** Eight `output_bit` calls from a fresh rack append exactly one byte, the
      eight bits most-significant first, and leave the rack fresh again. */
  lemma EightBitsMakeAByte(out: seq<byte>, bits: seq<bit>)
    requires |bits| == 8
    ensures var w' := OutputBitSeq(BitWriter(FirstMask, 0, out), bits);
      w'.mask == FirstMask && w'.rack == 0 && |w'.out| == |out| + 1 &&
      w'.out[..|out|] == out && w'.out[|out|] == BitsValue(bits)
  {
    var w := BitWriter(FirstMask, 0, out);
    var w' := OutputBitSeq(w, bits);
    OutputBitSeqGrowth(w, bits);
    var c := w'.out[|out|];
    assert w'.out == out + [c];
    FreshRack(out);
    OutputBitSeqWritten(w, bits);
    FreshRack(out + [c]);
    UnpackAppend(out, [c]);
    UnpackSingle(c);
    assert Pow2(8) == 256;
    ByteOfBits(Unpack(out), c, 8, bits);
  }

  /** A writer with mask 0x80 and an empty rack has nothing pending. */
  lemma FreshRack(out: seq<byte>)
    ensures WriterValid(BitWriter(FirstMask, 0, out))
    ensures Written(BitWriter(FirstMask, 0, out)) == Unpack(out)
  {
    MaskFacts(FirstMask);
    assert Pending(BitWriter(FirstMask, 0, out)) == [];
  }

  /** A value below `2^n` whose `n` low bits are `bits` has the value of
      `bits`. */
  lemma ByteOfBits(prefix: seq<bit>, v: nat, n: nat, bits: seq<bit>)
    requires v < Pow2(n) && prefix + LowBits(v, n) == prefix + bits
    ensures v == BitsValue(bits)
  {
    assert LowBits(v, n) == bits by {
      DropPrefix(prefix, LowBits(v, n));
      DropPrefix(prefix, bits);
    }
    LowBitsValue(v, n);
  }

  lemma DropPrefix<T>(prefix: seq<T>, s: seq<T>)
    ensures (prefix + s)[|prefix|..] == s
  {
  }

  /** Bookkeeping for `EightBitsMakeAByte`: the writer's position in its byte
      after some bits, starting from a fresh rack. */
  lemma {:induction false} OutputBitSeqGrowth(w: BitWriter, bits: seq<bit>)
    requires w.mask == FirstMask && w.rack == 0 && |bits| == 8
    ensures |OutputBitSeq(w, bits).out| == |w.out| + 1
    ensures OutputBitSeq(w, bits).out[..|w.out|] == w.out
    ensures OutputBitSeq(w, bits).mask == FirstMask
    ensures OutputBitSeq(w, bits).rack == 0
  {
    var w1 := OutputBit(w, bits[0]);
    var w2 := OutputBit(w1, bits[1]);
    var w3 := OutputBit(w2, bits[2]);
    var w4 := OutputBit(w3, bits[3]);
    var w5 := OutputBit(w4, bits[4]);
    var w6 := OutputBit(w5, bits[5]);
    var w7 := OutputBit(w6, bits[6]);
    var w8 := OutputBit(w7, bits[7]);
    assert OutputBitSeq(w7, bits[7..]) == w8;
    assert OutputBitSeq(w6, bits[6..]) == w8;
    assert OutputBitSeq(w5, bits[5..]) == w8;
    assert OutputBitSeq(w4, bits[4..]) == w8;
    assert OutputBitSeq(w3, bits[3..]) == w8;
    assert OutputBitSeq(w2, bits[2..]) == w8;
    assert OutputBitSeq(w1, bits[1..]) == w8;
    assert OutputBitSeq(w, bits) == w8;
  }

  /** `close_output`: flush a partly filled rack as one last byte. */
  function CloseOutput(w: BitWriter): (bytes: seq<byte>)
    ensures |bytes| == |w.out| + (if w.mask != FirstMask then 1 else 0)
    ensures bytes[..|w.out|] == w.out
    ensures WriterValid(w) ==>
      Unpack(bytes) == Written(w) + Zeros(if w.mask == FirstMask then 0 else MaskWidth(w.mask))
  {
    var bytes := if w.mask != FirstMask then w.out + [w.rack % 256] else w.out;
    CloseOutputFlushes(w, bytes);
    bytes
  }

  lemma CloseOutputFlushes(w: BitWriter, bytes: seq<byte>)
    requires bytes == if w.mask != FirstMask then w.out + [w.rack % 256] else w.out
    ensures WriterValid(w) ==>
      Unpack(bytes) == Written(w) + Zeros(if w.mask == FirstMask then 0 else MaskWidth(w.mask))
  {
    if WriterValid(w) {
      if w.mask == FirstMask {
        FullRack(w);
      } else {
        assert w.rack % 256 == w.rack;
        FlushPartial(w.out, w.rack, w.mask);
      }
    }
  }

  /** With mask 0x80 the rack holds nothing pending. */
  lemma FullRack(w: BitWriter)
    requires w.mask == FirstMask
    ensures Written(w) + Zeros(0) == Unpack(w.out)
  {
    assert Pending(w) == [];
    assert Zeros(0) == [];
  }

  lemma FlushPartial(out: seq<byte>, rack: nat, m: nat)
    requires OneHot(m) && m != FirstMask && rack < 256 && rack % (2 * m) == 0
    ensures Unpack(out + [rack]) == Written(BitWriter(m, rack, out)) + Zeros(MaskWidth(m))
  {
    assert LowBits(rack, 8) == Pending(BitWriter(m, rack, out)) + Zeros(MaskWidth(m)) by {
      MaskFacts(m);
      RackBits(rack, MaskWidth(m), 2 * m);
    }
    assert Unpack(out + [rack]) == Unpack(out) + LowBits(rack, 8) by {
      UnpackAppend(out, [rack]);
      UnpackSingle(rack);
    }
  }

  /** A byte whose low `w` bits are clear shows the bits of its quotient by
      `2^w`, then `w` zeros. */
  lemma RackBits(rack: nat, w: nat, d: nat)
    requires 1 <= w <= 8 && d == Pow2(w) && rack % d == 0
    ensures LowBits(rack, 8) == LowBits(rack / d, 8 - w) + Zeros(w)
  {
    ExactDiv(rack, d);
    LowBitsShifted(rack / d, 8 - w, w);
    assert 8 - w + w == 8;
  }

  /** A multiple of `d` is its quotient times `d`. */
  lemma ExactDiv(v: nat, d: nat)
    requires d > 0 && v % d == 0
    ensures v == (v / d) * d
  {
  }

  /** The flushed file holds one byte per started group of eight bits
      written. */
  lemma CloseOutputLength(w: BitWriter)
    requires WriterValid(w)
    ensures var n := |Written(w)|;
      8 * |CloseOutput(w)| == n + (8 - n % 8) % 8
  {
    WrittenLength(w);
    MaskFacts(w.mask);
    var p := 8 - MaskWidth(w.mask);
    assert |CloseOutput(w)| == |w.out| + (if p != 0 then 1 else 0);
    PadArith(|Written(w)|, |w.out|, p);
  }

  /** Each byte of the file holds eight bits and the rack holds the rest. */
  lemma WrittenLength(w: BitWriter)
    requires OneHot(w.mask)
    ensures |Written(w)| == 8 * |w.out| + (8 - MaskWidth(w.mask))
  {
    MaskFacts(w.mask);
  }

  /** Rounding `n = 8k + p` bits up to whole bytes. */
  lemma PadArith(n: nat, k: nat, p: nat)
    requires n == 8 * k + p && p < 8
    ensures 8 * (k + if p != 0 then 1 else 0) == n + (8 - n % 8) % 8
  {
    DivUnique(n, 8, k, p);
    if p != 0 {
      DivUnique(8 - p, 8, 0, 8 - p);
    }
  }

  // ---------------------------------------------------------------------
  // Reading
  // ---------------------------------------------------------------------

  datatype BitReader = BitReader(mask: byte, rack: nat, input: seq<byte>, pos: nat)

  /** `BitFile::open` for reading, positioned at byte `pos` of the file. */
  function OpenReader(input: seq<byte>, pos: nat): (r: BitReader)
    requires pos <= |input|
    ensures ReaderValid(r) && Remaining(r) == Unpack(input[pos..])
  {
    BitReader(FirstMask, 0, input, pos)
  }

  predicate ReaderValid(r: BitReader)
  {
    OneHot(r.mask) && r.rack < 256 && r.pos <= |r.input|
  }

  /** The bits a reader has yet to deliver: the unread part of the rack, then
      the unread bytes of the file. With mask 0x80 the rack is used up. */
  function Remaining(r: BitReader): seq<bit>
    requires ReaderValid(r)
  {
    (if r.mask == FirstMask then [] else LowBits(r.rack, MaskWidth(r.mask))) + Unpack(r.input[r.pos..])
  }

  /** `input_bit`: with mask 0x80 load the next byte into the rack (failing at
      the end of the file), then report the rack bit under the mask and shift
      the mask right, wrapping to 0x80. */
  function InputBit(r: BitReader): (res: Result<(bit, BitReader)>)
    ensures res.Err? <==> r.mask == FirstMask && r.pos >= |r.input|
    ensures res.Ok? ==> res.value.1.pos == r.pos + (if r.mask == FirstMask then 1 else 0)
    ensures res.Ok? ==> res.value.1.input == r.input
  {
    if r.mask == FirstMask && r.pos >= |r.input| then
      Err(UnexpectedEof)
    else
      var r1 := if r.mask == FirstMask then r.(rack := r.input[r.pos], pos := r.pos + 1) else r;
      var value := TestBit(r1.rack, r1.mask);
      var mask := r1.mask / 2;
      Ok((value, r1.(mask := if mask == 0 then FirstMask else mask)))
  }

  /** What `input_bit` reads: it fails exactly when no bit remains, and
      otherwise delivers the next bit and leaves the rest. */
  lemma InputBitReads(r: BitReader)
    requires ReaderValid(r)
    ensures InputBit(r).Err? <==> Remaining(r) == []
    ensures InputBit(r).Ok? ==> ReaderValid(InputBit(r).value.1)
    ensures InputBit(r).Ok? ==>
      InputBit(r).value.0 == Remaining(r)[0] && Remaining(InputBit(r).value.1) == Remaining(r)[1..]
  {
    if r.mask == FirstMask && r.pos >= |r.input| {
      InputBitEmpty(r);
    } else {
      var r1 := if r.mask == FirstMask then r.(rack := r.input[r.pos], pos := r.pos + 1) else r;
      var value := TestBit(r1.rack, r1.mask);
      var r2 := r1.(mask := if r1.mask / 2 == 0 then FirstMask else r1.mask / 2);
      assert InputBit(r) == Ok((value, r2));
      InputBitStep(r, r1, r2, value);
    }
  }

  lemma InputBitEmpty(r: BitReader)
    requires r.mask == FirstMask && r.pos >= |r.input|
    ensures ReaderValid(r) ==> Remaining(r) == []
  {
  }

  lemma InputBitStep(r: BitReader, r1: BitReader, r2: BitReader, value: bit)
    requires !(r.mask == FirstMask && r.pos >= |r.input|)
    requires r1 == if r.mask == FirstMask then r.(rack := r.input[r.pos], pos := r.pos + 1) else r
    requires value == TestBit(r1.rack, r1.mask)
    requires r2 == r1.(mask := if r1.mask / 2 == 0 then FirstMask else r1.mask / 2)
    ensures ReaderValid(r) ==> ReaderValid(r2)
    ensures ReaderValid(r) ==> Remaining(r) != []
    ensures ReaderValid(r) ==> value == Remaining(r)[0] && Remaining(r2) == Remaining(r)[1..]
  {
    if ReaderValid(r) {
      var rest := Unpack(r1.input[r1.pos..]);
      LoadedRemaining(r, r1);
      ShiftedRemaining(r1, r2);
      TopBit(r1.rack, r1.mask);
      var lower := LowBits(r1.rack, MaskWidth(r1.mask) - 1);
      assert Remaining(r) == [value] + (lower + rest);
    }
  }

  /** Once the rack is loaded, the bits to come are the rack's bits at and
      below the mask, then the unread bytes. */
  lemma LoadedRemaining(r: BitReader, r1: BitReader)
    requires ReaderValid(r) && !(r.mask == FirstMask && r.pos >= |r.input|)
    requires r1 == if r.mask == FirstMask then r.(rack := r.input[r.pos], pos := r.pos + 1) else r
    ensures OneHot(r1.mask) && r1.rack < 256 && r1.pos <= |r1.input|
    ensures Remaining(r) == LowBits(r1.rack, MaskWidth(r1.mask)) + Unpack(r1.input[r1.pos..])
  {
    if r.mask == FirstMask {
      UnpackCons(r.input[r.pos..]);
      assert r.input[r.pos..][1..] == r1.input[r1.pos..];
      assert MaskWidth(FirstMask) == 8;
    }
  }

  /** Shifting the mask right drops the bit under it from what is to come. */
  lemma ShiftedRemaining(r1: BitReader, r2: BitReader)
    requires OneHot(r1.mask) && r1.rack < 256 && r1.pos <= |r1.input|
    requires r2 == r1.(mask := if r1.mask / 2 == 0 then FirstMask else r1.mask / 2)
    ensures ReaderValid(r2)
    ensures Remaining(r2) == LowBits(r1.rack, MaskWidth(r1.mask) - 1) + Unpack(r1.input[r1.pos..])
  {
    MaskFacts(r1.mask);
    if r1.mask == 1 {
      assert LowBits(r1.rack, 0) == [];
    } else {
      MaskFacts(r1.mask / 2);
    }
  }

  /** The bit under a one-hot mask is the first of the rack's bits at and
      below it. */
  lemma TopBit(rack: nat, m: nat)
    requires OneHot(m)
    ensures MaskWidth(m) >= 1
    ensures LowBits(rack, MaskWidth(m)) == [TestBit(rack, m)] + LowBits(rack, MaskWidth(m) - 1)
  {
    MaskFacts(m);
    LowBitsCons(rack, MaskWidth(m) - 1);
  }

  /** `input_bit` called `n` times, collecting the bits in order. */
  function InputBitSeq(r: BitReader, n: nat): (res: Result<(seq<bit>, BitReader)>)
    ensures res.Ok? ==> |res.value.0| == n && res.value.1.input == r.input
    ensures res.Err? ==> res.error == UnexpectedEof && n > 0
    decreases n
  {
    if n == 0 then Ok(([], r))
    else match InputBit(r)
      case Err(e) => Err(e)
      case Ok((b, r1)) => Prepend([b], InputBitSeq(r1, n - 1))
  }

  function Prepend(front: seq<bit>, res: Result<(seq<bit>, BitReader)>): Result<(seq<bit>, BitReader)>
  {
    match res
    case Err(e) => Err(e)
    case Ok((bs, r)) => Ok((front + bs, r))
  }

  /** Reading `n` bits succeeds exactly when `n` bits remain, delivers the
      next `n` of them and leaves the rest. */
  lemma {:induction false} InputBitSeqRemaining(r: BitReader, n: nat)
    requires ReaderValid(r)
    decreases n
    ensures InputBitSeq(r, n).Ok? <==> n <= |Remaining(r)|
    ensures InputBitSeq(r, n).Ok? ==>
      var (bs, r') := InputBitSeq(r, n).value;
      ReaderValid(r') && bs == Remaining(r)[..n] && Remaining(r') == Remaining(r)[n..]
  {
    var all := Remaining(r);
    if n == 0 {
      assert all[..0] == [] && all[0..] == all;
    } else {
      InputBitReads(r);
      if InputBit(r).Ok? {
        var (b, r1) := InputBit(r).value;
        InputBitSeqRemaining(r1, n - 1);
        assert InputBitSeq(r, n) == Prepend([b], InputBitSeq(r1, n - 1));
        if n - 1 <= |Remaining(r1)| {
          SplitFirst(all, n);
        }
      }
    }
  }

  lemma SplitFirst(s: seq<bit>, n: nat)
    requires 1 <= n <= |s|
    ensures [s[0]] + s[1..][..n - 1] == s[..n]
    ensures s[1..][n - 1..] == s[n..]
  {
  }

  /** `input_bits`: reads `bitCount` bits and assembles them most-significant
      first, setting bit `i` of the result for each 1 read. */
  method InputBits(r: BitReader, bitCount: nat) returns (res: Result<(nat, BitReader)>)
    requires bitCount <= 64
    ensures res.Err? <==> InputBitSeq(r, bitCount).Err?
    ensures res.Ok? ==>
      res.value.0 == BitsValue(InputBitSeq(r, bitCount).value.0) &&
      res.value.1 == InputBitSeq(r, bitCount).value.1
    ensures res.Ok? ==> res.value.0 < Pow2(bitCount)
  {
    if bitCount == 0 {
      assert InputBitSeq(r, 0) == Ok(([], r));
      return Ok((0, r));
    }
    var bitMask: nat := Pow2(bitCount - 1);
    var returnValue: nat := 0;
    var cur := r;
    ghost var left: nat := bitCount;
    ghost var got: seq<bit> := [];
    assert BitsValue(got + Zeros(left)) == 0 by {
      ShiftZeros([], bitCount);
    }
    assert Prepend(got, InputBitSeq(cur, left)) == InputBitSeq(cur, left) by {
      PrependNothing(InputBitSeq(cur, left));
    }
    while bitMask != 0
      invariant left <= bitCount && |got| == bitCount - left
      invariant bitMask == if left == 0 then 0 else Pow2(left - 1)
      invariant returnValue == BitsValue(got + Zeros(left))
      invariant InputBitSeq(r, bitCount) == Prepend(got, InputBitSeq(cur, left))
      decreases left
    {
      var step := InputBit(cur);
      if step.Err? {
        assert InputBitSeq(cur, left).Err?;
        return Err(step.error);
      }
      var (b, next) := step.value;
      assert InputBitSeq(r, bitCount) == Prepend(got + [b], InputBitSeq(next, left - 1)) by {
        assert InputBitSeq(cur, left) == Prepend([b], InputBitSeq(next, left - 1));
        PrependPrepend(got, [b], InputBitSeq(next, left - 1));
      }
      assert (if b == 1 then SetBit(returnValue, bitMask) else returnValue) == BitsValue(got + [b] + Zeros(left - 1)) by {
        AccumulateBit(got, b, left, returnValue);
      }
      if b == 1 {
        returnValue := SetBit(returnValue, bitMask);
      }
      got := got + [b];
      cur := next;
      HalveMask(left);
      bitMask := bitMask / 2;
      left := left - 1;
    }
    assert left == 0;
    assert InputBitSeq(cur, 0) == Ok(([], cur));
    assert got + [] == got;
    assert InputBitSeq(r, bitCount) == Ok((got, cur));
    AllBitsRead(got, returnValue);
    assert |got| == bitCount;
    assert returnValue < Pow2(bitCount);
    res := Ok((returnValue, cur));
  }

  /** Halving the mask `2^(k-1)` moves it one bit down, to 0 after bit 0. */
  lemma HalveMask(k: nat)
    requires k >= 1
    ensures Pow2(k - 1) / 2 == if k - 1 == 0 then 0 else Pow2(k - 2)
  {
  }

  /** With no bits left to read, the accumulated value is the value of the
      bits read, and it fits in that many bits. */
  lemma AllBitsRead(got: seq<bit>, value: nat)
    requires value == BitsValue(got + Zeros(0))
    ensures value == BitsValue(got) && value < Pow2(|got|)
  {
    assert got + Zeros(0) == got;
    BitsValueBound(got);
  }

  lemma PrependNothing(res: Result<(seq<bit>, BitReader)>)
    ensures Prepend([], res) == res
  {
    if res.Ok? {
      assert [] + res.value.0 == res.value.0;
    }
  }

  lemma PrependPrepend(a: seq<bit>, b: seq<bit>, res: Result<(seq<bit>, BitReader)>)
    ensures Prepend(a, Prepend(b, res)) == Prepend(a + b, res)
  {
    if res.Ok? {
      assert a + (b + res.value.0) == (a + b) + res.value.0;
    }
  }

  /** One turn of the `input_bits` loop keeps the accumulated value equal to
      the bits read so far, shifted into place. */
  lemma AccumulateBit(got: seq<bit>, b: bit, left: nat, value: nat)
    requires left >= 1 && value == BitsValue(got + Zeros(left))
    ensures (if b == 1 then SetBit(value, Pow2(left - 1)) else value) == BitsValue(got + [b] + Zeros(left - 1))
  {
    ShiftZeros(got, left);
    ShiftZeros(got + [b], left - 1);
    BitsValueAppend(got, b);
    var x := BitsValue(got);
    if b == 1 {
      SetFreeBit(x, left);
    } else {
      assert Pow2(left) == 2 * Pow2(left - 1);
      MulTwice(x, Pow2(left - 1));
    }
  }

  /** Appending `k` zero bits multiplies the value by `2^k`. */
  lemma {:induction false} ShiftZeros(bs: seq<bit>, k: nat)
    ensures BitsValue(bs + Zeros(k)) == BitsValue(bs) * Pow2(k)
  {
    if k == 0 {
      assert bs + Zeros(0) == bs;
    } else {
      var v, p := BitsValue(bs), Pow2(k - 1);
      assert BitsValue(bs + Zeros(k)) == 2 * BitsValue(bs + Zeros(k - 1)) by {
        assert bs + Zeros(k) == (bs + Zeros(k - 1)) + [0];
        BitsValueAppend(bs + Zeros(k - 1), 0);
      }
      assert BitsValue(bs + Zeros(k - 1)) == v * p by {
        ShiftZeros(bs, k - 1);
      }
      assert 2 * (v * p) == v * Pow2(k) by {
        MulTwice(v, p);
      }
    }
  }

  lemma MulTwice(v: nat, p: nat)
    ensures 2 * (v * p) == v * (2 * p) == (2 * v) * p
  {
  }

  /** The bit `2^(k-1)` is clear in a multiple of `2^k`, so setting it adds it. */
  lemma SetFreeBit(x: nat, k: nat)
    requires k >= 1
    ensures SetBit(x * Pow2(k), Pow2(k - 1)) == (2 * x + 1) * Pow2(k - 1)
  {
    var p := Pow2(k - 1);
    assert x * Pow2(k) == (2 * x) * p;
    DivUnique(x * Pow2(k), p, 2 * x, 0);
  }

  /** `input_bits(0)` returns 0 and leaves the reader where it was. */
  lemma InputBitsNothing(r: BitReader)
    ensures InputBitSeq(r, 0) == Ok(([], r)) && BitsValue([]) == 0
  {
  }

  /** The bit round trip: write `bits`, close the file, then read `|bits|`
      bits from a fresh reader over it; the same bits come back. */
  lemma BitRoundTrip(bits: seq<bit>)
    ensures var bytes := CloseOutput(OutputBitSeq(OpenWriter(), bits));
      InputBitSeq(OpenReader(bytes, 0), |bits|).Ok? &&
      InputBitSeq(OpenReader(bytes, 0), |bits|).value.0 == bits
  {
    var w := OutputBitSeq(OpenWriter(), bits);
    OutputBitSeqWritten(OpenWriter(), bits);
    var bytes := CloseOutput(w);
    MaskFacts(w.mask);
    assert Unpack(bytes)[..|bits|] == bits;
    var r := OpenReader(bytes, 0);
    assert bytes[0..] == bytes;
    InputBitSeqRemaining(r, |bits|);
  }

  // ---------------------------------------------------------------------
  // Diagnostics
  // ---------------------------------------------------------------------

  /** The character `file_print_binary` writes for one bit. */
  function BinaryDigit(b: bit): char
  {
    if b == 1 then '1' else '0'
  }

  /** `file_print_binary`: the low `bits` bits of `code`, most significant
      first, as the characters '0' and '1'. */
  method FilePrintBinary(code: nat, bits: nat) returns (text: string)
    requires bits <= 32
    ensures |text| == bits
    ensures forall i :: 0 <= i < bits ==> text[i] == BinaryDigit(BitOf(code, bits - 1 - i))
  {
    text := "";
    if bits == 0 {
      return;
    }
    var mask: nat := Pow2(bits - 1);
    while mask != 0
      invariant |text| <= bits
      invariant mask == if |text| == bits then 0 else Pow2(bits - 1 - |text|)
      invariant forall i :: 0 <= i < |text| ==> text[i] == BinaryDigit(BitOf(code, bits - 1 - i))
      decreases bits - |text|
    {
      if TestBit(code, mask) == 1 {
        text := text + "1";
      } else {
        text := text + "0";
      }
      mask := mask / 2;
    }
  }

  /** The value of a string of binary digits, most significant first. */
  function BinaryValue(text: string): nat
  {
    if |text| == 0 then 0 else 2 * BinaryValue(text[..|text| - 1]) + (if text[|text| - 1] == '1' then 1 else 0)
  }

  /** Reading the printed digits back gives `code` reduced to `bits` bits. */
  lemma {:induction false} PrintedBinaryValue(code: nat, bits: nat, text: string)
    requires |text| == bits
    requires forall i :: 0 <= i < bits ==> text[i] == BinaryDigit(BitOf(code, bits - 1 - i))
    ensures BinaryValue(text) == code % Pow2(bits)
  {
    forall i | 0 <= i < bits
      ensures text[i] == BinaryDigit(LowBits(code, bits)[i])
    {
      LowBitsIndex(code, bits, i);
    }
    DigitsValue(LowBits(code, bits), text);
    LowBitsValue(code, bits);
  }

  lemma {:induction false} DigitsValue(bs: seq<bit>, text: string)
    requires |text| == |bs|
    requires forall i :: 0 <= i < |bs| ==> text[i] == BinaryDigit(bs[i])
    ensures BinaryValue(text) == BitsValue(bs)
  {
    if |bs| > 0 {
      DigitsValue(bs[..|bs| - 1], text[..|text| - 1]);
    }
  }
}
