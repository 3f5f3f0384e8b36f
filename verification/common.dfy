/** Shared vocabulary of the codec: bytes, bits, the failure result of the
    file reads, and bit strings read most-significant bit first. */
module Common {

  /** A value of Rust's `u8`. */
  type byte = b: int | 0 <= b < 256

  /** A single bit, as returned by `input_bit`. */
  type bit = b: int | 0 <= b < 2

  /** The reserved symbol that ends the coded stream (`END_OF_STREAM`). */
  const EndOfStream: nat := 256

  /** Size of the node array (`MAX_NODES`): 257 leaves, 256 internal nodes and
      the sentinel at index 513. */
  const MaxNodes: nat := 514

  /** The only failure the modelled code raises by itself: a read past the end
      of the file (`io::ErrorKind::UnexpectedEof`). */
  datatype IoError = UnexpectedEof

  /** The outcome of an operation that reads the file. */
  datatype Result<+T> = Ok(value: T) | Err(error: IoError)

  function Pow2(n: nat): (r: nat)
    ensures r >= 1
  {
    if n == 0 then 1 else 2 * Pow2(n - 1)
  }

  /** Bit `i` of `v` (`v & (1 << i) != 0`). */
  function BitOf(v: nat, i: nat): bit
  {
    (v / Pow2(i)) % 2
  }

  /** The number a bit string denotes when read most-significant bit first. */
  function BitsValue(bs: seq<bit>): nat
  {
    if |bs| == 0 then 0 else 2 * BitsValue(bs[..|bs| - 1]) + bs[|bs| - 1]
  }

  /** Bits `count-1` down to `0` of `v`, most-significant first. */
  function LowBits(v: nat, count: nat): (r: seq<bit>)
    ensures |r| == count
  {
    if count == 0 then [] else LowBits(v / 2, count - 1) + [v % 2]
  }

  /** `count` zero bits. */
  function Zeros(count: nat): (r: seq<bit>)
    ensures |r| == count
    ensures forall i :: 0 <= i < count ==> r[i] == 0
  {
    if count == 0 then [] else Zeros(count - 1) + [0]
  }

  lemma Pow2Add(a: nat, b: nat)
    ensures Pow2(a + b) == Pow2(a) * Pow2(b)
  {
    if a > 0 {
      Pow2Add(a - 1, b);
    }
  }

  lemma MulMono(d: int, x: int, y: int)
    requires d > 0 && x <= y
    ensures d * x <= d * y
  {
    assert d * y == d * x + d * (y - x);
  }

  /** Euclidean division is determined by any quotient/remainder pair. */
  lemma DivUnique(v: int, d: int, q: int, r: int)
    requires d > 0 && 0 <= r < d && v == d * q + r
    ensures v / d == q && v % d == r
  {
    var q0, r0 := v / d, v % d;
    assert d * (q0 - q) == r - r0;
    if q0 > q {
      MulMono(d, 1, q0 - q);
      assert false;
    } else if q0 < q {
      MulMono(d, q0 - q, -1);
      assert false;
    }
  }

  lemma DivDiv(v: nat, a: nat, b: nat)
    requires a > 0 && b > 0
    ensures v / a / b == v / (a * b)
  {
    var q1, r1 := v / a, v % a;
    var q2, r2 := q1 / b, q1 % b;
    assert q1 == b * q2 + r2;
    assert v == a * q1 + r1;
    assert a * q1 == (a * b) * q2 + a * r2 by {
      assert a * (b * q2 + r2) == a * (b * q2) + a * r2;
      assert a * (b * q2) == (a * b) * q2;
    }
    assert a * r2 + r1 < a * b by {
      MulMono(a, r2, b - 1);
      assert a * (b - 1) == a * b - a;
    }
    DivUnique(v, a * b, q2, a * r2 + r1);
  }

  /** A bit string has a value below two to the power of its length. */
  lemma {:induction false} BitsValueBound(bs: seq<bit>)
    ensures BitsValue(bs) < Pow2(|bs|)
  {
    if |bs| > 0 {
      BitsValueBound(bs[..|bs| - 1]);
    }
  }

  /** `v mod 2p` from `v/2 mod p`, the arithmetic step of `LowBitsValue`. */
  lemma ModDouble(v: nat, p: nat)
    requires p > 0
    ensures v % (2 * p) == 2 * ((v / 2) % p) + v % 2
  {
    var q, m := (v / 2) / p, (v / 2) % p;
    assert v == (2 * p) * q + (2 * m + v % 2) by {
      assert v / 2 == p * q + m;
      assert 2 * (p * q) == (2 * p) * q;
    }
    DivUnique(v, 2 * p, q, 2 * m + v % 2);
  }

  /** Writing the low `count` bits of `v` and reading them back gives `v`
      reduced modulo two to the `count`. */
  lemma {:induction false} LowBitsValue(v: nat, count: nat)
    ensures BitsValue(LowBits(v, count)) == v % Pow2(count)
  {
    if count > 0 {
      var bs := LowBits(v, count);
      assert bs[..count - 1] == LowBits(v / 2, count - 1);
      LowBitsValue(v / 2, count - 1);
      ModDouble(v, Pow2(count - 1));
    }
  }

  /** Reading a bit string's value back into the same number of bits gives
      the bit string itself. */
  lemma {:induction false} ValueLowBits(bs: seq<bit>)
    ensures LowBits(BitsValue(bs), |bs|) == bs
  {
    if |bs| > 0 {
      var init := bs[..|bs| - 1];
      ValueLowBits(init);
      var v := BitsValue(bs);
      assert v / 2 == BitsValue(init);
      assert v % 2 == bs[|bs| - 1];
      assert bs == init + [bs[|bs| - 1]];
    }
  }

  /** Bits at position `count` or higher do not affect `LowBits`. */
  lemma LowBitsMod(v: nat, count: nat)
    ensures LowBits(v % Pow2(count), count) == LowBits(v, count)
  {
    LowBitsValue(v, count);
    ValueLowBits(LowBits(v, count));
  }

  /** The element of `LowBits` at index `i` is bit `count-1-i` of the number. */
  lemma {:induction false} LowBitsIndex(v: nat, count: nat, i: nat)
    requires i < count
    ensures LowBits(v, count)[i] == BitOf(v, count - 1 - i)
  {
    if i == count - 1 {
      assert BitOf(v, 0) == v % 2;
    } else {
      LowBitsIndex(v / 2, count - 1, i);
      DivDiv(v, 2, Pow2(count - 2 - i));
    }
  }

  lemma {:induction false} BitsValueAppend(a: seq<bit>, b: bit)
    ensures BitsValue(a + [b]) == 2 * BitsValue(a) + b
  {
    assert (a + [b])[..|a|] == a;
  }
}
