/** The order-0 frequency model of src/huff.rs: a tally of the source bytes
    (`count_bytes`) squeezed into one byte per symbol (`scale_counts`). */
module Frequency {
  import opened Common

  /** `count_bytes`: the number of occurrences of every byte value. */
  function CountBytes(data: seq<byte>): (counts: seq<nat>)
    ensures |counts| == 256
    ensures forall b :: 0 <= b < 256 ==> counts[b] == multiset(data)[b]
  {
    if |data| == 0 then seq(256, _ => 0)
    else
      var init := data[..|data| - 1];
      var last := data[|data| - 1];
      assert data == init + [last];
      assert multiset(data) == multiset(init) + multiset{last};
      var counts := CountBytes(init);
      counts[last := counts[last] + 1]
  }

  function Sum(s: seq<nat>): nat
  {
    if |s| == 0 then 0 else Sum(s[..|s| - 1]) + s[|s| - 1]
  }

  lemma {:induction false} SumIncrement(s: seq<nat>, i: nat)
    requires i < |s|
    ensures Sum(s[i := s[i] + 1]) == Sum(s) + 1
  {
    var s' := s[i := s[i] + 1];
    if i < |s| - 1 {
      assert s'[..|s| - 1] == s[..|s| - 1][i := s[i] + 1];
      SumIncrement(s[..|s| - 1], i);
    } else {
      assert s'[..|s| - 1] == s[..|s| - 1];
    }
  }

  lemma {:induction false} SumZeros(n: nat)
    ensures Sum(seq(n, _ => 0)) == 0
  {
    if n > 0 {
      assert seq(n, _ => 0)[..n - 1] == seq(n - 1, _ => 0);
      SumZeros(n - 1);
    }
  }

  /** Every byte of the source is counted once: the tally adds up to its length. */
  lemma {:induction false} CountBytesTotal(data: seq<byte>)
    ensures Sum(CountBytes(data)) == |data|
  {
    if |data| == 0 {
      SumZeros(256);
    } else {
      var init := data[..|data| - 1];
      CountBytesTotal(init);
      SumIncrement(CountBytes(init), data[|data| - 1]);
    }
  }

  /** The largest count (`counts.iter().max().unwrap_or(&0)`). */
  function MaxCount(counts: seq<nat>): (m: nat)
    ensures forall i :: 0 <= i < |counts| ==> counts[i] <= m
    ensures |counts| == 0 ==> m == 0
    ensures |counts| > 0 ==> exists i :: 0 <= i < |counts| && counts[i] == m
  {
    if |counts| == 0 then 0
    else
      var m := MaxCount(counts[..|counts| - 1]);
      var last := counts[|counts| - 1];
      if last > m then last
      else
        assert |counts| - 1 > 0 ==> exists i :: 0 <= i < |counts| - 1 && counts[i] == m;
        assert |counts| - 1 == 0 ==> m == 0;
        m
  }

  /** The divisor of `scale_counts`: the largest count (at least 1) over 255,
      plus one. */
  function ScaleFactor(counts: seq<nat>): (scale: nat)
  {
    (if MaxCount(counts) == 0 then 1 else MaxCount(counts)) / 255 + 1
  }

  /** One scaled slot: the count divided by the scale, raised to 1 when a
      nonzero count would vanish. */
  function ScaleOne(count: nat, scale: nat): nat
    requires scale > 0
  {
    if count / scale == 0 && count != 0 then 1 else count / scale
  }

  /** `scale_counts`: slots 0..255 scaled into one byte each, the end-of-stream
      slot 256 pinned to 1. */
  function ScaleCounts(counts: seq<nat>): (scaled: seq<nat>)
    requires |counts| == 256
    ensures |scaled| == 257
    ensures scaled[EndOfStream] == 1
    ensures forall i :: 0 <= i < 256 ==> scaled[i] < 255
    ensures forall i :: 0 <= i < 256 ==> (scaled[i] != 0 <==> counts[i] != 0)
    ensures MaxCount(counts) <= 254 ==> forall i :: 0 <= i < 256 ==> scaled[i] == counts[i]
    ensures forall i, j :: 0 <= i < 256 && 0 <= j < 256 && counts[i] <= counts[j] ==> scaled[i] <= scaled[j]
  {
    var scale := ScaleFactor(counts);
    var scaled := seq(257, i requires 0 <= i < 257 => if i == EndOfStream then 1 else ScaleOne(counts[i], scale));
    forall i | 0 <= i < 256
      ensures scaled[i] < 255
    {
      ScaleBound(counts, i);
    }
    forall i | 0 <= i < 256
      ensures MaxCount(counts) <= 254 ==> scaled[i] == counts[i]
    {
      if MaxCount(counts) <= 254 {
        assert scale == 1;
      }
    }
    forall i, j | 0 <= i < 256 && 0 <= j < 256 && counts[i] <= counts[j]
      ensures scaled[i] <= scaled[j]
    {
      DivMono(counts[i], counts[j], scale);
    }
    scaled
  }

  lemma DivMono(a: nat, b: nat, d: nat)
    requires a <= b && d > 0
    ensures a / d <= b / d
  {
    if a / d > b / d {
      MulMono(d, b / d + 1, a / d);
      assert false;
    }
  }

  /** A scaled slot stays below 255: the scale was chosen so that even the
      largest count divides to less than 255. */
  lemma ScaleBound(counts: seq<nat>, i: nat)
    requires |counts| == 256 && i < 256
    ensures ScaleOne(counts[i], ScaleFactor(counts)) < 255
  {
    var top := if MaxCount(counts) == 0 then 1 else MaxCount(counts);
    var scale := ScaleFactor(counts);
    assert top < 255 * scale by {
      assert top == 255 * (top / 255) + top % 255;
    }
    DivMono(counts[i], top, scale);
    DivBelow(top, scale, 255);
  }

  lemma DivBelow(x: nat, d: nat, k: nat)
    requires d > 0 && x < k * d
    ensures x / d < k
  {
    if x / d >= k {
      MulMono(d, k, x / d);
      assert false;
    }
  }
}
