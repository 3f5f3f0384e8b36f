/** The header of the compressed file (src/huff.rs `output_counts` and
    `input_counts`): the scaled counts of slots 0..255 as runs
    `first, last, counts[first..=last]`, closed by a single 0 byte. The header
    is read and written on the file itself, before any bit of the payload. */
module Header {
  import opened Common

  /** One run of the header: the slots `first..=last`. */
  datatype Run = Run(first: nat, last: nat)

  /** Tables the encoder reads: slots 0..255 are used. */
  predicate IsTable(t: seq<nat>)
  {
    |t| >= 256
  }

  /** The first slot at or after `i` whose count is nonzero, or 256 when
      there is none (the skip loops on lines 34, 53 and 76). */
  function NextNonzero(t: seq<nat>, i: nat): (j: nat)
    requires IsTable(t) && i <= 256
    ensures i <= j <= 256
    ensures j < 256 ==> t[j] != 0
    ensures forall k :: i <= k < j ==> t[k] == 0
    decreases 256 - i
  {
    if i >= 256 || t[i] != 0 then i else NextNonzero(t, i + 1)
  }

  /** The inner scan on lines 47-49: extend `last` over nonzero slots. */
  function ExtendNonzero(t: seq<nat>, last: nat): (l: nat)
    requires IsTable(t) && last < 256
    ensures last <= l < 256
    ensures forall k :: last < k <= l ==> t[k] != 0
    ensures l == 255 || t[l + 1] == 0
    decreases 256 - last
  {
    if last < 255 && t[last + 1] != 0 then ExtendNonzero(t, last + 1) else last
  }

  /** The run-end loop on lines 45-63, from a run's first slot: returns
      `(last, next)`, where `next` is the next nonzero slot after `last`
      (or 256), more than three slots away. */
  function RunEnd(t: seq<nat>, last: nat): (r: (nat, nat))
    requires IsTable(t) && last < 256
    ensures last <= r.0 < r.1 <= 256
    ensures r.0 == last || t[r.0] != 0
    ensures r.1 < 256 ==> t[r.1] != 0 && r.1 - r.0 > 3
    ensures forall k :: r.0 < k < r.1 ==> t[k] == 0
    decreases 256 - last
  {
    var l := ExtendNonzero(t, last);
    var next := NextNonzero(t, l + 1);
    if next < 256 && next - l <= 3 then RunEnd(t, next) else (l, next)
  }

  /** No three consecutive zero slots lie within `lo..=hi`. */
  ghost predicate NoZeroTriple(t: seq<nat>, lo: nat, hi: nat)
    requires IsTable(t) && hi < 256
  {
    forall k :: lo <= k && k + 2 <= hi ==> t[k] != 0 || t[k + 1] != 0 || t[k + 2] != 0
  }

  /** A run never holds three zero slots in a row: the gaps it bridges are at
      most two slots wide. */
  lemma {:induction false} RunEndBridgesShortGaps(t: seq<nat>, last: nat)
    requires IsTable(t) && last < 256 && t[last] != 0
    ensures NoZeroTriple(t, last, RunEnd(t, last).0)
    decreases 256 - last
  {
    var l := ExtendNonzero(t, last);
    var next := NextNonzero(t, l + 1);
    if next < 256 && next - l <= 3 {
      var end := RunEnd(t, next).0;
      RunEndBridgesShortGaps(t, next);
      BridgeGap(t, last, l, next, end);
      assert RunEnd(t, last).0 == end;
    }
  }

  /** A nonzero stretch `last..=l`, a gap of at most two zero slots, and a
      stretch from `next` without three zeros in a row have no three zeros in
      a row between them. */
  lemma BridgeGap(t: seq<nat>, last: nat, l: nat, next: nat, end: nat)
    requires IsTable(t) && last <= l < next <= end < 256 && next - l <= 3
    requires t[last] != 0 && t[next] != 0
    requires forall k :: last < k <= l ==> t[k] != 0
    requires NoZeroTriple(t, next, end)
    ensures NoZeroTriple(t, last, end)
  {
    forall k | last <= k && k + 2 <= end
      ensures t[k] != 0 || t[k + 1] != 0 || t[k + 2] != 0
    {
      if k < l {
        assert t[k + 1] != 0;
      } else if k == l {
        assert t[k] != 0;
      } else if k < next {
        assert next <= k + 2;
      }
    }
  }

  /** The runs the loop on lines 40-79 emits, starting at slot `first`. */
  function RunsFrom(t: seq<nat>, first: nat): (runs: seq<Run>)
    requires IsTable(t) && first <= 256
    ensures forall i :: 0 <= i < |runs| ==> first <= runs[i].first <= runs[i].last < 256
    ensures first < 256 <==> |runs| > 0
    ensures |runs| > 0 ==> runs[0].first == first
    decreases 256 - first
  {
    if first >= 256 then []
    else
      var r := RunEnd(t, first);
      [Run(first, r.0)] + RunsFrom(t, NextNonzero(t, r.1))
  }

  /** Every run lies within slots 0..255 and does not end before it starts. */
  ghost predicate Bounded(runs: seq<Run>)
  {
    forall i :: 0 <= i < |runs| ==> runs[i].first <= runs[i].last < 256
  }

  /** Runs are strictly increasing with more than two slots between them. */
  ghost predicate Ordered(runs: seq<Run>)
  {
    forall i :: 0 <= i < |runs| - 1 ==> runs[i].last + 3 < runs[i + 1].first
  }

  /** Every slot between two runs, or after the last one, is zero. */
  ghost predicate ZeroGaps(t: seq<nat>, runs: seq<Run>)
    requires IsTable(t) && Bounded(runs)
  {
    && (forall i, k :: 0 <= i < |runs| - 1 && runs[i].last < k < runs[i + 1].first ==> t[k] == 0)
    && (|runs| > 0 ==> forall k :: runs[|runs| - 1].last < k < 256 ==> t[k] == 0)
  }

  /** Every run after the first starts on a nonzero slot, and every run ends
      on one unless it is a single slot. */
  ghost predicate NonzeroEnds(t: seq<nat>, runs: seq<Run>)
    requires IsTable(t) && Bounded(runs)
  {
    && (forall i :: 0 < i < |runs| ==> t[runs[i].first] != 0)
    && (forall i :: 0 <= i < |runs| ==> runs[i].last == runs[i].first || t[runs[i].last] != 0)
  }

  /** The runs after the first one are the runs from the next nonzero slot. */
  lemma RunsFromTail(t: seq<nat>, first: nat)
    requires IsTable(t) && first < 256
    ensures RunsFrom(t, first) == [Run(first, RunEnd(t, first).0)] + RunsFrom(t, NextNonzero(t, RunEnd(t, first).1))
  {
  }

  /** Consecutive runs leave more than two slots between them. */
  lemma {:induction false} RunsFromOrdered(t: seq<nat>, first: nat)
    requires IsTable(t) && first <= 256
    ensures Ordered(RunsFrom(t, first))
    decreases 256 - first
  {
    if first < 256 {
      var r := RunEnd(t, first);
      var from := NextNonzero(t, r.1);
      RunsFromOrdered(t, from);
      RunsFromTail(t, first);
      OrderedCons(Run(first, r.0), RunsFrom(t, from));
    }
  }

  lemma OrderedCons(head: Run, rest: seq<Run>)
    requires Ordered(rest) && (|rest| > 0 ==> head.last + 3 < rest[0].first)
    ensures Ordered([head] + rest)
  {
    var runs := [head] + rest;
    assert forall i :: 0 < i < |runs| ==> runs[i] == rest[i - 1];
  }

  /** The slots no run covers, from `first` on, are zero. */
  lemma {:induction false} RunsFromZeroGaps(t: seq<nat>, first: nat)
    requires IsTable(t) && first <= 256
    ensures ZeroGaps(t, RunsFrom(t, first))
    decreases 256 - first
  {
    if first < 256 {
      var r := RunEnd(t, first);
      var from := NextNonzero(t, r.1);
      RunsFromZeroGaps(t, from);
      RunsFromTail(t, first);
      var rest := RunsFrom(t, from);
      assert |rest| > 0 ==> rest[0].first == from;
      assert |rest| == 0 ==> from == 256;
      ZeroGapsCons(t, Run(first, r.0), rest, from);
    }
  }

  /** A run in front of well-gapped runs keeps the gaps zero when the slots
      between it and the next run (or the end) are zero. */
  lemma ZeroGapsCons(t: seq<nat>, head: Run, rest: seq<Run>, from: nat)
    requires IsTable(t) && head.first <= head.last < 256 && Bounded(rest) && ZeroGaps(t, rest)
    requires |rest| > 0 ==> rest[0].first == from
    requires |rest| == 0 ==> from == 256
    requires forall k :: head.last < k < from ==> t[k] == 0
    ensures Bounded([head] + rest) && ZeroGaps(t, [head] + rest)
  {
    var runs := [head] + rest;
    assert forall i :: 0 < i < |runs| ==> runs[i] == rest[i - 1];
    forall i, k | 0 <= i < |runs| - 1 && runs[i].last < k < runs[i + 1].first
      ensures t[k] == 0
    {
      if i > 0 {
        assert rest[i - 1].last < k < rest[i].first;
      }
    }
  }

  /** Runs start (after the first) and end on nonzero slots. */
  lemma {:induction false} RunsFromNonzeroEnds(t: seq<nat>, first: nat)
    requires IsTable(t) && first <= 256
    ensures NonzeroEnds(t, RunsFrom(t, first))
    decreases 256 - first
  {
    if first < 256 {
      var r := RunEnd(t, first);
      var from := NextNonzero(t, r.1);
      RunsFromNonzeroEnds(t, from);
      RunsFromTail(t, first);
      var rest := RunsFrom(t, from);
      assert |rest| > 0 ==> rest[0].first == from && t[from] != 0;
      NonzeroEndsCons(t, Run(first, r.0), rest);
    }
  }

  lemma NonzeroEndsCons(t: seq<nat>, head: Run, rest: seq<Run>)
    requires IsTable(t) && head.first <= head.last < 256 && Bounded(rest) && NonzeroEnds(t, rest)
    requires |rest| > 0 ==> t[rest[0].first] != 0
    requires head.last == head.first || t[head.last] != 0
    ensures Bounded([head] + rest) && NonzeroEnds(t, [head] + rest)
  {
    var runs := [head] + rest;
    assert forall i :: 0 < i < |runs| ==> runs[i] == rest[i - 1];
  }

  /** No run holds three zero slots in a row. */
  ghost predicate Bridged(t: seq<nat>, runs: seq<Run>)
    requires IsTable(t) && Bounded(runs)
  {
    forall i :: 0 <= i < |runs| ==> NoZeroTriple(t, runs[i].first, runs[i].last)
  }

  /** Inside a run there are never three zero slots in a row, when the run
      starts on a nonzero slot. */
  lemma {:induction false} RunsFromBridges(t: seq<nat>, first: nat)
    requires IsTable(t) && first <= 256
    requires first < 256 ==> t[first] != 0
    ensures Bridged(t, RunsFrom(t, first))
    decreases 256 - first
  {
    if first < 256 {
      var r := RunEnd(t, first);
      var from := NextNonzero(t, r.1);
      RunEndBridgesShortGaps(t, first);
      RunsFromBridges(t, from);
      RunsFromTail(t, first);
      BridgedCons(t, Run(first, r.0), RunsFrom(t, from));
    }
  }

  lemma BridgedCons(t: seq<nat>, head: Run, rest: seq<Run>)
    requires IsTable(t) && head.first <= head.last < 256 && Bounded(rest) && Bridged(t, rest)
    requires NoZeroTriple(t, head.first, head.last)
    ensures Bounded([head] + rest) && Bridged(t, [head] + rest)
  {
    var runs := [head] + rest;
    assert forall i :: 0 < i < |runs| ==> runs[i] == rest[i - 1];
  }

  /** The runs `output_counts` writes: skipping leading zero slots up to 256. */
  function Runs(t: seq<nat>): seq<Run>
    requires IsTable(t)
  {
    RunsFrom(t, NextNonzero(t, 0))
  }

  /** The counts of one run, each truncated to a byte (`count as u8`). */
  function RunCounts(t: seq<nat>, first: nat, last: nat): (bytes: seq<byte>)
    requires IsTable(t) && last < 256
    ensures |bytes| == if first <= last then last - first + 1 else 0
    ensures forall k :: 0 <= k < |bytes| ==> bytes[k] == t[first + k] % 256
    decreases last + 1 - first
  {
    if first > last then [] else [t[first] % 256] + RunCounts(t, first + 1, last)
  }

  /** The bytes of a list of runs: `first`, `last`, then the counts. */
  function RunsBytes(t: seq<nat>, runs: seq<Run>): seq<byte>
    requires IsTable(t)
    requires forall i :: 0 <= i < |runs| ==> runs[i].first <= runs[i].last < 256
  {
    if |runs| == 0 then []
    else [runs[0].first as byte, runs[0].last as byte] + RunCounts(t, runs[0].first, runs[0].last) + RunsBytes(t, runs[1..])
  }

  /** `output_counts` as written: the runs, then the closing 0 byte. */
  function OutputCounts(t: seq<nat>): (header: seq<byte>)
    requires IsTable(t)
    ensures |header| > 0 && header[|header| - 1] == 0
    ensures |header| == 1 <==> forall k :: 0 <= k < 256 ==> t[k] == 0
    ensures |header| > 1 ==> t[header[0]] != 0 && forall k :: 0 <= k < header[0] ==> t[k] == 0
  {
    RunsBytes(t, Runs(t)) + [0]
  }

  /** The leading-zero skip of `output_counts` stopped at slot 255 instead of
      256, so that a table with no nonzero slot still produces one run. */
  function FirstRunStart(t: seq<nat>, i: nat): (j: nat)
    requires IsTable(t) && i <= 255
    ensures i <= j <= 255
    ensures j < 255 ==> t[j] != 0
    ensures forall k :: i <= k < j ==> t[k] == 0
    decreases 255 - i
  {
    if i < 255 && t[i] == 0 then FirstRunStart(t, i + 1) else i
  }

  /** `output_counts` with the leading-zero skip bounded by 255. */
  function OutputCountsFixed(t: seq<nat>): (header: seq<byte>)
    requires IsTable(t)
    ensures |header| >= 4 && header[|header| - 1] == 0
    ensures header[0] < 255 ==> t[header[0]] != 0
    ensures forall k :: 0 <= k < header[0] ==> t[k] == 0
  {
    RunsBytes(t, RunsFrom(t, FirstRunStart(t, 0))) + [0]
  }

  // ---------------------------------------------------------------------
  // Decoding
  // ---------------------------------------------------------------------

  /** One `read_exact` of a single byte from the file at `pos`. */
  function ReadByte(file: seq<byte>, pos: nat): (r: Result<(byte, nat)>)
    ensures r.Ok? <==> pos < |file|
    ensures r.Ok? ==> r.value == (file[pos], pos + 1)
  {
    if pos < |file| then Ok((file[pos], pos + 1)) else Err(UnexpectedEof)
  }

  /** The number of slots in `first..=last`. */
  function Width(first: nat, last: nat): nat
  {
    if first <= last then last - first + 1 else 0
  }

  /** The inner loop of `input_counts`: one byte per slot `first..=last`,
      nothing when the range is empty. */
  function ReadCounts(file: seq<byte>, pos: nat, first: nat, last: nat, table: seq<nat>): (r: Result<(seq<nat>, nat)>)
    requires pos <= |file| && last < 256 && |table| == 257
    ensures r.Ok? <==> pos + Width(first, last) <= |file|
    ensures r.Ok? ==> |r.value.0| == 257 && r.value.1 == pos + Width(first, last)
    ensures r.Ok? ==> forall k :: 0 <= k < 257 ==>
      r.value.0[k] == if first <= k <= last then file[pos + k - first] as nat else table[k]
    decreases last + 1 - first
  {
    if first > last then Ok((table, pos))
    else match ReadByte(file, pos)
      case Err(e) => Err(e)
      case Ok((b, p)) => ReadCounts(file, p, first + 1, last, table[first := b])
  }

  /** The loop on lines 288-300: read a run's counts, then the next `first`;
      a 0 ends the header, anything else is followed by its `last`. */
  function ReadRuns(file: seq<byte>, pos: nat, first: nat, last: nat, table: seq<nat>): (r: Result<(seq<nat>, nat)>)
    requires pos <= |file| && last < 256 && |table| == 257
    ensures r.Ok? ==> |r.value.0| == 257 && pos < r.value.1 <= |file|
    decreases |file| - pos
  {
    match ReadCounts(file, pos, first, last, table)
    case Err(e) => Err(e)
    case Ok((table', p)) =>
      match ReadByte(file, p)
      case Err(e) => Err(e)
      case Ok((first', p1)) =>
        if first' == 0 then Ok((table', p1))
        else match ReadByte(file, p1)
          case Err(e) => Err(e)
          case Ok((last', p2)) => ReadRuns(file, p2, first', last', table')
  }

  /** The table a freshly cleared node array holds. */
  function EmptyTable(): (t: seq<nat>)
    ensures |t| == 257 && forall k :: 0 <= k < 257 ==> t[k] == 0
  {
    seq(257, _ => 0)
  }

  /** `input_counts`: read `first` and `last`, then the runs, from byte `pos`
      of the file; finally pin the end-of-stream slot to 1. Returns the 257
      slots and the position just after the header. */
  function InputCounts(file: seq<byte>, pos: nat): (r: Result<(seq<nat>, nat)>)
    ensures r.Ok? ==> |r.value.0| == 257 && r.value.0[EndOfStream] == 1
    ensures r.Ok? ==> forall k :: 0 <= k < 257 ==> r.value.0[k] < 256
    ensures r.Ok? ==> pos < r.value.1 <= |file|
  {
    match ReadByte(file, pos)
    case Err(e) => Err(e)
    case Ok((first, p1)) =>
      match ReadByte(file, p1)
      case Err(e) => Err(e)
      case Ok((last, p2)) =>
        match ReadRuns(file, p2, first, last, EmptyTable())
        case Err(e) => Err(e)
        case Ok((table, p)) =>
          ReadBytesBounded(file, p2, first, last, EmptyTable());
          Ok((table[EndOfStream := 1], p))
  }

  /** Decoded slots are bytes, and the decoder moves forward. */
  lemma ReadBytesBounded(file: seq<byte>, pos: nat, first: nat, last: nat, table: seq<nat>)
    requires pos <= |file| && last < 256 && |table| == 257 && forall k :: 0 <= k < 257 ==> table[k] < 256
    ensures ReadRuns(file, pos, first, last, table).Ok? ==>
      var (t, p) := ReadRuns(file, pos, first, last, table).value;
      (forall k :: 0 <= k < 257 ==> t[k] < 256) && pos <= p
    decreases |file| - pos
  {
    ReadCountsBounded(file, pos, first, last, table);
    match ReadCounts(file, pos, first, last, table)
    case Err(e) =>
    case Ok((table', p)) =>
      if p + 1 < |file| && file[p] != 0 {
        ReadBytesBounded(file, p + 2, file[p], file[p + 1], table');
      }
  }

  lemma ReadCountsBounded(file: seq<byte>, pos: nat, first: nat, last: nat, table: seq<nat>)
    requires pos <= |file| && last < 256 && |table| == 257 && forall k :: 0 <= k < 257 ==> table[k] < 256
    ensures ReadCounts(file, pos, first, last, table).Ok? ==>
      forall k :: 0 <= k < 257 ==> ReadCounts(file, pos, first, last, table).value.0[k] < 256
    decreases last + 1 - first
  {
    if first <= last && pos < |file| {
      ReadCountsBounded(file, pos + 1, first + 1, last, table[first := file[pos]]);
    }
  }

  // ---------------------------------------------------------------------
  // Round trip
  // ---------------------------------------------------------------------

  /** The file holds `bytes` from position `pos` on. */
  ghost predicate HasAt(file: seq<byte>, pos: nat, bytes: seq<byte>)
  {
    pos + |bytes| <= |file| && forall j :: 0 <= j < |bytes| ==> file[pos + j] == bytes[j]
  }

  lemma HasAtSplit(file: seq<byte>, pos: nat, a: seq<byte>, b: seq<byte>)
    requires HasAt(file, pos, a + b)
    ensures HasAt(file, pos, a) && HasAt(file, pos + |a|, b)
  {
    forall j | 0 <= j < |a|
      ensures file[pos + j] == a[j]
    {
      assert (a + b)[j] == a[j];
    }
    forall j | 0 <= j < |b|
      ensures file[pos + |a| + j] == b[j]
    {
      assert (a + b)[|a| + j] == b[j];
    }
  }

  lemma HasAtIndex(file: seq<byte>, pos: nat, bytes: seq<byte>, j: nat)
    requires HasAt(file, pos, bytes) && j < |bytes|
    ensures file[pos + j] == bytes[j]
  {
  }

  /** Reading back the counts of one run stores them in the run's slots and
      leaves every other slot alone. */
  lemma {:induction false} ReadCountsOfRun(file: seq<byte>, pos: nat, first: nat, last: nat, table: seq<nat>, t: seq<nat>)
    requires IsTable(t) && last < 256 && |table| == 257
    requires HasAt(file, pos, RunCounts(t, first, last))
    ensures var r := ReadCounts(file, pos, first, last, table);
      && r.Ok?
      && r.value.1 == pos + |RunCounts(t, first, last)|
      && forall k :: 0 <= k < 257 ==> r.value.0[k] == if first <= k <= last then t[k] % 256 else table[k]
    decreases last + 1 - first
  {
    if first <= last {
      var bytes := RunCounts(t, first, last);
      assert file[pos] == bytes[0] == t[first] % 256;
      var rest := RunCounts(t, first + 1, last);
      assert HasAt(file, pos + 1, rest) by {
        forall j | 0 <= j < |rest|
          ensures file[pos + 1 + j] == rest[j]
        {
          assert bytes[1 + j] == t[first + 1 + j] % 256;
        }
      }
      ReadCountsOfRun(file, pos + 1, first + 1, last, table[first := t[first] % 256], t);
    }
  }

  /** The tail of well-shaped runs is well shaped. */
  lemma RunsTail(t: seq<nat>, runs: seq<Run>)
    requires IsTable(t) && |runs| > 0 && Bounded(runs) && Ordered(runs) && ZeroGaps(t, runs)
    ensures Bounded(runs[1..]) && Ordered(runs[1..]) && ZeroGaps(t, runs[1..])
  {
    var rest := runs[1..];
    assert forall i :: 0 <= i < |rest| ==> rest[i] == runs[i + 1];
    forall i, k | 0 <= i < |rest| - 1 && rest[i].last < k < rest[i + 1].first
      ensures t[k] == 0
    {
      assert runs[i + 1].last < k < runs[i + 2].first;
    }
  }

  /** The header bytes that follow the `first` and `last` bytes of the
      first of `runs`: its counts, the later runs, the closing 0. */
  function AfterStart(t: seq<nat>, runs: seq<Run>): (bytes: seq<byte>)
    requires IsTable(t) && |runs| > 0 && Bounded(runs)
    ensures |bytes| > 0
  {
    RunCounts(t, runs[0].first, runs[0].last) + RunsBytes(t, runs[1..]) + [0]
  }

  /** Where the next run starts: after the first run's counts come the
      next run's `first` (never 0) and `last`, then the rest of the header. */
  lemma NextRunAt(file: seq<byte>, pos: nat, t: seq<nat>, runs: seq<Run>)
    requires IsTable(t) && |runs| > 1 && Bounded(runs) && Ordered(runs)
    requires HasAt(file, pos, AfterStart(t, runs))
    ensures var p := pos + |RunCounts(t, runs[0].first, runs[0].last)|;
      && HasAt(file, pos, RunCounts(t, runs[0].first, runs[0].last))
      && p + 1 < |file| && file[p] == runs[1].first && file[p] != 0 && file[p + 1] == runs[1].last
      && HasAt(file, p + 2, AfterStart(t, runs[1..]))
      && |AfterStart(t, runs)| == p - pos + 2 + |AfterStart(t, runs[1..])|
  {
    var counts := RunCounts(t, runs[0].first, runs[0].last);
    var next := runs[1];
    var nextBody := AfterStart(t, runs[1..]);
    assert runs[1..][1..] == runs[2..];
    assert AfterStart(t, runs) == counts + ([next.first as byte, next.last as byte] + nextBody);
    HasAtSplit(file, pos, counts, [next.first as byte, next.last as byte] + nextBody);
    var p := pos + |counts|;
    HasAtSplit(file, p, [next.first as byte, next.last as byte], nextBody);
    HasAtIndex(file, p, [next.first as byte, next.last as byte], 0);
    HasAtIndex(file, p, [next.first as byte, next.last as byte], 1);
  }

  /** The last run: its counts, then the closing 0. */
  lemma LastRunAt(file: seq<byte>, pos: nat, t: seq<nat>, runs: seq<Run>)
    requires IsTable(t) && |runs| == 1 && Bounded(runs)
    requires HasAt(file, pos, AfterStart(t, runs))
    ensures var p := pos + |RunCounts(t, runs[0].first, runs[0].last)|;
      && HasAt(file, pos, RunCounts(t, runs[0].first, runs[0].last))
      && p < |file| && file[p] == 0
      && |AfterStart(t, runs)| == p - pos + 1
  {
    var counts := RunCounts(t, runs[0].first, runs[0].last);
    assert RunsBytes(t, runs[1..]) == [];
    assert AfterStart(t, runs) == counts + [0];
    HasAtSplit(file, pos, counts, [0]);
    HasAtIndex(file, pos + |counts|, [0], 0);
  }

  /** The decoder's loop reads back the runs the encoder wrote: starting from
      a table that already holds the slots before the first run, it ends with
      every slot 0..255 restored and slot 256 untouched, just after the
      closing 0 byte. */
  lemma {:induction false} ReadRunsOfRuns(file: seq<byte>, pos: nat, runs: seq<Run>, table: seq<nat>, t: seq<nat>)
    requires IsTable(t) && forall k :: 0 <= k < 256 ==> t[k] < 256
    requires |runs| > 0 && Bounded(runs) && Ordered(runs) && ZeroGaps(t, runs)
    requires |table| == 257 && table[EndOfStream] == 0
    requires forall k :: 0 <= k < 256 ==> table[k] == if k < runs[0].first then t[k] else 0
    requires HasAt(file, pos, AfterStart(t, runs))
    ensures ReadRuns(file, pos, runs[0].first, runs[0].last, table)
      == Ok((t[..256] + [0], pos + |AfterStart(t, runs)|))
    decreases |runs|
  {
    if |runs| == 1 {
      ReadRunsOfLastRun(file, pos, runs, table, t);
    } else {
      var table', p := InnerRunStep(file, pos, runs, table, t);
      ReadRunsOfRuns(file, p, runs[1..], table', t);
    }
  }

  /** Reading a run that is not the last one: the decoder moves on to the
      next run's counts with that run's slots filled in. */
  lemma InnerRunStep(file: seq<byte>, pos: nat, runs: seq<Run>, table: seq<nat>, t: seq<nat>)
    returns (table': seq<nat>, p: nat)
    requires IsTable(t) && forall k :: 0 <= k < 256 ==> t[k] < 256
    requires |runs| > 1 && Bounded(runs) && Ordered(runs) && ZeroGaps(t, runs)
    requires |table| == 257 && table[EndOfStream] == 0
    requires forall k :: 0 <= k < 256 ==> table[k] == if k < runs[0].first then t[k] else 0
    requires HasAt(file, pos, AfterStart(t, runs))
    ensures var next := runs[1..];
      && pos <= |file| && p <= |file| && |next| > 0
      && Bounded(next) && Ordered(next) && ZeroGaps(t, next)
      && |table'| == 257 && table'[EndOfStream] == 0
      && (forall k :: 0 <= k < 256 ==> table'[k] == if k < next[0].first then t[k] else 0)
      && HasAt(file, p, AfterStart(t, next))
      && ReadRuns(file, pos, runs[0].first, runs[0].last, table) == ReadRuns(file, p, next[0].first, next[0].last, table')
      && pos + |AfterStart(t, runs)| == p + |AfterStart(t, next)|
  {
    var first, last := runs[0].first, runs[0].last;
    var q := pos + |RunCounts(t, first, last)|;
    NextRunAt(file, pos, t, runs);
    table' := ReadInnerRun(file, pos, runs, table, t);
    RunsTail(t, runs);
    var next := runs[1..];
    assert next[0] == runs[1];
    ReadRunsNext(file, pos, first, last, table, table', q);
    p := q + 2;
  }

  /** The last run of the header, then the closing 0, complete the table. */
  lemma ReadRunsOfLastRun(file: seq<byte>, pos: nat, runs: seq<Run>, table: seq<nat>, t: seq<nat>)
    requires IsTable(t) && forall k :: 0 <= k < 256 ==> t[k] < 256
    requires |runs| == 1 && Bounded(runs) && ZeroGaps(t, runs)
    requires |table| == 257 && table[EndOfStream] == 0
    requires forall k :: 0 <= k < 256 ==> table[k] == if k < runs[0].first then t[k] else 0
    requires HasAt(file, pos, AfterStart(t, runs))
    ensures ReadRuns(file, pos, runs[0].first, runs[0].last, table)
      == Ok((t[..256] + [0], pos + |AfterStart(t, runs)|))
  {
    var first, last := runs[0].first, runs[0].last;
    var p := pos + |RunCounts(t, first, last)|;
    LastRunAt(file, pos, t, runs);
    var table' := ReadLastRun(file, pos, runs, table, t);
    ReadRunsEnd(file, pos, first, last, table, table', p);
  }

  /** Reading the counts of the last run completes the table. */
  lemma ReadLastRun(file: seq<byte>, pos: nat, runs: seq<Run>, table: seq<nat>, t: seq<nat>) returns (table': seq<nat>)
    requires IsTable(t) && forall k :: 0 <= k < 256 ==> t[k] < 256
    requires |runs| == 1 && Bounded(runs) && ZeroGaps(t, runs)
    requires |table| == 257 && table[EndOfStream] == 0
    requires forall k :: 0 <= k < 256 ==> table[k] == if k < runs[0].first then t[k] else 0
    requires HasAt(file, pos, RunCounts(t, runs[0].first, runs[0].last))
    ensures ReadCounts(file, pos, runs[0].first, runs[0].last, table)
      == Ok((table', pos + |RunCounts(t, runs[0].first, runs[0].last)|))
    ensures table' == t[..256] + [0]
  {
    ReadCountsOfRun(file, pos, runs[0].first, runs[0].last, table, t);
    table' := ReadCounts(file, pos, runs[0].first, runs[0].last, table).value.0;
    LastRunRestores(t, runs, table, table');
  }

  /** Reading the counts of a run that is not the last restores the slots up
      to the next run. */
  lemma ReadInnerRun(file: seq<byte>, pos: nat, runs: seq<Run>, table: seq<nat>, t: seq<nat>) returns (table': seq<nat>)
    requires IsTable(t) && forall k :: 0 <= k < 256 ==> t[k] < 256
    requires |runs| > 1 && Bounded(runs) && Ordered(runs) && ZeroGaps(t, runs)
    requires |table| == 257 && table[EndOfStream] == 0
    requires forall k :: 0 <= k < 256 ==> table[k] == if k < runs[0].first then t[k] else 0
    requires HasAt(file, pos, RunCounts(t, runs[0].first, runs[0].last))
    ensures ReadCounts(file, pos, runs[0].first, runs[0].last, table)
      == Ok((table', pos + |RunCounts(t, runs[0].first, runs[0].last)|))
    ensures |table'| == 257 && table'[EndOfStream] == 0
    ensures forall k :: 0 <= k < 256 ==> table'[k] == if k < runs[1].first then t[k] else 0
  {
    ReadCountsOfRun(file, pos, runs[0].first, runs[0].last, table, t);
    table' := ReadCounts(file, pos, runs[0].first, runs[0].last, table).value.0;
    RunRestores(t, runs, table, table');
  }

  /** The decoder's loop stops at a 0 byte after a run's counts. */
  lemma ReadRunsEnd(file: seq<byte>, pos: nat, first: nat, last: nat, table: seq<nat>, table': seq<nat>, p: nat)
    requires pos <= |file| && last < 256 && |table| == 257
    requires ReadCounts(file, pos, first, last, table) == Ok((table', p))
    requires p < |file| && file[p] == 0
    ensures ReadRuns(file, pos, first, last, table) == Ok((table', p + 1))
  {
  }

  /** After a run's counts, a nonzero byte and its successor open the next run. */
  lemma ReadRunsNext(file: seq<byte>, pos: nat, first: nat, last: nat, table: seq<nat>, table': seq<nat>, p: nat)
    requires pos <= |file| && last < 256 && |table| == 257
    requires ReadCounts(file, pos, first, last, table) == Ok((table', p))
    requires p + 1 < |file| && file[p] != 0
    ensures ReadRuns(file, pos, first, last, table) == ReadRuns(file, p + 2, file[p], file[p + 1], table')
  {
  }

  /** After the last run every slot 0..255 holds its count. */
  lemma LastRunRestores(t: seq<nat>, runs: seq<Run>, table: seq<nat>, table': seq<nat>)
    requires IsTable(t) && forall k :: 0 <= k < 256 ==> t[k] < 256
    requires |runs| == 1 && Bounded(runs) && ZeroGaps(t, runs)
    requires |table| == 257 && table[EndOfStream] == 0
    requires forall k :: 0 <= k < 256 ==> table[k] == if k < runs[0].first then t[k] else 0
    requires |table'| == 257
    requires forall k :: 0 <= k < 257 ==> table'[k] == if runs[0].first <= k <= runs[0].last then t[k] % 256 else table[k]
    ensures table' == t[..256] + [0]
  {
    forall k | 0 <= k < 257
      ensures table'[k] == (t[..256] + [0])[k]
    {
      if k < 256 && runs[0].last < k {
        assert t[k] == 0;
      }
    }
  }

  /** After a run that is not the last, the slots before the next run hold
      their counts and the others are still zero. */
  lemma RunRestores(t: seq<nat>, runs: seq<Run>, table: seq<nat>, table': seq<nat>)
    requires IsTable(t) && forall k :: 0 <= k < 256 ==> t[k] < 256
    requires |runs| > 1 && Bounded(runs) && Ordered(runs) && ZeroGaps(t, runs)
    requires |table| == 257 && table[EndOfStream] == 0
    requires forall k :: 0 <= k < 256 ==> table[k] == if k < runs[0].first then t[k] else 0
    requires |table'| == 257
    requires forall k :: 0 <= k < 257 ==> table'[k] == if runs[0].first <= k <= runs[0].last then t[k] % 256 else table[k]
    ensures table'[EndOfStream] == 0
    ensures forall k :: 0 <= k < 256 ==> table'[k] == if k < runs[1].first then t[k] else 0
  {
    forall k | 0 <= k < 256
      ensures table'[k] == if k < runs[1].first then t[k] else 0
    {
      if runs[0].last < k < runs[1].first {
        assert t[k] == 0;
      }
    }
  }

  /** `input_counts` reads `first` and `last` and then runs its loop. */
  lemma InputCountsStart(file: seq<byte>, first: nat, last: nat, table: seq<nat>, p: nat)
    requires |file| >= 2 && file[0] == first && file[1] == last && last < 256
    requires ReadRuns(file, 2, first, last, EmptyTable()) == Ok((table, p))
    ensures InputCounts(file, 0) == Ok((table[EndOfStream := 1], p))
  {
  }

  /** A header written from slot `first` on, when every slot before `first`
      is zero, is read back as the table, with slot 256 set to 1. */
  lemma HeaderRoundTripFrom(t: seq<nat>, first: nat, rest: seq<byte>)
    requires IsTable(t) && forall k :: 0 <= k < 256 ==> t[k] < 256
    requires first < 256 && forall k :: 0 <= k < first ==> t[k] == 0
    ensures var header := RunsBytes(t, RunsFrom(t, first)) + [0];
      InputCounts(header + rest, 0) == Ok((t[..256] + [1], |header|))
  {
    var runs := RunsFrom(t, first);
    RunsFromOrdered(t, first);
    RunsFromZeroGaps(t, first);
    HeaderLayout(t, runs, rest);
    ReadHeader(RunsBytes(t, runs) + [0] + rest, t, runs);
    PinEnd(t);
  }

  /** `input_counts` over a file that opens with the first run's `first` and
      `last` and continues with the rest of the header. */
  lemma ReadHeader(file: seq<byte>, t: seq<nat>, runs: seq<Run>)
    requires IsTable(t) && forall k :: 0 <= k < 256 ==> t[k] < 256
    requires |runs| > 0 && Bounded(runs) && Ordered(runs) && ZeroGaps(t, runs)
    requires forall k :: 0 <= k < runs[0].first ==> t[k] == 0
    requires |file| >= 2 && file[0] == runs[0].first && file[1] == runs[0].last
    requires HasAt(file, 2, AfterStart(t, runs))
    ensures InputCounts(file, 0) == Ok(((t[..256] + [0])[EndOfStream := 1], 2 + |AfterStart(t, runs)|))
  {
    ReadRunsOfRuns(file, 2, runs, EmptyTable(), t);
    InputCountsStart(file, runs[0].first, runs[0].last, t[..256] + [0], 2 + |AfterStart(t, runs)|);
  }

  /** `input_counts` pins the end-of-stream slot to 1. */
  lemma PinEnd(t: seq<nat>)
    requires |t| >= 256
    ensures (t[..256] + [0])[EndOfStream := 1] == t[..256] + [1]
  {
  }

  /** A header opens with the first run's `first` and `last`; the rest of
      it follows at byte 2. */
  lemma HeaderLayout(t: seq<nat>, runs: seq<Run>, rest: seq<byte>)
    requires IsTable(t) && |runs| > 0 && Bounded(runs)
    ensures var file := RunsBytes(t, runs) + [0] + rest;
      && |file| >= 2 && file[0] == runs[0].first && file[1] == runs[0].last
      && HasAt(file, 2, AfterStart(t, runs))
      && |RunsBytes(t, runs) + [0]| == 2 + |AfterStart(t, runs)|
  {
    var start: seq<byte> := [runs[0].first as byte, runs[0].last as byte];
    var counts := RunCounts(t, runs[0].first, runs[0].last);
    var more := RunsBytes(t, runs[1..]);
    assert RunsBytes(t, runs) == start + counts + more;
    Regroup(start, counts, more, [0]);
    HasAtMiddle(start, AfterStart(t, runs), rest);
  }

  lemma Regroup(a: seq<byte>, b: seq<byte>, c: seq<byte>, d: seq<byte>)
    ensures a + b + c + d == a + (b + c + d)
  {
  }

  /** The bytes between a prefix and a suffix sit right after the prefix. */
  lemma HasAtMiddle(a: seq<byte>, b: seq<byte>, c: seq<byte>)
    ensures HasAt(a + b + c, |a|, b)
    ensures |a| == 2 ==> (a + b + c)[0] == a[0] && (a + b + c)[1] == a[1]
  {
    forall j | 0 <= j < |b|
      ensures (a + b + c)[|a| + j] == b[j]
    {
    }
  }

  /** `output_counts` followed by `input_counts` gives back the table, as
      long as some slot 0..255 is nonzero. */
  lemma HeaderRoundTrip(t: seq<nat>, rest: seq<byte>)
    requires IsTable(t) && forall k :: 0 <= k < 256 ==> t[k] < 256
    requires exists k :: 0 <= k < 256 && t[k] != 0
    ensures InputCounts(OutputCounts(t) + rest, 0) == Ok((t[..256] + [1], |OutputCounts(t)|))
  {
    HeaderRoundTripFrom(t, NextNonzero(t, 0), rest);
  }

  /** With the skip bounded by 255 every table round-trips, the all-zero
      one included. */
  lemma HeaderRoundTripFixed(t: seq<nat>, rest: seq<byte>)
    requires IsTable(t) && forall k :: 0 <= k < 256 ==> t[k] < 256
    ensures InputCounts(OutputCountsFixed(t) + rest, 0) == Ok((t[..256] + [1], |OutputCountsFixed(t)|))
  {
    HeaderRoundTripFrom(t, FirstRunStart(t, 0), rest);
  }

  /** The skip of line 34 runs to 256 on an all-zero table, so the header is
      the single closing byte, and `input_counts` fails on it: it reads a
      `last` byte that is not there. */
  lemma EmptyTableHeaderFails()
    ensures OutputCounts(EmptyTable()) == [0]
    ensures InputCounts(OutputCounts(EmptyTable()), 0) == Err(UnexpectedEof)
  {
    assert NextNonzero(EmptyTable(), 0) == 256;
  }

  /** The corrected header of the all-zero table is one run over slot 255. */
  lemma EmptyTableHeaderFixed()
    ensures OutputCountsFixed(EmptyTable()) == [255, 255, 0, 0]
    ensures InputCounts(OutputCountsFixed(EmptyTable()), 0) == Ok((EmptyTable()[EndOfStream := 1], 4))
  {
    var t := EmptyTable();
    assert FirstRunStart(t, 0) == 255;
    assert RunEnd(t, 255) == (255, 256);
    assert RunsFrom(t, 255) == [Run(255, 255)];
    HeaderRoundTripFixed(t, []);
    assert t[..256] + [1] == t[EndOfStream := 1];
  }
}
