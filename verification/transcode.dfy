/** The payload of the compressed file and the two top-level routines of
    src/huff.rs: `compress_data` and `expand_data` on the coded bits, and
    `compress_file` and `expand_file` on whole files. */
module Transcode {
  import opened Common
  import opened BitIo
  import opened Frequency
  import opened Header
  import opened Tree
  import opened Codes

  /** The codes of the source bytes, one after the other. */
  function Symbols(codes: seq<Code>, data: seq<byte>): seq<bit>
    requires |codes| == EndOfStream + 1
  {
    if |data| == 0 then [] else CodeBits(codes[data[0]]) + Symbols(codes, data[1..])
  }

  /** The coded payload: the source bytes, then the end-of-stream code. */
  function Payload(codes: seq<Code>, data: seq<byte>): seq<bit>
    requires |codes| == EndOfStream + 1
  {
    Symbols(codes, data) + CodeBits(codes[EndOfStream])
  }

  lemma {:induction false} SymbolsSnoc(codes: seq<Code>, data: seq<byte>, c: byte)
    requires |codes| == EndOfStream + 1
    ensures Symbols(codes, data + [c]) == Symbols(codes, data) + CodeBits(codes[c])
    decreases |data|
  {
    if |data| == 0 {
      assert data + [c] == [c];
      assert Symbols(codes, [c][1..]) == [];
    } else {
      assert (data + [c])[1..] == data[1..] + [c];
      assert (data + [c])[0] == data[0];
      SymbolsSnoc(codes, data[1..], c);
    }
  }

  /** `compress_data`: `output_bits` with every source byte's code, then with
      the end-of-stream code. */
  method CompressData(w: BitWriter, codes: seq<Code>, data: seq<byte>) returns (w': BitWriter)
    requires |codes| == EndOfStream + 1
    requires forall c :: 0 <= c <= EndOfStream ==> codes[c].bits <= 64
    ensures w' == OutputBitSeq(w, Payload(codes, data))
  {
    w' := w;
    var i := 0;
    while i < |data|
      invariant 0 <= i <= |data|
      invariant w' == OutputBitSeq(w, Symbols(codes, data[..i]))
    {
      var c := data[i];
      w' := OutputBits(w', codes[c].code, codes[c].bits);
      assert data[..i + 1] == data[..i] + [c];
      SymbolsSnoc(codes, data[..i], c);
      OutputBitSeqAppend(w, Symbols(codes, data[..i]), CodeBits(codes[c]));
      i := i + 1;
    }
    assert data[..i] == data;
    w' := OutputBits(w', codes[EndOfStream].code, codes[EndOfStream].bits);
    OutputBitSeqAppend(w, Symbols(codes, data), CodeBits(codes[EndOfStream]));
  }

  /** The walk of `expand_data`'s inner loop from `node`: read a bit and go
      to `child_1` on a one, `child_0` on a zero, until a leaf. */
  function DecodeSymbol(nodes: seq<Node>, node: nat, r: BitReader): (res: Result<(nat, BitReader)>)
    requires Shaped(nodes) && node < |nodes| && ReaderValid(r)
    ensures res.Ok? ==> res.value.0 <= EndOfStream && ReaderValid(res.value.1)
    ensures res.Ok? ==> |Remaining(res.value.1)| + (if node > EndOfStream then 1 else 0) <= |Remaining(r)|
    decreases node
  {
    if node <= EndOfStream then Ok((node, r))
    else match InputBit(r)
      case Err(e) => Err(e)
      case Ok((b, r')) =>
        InputBitReads(r);
        DecodeSymbol(nodes, Child(nodes[node], b), r')
  }

  /** Reading a leaf's path walks to that leaf and consumes exactly the path:
      the decoder reads the codes the compressor wrote. */
  lemma {:induction false} DecodeSymbolPath(nodes: seq<Node>, node: nat, r: BitReader, path: seq<bit>, leaf: nat, rest: seq<bit>)
    requires Shaped(nodes) && node < |nodes| && ReaderValid(r)
    requires LeadsTo(nodes, node, path, leaf) && Remaining(r) == path + rest
    ensures DecodeSymbol(nodes, node, r).Ok?
    ensures DecodeSymbol(nodes, node, r).value.0 == leaf
    ensures Remaining(DecodeSymbol(nodes, node, r).value.1) == rest
    decreases |path|
  {
    if |path| > 0 {
      InputBitReads(r);
      assert Remaining(r)[0] == path[0] && Remaining(r)[1..] == path[1..] + rest;
      var (b, r') := InputBit(r).value;
      var child := Child(nodes[node], b);
      DecodeSymbolPath(nodes, child, r', path[1..], leaf, rest);
      assert DecodeSymbol(nodes, node, r) == DecodeSymbol(nodes, child, r');
    }
  }

  /** `expand_data`: decode symbols from the root and write each byte until
      the end-of-stream symbol. A root that is not an internal node or the
      end-of-stream leaf would loop forever; both callers build the tree from a
      table whose end-of-stream count is 1, so the root is never below 256. */
  function ExpandData(nodes: seq<Node>, root: nat, r: BitReader): (res: Result<seq<byte>>)
    requires Shaped(nodes) && EndOfStream <= root < |nodes| && ReaderValid(r)
    ensures root == EndOfStream ==> res == Ok([])
    ensures res.Err? ==> res.error == UnexpectedEof
    decreases |Remaining(r)|
  {
    match DecodeSymbol(nodes, root, r)
    case Err(e) => Err(e)
    case Ok((symbol, r')) =>
      if symbol == EndOfStream then Ok([])
      else match ExpandData(nodes, root, r')
        case Err(e) => Err(e)
        case Ok(bytes) => Ok([symbol as byte] + bytes)
  }

  lemma PayloadCons(codes: seq<Code>, data: seq<byte>)
    requires |codes| == EndOfStream + 1 && |data| > 0
    ensures Payload(codes, data) == CodeBits(codes[data[0]]) + Payload(codes, data[1..])
  {
  }

  /** `expand_data` stops on the end-of-stream symbol. */
  lemma ExpandDataEnd(nodes: seq<Node>, root: nat, r: BitReader, r': BitReader)
    requires Shaped(nodes) && EndOfStream <= root < |nodes| && ReaderValid(r)
    requires DecodeSymbol(nodes, root, r) == Ok((EndOfStream, r'))
    ensures ExpandData(nodes, root, r) == Ok([])
  {
  }

  /** `expand_data` writes a decoded byte and carries on. */
  lemma ExpandDataNext(nodes: seq<Node>, root: nat, r: BitReader, c: byte, r': BitReader, rest: seq<byte>)
    requires Shaped(nodes) && EndOfStream <= root < |nodes| && ReaderValid(r)
    requires DecodeSymbol(nodes, root, r) == Ok((c, r'))
    requires ExpandData(nodes, root, r') == Ok(rest)
    ensures ExpandData(nodes, root, r) == Ok([c] + rest)
  {
  }

  /** Every leaf of the tree has its path from `root` as its code. */
  ghost predicate CodesFollowTree(nodes: seq<Node>, root: nat, codes: seq<Code>)
    requires Shaped(nodes) && root < |nodes| && |codes| == EndOfStream + 1
  {
    forall l :: 0 <= l <= EndOfStream && Reaches(nodes, root, l) ==> CodeBits(codes[l]) == PathTo(nodes, root, l)
  }

  /** Decoding the payload of `data` gives back `data`, whatever follows
      the end-of-stream code. */
  lemma {:induction false} ExpandPayload(nodes: seq<Node>, root: nat, codes: seq<Code>, r: BitReader, data: seq<byte>, pad: seq<bit>)
    requires Shaped(nodes) && EndOfStream <= root < |nodes| && ReaderValid(r)
    requires |codes| == EndOfStream + 1 && CodesFollowTree(nodes, root, codes)
    requires Reaches(nodes, root, EndOfStream)
    requires forall i :: 0 <= i < |data| ==> Reaches(nodes, root, data[i])
    requires Remaining(r) == Payload(codes, data) + pad
    ensures ExpandData(nodes, root, r) == Ok(data)
    decreases |data|
  {
    if |data| == 0 {
      DecodeEnd(nodes, root, codes, r, pad);
    } else {
      var r' := DecodeFirst(nodes, root, codes, r, data, pad);
      ExpandPayload(nodes, root, codes, r', data[1..], pad);
      ExpandDataNext(nodes, root, r, data[0], r', data[1..]);
      assert data == [data[0]] + data[1..];
    }
  }

  /** The last code of the payload decodes to the end-of-stream symbol. */
  lemma DecodeEnd(nodes: seq<Node>, root: nat, codes: seq<Code>, r: BitReader, pad: seq<bit>)
    requires Shaped(nodes) && EndOfStream <= root < |nodes| && ReaderValid(r)
    requires |codes| == EndOfStream + 1 && CodesFollowTree(nodes, root, codes)
    requires Reaches(nodes, root, EndOfStream)
    requires Remaining(r) == Payload(codes, []) + pad
    ensures ExpandData(nodes, root, r) == Ok([])
  {
    var path := PathTo(nodes, root, EndOfStream);
    assert Remaining(r) == path + pad by {
      assert Payload(codes, []) == CodeBits(codes[EndOfStream]);
    }
    DecodeSymbolPath(nodes, root, r, path, EndOfStream, pad);
    ExpandDataEnd(nodes, root, r, DecodeSymbol(nodes, root, r).value.1);
  }

  /** The first code of the payload decodes to the first source byte. */
  lemma DecodeFirst(nodes: seq<Node>, root: nat, codes: seq<Code>, r: BitReader, data: seq<byte>, pad: seq<bit>) returns (r': BitReader)
    requires Shaped(nodes) && EndOfStream <= root < |nodes| && ReaderValid(r)
    requires |codes| == EndOfStream + 1 && CodesFollowTree(nodes, root, codes)
    requires |data| > 0 && Reaches(nodes, root, data[0])
    requires Remaining(r) == Payload(codes, data) + pad
    ensures ReaderValid(r')
    ensures DecodeSymbol(nodes, root, r) == Ok((data[0], r'))
    ensures Remaining(r') == Payload(codes, data[1..]) + pad
  {
    var c := data[0];
    var path := PathTo(nodes, root, c);
    var rest := Payload(codes, data[1..]) + pad;
    assert Remaining(r) == path + rest by {
      PayloadCons(codes, data);
    }
    DecodeSymbolPath(nodes, root, r, path, c, rest);
    r' := DecodeSymbol(nodes, root, r).value.1;
  }

  // ---------------------------------------------------------------------
  // Whole files
  // ---------------------------------------------------------------------

  /** The frequency model of a source: its byte counts scaled to one byte
      each, with the end-of-stream count 1. */
  function Model(data: seq<byte>): (table: seq<nat>)
    ensures |table| == EndOfStream + 1 && table[EndOfStream] == 1
    ensures forall i :: 0 <= i < |table| ==> table[i] < 256
    ensures Weight(Leaves(table), EndOfStream + 1) < U32Max
  {
    var table := ScaleCounts(CountBytes(data));
    ByteTableWeight(table);
    table
  }

  /** The tree both sides build from a table of byte counts. */
  function TreeOf(table: seq<nat>): (r: (seq<Node>, nat))
    requires |table| == EndOfStream + 1 && forall i :: 0 <= i < |table| ==> table[i] < 256
    ensures |r.0| == MaxNodes && Shaped(r.0) && EndOfStream <= r.1 < Sentinel
  {
    ByteTableWeight(table);
    BuildTree(table)
  }

  /** The writer after the payload, on a file that already holds `header`:
      `output_counts` writes the header straight to the file, so the bit
      writer is still fresh when the payload starts. */
  function PayloadWriter(header: seq<byte>, data: seq<byte>): BitWriter
  {
    var (nodes, root) := TreeOf(Model(data));
    OutputBitSeq(BitWriter(FirstMask, 0, header), Payload(CodeTable(nodes, root), data))
  }

  /** The coded payload after a header, closed into whole bytes. */
  function Body(header: seq<byte>, data: seq<byte>): (body: seq<byte>)
    ensures |body| >= |header| && body[..|header|] == header
  {
    var (nodes, root) := TreeOf(Model(data));
    ClosedKeepsHeader(header, Payload(CodeTable(nodes, root), data));
    CloseOutput(PayloadWriter(header, data))
  }

  /** The zero bits `close_output` pads the last byte with. */
  function Padding(w: BitWriter): seq<bit>
  {
    Zeros(if w.mask == FirstMask then 0 else MaskWidth(w.mask))
  }

  /** `compress_file` as written: the header of `output_counts`, then the
      payload. */
  function CompressFile(data: seq<byte>): (file: seq<byte>)
    ensures var header := OutputCounts(Model(data));
      |file| >= |header| && file[..|header|] == header
  {
    var header := OutputCounts(Model(data));
    Body(header, data)
  }

  /** `compress_file` with the header's leading-zero skip bounded by 255. */
  function CompressFileFixed(data: seq<byte>): (file: seq<byte>)
    ensures var header := OutputCountsFixed(Model(data));
      |file| >= |header| && file[..|header|] == header
  {
    var header := OutputCountsFixed(Model(data));
    Body(header, data)
  }

  /** `expand_file`: read the header, rebuild the tree, decode the payload
      that follows the header. */
  function ExpandFile(file: seq<byte>): (res: Result<seq<byte>>)
    ensures res.Err? ==> res.error == UnexpectedEof
    ensures InputCounts(file, 0).Err? ==> res.Err?
  {
    match InputCounts(file, 0)
    case Err(e) => Err(e)
    case Ok((table, pos)) =>
      var (nodes, root) := TreeOf(table);
      ExpandData(nodes, root, OpenReader(file, pos))
  }

  /** After the header the file holds the payload bits, padded with zeros to
      a whole byte. */
  lemma BodyBits(header: seq<byte>, data: seq<byte>)
    ensures var body := Body(header, data);
      var (nodes, root) := TreeOf(Model(data));
      |body| >= |header| &&
      Unpack(body[|header|..]) == Payload(CodeTable(nodes, root), data) + Padding(PayloadWriter(header, data))
  {
    var (nodes, root) := TreeOf(Model(data));
    ClosedBits(header, Payload(CodeTable(nodes, root), data));
  }

  /** Bits written after a header and closed leave the header in front. */
  lemma ClosedKeepsHeader(header: seq<byte>, bits: seq<bit>)
    ensures var body := CloseOutput(OutputBitSeq(BitWriter(FirstMask, 0, header), bits));
      |body| >= |header| && body[..|header|] == header
  {
    var w := OutputBitSeq(BitWriter(FirstMask, 0, header), bits);
    OutputBitSeqKeepsOutput(BitWriter(FirstMask, 0, header), bits);
    var body := CloseOutput(w);
    assert body[..|w.out|][..|header|] == body[..|header|];
  }

  /** Bits written after a header and closed follow it, padded with zeros. */
  lemma ClosedBits(header: seq<byte>, bits: seq<bit>)
    ensures var w := OutputBitSeq(BitWriter(FirstMask, 0, header), bits);
      var body := CloseOutput(w);
      |body| >= |header| && Unpack(body[|header|..]) == bits + Padding(w)
  {
    var w0 := BitWriter(FirstMask, 0, header);
    FreshWriter(header);
    var w := OutputBitSeq(w0, bits);
    OutputBitSeqWritten(w0, bits);
    var body := CloseOutput(w);
    ClosedKeepsHeader(header, bits);
    UnpackAfterPrefix(body, header, bits + Padding(w));
  }

  lemma FreshWriter(header: seq<byte>)
    ensures WriterValid(BitWriter(FirstMask, 0, header))
    ensures Written(BitWriter(FirstMask, 0, header)) == Unpack(header)
  {
    MaskFacts(FirstMask);
    assert Pending(BitWriter(FirstMask, 0, header)) == [];
  }

  lemma UnpackAfterPrefix(body: seq<byte>, header: seq<byte>, bits: seq<bit>)
    requires |body| >= |header| && body[..|header|] == header
    requires Unpack(body) == Unpack(header) + bits
    ensures Unpack(body[|header|..]) == bits
  {
    var tail := body[|header|..];
    assert body == header + tail;
    UnpackAppend(header, tail);
    assert Unpack(header) + Unpack(tail) == Unpack(header) + bits;
    assert (Unpack(header) + Unpack(tail))[|Unpack(header)|..] == Unpack(tail);
    assert (Unpack(header) + bits)[|Unpack(header)|..] == bits;
  }

  /** Expanding a file whose header reads back as the model of `data`,
      followed by the payload, gives back `data`. */
  lemma ExpandBody(header: seq<byte>, data: seq<byte>)
    requires FitsU32(TreeOf(Model(data)).0, TreeOf(Model(data)).1)
    requires InputCounts(Body(header, data), 0) == Ok((Model(data), |header|))
    ensures ExpandFile(Body(header, data)) == Ok(data)
  {
    var table := Model(data);
    var (nodes, root) := TreeOf(table);
    var file := Body(header, data);
    BodyBits(header, data);
    var pad := Padding(PayloadWriter(header, data));
    var r := OpenReader(file, |header|);
    ByteTableWeight(table);
    BuildTreeCorrect(table);
    forall i | 0 <= i < |data|
      ensures Reaches(nodes, root, data[i])
    {
      assert data[i] in multiset(data);
      assert CountBytes(data)[data[i]] != 0;
    }
    var codes := CodeTable(nodes, root);
    forall l | 0 <= l <= EndOfStream && Reaches(nodes, root, l)
      ensures CodeBits(codes[l]) == PathTo(nodes, root, l)
    {
      CodeTableCorrect(nodes, root, l);
    }
    ExpandPayload(nodes, root, codes, r, data, pad);
  }

  /** The corrected compressor round-trips every source, the empty one
      included, provided every code fits in 32 bits. */
  lemma RoundTripFixed(data: seq<byte>)
    requires FitsU32(TreeOf(Model(data)).0, TreeOf(Model(data)).1)
    ensures ExpandFile(CompressFileFixed(data)) == Ok(data)
  {
    var header := OutputCountsFixed(Model(data));
    FixedBodyHeader(data);
    ExpandBody(header, data);
  }

  /** The corrected header at the front of the file reads back as the model. */
  lemma FixedBodyHeader(data: seq<byte>)
    ensures var header := OutputCountsFixed(Model(data));
      InputCounts(Body(header, data), 0) == Ok((Model(data), |header|))
  {
    var table := Model(data);
    var header := OutputCountsFixed(table);
    FixedHeaderPrefix(table, Body(header, data));
  }

  /** Any file that starts with the corrected header of a model table reads
      that table back. */
  lemma FixedHeaderPrefix(table: seq<nat>, file: seq<byte>)
    requires |table| == EndOfStream + 1 && table[EndOfStream] == 1
    requires forall i :: 0 <= i < |table| ==> table[i] < 256
    requires |file| >= |OutputCountsFixed(table)| && file[..|OutputCountsFixed(table)|] == OutputCountsFixed(table)
    ensures InputCounts(file, 0) == Ok((table, |OutputCountsFixed(table)|))
  {
    var n := |OutputCountsFixed(table)|;
    SplitAt(file, n);
    HeaderRoundTripFixed(table, file[n..]);
    assert table[..256] + [1] == table;
  }

  lemma SplitAt<T>(s: seq<T>, n: nat)
    requires n <= |s|
    ensures s == s[..n] + s[n..]
  {
  }

  /** Both headers agree once some slot is nonzero. */
  lemma FixedHeaderAgrees(t: seq<nat>)
    requires IsTable(t) && exists k :: 0 <= k < 256 && t[k] != 0
    ensures OutputCounts(t) == OutputCountsFixed(t)
  {
    var k :| 0 <= k < 256 && t[k] != 0;
    SkipsAgree(t, 0, k);
  }

  lemma {:induction false} SkipsAgree(t: seq<nat>, i: nat, k: nat)
    requires IsTable(t) && i <= k < 256 && t[k] != 0
    ensures NextNonzero(t, i) == FirstRunStart(t, i)
    decreases k - i
  {
    if t[i] == 0 {
      SkipsAgree(t, i + 1, k);
    }
  }

  /** The compressor as written round-trips every nonempty source, provided
      every code fits in 32 bits. */
  lemma RoundTrip(data: seq<byte>)
    requires |data| > 0
    requires FitsU32(TreeOf(Model(data)).0, TreeOf(Model(data)).1)
    ensures ExpandFile(CompressFile(data)) == Ok(data)
  {
    var table := Model(data);
    assert CountBytes(data)[data[0]] != 0 by {
      assert data[0] in multiset(data);
    }
    FixedHeaderAgrees(table);
    RoundTripFixed(data);
  }

  /** The empty source: the compressor as written produces the single byte 0,
      and the expander fails on it with an unexpected end of file. */
  lemma EmptySourceFails()
    ensures CompressFile([]) == [0]
    ensures ExpandFile(CompressFile([])) == Err(UnexpectedEof)
  {
    EmptyCompress();
    ZeroHeaderFails();
  }

  /** The empty source compresses to the single header byte 0. */
  lemma EmptyCompress()
    ensures CompressFile([]) == [0]
  {
    EmptyHeader([]);
    EmptyPayload([0], []);
    assert CloseOutput(BitWriter(FirstMask, 0, [0])) == [0];
  }

  /** The header of the empty source as written: the skip runs off the end
      of the table and only the final 0 is written. */
  lemma EmptyHeader(data: seq<byte>)
    requires |data| == 0
    ensures OutputCounts(Model(data)) == [0]
  {
    EmptyModel(data);
    NextNonzeroOfZeros(Model(data), 0);
  }

  /** The file holding the single byte 0 has no header to read. */
  lemma ZeroHeaderFails()
    ensures ExpandFile([0]) == Err(UnexpectedEof)
  {
    assert InputCounts([0], 0) == Err(UnexpectedEof);
  }

  /** The model of the empty source: only the end-of-stream count is set. */
  lemma EmptyModel(data: seq<byte>)
    requires |data| == 0
    ensures Model(data) == EmptyTable()[EndOfStream := 1]
  {
    assert forall i :: 0 <= i < 256 ==> CountBytes(data)[i] == 0;
  }

  /** The empty source codes to no bits: the end-of-stream leaf is the root
      and its code is empty. */
  lemma EmptyPayload(header: seq<byte>, data: seq<byte>)
    requires |data| == 0
    ensures PayloadWriter(header, data) == BitWriter(FirstMask, 0, header)
  {
    var (nodes, root) := TreeOf(Model(data));
    assert root == EndOfStream by {
      EmptyModel(data);
      BuildTreeSingleLeaf(Model(data));
    }
    LeafRootPayload(nodes, root);
    assert data == [];
  }

  /** A tree that is a single leaf codes the end of stream with no bits. */
  lemma LeafRootPayload(nodes: seq<Node>, root: nat)
    requires Shaped(nodes) && root == EndOfStream < |nodes|
    ensures Payload(CodeTable(nodes, root), []) == []
  {
    var codes := CodeTable(nodes, root);
    assert PathTo(nodes, root, EndOfStream) == [];
    assert codes[EndOfStream] == Code(0, 0);
  }

  lemma {:induction false} NextNonzeroOfZeros(t: seq<nat>, i: nat)
    requires IsTable(t) && i <= 256 && forall k :: i <= k < 256 ==> t[k] == 0
    ensures NextNonzero(t, i) == 256
    decreases 256 - i
  {
    if i < 256 {
      NextNonzeroOfZeros(t, i + 1);
    }
  }
}
