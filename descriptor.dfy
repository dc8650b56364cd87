/** The index, bin and offset that `generate_xml` of csv2nds/main.cpp gives
    each dimension, and how the offsets compare with the layout that
    `gerenate_from_csv` actually writes. */
module Descriptor {
  import opened CArith
  import opened Encoders
  import opened CsvFields
  import opened Dimensions
  import opened Transcoder

  /** The element a dimension's node is written as. */
  datatype Kind = CategoricalNode | TemporalNode | SpatialNode

  /** One node of the descriptor's schema. */
  datatype Node = Node(kind: Kind, index: U32, bin: int, offset: U32)

  function KindOf(d: Dimension): Kind
  {
    match d
    case Categorical(_, _, _) => CategoricalNode
    case Temporal(_, _, _) => TemporalNode
    case Spatial(_) => SpatialNode
  }

  /** `get_n_bins()` of a categorical dimension, the interval of a temporal
      one, and 1 for a spatial one. */
  function BinOf(d: Dimension): int
  {
    match d
    case Categorical(_, _, bins) => bins
    case Temporal(_, interval, _) => interval
    case Spatial(_) => 1
  }

  /** The loop of `generate_xml`: one node per dimension in schema order, the
      `index` counting up from 0 and the `offset` the sum of the widths of the
      dimensions before, both `uint32_t`. */
  method GenerateXml(dims: seq<Dimension>) returns (nodes: seq<Node>)
    ensures |nodes| == |dims|
    ensures forall k :: 0 <= k < |dims| ==> nodes[k].kind == KindOf(dims[k]) && nodes[k].bin == BinOf(dims[k])
    ensures forall k :: 0 <= k < |dims| ==> nodes[k].index == ToU32(k)
    ensures forall k :: 0 <= k < |dims| ==> nodes[k].offset == ToU32(TotalWidth(dims[..k]))
  {
    nodes := [];
    var index: U32 := 0;
    var offset: U32 := 0;
    for k := 0 to |dims|
      invariant |nodes| == k
      invariant index == Increments(k) && offset == WrappedWidth(dims[..k])
      invariant forall m :: 0 <= m < k ==> nodes[m] == NodeAt(dims, m)
    {
      var d := dims[k];
      nodes := nodes + [Node(KindOf(d), index, BinOf(d), offset)];
      CountersStep(dims, k);
      index := AddU32(index, 1);
      offset := AddU32(offset, Width(d));
    }
    forall k | 0 <= k < |dims|
      ensures nodes[k].index == ToU32(k) && nodes[k].offset == ToU32(TotalWidth(dims[..k]))
    {
      NodeAtCounts(dims, k);
    }
  }

  /** The node the loop builds for dimension `k`, with its counters as the
      loop accumulates them. */
  function NodeAt(dims: seq<Dimension>, k: nat): Node
    requires k < |dims|
  {
    Node(KindOf(dims[k]), Increments(k), BinOf(dims[k]), WrappedWidth(dims[..k]))
  }

  /** Both counters after one more dimension. */
  lemma CountersStep(dims: seq<Dimension>, k: nat)
    requires k < |dims|
    ensures Increments(k + 1) == AddU32(Increments(k), 1)
    ensures WrappedWidth(dims[..k + 1]) == AddU32(WrappedWidth(dims[..k]), Width(dims[k]))
  {
    assert dims[..k + 1][..k] == dims[..k];
  }

  /** The counters of node `k` are `k` and the widths before it, modulo 2^32. */
  lemma NodeAtCounts(dims: seq<Dimension>, k: nat)
    requires k < |dims|
    ensures NodeAt(dims, k).index == ToU32(k)
    ensures NodeAt(dims, k).offset == ToU32(TotalWidth(dims[..k]))
  {
    IncrementsWrap(k);
  }

  /** Where the file holds value `r` of dimension `k` when every line encodes:
      after the blocks of the dimensions before `k` and the values of the lines
      before `r`. */
  function FieldMajorAt(dims: seq<Dimension>, lines: nat, k: nat, r: nat): nat
    requires k < |dims|
  {
    TotalWidth(dims[..k]) * lines + Width(dims[k]) * r
  }

  /** Where a reader of the descriptor looks for it: record `r` is `bytes` long
      and the value lies `offset` bytes into it. */
  function InterleavedAt(dims: seq<Dimension>, k: nat, r: nat): nat
    requires k < |dims|
  {
    r * TotalWidth(dims) + TotalWidth(dims[..k])
  }

  /** When every line encodes, byte `j` of the value of line `r` for dimension
      `k` sits at `FieldMajorAt` past the header. */
  lemma FieldMajorPosition(dims: seq<Dimension>, rows: seq<string>, p: Parsers, h: BinaryHeader,
                           k: nat, r: nat, j: nat)
    requires AllWellFormed(dims) && EveryEncodes(dims, rows, p)
    requires k < |dims| && r < |rows| && j < Width(dims[k])
    ensures Readable(dims, rows) && WellFormed(dims[k]) && ColumnsPresent(dims[k], Split(rows[r]))
    ensures |RowBytes(dims[k], rows[r], p)| == Width(dims[k])
    ensures FieldMajorAt(dims, |rows|, k, r) + j < |Payload(dims, rows, p)|
    ensures (HeaderBytes(h) + Payload(dims, rows, p))[HEADER_SIZE + FieldMajorAt(dims, |rows|, k, r) + j]
            == RowBytes(dims[k], rows[r], p)[j]
  {
    PayloadPosition(dims, rows, p, k, r, j);
    AfterHeader(h, Payload(dims, rows, p), FieldMajorAt(dims, |rows|, k, r) + j);
  }

  /** The position within the payload. */
  lemma PayloadPosition(dims: seq<Dimension>, rows: seq<string>, p: Parsers, k: nat, r: nat, j: nat)
    requires AllWellFormed(dims) && EveryEncodes(dims, rows, p)
    requires k < |dims| && r < |rows| && j < Width(dims[k])
    ensures Readable(dims, rows) && WellFormed(dims[k]) && ColumnsPresent(dims[k], Split(rows[r]))
    ensures |RowBytes(dims[k], rows[r], p)| == Width(dims[k])
    ensures FieldMajorAt(dims, |rows|, k, r) + j < |Payload(dims, rows, p)|
    ensures Payload(dims, rows, p)[FieldMajorAt(dims, |rows|, k, r) + j] == RowBytes(dims[k], rows[r], p)[j]
  {
    PositionParts(dims, rows, p, k, r);
    ValueAt(dims, rows, p, k, r, j, FieldMajorAt(dims, |rows|, k, r) + j);
  }

  /** When every line encodes, the blocks before dimension `k` and the values
      of the lines before `r` together take `FieldMajorAt` bytes. */
  lemma PositionParts(dims: seq<Dimension>, rows: seq<string>, p: Parsers, k: nat, r: nat)
    requires AllWellFormed(dims) && EveryEncodes(dims, rows, p)
    requires k < |dims| && r < |rows|
    ensures Readable(dims, rows) && AllWellFormed(dims[..k]) && Readable(dims[..k], rows)
    ensures WellFormed(dims[k]) && ReadableBy(dims[k], rows)
    ensures ReadableBy(dims[k], rows[..r]) && ColumnsPresent(dims[k], Split(rows[r]))
    ensures |RowBytes(dims[k], rows[r], p)| == Width(dims[k])
    ensures |Payload(dims[..k], rows, p)| + |FieldBlock(dims[k], rows[..r], p)| == FieldMajorAt(dims, |rows|, k, r)
  {
    var d := dims[k];
    EncodingLinesReadable(dims, rows, p);
    ReadableOne(dims, rows, k);
    assert d in dims;
    assert rows[r] in rows && Encodes(d, rows[r], p);
    assert AllEncode(d, rows[..r], p);
    AllEncodedCounted(d, rows[..r], p);
    assert |rows[..r]| == r;
    PrefixLength(dims, rows, p, k);
  }

  /** The payload starts right after the header. */
  lemma AfterHeader(h: BinaryHeader, payload: seq<Byte>, x: nat)
    requires x < |payload|
    ensures HEADER_SIZE + x < |HeaderBytes(h) + payload|
    ensures (HeaderBytes(h) + payload)[HEADER_SIZE + x] == payload[x]
  {
  }

  /** The descriptor's offsets locate every value exactly when there is a
      single dimension or at most one line; otherwise the value of the first
      line for the second dimension is somewhere else. */
  lemma LayoutsAgree(dims: seq<Dimension>, lines: nat)
    ensures (forall k, r :: 0 <= k < |dims| && 0 <= r < lines ==> FieldMajorAt(dims, lines, k, r) == InterleavedAt(dims, k, r))
            <==> (|dims| <= 1 || lines <= 1)
  {
    if |dims| >= 2 && lines >= 2 {
      assert dims[..1] == [dims[0]];
      assert TotalWidth([dims[0]]) == Width(dims[0]);
      assert FieldMajorAt(dims, lines, 1, 0) == Width(dims[0]) * lines;
      assert Width(dims[0]) * lines >= Width(dims[0]) * 2;
    } else if |dims| == 1 {
      assert dims[..0] == [];
      assert dims[..1] == dims;
    } else if lines == 1 {
      forall k, r | 0 <= k < |dims| && 0 <= r < lines
        ensures FieldMajorAt(dims, lines, k, r) == InterleavedAt(dims, k, r)
      {
      }
    }
  }
}
