/** The dimensions of a csv2nds schema and the encoding of one CSV field of
    one dimension into the bytes that `gerenate_from_csv` writes. */
module Dimensions {
  import opened Wrappers
  import opened CArith
  import opened CsvFields
  import opened Encoders

  /** How a categorical dimension bins its column (`TCategorical::bin_type`). */
  datatype CategoricalBins =
    | Discrete(keys: seq<string>)
    | Range(bounds: seq<real>)
    | Binary
    | Sequential(first: int, second: int)

  /** A dimension of the schema. `bins` of a categorical dimension is the value
      of its `get_n_bins()`. */
  datatype Dimension =
    | Categorical(column: nat, binning: CategoricalBins, bins: int)
    | Temporal(column: nat, interval: int, format: string)
    | Spatial(column: nat)

  /** The parts of the schema that the transcoder reads. */
  datatype Schema = Schema(header: bool, dims: seq<Dimension>)

  /** The library conversions the encoders call, as functions: `std::stoi` and
      `std::stof` give `None` where they throw `std::invalid_argument`; the
      temporal parse gives the seconds from 1970-01-01 of a token read with a
      format; `floatBytes` is the in-memory representation of a `float`. */
  datatype Parsers = Parsers(
    stoi: string -> Option<int>,
    stof: string -> Option<real>,
    epochSeconds: (string, string) -> int,
    floatBytes: real -> (Byte, Byte, Byte, Byte))

  /** Bytes written per record: `uint8_t`, `uint32_t`, and the two `float`s of
      `coordinates_t`. */
  function Width(d: Dimension): (w: nat)
    ensures w == 1 || w == 4 || w == 8
  {
    match d
    case Categorical(_, _, _) => 1
    case Temporal(_, _, _) => 4
    case Spatial(_) => 8
  }

  /** Sum of the widths of the dimensions: the bytes of one record. */
  function TotalWidth(dims: seq<Dimension>): nat
  {
    if dims == [] then 0 else TotalWidth(dims[..|dims| - 1]) + Width(dims[|dims| - 1])
  }

  /** The `uint32_t` sum of the widths, as `bytes += width` accumulates it:
      the total width modulo 2^32. */
  function WrappedWidth(dims: seq<Dimension>): (w: U32)
    ensures w == ToU32(TotalWidth(dims))
  {
    if dims == [] then 0
    else
      var init := dims[..|dims| - 1];
      ToU32Add(TotalWidth(init), Width(dims[|dims| - 1]));
      AddU32(WrappedWidth(init), Width(dims[|dims| - 1]))
  }

  /** A schema the encoders can run on: a sequential range that is not empty
      (the source divides by its width). */
  predicate WellFormed(d: Dimension)
  {
    d.Categorical? && d.binning.Sequential? ==> d.binning.second + 1 != d.binning.first
  }

  /** The tokens the encoder reads exist: the source indexes them unchecked. */
  predicate ColumnsPresent(d: Dimension, tokens: seq<string>)
  {
    match d
    case Categorical(c, _, _) => c < |tokens|
    case Temporal(c, _, _) => c < |tokens|
    case Spatial(c) => c + 1 < |tokens|
  }

  /** Little-endian bytes of a `uint32_t`: they read back as the value written. */
  function U32Bytes(v: U32): (bs: seq<Byte>)
    ensures |bs| == 4
    ensures U32Value(bs) == v
  {
    var b0, q0 := v % 256, v / 256;
    var b1, q1 := q0 % 256, q0 / 256;
    var b2, b3 := q1 % 256, q1 / 256;
    assert v == b0 + 256 * q0 && q0 == b1 + 256 * q1 && q1 == b2 + 256 * b3;
    DivMod16(b0 + 256 * b1, q1);
    DivMod24(b0 + 256 * b1 + 65536 * b2, b3);
    [v % 256, (v / 256) % 256, (v / 65536) % 256, v / 16777216]
  }

  /** The `uint32_t` whose little-endian bytes are `bs`. */
  function U32Value(bs: seq<Byte>): int
    requires |bs| == 4
  {
    bs[0] as int + 256 * (bs[1] as int) + 65536 * (bs[2] as int) + 16777216 * (bs[3] as int)
  }

  /** Division with remainder by the byte, two-byte and three-byte bases. */
  lemma DivMod8(lo: int, hi: int)
    requires 0 <= lo < 256
    ensures (lo + 256 * hi) / 256 == hi && (lo + 256 * hi) % 256 == lo
  {
  }

  lemma DivMod16(lo: int, hi: int)
    requires 0 <= lo < 65536
    ensures (lo + 65536 * hi) / 65536 == hi && (lo + 65536 * hi) % 65536 == lo
  {
  }

  lemma DivMod24(lo: int, hi: int)
    requires 0 <= lo < 16777216
    ensures (lo + 16777216 * hi) / 16777216 == hi && (lo + 16777216 * hi) % 16777216 == lo
  {
  }


  /** Reading four bytes and writing the value again gives the same bytes. */
  lemma U32BytesOfValue(bs: seq<Byte>)
    requires |bs| == 4
    ensures 0 <= U32Value(bs) < U32_MODULUS
    ensures U32Bytes(U32Value(bs)) == bs
  {
    var v := U32Value(bs);
    var b0, b1, b2, b3 := bs[0] as int, bs[1] as int, bs[2] as int, bs[3] as int;
    DivMod8(b0, b1 + 256 * b2 + 65536 * b3);
    DivMod8(b1, b2 + 256 * b3);
    DivMod16(b0 + 256 * b1, b2 + 256 * b3);
    DivMod8(b2, b3);
    DivMod24(b0 + 256 * b1 + 65536 * b2, b3);
  }

  function FloatBytes(p: Parsers, x: real): (bs: seq<Byte>)
    ensures |bs| == 4
  {
    var (b0, b1, b2, b3) := p.floatBytes(x);
    [b0, b1, b2, b3]
  }

  /** When a field's encoding throws `std::invalid_argument`. */
  predicate ParseFails(d: Dimension, tokens: seq<string>, p: Parsers)
    requires ColumnsPresent(d, tokens)
  {
    match d
    case Categorical(c, binning, _) =>
      ((binning.Range? || binning.Sequential?) && p.stof(tokens[c]).None?)
      || (binning.Binary? && p.stoi(tokens[c]).None?)
    case Temporal(_, _, _) => false
    case Spatial(c) => p.stof(tokens[c]).None? || p.stof(tokens[c + 1]).None?
  }

  /** The value one dimension encodes for the tokens of one line, or `None`
      when a conversion throws `std::invalid_argument`. */
  function EncodeField(d: Dimension, tokens: seq<string>, p: Parsers): (r: Option<seq<Byte>>)
    requires WellFormed(d) && ColumnsPresent(d, tokens)
    ensures r.None? <==> ParseFails(d, tokens, p)
    ensures r.Some? ==> |r.value| == Width(d)
  {
    match d
    case Categorical(c, binning, _) =>
      var token := tokens[c];
      (match binning
       case Discrete(keys) => Some([EncodeDiscrete(keys, token)])
       case Range(bounds) =>
         (match p.stof(token)
          case None => None
          case Some(v) => Some([EncodeRange(bounds, v)]))
       case Binary =>
         (match p.stoi(token)
          case None => None
          case Some(n) => Some([EncodeBinary(n)]))
       case Sequential(first, second) =>
         (match p.stof(token)
          case None => None
          case Some(x) => Some([EncodeSequential(first, second, x)])))
    case Temporal(c, _, format) =>
      Some(U32Bytes(ToU32(p.epochSeconds(tokens[c], format))))
    case Spatial(c) =>
      (match p.stof(tokens[c])
       case None => None
       case Some(lat) =>
         (match p.stof(tokens[c + 1])
          case None => None
          case Some(lon) => Some(FloatBytes(p, lat) + FloatBytes(p, lon))))
  }

  /** A discrete field is never rejected and holds the index of its category. */
  lemma DiscreteFieldIsIndex(keys: seq<string>, bins: int, column: nat, tokens: seq<string>, p: Parsers)
    requires column < |tokens|
    ensures EncodeField(Categorical(column, Discrete(keys), bins), tokens, p)
            == Some([ToByte(Find(keys, tokens[column]))])
  {
  }

  /** A temporal field is never rejected: the seconds since 1970 are stored
      modulo 2^32, little-endian. */
  lemma TemporalFieldIsSeconds(column: nat, interval: int, format: string, tokens: seq<string>, p: Parsers)
    requires column < |tokens|
    ensures var r := EncodeField(Temporal(column, interval, format), tokens, p);
            r.Some? && U32Value(r.value) == ToU32(p.epochSeconds(tokens[column], format))
  {
  }

  /** A range field holds the number of bounds below the parsed value when the
      bounds ascend, and is rejected only when `std::stof` throws. */
  lemma RangeFieldIsCount(bounds: seq<real>, bins: int, column: nat, tokens: seq<string>, p: Parsers)
    requires column < |tokens|
    ensures p.stof(tokens[column]).None? ==> EncodeField(Categorical(column, Range(bounds), bins), tokens, p).None?
    ensures p.stof(tokens[column]).Some? && Ascending(bounds) ==>
            EncodeField(Categorical(column, Range(bounds), bins), tokens, p)
            == Some([ToByte(CountLess(bounds, p.stof(tokens[column]).value))])
  {
  }

  /** A binary field holds the parsed integer modulo 256, and is rejected only
      when `std::stoi` throws. */
  lemma BinaryFieldIsInteger(bins: int, column: nat, tokens: seq<string>, p: Parsers)
    requires column < |tokens|
    ensures p.stoi(tokens[column]).None? ==> EncodeField(Categorical(column, Binary, bins), tokens, p).None?
    ensures p.stoi(tokens[column]).Some? ==>
            EncodeField(Categorical(column, Binary, bins), tokens, p) == Some([ToByte(p.stoi(tokens[column]).value)])
  {
  }

  /** A sequential field holds the parsed value less `first`, rounded down and
      modulo 256, for an interval whose width fits in `uint32_t`. */
  lemma SequentialFieldIsShift(first: int, second: int, bins: int, column: nat, tokens: seq<string>, p: Parsers)
    requires column < |tokens| && first <= second && second - first < U32_MODULUS - 1
    ensures p.stof(tokens[column]).None? ==> EncodeField(Categorical(column, Sequential(first, second), bins), tokens, p).None?
    ensures p.stof(tokens[column]).Some? ==>
            EncodeField(Categorical(column, Sequential(first, second), bins), tokens, p)
            == Some([ToByte((p.stof(tokens[column]).value - first as real).Floor)])
  {
  }

  /** A spatial field holds the `float` bytes of the latitude, then those of
      the longitude from the next column, and is rejected when either
      `std::stof` throws. */
  lemma SpatialFieldIsCoordinates(column: nat, tokens: seq<string>, p: Parsers)
    requires column + 1 < |tokens|
    ensures p.stof(tokens[column]).None? || p.stof(tokens[column + 1]).None? ==>
            EncodeField(Spatial(column), tokens, p).None?
    ensures p.stof(tokens[column]).Some? && p.stof(tokens[column + 1]).Some? ==>
            EncodeField(Spatial(column), tokens, p)
            == Some(FloatBytes(p, p.stof(tokens[column]).value) + FloatBytes(p, p.stof(tokens[column + 1]).value))
  {
  }
}
