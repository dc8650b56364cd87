/** `gerenate_from_csv` of csv2nds/main.cpp: the binary output file is an
    8-byte header (`bytes`, `records`) followed by one block per dimension,
    each block holding that dimension's value for every line that encodes. */
module Transcoder {
  import opened Wrappers
  import opened CArith
  import opened CsvFields
  import opened Encoders
  import opened Dimensions

  /** `BinaryHeader`: two `uint32_t` fields. */
  datatype BinaryHeader = BinaryHeader(bytes: U32, records: U32)

  const HEADER_SIZE: nat := 8

  /** The header as it lies in the file. */
  function HeaderBytes(h: BinaryHeader): (bs: seq<Byte>)
    ensures |bs| == HEADER_SIZE
    ensures U32Value(bs[..4]) == h.bytes && U32Value(bs[4..]) == h.records
  {
    assert (U32Bytes(h.bytes) + U32Bytes(h.records))[..4] == U32Bytes(h.bytes);
    assert (U32Bytes(h.bytes) + U32Bytes(h.records))[4..] == U32Bytes(h.records);
    U32Bytes(h.bytes) + U32Bytes(h.records)
  }

  /** The contents of a file after writing `bytes` at position `at`: the bytes
      before and after the written range are kept. */
  function Overwrite(data: seq<Byte>, at: nat, bytes: seq<Byte>): (r: seq<Byte>)
    requires at <= |data|
    ensures |r| == if at + |bytes| <= |data| then |data| else at + |bytes|
    ensures r[..at] == data[..at] && r[at..at + |bytes|] == bytes
    ensures forall i :: at + |bytes| <= i < |data| ==> r[i] == data[i]
    ensures at == |data| ==> r == data + bytes
  {
    data[..at] + bytes + (if at + |bytes| < |data| then data[at + |bytes|..] else [])
  }

  /** The `std::ofstream` opened in binary mode: its contents and put position. */
  class OutputFile {
    var data: seq<Byte>
    var pos: nat

    predicate Valid()
      reads this
    {
      pos <= |data|
    }

    constructor ()
      ensures Valid() && data == [] && pos == 0
    {
      data := [];
      pos := 0;
    }

    /** `write`: puts the bytes at the put position and moves past them. */
    method Write(bytes: seq<Byte>)
      requires Valid()
      modifies this
      ensures Valid()
      ensures data == Overwrite(old(data), old(pos), bytes)
      ensures pos == old(pos) + |bytes|
    {
      data := Overwrite(data, pos, bytes);
      pos := pos + |bytes|;
    }

    /** `seekp(0, std::ios::beg)` */
    method SeekStart()
      requires Valid()
      modifies this
      ensures Valid() && data == old(data) && pos == 0
    {
      pos := 0;
    }
  }

  /** The lines read after the optional CSV header line. */
  function DataRows(lines: seq<string>, header: bool): (rows: seq<string>)
    ensures |rows| == if header && lines != [] then |lines| - 1 else |lines|
  {
    if header && lines != [] then lines[1..] else lines
  }

  /** The text of a file whose every line ends with a newline. */
  function Terminated(ls: seq<string>): string
  {
    if ls == [] then "" else ls[0] + "\n" + Terminated(ls[1..])
  }

  /** The lines the `while (!infile.eof()) { getline(...) }` loop delivers: the
      text between newlines, and always the text after the last one, even when
      it is empty. */
  function EofLines(text: string): (ls: seq<string>)
    ensures |ls| >= 1
  {
    if text == [] then [""]
    else if text[0] == '\n' then [""] + EofLines(text[1..])
    else
      var rest := EofLines(text[1..]);
      [[text[0]] + rest[0]] + rest[1..]
  }

  /** The lines a `while (std::getline(infile, line))` loop delivers: the same,
      without an empty piece after a final newline. */
  function GetlineLines(text: string): seq<string>
  {
    DropTrailingEmpty(EofLines(text))
  }

  /** A line and its newline come out as that line. */
  lemma {:induction false} EofLinesCons(l: string, rest: string)
    requires '\n' !in l
    ensures EofLines(l + "\n" + rest) == [l] + EofLines(rest)
    decreases |l|
  {
    if l == [] {
      assert (l + "\n" + rest)[1..] == rest;
    } else {
      assert l[0] in l;
      assert '\n' !in l[1..] by {
        forall i | 0 <= i < |l[1..]| ensures l[1..][i] != '\n' {
          assert l[1..][i] == l[i + 1];
        }
      }
      EofLinesCons(l[1..], rest);
      assert (l + "\n" + rest)[1..] == l[1..] + "\n" + rest;
      assert [l[0]] + l[1..] == l;
    }
  }

  /** As written: a file whose lines all end with a newline yields one more,
      empty, line. */
  lemma {:induction false} EofLinesOfTerminated(ls: seq<string>)
    requires forall k :: 0 <= k < |ls| ==> '\n' !in ls[k]
    ensures EofLines(Terminated(ls)) == ls + [""]
    decreases |ls|
  {
    if ls != [] {
      EofLinesOfTerminated(ls[1..]);
      EofLinesCons(ls[0], Terminated(ls[1..]));
      assert [ls[0]] + (ls[1..] + [""]) == ls + [""];
    }
  }

  /** As written, the empty last line of a newline-terminated file is read,
      counted as a record, and indexed although it has no fields: no dimension
      can read it. The file holds its header line when it declares one. */
  lemma FinalNewlineUnreadable(dims: seq<Dimension>, ls: seq<string>, header: bool)
    requires forall k :: 0 <= k < |ls| ==> '\n' !in ls[k]
    requires dims != [] && (header ==> ls != [])
    ensures DataRows(EofLines(Terminated(ls)), header) == DataRows(ls, header) + [""]
    ensures !Readable(dims, DataRows(EofLines(Terminated(ls)), header))
    ensures forall d :: d in dims ==> !ReadableBy(d, DataRows(EofLines(Terminated(ls)), header))
  {
    EofLinesOfTerminated(ls);
    var rows := DataRows(ls, header) + [""];
    DataRowsSnoc(ls, header);
    assert rows[|rows| - 1] in rows;
    EmptyLineUnreadable(dims, rows);
  }

  /** Skipping the header commutes with a line appended at the end. */
  lemma DataRowsSnoc(ls: seq<string>, header: bool)
    requires header ==> ls != []
    ensures DataRows(ls + [""], header) == DataRows(ls, header) + [""]
  {
    if header {
      assert (ls + [""])[1..] == ls[1..] + [""];
    }
  }

  /** A line with no fields holds no column, for any dimension. */
  lemma EmptyLineUnreadable(dims: seq<Dimension>, rows: seq<string>)
    requires dims != [] && "" in rows
    ensures !Readable(dims, rows)
    ensures forall d :: d in dims ==> !ReadableBy(d, rows)
  {
    assert Split("") == [];
    forall d | d in dims
      ensures !ReadableBy(d, rows)
    {
      assert !ColumnsPresent(d, Split(""));
    }
    assert dims[0] in dims;
  }

  /** Corrected: the `getline` loop reads back exactly the lines of a
      newline-terminated file. */
  lemma GetlineLinesOfTerminated(ls: seq<string>)
    requires forall k :: 0 <= k < |ls| ==> '\n' !in ls[k]
    ensures GetlineLines(Terminated(ls)) == ls
  {
    EofLinesOfTerminated(ls);
    assert (ls + [""])[..|ls|] == ls;
  }

  /** Every line holds the columns the dimension reads. */
  predicate ReadableBy(d: Dimension, rows: seq<string>)
  {
    forall row :: row in rows ==> ColumnsPresent(d, Split(row))
  }

  /** Every line holds the columns every dimension reads. */
  predicate Readable(dims: seq<Dimension>, rows: seq<string>)
  {
    forall d :: d in dims ==> ReadableBy(d, rows)
  }

  predicate AllWellFormed(dims: seq<Dimension>)
  {
    forall d :: d in dims ==> WellFormed(d)
  }

  /** What one line adds to a dimension's block: its encoding, or nothing. */
  function RowBytes(d: Dimension, row: string, p: Parsers): (bs: seq<Byte>)
    requires WellFormed(d) && ColumnsPresent(d, Split(row))
    ensures |bs| == if ParseFails(d, Split(row), p) then 0 else Width(d)
  {
    match EncodeField(d, Split(row), p)
    case None => []
    case Some(v) => v
  }

  /** A dimension's block: the bytes of its lines in order. */
  function FieldBlock(d: Dimension, rows: seq<string>, p: Parsers): seq<Byte>
    requires WellFormed(d) && ReadableBy(d, rows)
  {
    if rows == [] then []
    else
      assert rows[|rows| - 1] in rows;
      FieldBlock(d, rows[..|rows| - 1], p) + RowBytes(d, rows[|rows| - 1], p)
  }

  /** All blocks, dimension after dimension. */
  function Payload(dims: seq<Dimension>, rows: seq<string>, p: Parsers): seq<Byte>
    requires AllWellFormed(dims) && Readable(dims, rows)
  {
    if dims == [] then []
    else
      ReadableOne(dims, rows, |dims| - 1);
      Payload(dims[..|dims| - 1], rows, p) + FieldBlock(dims[|dims| - 1], rows, p)
  }

  /** Number of lines that a dimension encodes. */
  function Encoded(d: Dimension, rows: seq<string>, p: Parsers): (n: nat)
    requires WellFormed(d) && ReadableBy(d, rows)
    ensures n <= |rows|
  {
    if rows == [] then 0
    else
      assert rows[|rows| - 1] in rows;
      Encoded(d, rows[..|rows| - 1], p) + (if ParseFails(d, Split(rows[|rows| - 1]), p) then 0 else 1)
  }

  lemma ReadableOne(dims: seq<Dimension>, rows: seq<string>, k: nat)
    requires Readable(dims, rows) && k < |dims|
    ensures ReadableBy(dims[k], rows) && Readable(dims[..k], rows)
  {
  }

  /** `gerenate_from_csv`: the file contents and the final header. Every line
      counts as a record, whether or not it encodes, and the record count
      starts again for every dimension. */
  method GenerateFromCsv(schema: Schema, lines: seq<string>, p: Parsers)
      returns (output: seq<Byte>, header: BinaryHeader)
    requires AllWellFormed(schema.dims)
    requires Readable(schema.dims, DataRows(lines, schema.header))
    ensures header.bytes == ToU32(TotalWidth(schema.dims))
    ensures header.records == if schema.dims == [] then 0 else ToU32(|DataRows(lines, schema.header)|)
    ensures output == HeaderBytes(header) + Payload(schema.dims, DataRows(lines, schema.header), p)
  {
    var rows := DataRows(lines, schema.header);
    var binary := new OutputFile();
    var placeholder := HeaderBytes(BinaryHeader(0, 0));
    binary.Write(placeholder);
    assert binary.data == placeholder;
    header := TranscodeFields(binary, schema.dims, rows, p);
    binary.SeekStart();
    PatchHeader(BinaryHeader(0, 0), header, Payload(schema.dims, rows, p));
    binary.Write(HeaderBytes(header));
    output := binary.data;
  }

  /** The outer loop of `gerenate_from_csv`: the blocks of the dimensions, one
      after the other, and the header they leave behind. */
  method TranscodeFields(binary: OutputFile, dims: seq<Dimension>, rows: seq<string>, p: Parsers)
      returns (header: BinaryHeader)
    requires AllWellFormed(dims) && Readable(dims, rows)
    requires binary.Valid() && binary.pos == |binary.data|
    modifies binary
    ensures binary.Valid() && binary.pos == |binary.data|
    ensures binary.data == old(binary.data) + Payload(dims, rows, p)
    ensures header.bytes == ToU32(TotalWidth(dims))
    ensures header.records == if dims == [] then 0 else ToU32(|rows|)
  {
    header := BinaryHeader(0, 0);
    var f := 0;
    while f < |dims|
      invariant 0 <= f <= |dims|
      invariant binary.Valid() && binary.pos == |binary.data|
      invariant binary.data == old(binary.data) + Payload(dims[..f], rows, p)
      invariant header.bytes == WrappedWidth(dims[..f])
      invariant header.records == if f == 0 then 0 else Increments(|rows|)
    {
      var d := dims[f];
      PayloadStep(dims, rows, p, f, old(binary.data));
      header := header.(bytes := AddU32(header.bytes, Width(d)), records := 0);
      var records := TranscodeField(binary, d, rows, p);
      header := header.(records := records);
      f := f + 1;
    }
    assert dims[..f] == dims;
    IncrementsWrap(|rows|);
  }

  /** One pass of the outer loop of `gerenate_from_csv`: every line is counted,
      and the encoding of each line that encodes is appended. */
  method TranscodeField(binary: OutputFile, d: Dimension, rows: seq<string>, p: Parsers)
      returns (records: U32)
    requires WellFormed(d) && ReadableBy(d, rows)
    requires binary.Valid() && binary.pos == |binary.data|
    modifies binary
    ensures binary.Valid() && binary.pos == |binary.data|
    ensures binary.data == old(binary.data) + FieldBlock(d, rows, p)
    ensures records == Increments(|rows|)
  {
    records := 0;
    var r := 0;
    while r < |rows|
      invariant 0 <= r <= |rows|
      invariant binary.Valid() && binary.pos == |binary.data|
      invariant binary.data == old(binary.data) + FieldBlock(d, rows[..r], p)
      invariant records == Increments(r)
    {
      records := AddU32(records, 1);
      var next := r + 1;
      FieldBlockStep(d, rows, p, r, next, old(binary.data));
      TranscodeLine(binary, d, rows[r], p);
      r := next;
    }
    assert rows[..r] == rows;
  }

  /** The body of the inner loop of `gerenate_from_csv`: split the line, encode
      the dimension's field and write it, unless the encoding throws. */
  method TranscodeLine(binary: OutputFile, d: Dimension, line: string, p: Parsers)
    requires WellFormed(d) && ColumnsPresent(d, Split(line))
    requires binary.Valid() && binary.pos == |binary.data|
    modifies binary
    ensures binary.Valid() && binary.pos == |binary.data|
    ensures binary.data == old(binary.data) + RowBytes(d, line, p)
  {
    var tokens := Split(line);
    var value := EncodeField(d, tokens, p);
    if value.Some? {
      binary.Write(value.value);
    }
  }

  /** The block of one more line. */
  lemma FieldBlockStep(d: Dimension, rows: seq<string>, p: Parsers, r: nat, next: nat, before: seq<Byte>)
    requires WellFormed(d) && ReadableBy(d, rows) && r < |rows| && next == r + 1
    ensures ReadableBy(d, rows[..r]) && ReadableBy(d, rows[..next])
    ensures ColumnsPresent(d, Split(rows[r]))
    ensures before + FieldBlock(d, rows[..next], p) == (before + FieldBlock(d, rows[..r], p)) + RowBytes(d, rows[r], p)
  {
    assert rows[r] in rows;
    assert rows[..next][..r] == rows[..r];
  }

  /** The payload of one more dimension. */
  lemma PayloadStep(dims: seq<Dimension>, rows: seq<string>, p: Parsers, f: nat, before: seq<Byte>)
    requires AllWellFormed(dims) && Readable(dims, rows) && f < |dims|
    ensures Readable(dims[..f], rows) && ReadableBy(dims[f], rows) && WellFormed(dims[f])
    ensures AllWellFormed(dims[..f + 1]) && Readable(dims[..f + 1], rows)
    ensures before + Payload(dims[..f + 1], rows, p) == (before + Payload(dims[..f], rows, p)) + FieldBlock(dims[f], rows, p)
    ensures WrappedWidth(dims[..f + 1]) == AddU32(WrappedWidth(dims[..f]), Width(dims[f]))
  {
    ReadableOne(dims, rows, f);
    assert dims[..f + 1][..f] == dims[..f];
  }

  /** Rewriting the header at the start of the file keeps the payload after it. */
  lemma PatchHeader(placeholder: BinaryHeader, h: BinaryHeader, payload: seq<Byte>)
    ensures Overwrite(HeaderBytes(placeholder) + payload, 0, HeaderBytes(h)) == HeaderBytes(h) + payload
  {
    var data := HeaderBytes(placeholder) + payload;
    assert data[HEADER_SIZE..] == payload;
  }

  /** The placeholder header written first is eight zero bytes. */
  lemma PlaceholderIsZero()
    ensures HeaderBytes(BinaryHeader(0, 0)) == [0, 0, 0, 0, 0, 0, 0, 0]
  {
  }

  /** A line of which one conversion throws adds no bytes to the block, nor to
      the count of encoded lines; the loop goes on with the next line. */
  lemma FailedLineSkipped(d: Dimension, rows: seq<string>, p: Parsers, r: nat)
    requires WellFormed(d) && ReadableBy(d, rows) && r < |rows|
    requires ColumnsPresent(d, Split(rows[r])) && ParseFails(d, Split(rows[r]), p)
    ensures ReadableBy(d, rows[..r]) && ReadableBy(d, rows[..r + 1])
    ensures FieldBlock(d, rows[..r + 1], p) == FieldBlock(d, rows[..r], p)
    ensures Encoded(d, rows[..r + 1], p) == Encoded(d, rows[..r], p)
  {
    FieldBlockStep(d, rows, p, r, r + 1, []);
    assert rows[..r + 1][..r] == rows[..r];
  }

  /** The block holds one value of the dimension's width per line that encodes. */
  lemma {:induction false} FieldBlockLength(d: Dimension, rows: seq<string>, p: Parsers)
    requires WellFormed(d) && ReadableBy(d, rows)
    ensures |FieldBlock(d, rows, p)| == Width(d) * Encoded(d, rows, p)
  {
    if rows != [] {
      var init := rows[..|rows| - 1];
      var e := LastLineCounted(d, rows, p);
      FieldBlockLength(d, init, p);
      assert Width(d) * (Encoded(d, init, p) + e) == Width(d) * Encoded(d, init, p) + Width(d) * e;
    }
  }

  /** The block and the count of a dimension after one more line. */
  lemma LastLineCounted(d: Dimension, rows: seq<string>, p: Parsers) returns (e: nat)
    requires WellFormed(d) && ReadableBy(d, rows) && rows != []
    ensures ReadableBy(d, rows[..|rows| - 1]) && e <= 1
    ensures |FieldBlock(d, rows, p)| == |FieldBlock(d, rows[..|rows| - 1], p)| + Width(d) * e
    ensures Encoded(d, rows, p) == Encoded(d, rows[..|rows| - 1], p) + e
  {
    var last := rows[|rows| - 1];
    assert last in rows;
    e := if ParseFails(d, Split(last), p) then 0 else 1;
  }

  /** A line every conversion of which succeeds for the dimension. */
  predicate Encodes(d: Dimension, row: string, p: Parsers)
  {
    ColumnsPresent(d, Split(row)) && !ParseFails(d, Split(row), p)
  }

  /** Every line encodes for the dimension. */
  predicate AllEncode(d: Dimension, rows: seq<string>, p: Parsers)
  {
    forall row :: row in rows ==> Encodes(d, row, p)
  }

  /** Every line encodes for every dimension. */
  predicate EveryEncodes(dims: seq<Dimension>, rows: seq<string>, p: Parsers)
  {
    forall d :: d in dims ==> AllEncode(d, rows, p)
  }

  /** Lines that encode hold the columns the dimensions read. */
  lemma EncodingLinesReadable(dims: seq<Dimension>, rows: seq<string>, p: Parsers)
    requires EveryEncodes(dims, rows, p)
    ensures Readable(dims, rows)
  {
    forall d, row | d in dims && row in rows
      ensures ColumnsPresent(d, Split(row))
    {
      assert Encodes(d, row, p);
    }
  }

  /** When no line throws, every line is encoded. */
  lemma {:induction false} AllEncodedCounted(d: Dimension, rows: seq<string>, p: Parsers)
    requires WellFormed(d) && AllEncode(d, rows, p)
    ensures ReadableBy(d, rows)
    ensures Encoded(d, rows, p) == |rows|
    ensures |FieldBlock(d, rows, p)| == Width(d) * |rows|
  {
    if rows != [] {
      var init := rows[..|rows| - 1];
      assert AllEncode(d, init, p);
      assert Encodes(d, rows[|rows| - 1], p);
      AllEncodedCounted(d, init, p);
    }
    FieldBlockLength(d, rows, p);
  }

  /** When no line throws, the payload holds `bytes` per record: the whole
      file is the header and `TotalWidth(dims) * |rows|` bytes. */
  lemma {:induction false} PayloadLength(dims: seq<Dimension>, rows: seq<string>, p: Parsers)
    requires AllWellFormed(dims) && Readable(dims, rows) && EveryEncodes(dims, rows, p)
    ensures |Payload(dims, rows, p)| == TotalWidth(dims) * |rows|
  {
    if dims != [] {
      var init, last := dims[..|dims| - 1], dims[|dims| - 1];
      PayloadSplitLast(dims, rows, p);
      PayloadLength(init, rows, p);
      AllEncodedCounted(last, rows, p);
      Distribute(TotalWidth(init), Width(last), |rows|);
    }
  }

  /** The payload of all dimensions is the payload of all but the last, then
      the last one's block. */
  lemma PayloadSplitLast(dims: seq<Dimension>, rows: seq<string>, p: Parsers)
    requires AllWellFormed(dims) && Readable(dims, rows) && EveryEncodes(dims, rows, p) && dims != []
    ensures var init, last := dims[..|dims| - 1], dims[|dims| - 1];
            && AllWellFormed(init) && Readable(init, rows) && EveryEncodes(init, rows, p)
            && WellFormed(last) && AllEncode(last, rows, p)
            && TotalWidth(dims) == TotalWidth(init) + Width(last)
            && |Payload(dims, rows, p)| == |Payload(init, rows, p)| + |FieldBlock(last, rows, p)|
  {
    var init, last := dims[..|dims| - 1], dims[|dims| - 1];
    ReadableOne(dims, rows, |dims| - 1);
    assert last in dims;
    assert AllWellFormed(init) && EveryEncodes(init, rows, p);
  }

  /** Multiplication distributes over a sum of widths. */
  lemma Distribute(a: int, b: int, n: int)
    ensures (a + b) * n == a * n + b * n
  {
  }

  /** The block of the lines before line `r` plus line `r`'s value. */
  lemma FieldBlockSnoc(d: Dimension, rows: seq<string>, p: Parsers, r: nat)
    requires WellFormed(d) && ReadableBy(d, rows) && r < |rows|
    ensures ReadableBy(d, rows[..r]) && ReadableBy(d, rows[..r + 1])
    ensures ColumnsPresent(d, Split(rows[r]))
    ensures FieldBlock(d, rows[..r + 1], p) == FieldBlock(d, rows[..r], p) + RowBytes(d, rows[r], p)
  {
    assert rows[r] in rows;
    assert rows[..r + 1][..r] == rows[..r];
  }

  /** The block of the first lines starts the block of all lines. */
  lemma {:induction false} FieldBlockPrefix(d: Dimension, rows: seq<string>, p: Parsers, r: nat)
    requires WellFormed(d) && ReadableBy(d, rows) && r <= |rows|
    ensures ReadableBy(d, rows[..r])
    ensures FieldBlock(d, rows[..r], p) <= FieldBlock(d, rows, p)
    decreases |rows| - r
  {
    if r < |rows| {
      FieldBlockPrefix(d, rows, p, r + 1);
      FieldBlockSnoc(d, rows, p, r);
    } else {
      assert rows[..r] == rows;
    }
  }

  /** A byte of `b` sits in any sequence that starts with `a + b`. */
  lemma PrefixIndex(a: seq<Byte>, b: seq<Byte>, c: seq<Byte>, x: nat)
    requires a + b <= c && |a| <= x < |a| + |b|
    ensures x < |c| && c[x] == b[x - |a|]
  {
    assert c[x] == (a + b)[x];
  }

  /** The value of line `r` follows the values of the lines before it. */
  lemma LinePrefix(d: Dimension, rows: seq<string>, p: Parsers, r: nat)
    requires WellFormed(d) && ReadableBy(d, rows) && r < |rows|
    ensures ReadableBy(d, rows[..r]) && ColumnsPresent(d, Split(rows[r]))
    ensures FieldBlock(d, rows[..r], p) + RowBytes(d, rows[r], p) <= FieldBlock(d, rows, p)
  {
    FieldBlockPrefix(d, rows, p, r + 1);
    FieldBlockSnoc(d, rows, p, r);
  }

  /** A byte of `row` within `block` within `whole`. */
  lemma NestedIndex(prefix: seq<Byte>, block: seq<Byte>, whole: seq<Byte>, before: seq<Byte>, row: seq<Byte>, j: nat)
    requires prefix + block <= whole && before + row <= block && j < |row|
    ensures |prefix| + |before| + j < |whole|
    ensures whole[|prefix| + |before| + j] == row[j]
  {
    PrefixIndex(before, row, block, |before| + j);
    PrefixIndex(prefix, block, whole, |prefix| + |before| + j);
  }

  /** When no line throws, the value of line `r` lies `r` values into the block. */
  lemma FieldBlockIndex(d: Dimension, rows: seq<string>, p: Parsers, r: nat, j: nat)
    requires WellFormed(d) && AllEncode(d, rows, p) && r < |rows| && j < Width(d)
    ensures ReadableBy(d, rows) && ColumnsPresent(d, Split(rows[r]))
    ensures |RowBytes(d, rows[r], p)| == Width(d)
    ensures Width(d) * r + j < |FieldBlock(d, rows, p)|
    ensures FieldBlock(d, rows, p)[Width(d) * r + j] == RowBytes(d, rows[r], p)[j]
  {
    LinesBefore(d, rows, p, r);
    LinePrefix(d, rows, p, r);
    var before, row := FieldBlock(d, rows[..r], p), RowBytes(d, rows[r], p);
    var x := Width(d) * r + j;
    PrefixIndex(before, row, FieldBlock(d, rows, p), x);
  }

  /** When every line encodes, the lines before line `r` fill `Width(d) * r`
      bytes and line `r` fills `Width(d)`. */
  lemma LinesBefore(d: Dimension, rows: seq<string>, p: Parsers, r: nat)
    requires WellFormed(d) && AllEncode(d, rows, p) && r < |rows|
    ensures ReadableBy(d, rows) && ReadableBy(d, rows[..r]) && ColumnsPresent(d, Split(rows[r]))
    ensures |FieldBlock(d, rows[..r], p)| == Width(d) * r
    ensures |RowBytes(d, rows[r], p)| == Width(d)
  {
    assert rows[r] in rows;
    assert Encodes(d, rows[r], p);
    assert AllEncode(d, rows[..r], p);
    AllEncodedCounted(d, rows[..r], p);
    AllEncodedCounted(d, rows, p);
    assert |rows[..r]| == r;
  }

  /** The payload of the first dimensions plus the next one's block. */
  lemma PayloadSnoc(dims: seq<Dimension>, rows: seq<string>, p: Parsers, k: nat)
    requires AllWellFormed(dims) && Readable(dims, rows) && k < |dims|
    ensures AllWellFormed(dims[..k]) && Readable(dims[..k], rows)
    ensures AllWellFormed(dims[..k + 1]) && Readable(dims[..k + 1], rows)
    ensures WellFormed(dims[k]) && ReadableBy(dims[k], rows)
    ensures Payload(dims[..k + 1], rows, p) == Payload(dims[..k], rows, p) + FieldBlock(dims[k], rows, p)
  {
    ReadableOne(dims, rows, k);
    assert dims[..k + 1][..k] == dims[..k];
  }

  /** The payload of the first dimensions starts the payload of all. */
  lemma {:induction false} PayloadPrefix(dims: seq<Dimension>, rows: seq<string>, p: Parsers, k: nat)
    requires AllWellFormed(dims) && Readable(dims, rows) && k <= |dims|
    ensures AllWellFormed(dims[..k]) && Readable(dims[..k], rows)
    ensures Payload(dims[..k], rows, p) <= Payload(dims, rows, p)
    decreases |dims| - k
  {
    if k < |dims| {
      PayloadPrefix(dims, rows, p, k + 1);
      PayloadSnoc(dims, rows, p, k);
    } else {
      assert dims[..k] == dims;
    }
  }

  /** The block of dimension `k` follows the blocks of the dimensions before it. */
  lemma BlockPrefix(dims: seq<Dimension>, rows: seq<string>, p: Parsers, k: nat)
    requires AllWellFormed(dims) && Readable(dims, rows) && k < |dims|
    ensures AllWellFormed(dims[..k]) && Readable(dims[..k], rows)
    ensures WellFormed(dims[k]) && ReadableBy(dims[k], rows)
    ensures Payload(dims[..k], rows, p) + FieldBlock(dims[k], rows, p) <= Payload(dims, rows, p)
  {
    PayloadPrefix(dims, rows, p, k + 1);
    PayloadSnoc(dims, rows, p, k);
  }

  /** The value of line `r` for dimension `k` follows the blocks of the
      dimensions before `k` and the values of the lines before `r`. */
  lemma ValueAt(dims: seq<Dimension>, rows: seq<string>, p: Parsers, k: nat, r: nat, j: nat, x: nat)
    requires AllWellFormed(dims) && Readable(dims, rows) && k < |dims| && r < |rows|
    requires AllWellFormed(dims[..k]) && Readable(dims[..k], rows)
    requires WellFormed(dims[k]) && ReadableBy(dims[k], rows)
    requires ReadableBy(dims[k], rows[..r]) && ColumnsPresent(dims[k], Split(rows[r]))
    requires j < |RowBytes(dims[k], rows[r], p)|
    requires x == |Payload(dims[..k], rows, p)| + |FieldBlock(dims[k], rows[..r], p)| + j
    ensures x < |Payload(dims, rows, p)|
    ensures Payload(dims, rows, p)[x] == RowBytes(dims[k], rows[r], p)[j]
  {
    LinePrefix(dims[k], rows, p, r);
    BlockPrefix(dims, rows, p, k);
    NestedIndex(Payload(dims[..k], rows, p), FieldBlock(dims[k], rows, p), Payload(dims, rows, p),
                FieldBlock(dims[k], rows[..r], p), RowBytes(dims[k], rows[r], p), j);
  }

  /** When no line throws, the blocks before dimension `k` take
      `TotalWidth(dims[..k])` bytes per line. */
  lemma PrefixLength(dims: seq<Dimension>, rows: seq<string>, p: Parsers, k: nat)
    requires AllWellFormed(dims) && Readable(dims, rows) && EveryEncodes(dims, rows, p) && k <= |dims|
    ensures AllWellFormed(dims[..k]) && Readable(dims[..k], rows)
    ensures |Payload(dims[..k], rows, p)| == TotalWidth(dims[..k]) * |rows|
  {
    assert EveryEncodes(dims[..k], rows, p);
    PayloadLength(dims[..k], rows, p);
  }
}
