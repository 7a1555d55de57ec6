/** Responses of the derivative worker: their format and their decoder. */
module Wire {
  import opened Bytes

  // A response is a fixed header and then, Cell by Cell, a time, a count of segments and the segments, each a count and
  // two arrays of eight-byte words. All numbers are little-endian. Requests are in `WireRequest`.
  //
  // The format is given twice, as a writer on values and as a reader that consumes a prefix. The generic lemmas of
  // `Bytes` turn their agreement on one item into agreement on lists of items, and the decoder's loops are proved
  // against the reader.

  const MAGIC := 0x4358_0501
  const VERSION := 1

  // ---------------------------------------------------------------- responses

  datatype Segment = Segment(x: seq<Word>, y: seq<Word>)

  datatype Cell = Cell(kernelNs: nat, segments: seq<Segment>)

  datatype Response = Response(workers: nat, poolInitNs: nat, parallelNs: nat, kernelSumNs: nat, cells: seq<Cell>)

  predicate ValidSegment(s: Segment) { |s.x| == |s.y| < U32 }

  predicate ValidCell(c: Cell) { c.kernelNs < U64 && |c.segments| < U32 && forall s <- c.segments :: ValidSegment(s) }

  predicate ValidResponse(r: Response) {
    && r.workers < U16 && r.poolInitNs < U64 && r.parallelNs < U64 && r.kernelSumNs < U64
    && |r.cells| < U32 && forall c <- r.cells :: ValidCell(c)
  }

  function SegmentBytes(s: Segment): Bytes { Le(|s.x|, 4) + (Flat(s.x) + Flat(s.y)) }

  function CellBytes(c: Cell): Bytes { Le(c.kernelNs, 8) + (Le(|c.segments|, 4) + ManyBytes(SegmentBytes, c.segments)) }

  /** A response as the worker writes it. */
  function ResponseBytes(r: Response): Bytes {
    Le(MAGIC, 4) + (Le(VERSION, 2) + (Le(r.workers, 2) + (Le(r.poolInitNs, 8) + (Le(r.parallelNs, 8)
    + (Le(r.kernelSumNs, 8) + (Le(|r.cells|, 4) + ManyBytes(CellBytes, r.cells)))))))
  }

  function ReadSegment(b: Bytes): Parsed<Segment> {
    var (n, b) :- Number(b, 4);
    var (x, b) :- Words(b, n);
    var (y, b) :- Words(b, n);
    Read(Segment(x, y), b)
  }

  function ReadCell(b: Bytes): Parsed<Cell> {
    var (kernelNs, b) :- Number(b, 8);
    var (n, b) :- Number(b, 4);
    var (segments, b) :- Many(ReadSegment, b, n);
    Read(Cell(kernelNs, segments), b)
  }

  datatype Header = Header(magic: nat, version: nat, workers: nat, poolInitNs: nat, parallelNs: nat, kernelSumNs: nat,
                           cells: nat)

  function ReadHeader(b: Bytes): Parsed<Header> {
    var (magic, b) :- Number(b, 4);
    var (version, b) :- Number(b, 2);
    var (workers, b) :- Number(b, 2);
    var (pool, b) :- Number(b, 8);
    var (parallel, b) :- Number(b, 8);
    var (total, b) :- Number(b, 8);
    var (cells, b) :- Number(b, 4);
    Read(Header(magic, version, workers, pool, parallel, total, cells), b)
  }

  datatype Decoded = Ok(response: Response) | Truncated | Unsupported | Trailing

  /** What the decoder answers for a body. */
  function Decode(body: Bytes): Decoded {
    var h := ReadHeader(body);
    if h.Short? then Truncated
    else if h.value.magic != MAGIC || h.value.version != VERSION then Unsupported
    else
      var cells := Many(ReadCell, h.rest, h.value.cells);
      if cells.Short? then Truncated
      else if cells.rest != [] then Trailing
      else Ok(Response(h.value.workers, h.value.poolInitNs, h.value.parallelNs, h.value.kernelSumNs, cells.value))
  }

  // ---------------------------------------------------------------- writing, then reading

  lemma {:induction false} SegmentReads(s: Segment, rest: Bytes)
    requires ValidSegment(s)
    ensures ReadSegment(SegmentBytes(s) + rest) == Read(s, rest)
  {
    Limits();
    assert SegmentBytes(s) + rest == Le(|s.x|, 4) + (Flat(s.x) + (Flat(s.y) + rest));
    NumberOfLe(|s.x|, 4, Flat(s.x) + (Flat(s.y) + rest));
    WordsOfFlat(s.x, Flat(s.y) + rest);
    WordsOfFlat(s.y, rest);
  }

  lemma {:induction false} CellReads(c: Cell, rest: Bytes)
    requires ValidCell(c)
    ensures ReadCell(CellBytes(c) + rest) == Read(c, rest)
  {
    Limits();
    var tail := ManyBytes(SegmentBytes, c.segments) + rest;
    assert CellBytes(c) + rest == Le(c.kernelNs, 8) + (Le(|c.segments|, 4) + tail);
    NumberOfLe(c.kernelNs, 8, Le(|c.segments|, 4) + tail);
    NumberOfLe(|c.segments|, 4, tail);
    SegmentsCorrespond();
    ManyReads(ReadSegment, SegmentBytes, ValidSegment, c.segments, rest);
  }

  lemma {:induction false} SegmentsCorrespond()
    ensures Reads(ReadSegment, SegmentBytes, ValidSegment) && Writes(ReadSegment, SegmentBytes, ValidSegment)
  {
    forall s, rest | ValidSegment(s) ensures ReadSegment(SegmentBytes(s) + rest) == Read(s, rest) {
      SegmentReads(s, rest);
    }
    forall b | ReadSegment(b).Read?
      ensures ValidSegment(ReadSegment(b).value) && b == SegmentBytes(ReadSegment(b).value) + ReadSegment(b).rest
    {
      ReadSegmentWrites(b);
    }
  }

  lemma {:induction false} CellsCorrespond()
    ensures Reads(ReadCell, CellBytes, ValidCell) && Writes(ReadCell, CellBytes, ValidCell)
  {
    forall c, rest | ValidCell(c) ensures ReadCell(CellBytes(c) + rest) == Read(c, rest) {
      CellReads(c, rest);
    }
    forall b | ReadCell(b).Read?
      ensures ValidCell(ReadCell(b).value) && b == CellBytes(ReadCell(b).value) + ReadCell(b).rest
    {
      ReadCellWrites(b);
    }
  }

  function HeaderBytes(h: Header, rest: Bytes): Bytes {
    Le(h.magic, 4) + (Le(h.version, 2) + (Le(h.workers, 2) + (Le(h.poolInitNs, 8) + (Le(h.parallelNs, 8)
    + (Le(h.kernelSumNs, 8) + (Le(h.cells, 4) + rest))))))
  }

  predicate ValidHeader(h: Header) {
    && h.magic < U32 && h.version < U16 && h.workers < U16
    && h.poolInitNs < U64 && h.parallelNs < U64 && h.kernelSumNs < U64 && h.cells < U32
  }

  lemma {:induction false} HeaderReads(h: Header, rest: Bytes)
    requires ValidHeader(h)
    ensures ReadHeader(HeaderBytes(h, rest)) == Read(h, rest)
  {
    Limits();
    var b6 := Le(h.cells, 4) + rest;
    var b5 := Le(h.kernelSumNs, 8) + b6;
    var b4 := Le(h.parallelNs, 8) + b5;
    var b3 := Le(h.poolInitNs, 8) + b4;
    var b2 := Le(h.workers, 2) + b3;
    var b1 := Le(h.version, 2) + b2;
    NumberOfLe(h.magic, 4, b1);
    NumberOfLe(h.version, 2, b2);
    NumberOfLe(h.workers, 2, b3);
    NumberOfLe(h.poolInitNs, 8, b4);
    NumberOfLe(h.parallelNs, 8, b5);
    NumberOfLe(h.kernelSumNs, 8, b6);
    NumberOfLe(h.cells, 4, rest);
  }

  function HeaderOf(r: Response): Header {
    Header(MAGIC, VERSION, r.workers, r.poolInitNs, r.parallelNs, r.kernelSumNs, |r.cells|)
  }

  /** Decoding what the worker wrote gives the response back. */
  lemma {:induction false} DecodeOfResponse(r: Response)
    requires ValidResponse(r)
    ensures Decode(ResponseBytes(r)) == Ok(r)
  {
    HeaderReads(HeaderOf(r), ManyBytes(CellBytes, r.cells));
    CellsCorrespond();
    ManyReads(ReadCell, CellBytes, ValidCell, r.cells, []);
    assert ManyBytes(CellBytes, r.cells) + [] == ManyBytes(CellBytes, r.cells);
  }

  // ---------------------------------------------------------------- reading, then writing

  lemma {:induction false} ReadSegmentWrites(b: Bytes)
    requires ReadSegment(b).Read?
    ensures var p := ReadSegment(b); ValidSegment(p.value) && b == SegmentBytes(p.value) + p.rest
  {
    Limits();
    LeOfNumber(b, 4);
    var n, b1 := Number(b, 4).value, Number(b, 4).rest;
    FlatOfWords(b1, n);
    var x, b2 := Words(b1, n).value, Words(b1, n).rest;
    FlatOfWords(b2, n);
    var y, rest := Words(b2, n).value, Words(b2, n).rest;
    assert Le(n, 4) + (Flat(x) + (Flat(y) + rest)) == Le(n, 4) + (Flat(x) + Flat(y)) + rest;
  }

  lemma {:induction false} ReadCellWrites(b: Bytes)
    requires ReadCell(b).Read?
    ensures var p := ReadCell(b); ValidCell(p.value) && b == CellBytes(p.value) + p.rest
  {
    Limits();
    LeOfNumber(b, 8);
    var kernelNs, b1 := Number(b, 8).value, Number(b, 8).rest;
    LeOfNumber(b1, 4);
    var n, b2 := Number(b1, 4).value, Number(b1, 4).rest;
    SegmentsCorrespond();
    ManyWrites(ReadSegment, SegmentBytes, ValidSegment, b2, n);
    var p := Many(ReadSegment, b2, n);
    assert Le(kernelNs, 8) + (Le(n, 4) + (ManyBytes(SegmentBytes, p.value) + p.rest))
        == Le(kernelNs, 8) + (Le(n, 4) + ManyBytes(SegmentBytes, p.value)) + p.rest;
  }

  lemma {:induction false} ReadHeaderWrites(b: Bytes)
    requires ReadHeader(b).Read?
    ensures var p := ReadHeader(b); ValidHeader(p.value) && b == HeaderBytes(p.value, p.rest)
  {
    Limits();
    LeOfNumber(b, 4);
    var b1 := Number(b, 4).rest;
    LeOfNumber(b1, 2);
    var b2 := Number(b1, 2).rest;
    LeOfNumber(b2, 2);
    var b3 := Number(b2, 2).rest;
    LeOfNumber(b3, 8);
    var b4 := Number(b3, 8).rest;
    LeOfNumber(b4, 8);
    var b5 := Number(b4, 8).rest;
    LeOfNumber(b5, 8);
    var b6 := Number(b5, 8).rest;
    LeOfNumber(b6, 4);
  }

  /** Main result on responses: the decoder accepts exactly the encodings, and returns what was encoded. */
  lemma {:induction false} DecodesExactlyEncodings(body: Bytes)
    ensures Decode(body).Ok? <==> exists r :: ValidResponse(r) && body == ResponseBytes(r)
    ensures Decode(body).Ok? ==> ValidResponse(Decode(body).response) && ResponseBytes(Decode(body).response) == body
  {
    if Decode(body).Ok? {
      ReadHeaderWrites(body);
      var h := ReadHeader(body);
      CellsCorrespond();
      ManyWrites(ReadCell, CellBytes, ValidCell, h.rest, h.value.cells);
      var cells := Many(ReadCell, h.rest, h.value.cells);
      assert ManyBytes(CellBytes, cells.value) + [] == ManyBytes(CellBytes, cells.value);
      var r := Decode(body).response;
      assert HeaderOf(r) == h.value;
      assert ValidResponse(r) && body == ResponseBytes(r);
    }
    forall r | ValidResponse(r) && body == ResponseBytes(r) ensures Decode(body).Ok? {
      DecodeOfResponse(r);
    }
  }

  // ---------------------------------------------------------------- the cursor-based decoder

  /** The decoder: the header, then the Cells, then nothing more. */
  method DecodeResponse(body: Bytes) returns (r: Decoded, numericBytes: nat)
    ensures r == Decode(body)
    ensures r.Ok? ==> numericBytes == NumericOfCells(r.response.cells)
  {
    var h := ReadHeader(body);
    if h.Short? {
      return Truncated, 0;
    }
    if h.value.magic != MAGIC || h.value.version != VERSION {
      return Unsupported, 0;
    }
    HeaderLength(body);
    var ok, cells, end;
    ok, cells, end, numericBytes := DecodeCells(body, |body| - |h.rest|, h.value.cells);
    if !ok {
      return Truncated, 0;
    }
    if end != |body| {
      return Trailing, 0;
    }
    r := Ok(Response(h.value.workers, h.value.poolInitNs, h.value.parallelNs, h.value.kernelSumNs, cells));
  }

  /** The decoder's loop: one offset moves over the body. */
  method DecodeCells(body: Bytes, start: nat, count: nat)
    returns (ok: bool, cells: seq<Cell>, offset: nat, numeric: nat)
    requires start <= |body|
    ensures !ok ==> Many(ReadCell, body[start..], count).Short?
    ensures ok ==> start <= offset <= |body| && Many(ReadCell, body[start..], count) == Read(cells, body[offset..])
    ensures ok ==> numeric == NumericOfCells(cells)
  {
    cells, offset, numeric := [], start, 0;
    ghost var all := Many(ReadCell, body[start..], count);
    ContinueNothing([], all, []);
    for i := 0 to count
      invariant start <= offset <= |body|
      invariant Continue(cells, Many(ReadCell, body[offset..], count - i)) == all
      invariant numeric == NumericOfCells(cells)
    {
      ok, cells, offset, numeric := NextCell(body, offset, count - i, cells, numeric);
      if !ok {
        return;
      }
    }
    ContinueNothing(cells, all, body[offset..]);
    ok := true;
  }

  /** One turn of the loop: one Cell more behind the Cells before it, or a body that is too short. */
  method NextCell(body: Bytes, offset: nat, ghost left: nat, before: seq<Cell>, sum: nat)
    returns (ok: bool, cells: seq<Cell>, next: nat, numeric: nat)
    requires offset <= |body| && left > 0 && sum == NumericOfCells(before)
    ensures !ok ==> Continue(before, Many(ReadCell, body[offset..], left)).Short?
    ensures ok ==> offset <= next <= |body| && numeric == NumericOfCells(cells)
    ensures ok ==> Continue(cells, Many(ReadCell, body[next..], left - 1))
                   == Continue(before, Many(ReadCell, body[offset..], left))
  {
    ManyStep(ReadCell, body[offset..], left, before);
    var cell, more;
    ok, cell, next, more := DecodeCell(body, offset);
    NumericAppend(before, cell);
    cells, numeric := before + [cell], sum + more;
  }

  method DecodeCell(body: Bytes, offset: nat) returns (ok: bool, cell: Cell, next: nat, numeric: nat)
    requires offset <= |body|
    ensures ok <==> ReadCell(body[offset..]).Read?
    ensures ok ==> offset <= next <= |body| && ReadCell(body[offset..]) == Read(cell, body[next..])
    ensures ok ==> numeric == NumericOfSegments(cell.segments)
  {
    cell, next, numeric := Cell(0, []), offset, 0;
    if |body| < offset + 12 {
      return false, cell, next, numeric;
    }
    var kernelNs, count := UnLe(body[offset..offset + 8]), UnLe(body[offset + 8..offset + 12]);
    FieldAt(body, offset, 8);
    FieldAt(body, offset + 8, 4);
    next := offset + 12;
    var segments: seq<Segment> := [];
    ghost var start := body[next..];
    ContinueNothing([], Many(ReadSegment, start, count), []);
    for i := 0 to count
      invariant offset <= next <= |body|
      invariant Continue(segments, Many(ReadSegment, body[next..], count - i)) == Many(ReadSegment, start, count)
      invariant numeric == NumericOfSegments(segments)
    {
      var good;
      good, segments, next, numeric := NextSegment(body, next, count - i, segments, numeric);
      if !good {
        return false, cell, offset, numeric;
      }
    }
    ContinueNothing(segments, Many(ReadSegment, start, count), body[next..]);
    ok, cell := true, Cell(kernelNs, segments);
  }

  method NextSegment(body: Bytes, offset: nat, ghost left: nat, before: seq<Segment>, sum: nat)
    returns (ok: bool, segments: seq<Segment>, next: nat, numeric: nat)
    requires offset <= |body| && left > 0 && sum == NumericOfSegments(before)
    ensures !ok ==> Continue(before, Many(ReadSegment, body[offset..], left)).Short?
    ensures ok ==> offset <= next <= |body| && numeric == NumericOfSegments(segments)
    ensures ok ==> Continue(segments, Many(ReadSegment, body[next..], left - 1))
                   == Continue(before, Many(ReadSegment, body[offset..], left))
  {
    ManyStep(ReadSegment, body[offset..], left, before);
    var segment;
    ok, segment, next := DecodeSegment(body, offset);
    NumericSegmentsAppend(before, segment);
    segments, numeric := before + [segment], sum + |segment.x| * 16;
  }

  method DecodeSegment(body: Bytes, offset: nat) returns (ok: bool, segment: Segment, next: nat)
    requires offset <= |body|
    ensures ok <==> ReadSegment(body[offset..]).Read?
    ensures ok ==> offset <= next <= |body| && ReadSegment(body[offset..]) == Read(segment, body[next..])
    ensures ok ==> |segment.x| == |segment.y|
  {
    segment, next := Segment([], []), offset;
    if |body| < offset + 4 {
      return false, segment, next;
    }
    FieldAt(body, offset, 4);
    var count := UnLe(body[offset..offset + 4]);
    var xEnd := offset + 4 + count * 8;
    var yEnd := xEnd + count * 8;
    if yEnd > |body| {
      return false, segment, next;
    }
    FieldAt(body, offset + 4, 8 * count);
    FieldAt(body, xEnd, 8 * count);
    segment := Segment(Chop(body[offset + 4..xEnd], count), Chop(body[xEnd..yEnd], count));
    return true, segment, yEnd;
  }

  /** A field of `k` bytes at an offset, seen as a prefix of what is left. */
  lemma {:induction false} FieldAt(body: Bytes, offset: nat, k: nat)
    requires offset + k <= |body|
    ensures body[offset..][..k] == body[offset..offset + k] && body[offset..][k..] == body[offset + k..]
  {
  }

  lemma {:induction false} HeaderLength(body: Bytes)
    requires ReadHeader(body).Read?
    ensures |body| - |ReadHeader(body).rest| == 36 && body[36..] == ReadHeader(body).rest
  {
    ReadHeaderWrites(body);
    var h := ReadHeader(body);
    assert |HeaderBytes(h.value, h.rest)| == 36 + |h.rest|;
  }

  function NumericOfSegments(ss: seq<Segment>): nat {
    if ss == [] then 0 else NumericOfSegments(ss[..|ss| - 1]) + |ss[|ss| - 1].x| * 16
  }

  function NumericOfCells(cs: seq<Cell>): nat {
    if cs == [] then 0 else NumericOfCells(cs[..|cs| - 1]) + NumericOfSegments(cs[|cs| - 1].segments)
  }

  lemma {:induction false} NumericAppend(cs: seq<Cell>, c: Cell)
    ensures NumericOfCells(cs + [c]) == NumericOfCells(cs) + NumericOfSegments(c.segments)
  {
    assert (cs + [c])[..|cs|] == cs;
  }

  lemma {:induction false} NumericSegmentsAppend(ss: seq<Segment>, s: Segment)
    ensures NumericOfSegments(ss + [s]) == NumericOfSegments(ss) + |s.x| * 16
  {
    assert (ss + [s])[..|ss|] == ss;
  }

  // ---------------------------------------------------------------- the format in plain terms

  /** A segment: a count of four bytes, then that many words, then as many words again. */
  ghost predicate SegmentLies(b: Bytes, at: nat, s: Segment) {
    var n := |s.x|;
    && at + 4 + 16 * n <= |b| && |s.y| == n && Digits(b, at, 4) == n
    && WordsLie(b, at + 4, s.x) && WordsLie(b, at + 4 + 8 * n, s.y)
  }

  ghost predicate SegmentsLie(b: Bytes, at: nat, segments: seq<Segment>, end: nat)
    decreases |segments|
  {
    if segments == [] then at == end
    else SegmentLies(b, at, segments[0]) && SegmentsLie(b, at + 4 + 16 * |segments[0].x|, segments[1..], end)
  }

  /** A Cell: its kernel time in eight bytes, a count of four, then its segments. */
  ghost predicate CellLies(b: Bytes, at: nat, c: Cell, end: nat) {
    && at + 12 <= |b| && Digits(b, at, 8) == c.kernelNs && Digits(b, at + 8, 4) == |c.segments|
    && SegmentsLie(b, at + 12, c.segments, end)
  }

  ghost predicate CellsLie(b: Bytes, at: nat, cells: seq<Cell>, end: nat)
    decreases |cells|
  {
    if cells == [] then at == end
    else exists next: nat :: CellLies(b, at, cells[0], next) && CellsLie(b, next, cells[1..], end)
  }

  lemma {:induction false} SegmentLays(b: Bytes, at: nat, s: Segment, end: nat)
    requires ValidSegment(s) && at <= end <= |b| && b[at..end] == SegmentBytes(s)
    ensures SegmentLies(b, at, s) && end == at + 4 + 16 * |s.x|
  {
    Limits();
    assert Flat(s.y) + [] == Flat(s.y);
    CountedColumns(b, at, end, s.x, s.y, []);
  }

  lemma {:induction false} SegmentsLay(b: Bytes, at: nat, segments: seq<Segment>, end: nat)
    requires at <= end <= |b| && b[at..end] == ManyBytes(SegmentBytes, segments)
    requires forall k :: 0 <= k < |segments| ==> ValidSegment(segments[k])
    ensures SegmentsLie(b, at, segments, end)
    decreases |segments|
  {
    if segments != [] {
      var first, others := SegmentBytes(segments[0]), ManyBytes(SegmentBytes, segments[1..]);
      Cut(b, at, end, first, others);
      SegmentLays(b, at, segments[0], at + |first|);
      SegmentsLay(b, at + |first|, segments[1..], end);
    }
  }

  lemma {:induction false} CellLays(b: Bytes, at: nat, c: Cell, end: nat)
    requires ValidCell(c) && at <= end <= |b| && b[at..end] == CellBytes(c)
    ensures CellLies(b, at, c, end)
  {
    var inside := ManyBytes(SegmentBytes, c.segments);
    Limits();
    NumberField(b, at, end, c.kernelNs, 8, Le(|c.segments|, 4) + inside);
    NumberField(b, at + 8, end, |c.segments|, 4, inside);
    SegmentsLay(b, at + 12, c.segments, end);
  }

  lemma {:induction false} CellsLay(b: Bytes, at: nat, cells: seq<Cell>, end: nat)
    requires at <= end <= |b| && b[at..end] == ManyBytes(CellBytes, cells)
    requires forall k :: 0 <= k < |cells| ==> ValidCell(cells[k])
    ensures CellsLie(b, at, cells, end)
    decreases |cells|
  {
    if cells != [] {
      var first, others := CellBytes(cells[0]), ManyBytes(CellBytes, cells[1..]);
      Cut(b, at, end, first, others);
      var next := at + |first|;
      CellLays(b, at, cells[0], next);
      CellsLay(b, next, cells[1..], end);
    }
  }

  /**
   The magic number and version 1, both lowest byte first, then workers in two bytes, three times in eight, the number
   of Cells in four, then the Cells up to the end.
   */
  ghost predicate ResponseLies(body: Bytes, r: Response) {
    && HeadLies(body, r) && CellsLie(body, 36, r.cells, |body|)
  }

  ghost predicate HeadLies(body: Bytes, r: Response) {
    && |body| >= 36 && body[0..4] == [0x01, 0x05, 0x58, 0x43] && body[4..6] == [1, 0]
    && Digits(body, 6, 2) == r.workers && Digits(body, 8, 8) == r.poolInitNs
    && Digits(body, 16, 8) == r.parallelNs && Digits(body, 24, 8) == r.kernelSumNs
    && Digits(body, 32, 4) == |r.cells|
  }

  /** A body is decoded to the response that lies in it. */
  lemma {:induction false} ResponseMeaning(body: Bytes)
    requires Decode(body).Ok?
    ensures ResponseLies(body, Decode(body).response)
  {
    DecodesExactlyEncodings(body);
    EncodingLies(body, Decode(body).response);
  }

  lemma {:induction false} EncodingLies(body: Bytes, r: Response)
    requires ValidResponse(r) && body == ResponseBytes(r)
    ensures ResponseLies(body, r)
  {
    assert body[0..|body|] == body;
    HeaderLies(body, r);
    AllLie(body, r);
  }

  lemma {:induction false} AllLie(body: Bytes, r: Response)
    requires HeadLies(body, r) && body[36..|body|] == ManyBytes(CellBytes, r.cells)
    requires forall c <- r.cells :: ValidCell(c)
    ensures ResponseLies(body, r)
  {
    CellsLay(body, 36, r.cells, |body|);
  }

  lemma {:induction false} HeaderLies(body: Bytes, r: Response)
    requires ValidResponse(r) && body[0..|body|] == ResponseBytes(r)
    ensures HeadLies(body, r) && body[36..|body|] == ManyBytes(CellBytes, r.cells)
  {
    Limits();
    var end, cells := |body|, ManyBytes(CellBytes, r.cells);
    var times := Le(r.poolInitNs, 8) + (Le(r.parallelNs, 8) + (Le(r.kernelSumNs, 8) + (Le(|r.cells|, 4) + cells)));
    Cut(body, 0, end, Le(MAGIC, 4), Le(VERSION, 2) + (Le(r.workers, 2) + times));
    Cut(body, 4, end, Le(VERSION, 2), Le(r.workers, 2) + times);
    NumberField(body, 6, end, r.workers, 2, times);
    TimesLie(body, r, cells);
    MagicBytes();
  }

  lemma {:induction false} TimesLie(body: Bytes, r: Response, cells: Bytes)
    requires ValidResponse(r) && |body| >= 8
    requires body[8..|body|]
             == Le(r.poolInitNs, 8) + (Le(r.parallelNs, 8) + (Le(r.kernelSumNs, 8) + (Le(|r.cells|, 4) + cells)))
    ensures |body| >= 36 && Digits(body, 8, 8) == r.poolInitNs && Digits(body, 16, 8) == r.parallelNs
    ensures Digits(body, 24, 8) == r.kernelSumNs && Digits(body, 32, 4) == |r.cells| && body[36..|body|] == cells
  {
    Limits();
    var end := |body|;
    NumberField(body, 8, end, r.poolInitNs, 8,
                Le(r.parallelNs, 8) + (Le(r.kernelSumNs, 8) + (Le(|r.cells|, 4) + cells)));
    NumberField(body, 16, end, r.parallelNs, 8, Le(r.kernelSumNs, 8) + (Le(|r.cells|, 4) + cells));
    NumberField(body, 24, end, r.kernelSumNs, 8, Le(|r.cells|, 4) + cells);
    NumberField(body, 32, end, |r.cells|, 4, cells);
  }

  lemma {:induction false} MagicBytes()
    ensures Le(MAGIC, 4) == [0x01, 0x05, 0x58, 0x43] && Le(VERSION, 2) == [1, 0]
  {
    assert Le(0x43, 1) == [0x43] + Le(0, 0) == [0x43];
    assert Le(0x4358, 2) == [0x58] + Le(0x43, 1);
    assert Le(0x43_5805, 3) == [0x05] + Le(0x4358, 2);
    assert Le(0x4358_0501, 4) == [0x01] + Le(0x43_5805, 3);
    assert Le(0, 1) == [0] + Le(0, 0) == [0];
    assert Le(1, 2) == [1] + Le(0, 1);
  }

  lemma {:induction false} HeaderThenMore(h: Header, cells: Bytes, rest: Bytes)
    ensures HeaderBytes(h, cells) + rest == HeaderBytes(h, cells + rest)
  {
    var c := Le(h.cells, 4) + cells;
    var k := Le(h.kernelSumNs, 8) + c;
    var p := Le(h.parallelNs, 8) + k;
    var i := Le(h.poolInitNs, 8) + p;
    var w := Le(h.workers, 2) + i;
    Assoc(Le(h.magic, 4), Le(h.version, 2) + w, rest);
    Assoc(Le(h.version, 2), w, rest);
    Assoc(Le(h.workers, 2), i, rest);
    Assoc(Le(h.poolInitNs, 8), p, rest);
    Assoc(Le(h.parallelNs, 8), k, rest);
    Assoc(Le(h.kernelSumNs, 8), c, rest);
    Assoc(Le(h.cells, 4), cells, rest);
  }

  /** Bytes behind a response are refused as trailing. */
  lemma {:induction false} MoreTrails(r: Response, rest: Bytes)
    requires ValidResponse(r) && rest != []
    ensures Decode(ResponseBytes(r) + rest) == Trailing
  {
    var cells := ManyBytes(CellBytes, r.cells);
    HeaderThenMore(HeaderOf(r), cells, rest);
    HeaderReads(HeaderOf(r), cells + rest);
    CellsCorrespond();
    ManyReads(ReadCell, CellBytes, ValidCell, r.cells, rest);
  }

  /** A body refused as trailing is a response and more. */
  lemma {:induction false} TrailingHolds(body: Bytes) returns (n: nat)
    requires Decode(body) == Trailing
    ensures n < |body| && Decode(body[..n]).Ok?
  {
    ReadHeaderWrites(body);
    var h := ReadHeader(body);
    CellsCorrespond();
    ManyWrites(ReadCell, CellBytes, ValidCell, h.rest, h.value.cells);
    var cells := Many(ReadCell, h.rest, h.value.cells);
    var r := Response(h.value.workers, h.value.poolInitNs, h.value.parallelNs, h.value.kernelSumNs, cells.value);
    assert HeaderOf(r) == h.value;
    HeaderThenMore(h.value, ManyBytes(CellBytes, cells.value), cells.rest);
    assert body == ResponseBytes(r) + cells.rest;
    n := |ResponseBytes(r)|;
    assert body[..n] == ResponseBytes(r);
    DecodeOfResponse(r);
  }

  ghost predicate BeginsWithResponse(body: Bytes, n: nat) { n < |body| && Decode(body[..n]).Ok? }

  /** Bytes are reported as trailing exactly behind a response. */
  lemma {:induction false} TrailingMeaning(body: Bytes)
    ensures Decode(body) == Trailing <==> exists n: nat :: BeginsWithResponse(body, n)
  {
    if Decode(body) == Trailing {
      var n := TrailingHolds(body);
      assert BeginsWithResponse(body, n);
    }
    if n: nat :| BeginsWithResponse(body, n) {
      BeginningTrails(body, n);
    }
  }

  lemma {:induction false} BeginningTrails(body: Bytes, n: nat)
    requires BeginsWithResponse(body, n)
    ensures Decode(body) == Trailing
  {
    var r := EncodingOf(body[..n]);
    Trails(body, n, r);
  }

  lemma {:induction false} Trails(body: Bytes, n: nat, r: Response)
    requires ValidResponse(r) && n < |body| && body[..n] == ResponseBytes(r)
    ensures Decode(body) == Trailing
  {
    MoreTrails(r, body[n..]);
    assert body == body[..n] + body[n..];
  }

  lemma {:induction false} EncodingOf(body: Bytes) returns (r: Response)
    requires Decode(body).Ok?
    ensures ValidResponse(r) && body == ResponseBytes(r)
  {
    DecodesExactlyEncodings(body);
    r := Decode(body).response;
  }

  /**
   A response is reported as unsupported exactly if the header is complete and begins otherwise. Any other body that is
   neither a response nor begins with one is truncated.
   */
  lemma {:induction false} UnsupportedMeaning(body: Bytes)
    ensures Decode(body) == Unsupported
            <==> |body| >= 36 && !(body[0..4] == [0x01, 0x05, 0x58, 0x43] && body[4..6] == [1, 0])
  {
    HeaderComplete(body);
  }

  lemma {:induction false} HeaderComplete(body: Bytes)
    ensures ReadHeader(body).Read? <==> |body| >= 36
    ensures |body| >= 36 ==>
              var h := ReadHeader(body).value;
              h.magic == MAGIC && h.version == VERSION
              <==> body[0..4] == [0x01, 0x05, 0x58, 0x43] && body[4..6] == [1, 0]
  {
    MagicBytes();
    if |body| >= 36 {
      LeOfUnLe(body[..4]);
      LeOfUnLe(body[4..][..2]);
      assert body[4..][..2] == body[4..6];
      Limits();
      UnLeOfLe(MAGIC, 4);
      UnLeOfLe(VERSION, 2);
    }
  }
}
