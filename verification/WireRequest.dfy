/**
 Requests of the derivative worker's protocol: the frame the Python side encodes for both
 kernel kinds, and the worker's parser of such frames.
 */
module WireRequest {
  import opened Bytes
  import Wire

  /** One Cell of the normal projection: aligned columns of one length. */
  datatype NormalCell = NormalCell(cycles: seq<Word>, time: seq<Word>, capacity: seq<Word>, voltage: seq<Word>,
                                   phases: Bytes)

  datatype SegmentInput = SegmentInput(phase: Byte, capacity: seq<Word>, voltage: seq<Word>, explicitCv: seq<bool>)

  datatype Payload = Normal(cells: seq<NormalCell>) | Derivative(segments: seq<seq<SegmentInput>>)
  {
    function Count(): nat { if Normal? then |cells| else |segments| }
  }

  /** The codes of a dataset's settings. */
  datatype Settings = Settings(mode: Byte, selectedPhase: Byte, absolute: bool, display: Byte, timeUnit: Byte,
                               window: nat)

  datatype Request = Request(settings: Settings, payload: Payload)

  predicate AlignedCell(c: NormalCell) { |c.cycles| == |c.time| == |c.capacity| == |c.voltage| == |c.phases| }

  predicate AlignedSegment(s: SegmentInput) { |s.capacity| == |s.voltage| == |s.explicitCv| }

  /** The counts fit their fields. */
  predicate FitsCell(c: NormalCell) { AlignedCell(c) && |c.cycles| < U32 }

  predicate SizedSegment(s: SegmentInput) { AlignedSegment(s) && |s.capacity| < U32 }

  predicate SizedSegments(ss: seq<SegmentInput>) { |ss| < U32 && forall k :: 0 <= k < |ss| ==> SizedSegment(ss[k]) }

  /** All that the encoder asks for: columns of one length, and numbers below 2^32 in the fields of four bytes. */
  predicate Sized(q: Request) {
    && q.settings.window < U32 && q.payload.Count() < U32
    && match q.payload
       case Normal(cells) => forall k :: 0 <= k < |cells| ==> FitsCell(cells[k])
       case Derivative(segments) => forall k :: 0 <= k < |segments| ==> SizedSegments(segments[k])
  }

  /** The codes are those the encoder can produce, too. */
  predicate FitsSegment(s: SegmentInput) { SizedSegment(s) && s.phase <= 2 }

  predicate FitsSegments(ss: seq<SegmentInput>) { |ss| < U32 && forall k :: 0 <= k < |ss| ==> FitsSegment(ss[k]) }

  predicate Fits(q: Request) {
    && Sized(q)
    && q.settings.mode <= 1 && q.settings.selectedPhase <= 2 && q.settings.display <= 2 && q.settings.timeUnit <= 2
    && (q.payload.Derivative? ==> forall k :: 0 <= k < |q.payload.segments| ==> FitsSegments(q.payload.segments[k]))
  }

  // ---------------------------------------------------------------- the frame

  function Flag(b: bool): Byte { if b then 1 else 0 }

  function Flags(bs: seq<bool>): (r: Bytes)
    ensures |r| == |bs|
  {
    seq(|bs|, i requires 0 <= i < |bs| => Flag(bs[i]))
  }

  function CellBytes(c: NormalCell): Bytes {
    Le(|c.cycles|, 4) + (Flat(c.cycles) + (Flat(c.time) + (Flat(c.capacity) + (Flat(c.voltage) + c.phases))))
  }

  function SegmentBytes(s: SegmentInput): Bytes {
    Le(|s.capacity|, 4) + ([s.phase] + ([0, 0, 0] + (Flat(s.capacity) + (Flat(s.voltage) + Flags(s.explicitCv)))))
  }

  function SegmentsBytes(ss: seq<SegmentInput>): Bytes { Le(|ss|, 4) + ManyBytes(SegmentBytes, ss) }

  function PayloadBytes(p: Payload): Bytes {
    match p
    case Normal(cells) => ManyBytes(CellBytes, cells)
    case Derivative(segments) => ManyBytes(SegmentsBytes, segments)
  }

  function SettingsBytes(s: Settings, kind: Byte, count: nat): (r: Bytes)
    ensures |r| == 20
  {
    Le(Wire.MAGIC, 4) + (Le(Wire.VERSION, 2)
    + ([kind, s.mode, s.selectedPhase, Flag(s.absolute), s.display, s.timeUnit] + (Le(s.window, 4) + Le(count, 4))))
  }

  function Kind(p: Payload): Byte { if p.Normal? then 1 else 0 }

  function RequestBytes(q: Request): Bytes {
    SettingsBytes(q.settings, Kind(q.payload), q.payload.Count()) + PayloadBytes(q.payload)
  }

  // ---------------------------------------------------------------- the worker's parser

  function ReadCell(b: Bytes): Parsed<NormalCell> {
    var (n, b) :- Number(b, 4);
    var (cycles, b) :- Words(b, n);
    var (time, b) :- Words(b, n);
    var (capacity, b) :- Words(b, n);
    var (voltage, b) :- Words(b, n);
    var (phases, b) :- Raw(b, n);
    Read(NormalCell(cycles, time, capacity, voltage, phases), b)
  }

  /** The worker skips three reserved bytes and takes every byte but zero for true. */
  function ReadSegment(b: Bytes): Parsed<SegmentInput> {
    var (n, b) :- Number(b, 4);
    var (phase, b) :- Raw(b, 1);
    var (_, b) :- Raw(b, 3);
    var (capacity, b) :- Words(b, n);
    var (voltage, b) :- Words(b, n);
    var (flags, b) :- Raw(b, n);
    Read(SegmentInput(phase[0], capacity, voltage, Truths(flags)), b)
  }

  function Truths(flags: Bytes): seq<bool> { seq(|flags|, i requires 0 <= i < |flags| => flags[i] != 0) }

  function ReadSegments(b: Bytes): Parsed<seq<SegmentInput>> {
    var (n, b) :- Number(b, 4);
    Many(ReadSegment, b, n)
  }

  function ReadPayload(b: Bytes, kind: Byte, count: nat): Parsed<Payload> {
    if kind == 0 then
      var (segments, b) :- Many(ReadSegments, b, count);
      Read(Derivative(segments), b)
    else
      var (cells, b) :- Many(ReadCell, b, count);
      Read(Normal(cells), b)
  }

  datatype Head = Head(magic: nat, version: nat, kind: Byte, settings: Settings, count: nat)

  function ReadHead(b: Bytes): Parsed<Head> {
    var (magic, b) :- Number(b, 4);
    var (version, b) :- Number(b, 2);
    var (codes, b) :- Raw(b, 6);
    var (window, b) :- Number(b, 4);
    var (count, b) :- Number(b, 4);
    Read(Head(magic, version, codes[0], Settings(codes[1], codes[2], codes[3] != 0, codes[4], codes[5], window),
              count), b)
  }

  predicate Acceptable(h: Head) {
    && h.kind <= 1 && h.settings.mode <= 1 && h.settings.selectedPhase <= 2
    && h.settings.display <= 2 && h.settings.timeUnit <= 2 && h.settings.window != 0 && h.count != 0
  }

  datatype Verdict = Accepted(request: Request) | Unsupported | InvalidSettings | Truncated | Trailing

  /** Magic and version come first: a body that has others is unsupported, however short it is. */
  function ParseRequest(b: Bytes): Verdict {
    var magic := Number(b, 4);
    if magic.Short? then Truncated
    else if magic.value != Wire.MAGIC then Unsupported
    else
      var version := Number(magic.rest, 2);
      if version.Short? then Truncated
      else if version.value != Wire.VERSION then Unsupported
      else ParseBody(b)
  }

  function ParseBody(b: Bytes): Verdict {
    var h := ReadHead(b);
    if h.Short? then Truncated
    else if !Acceptable(h.value) then InvalidSettings
    else
      var p := ReadPayload(h.rest, h.value.kind, h.value.count);
      if p.Short? then Truncated
      else if p.rest != [] then Trailing
      else Accepted(Request(h.value.settings, p.value))
  }

  // ---------------------------------------------------------------- the frame is uniquely decodable

  lemma {:induction false} CellReads(c: NormalCell, rest: Bytes)
    requires FitsCell(c)
    ensures ReadCell(CellBytes(c) + rest) == Read(c, rest)
  {
    Limits();
    var n := |c.cycles|;
    var b4 := c.phases + rest;
    var b3 := Flat(c.voltage) + b4;
    var b2 := Flat(c.capacity) + b3;
    var b1 := Flat(c.time) + b2;
    var b0 := Flat(c.cycles) + b1;
    CellNested(c, rest, b0, b1, b2, b3, b4);
    NumberOfLe(n, 4, b0);
    WordsOfFlat(c.cycles, b1);
    WordsOfFlat(c.time, b2);
    WordsOfFlat(c.capacity, b3);
    WordsOfFlat(c.voltage, b4);
    RawOf(c.phases, rest);
  }

  lemma {:induction false} CellNested(c: NormalCell, rest: Bytes, b0: Bytes, b1: Bytes, b2: Bytes, b3: Bytes, b4: Bytes)
    requires b4 == c.phases + rest && b3 == Flat(c.voltage) + b4 && b2 == Flat(c.capacity) + b3
    requires b1 == Flat(c.time) + b2 && b0 == Flat(c.cycles) + b1
    ensures CellBytes(c) + rest == Le(|c.cycles|, 4) + b0
  {
    Nest5(Flat(c.cycles), Flat(c.time), Flat(c.capacity), Flat(c.voltage), c.phases, rest);
    Assoc(Le(|c.cycles|, 4), Flat(c.cycles) + (Flat(c.time) + (Flat(c.capacity) + (Flat(c.voltage) + c.phases))), rest);
  }

  lemma {:induction false} Nest5(a: Bytes, b: Bytes, c: Bytes, d: Bytes, e: Bytes, rest: Bytes)
    ensures (a + (b + (c + (d + e)))) + rest == a + (b + (c + (d + (e + rest))))
  {
    Assoc(a, b + (c + (d + e)), rest);
    Assoc(b, c + (d + e), rest);
    Assoc(c, d + e, rest);
    Assoc(d, e, rest);
  }

  lemma {:induction false} TruthsOfFlags(bs: seq<bool>)
    ensures Truths(Flags(bs)) == bs
  {
  }

  lemma {:induction false} SegmentReads(s: SegmentInput, rest: Bytes)
    requires FitsSegment(s)
    ensures ReadSegment(SegmentBytes(s) + rest) == Read(s, rest)
  {
    Limits();
    var flags := Flags(s.explicitCv);
    var b4 := flags + rest;
    var b3 := Flat(s.voltage) + b4;
    var b2 := Flat(s.capacity) + b3;
    var b1 := [0, 0, 0] + b2;
    var b0 := [s.phase] + b1;
    Nest5([s.phase], [0, 0, 0], Flat(s.capacity), Flat(s.voltage), flags, rest);
    Assoc(Le(|s.capacity|, 4), [s.phase] + ([0, 0, 0] + (Flat(s.capacity) + (Flat(s.voltage) + flags))), rest);
    NumberOfLe(|s.capacity|, 4, b0);
    RawOf([s.phase], b1);
    RawOf([0, 0, 0], b2);
    WordsOfFlat(s.capacity, b3);
    WordsOfFlat(s.voltage, b4);
    RawOf(flags, rest);
    TruthsOfFlags(s.explicitCv);
  }

  lemma {:induction false} SegmentsRead(ss: seq<SegmentInput>, rest: Bytes)
    requires FitsSegments(ss)
    ensures ReadSegments(SegmentsBytes(ss) + rest) == Read(ss, rest)
  {
    Limits();
    Assoc(Le(|ss|, 4), ManyBytes(SegmentBytes, ss), rest);
    NumberOfLe(|ss|, 4, ManyBytes(SegmentBytes, ss) + rest);
    forall s, r | FitsSegment(s) ensures ReadSegment(SegmentBytes(s) + r) == Read(s, r) {
      SegmentReads(s, r);
    }
    ManyReads(ReadSegment, SegmentBytes, FitsSegment, ss, rest);
  }

  lemma {:induction false} PayloadReads(q: Request)
    requires Fits(q)
    ensures ReadPayload(PayloadBytes(q.payload), Kind(q.payload), q.payload.Count()) == Read(q.payload, [])
  {
    assert PayloadBytes(q.payload) + [] == PayloadBytes(q.payload);
    match q.payload
    case Normal(cells) =>
      forall c, r | FitsCell(c) ensures ReadCell(CellBytes(c) + r) == Read(c, r) {
        CellReads(c, r);
      }
      ManyReads(ReadCell, CellBytes, FitsCell, cells, []);
    case Derivative(segments) =>
      forall ss, r | FitsSegments(ss) ensures ReadSegments(SegmentsBytes(ss) + r) == Read(ss, r) {
        SegmentsRead(ss, r);
      }
      ManyReads(ReadSegments, SegmentsBytes, FitsSegments, segments, []);
  }

  lemma {:induction false} HeadReads(s: Settings, kind: Byte, count: nat, rest: Bytes)
    requires s.window < U32 && count < U32
    ensures ReadHead(SettingsBytes(s, kind, count) + rest) == Read(Head(Wire.MAGIC, Wire.VERSION, kind, s, count), rest)
  {
    Limits();
    var codes: Bytes := [kind, s.mode, s.selectedPhase, Flag(s.absolute), s.display, s.timeUnit];
    var b3 := Le(count, 4) + rest;
    var b2 := Le(s.window, 4) + b3;
    var b1 := codes + b2;
    var b0 := Le(Wire.VERSION, 2) + b1;
    Nest5(Le(Wire.MAGIC, 4), Le(Wire.VERSION, 2), codes, Le(s.window, 4), Le(count, 4), rest);
    NumberOfLe(Wire.MAGIC, 4, b0);
    NumberOfLe(Wire.VERSION, 2, b1);
    RawOf(codes, b2);
    NumberOfLe(s.window, 4, b3);
    NumberOfLe(count, 4, rest);
  }

  /**
   Main result on requests: the worker recovers every request that has a window and a Cell, and rejects the others.
   */
  lemma {:induction false} WorkerRecovers(q: Request)
    requires Fits(q)
    ensures ParseRequest(RequestBytes(q))
         == if q.settings.window == 0 || q.payload.Count() == 0 then InvalidSettings else Accepted(q)
  {
    HeadReads(q.settings, Kind(q.payload), q.payload.Count(), PayloadBytes(q.payload));
    PayloadReads(q);
  }

  /** Two requests with the same frame are the same request, whether or not the worker accepts it. */
  lemma {:induction false} RequestInjective(q: Request, q': Request)
    requires Fits(q) && Fits(q') && RequestBytes(q) == RequestBytes(q')
    ensures q == q'
  {
    HeadReads(q.settings, Kind(q.payload), q.payload.Count(), PayloadBytes(q.payload));
    HeadReads(q'.settings, Kind(q'.payload), q'.payload.Count(), PayloadBytes(q'.payload));
    PayloadReads(q);
    PayloadReads(q');
  }

  // ---------------------------------------------------------------- the encoder

  /** The bytes that carry numbers, as the encoder reports them. */
  function NumericOfCells(cells: seq<NormalCell>): nat {
    if cells == [] then 0 else 33 * |cells[0].cycles| + NumericOfCells(cells[1..])
  }

  function NumericOfSegments(ss: seq<SegmentInput>): nat {
    if ss == [] then 0 else 17 * |ss[0].capacity| + NumericOfSegments(ss[1..])
  }

  function NumericOfPayload(segments: seq<seq<SegmentInput>>): nat {
    if segments == [] then 0 else NumericOfSegments(segments[0]) + NumericOfPayload(segments[1..])
  }

  function Numeric(p: Payload): nat { if p.Normal? then NumericOfCells(p.cells) else NumericOfPayload(p.segments) }

  /** The bytes of the per-Cell and per-segment headers. */
  function SegmentHeaders(segments: seq<seq<SegmentInput>>): nat {
    if segments == [] then 0 else 4 + 8 * |segments[0]| + SegmentHeaders(segments[1..])
  }

  function Headers(p: Payload): nat { if p.Normal? then 4 * |p.cells| else SegmentHeaders(p.segments) }

  lemma {:induction false} CellsLength(cells: seq<NormalCell>)
    requires forall k :: 0 <= k < |cells| ==> FitsCell(cells[k])
    ensures |ManyBytes(CellBytes, cells)| == 4 * |cells| + NumericOfCells(cells)
  {
    if cells != [] {
      CellLength(cells[0]);
      CellsLength(cells[1..]);
    }
  }

  lemma {:induction false} CellLength(c: NormalCell)
    requires AlignedCell(c)
    ensures |CellBytes(c)| == 4 + 33 * |c.cycles|
  {
  }

  lemma {:induction false} SegmentLength(s: SegmentInput)
    requires AlignedSegment(s)
    ensures |SegmentBytes(s)| == 8 + 17 * |s.capacity|
  {
  }

  lemma {:induction false} SegmentsLength(ss: seq<SegmentInput>)
    requires forall k :: 0 <= k < |ss| ==> SizedSegment(ss[k])
    ensures |ManyBytes(SegmentBytes, ss)| == 8 * |ss| + NumericOfSegments(ss)
  {
    if ss != [] {
      SegmentLength(ss[0]);
      SegmentsLength(ss[1..]);
    }
  }

  lemma {:induction false} SegmentListsLength(segments: seq<seq<SegmentInput>>)
    requires forall k :: 0 <= k < |segments| ==> SizedSegments(segments[k])
    ensures |ManyBytes(SegmentsBytes, segments)| == SegmentHeaders(segments) + NumericOfPayload(segments)
  {
    if segments != [] {
      assert SizedSegments(segments[0]);
      SegmentsLength(segments[0]);
      SegmentListsLength(segments[1..]);
    }
  }

  /** The length of a payload is its headers and the reported numeric bytes. */
  lemma {:induction false} PayloadLength(q: Request)
    requires Sized(q)
    ensures |PayloadBytes(q.payload)| == Headers(q.payload) + Numeric(q.payload)
  {
    match q.payload
    case Normal(cells) => CellsLength(cells);
    case Derivative(segments) => SegmentListsLength(segments);
  }

  /** What is left to write begins with the next element. */
  lemma {:induction false} NextBytes<T>(write: T -> Bytes, xs: seq<T>, i: nat, body: Bytes)
    requires i < |xs|
    ensures body + ManyBytes(write, xs[i..]) == (body + write(xs[i])) + ManyBytes(write, xs[i + 1..])
  {
    assert xs[i..][1..] == xs[i + 1..];
    Assoc(body, write(xs[i]), ManyBytes(write, xs[i + 1..]));
  }

  /**
   The encoder: it fails exactly on misaligned buffers and on numbers that do not fit their fields, and reports the
   numeric share of the frame.
   */
  method EncodeRequest(q: Request) returns (ok: bool, frame: Bytes, numericBytes: nat)
    ensures ok <==> Sized(q)
    ensures ok ==> frame == RequestBytes(q) && numericBytes == Numeric(q.payload)
    ensures ok ==> |frame| == 20 + Headers(q.payload) + numericBytes
  {
    if q.settings.window >= U32 || q.payload.Count() >= U32 {
      return false, [], 0;
    }
    frame := SettingsBytes(q.settings, Kind(q.payload), q.payload.Count());
    var body: Bytes;
    match q.payload {
      case Normal(cells) => ok, body, numericBytes := EncodeCells(cells);
      case Derivative(segments) => ok, body, numericBytes := EncodeSegments(segments);
    }
    frame := frame + body;
    if ok {
      PayloadLength(q);
    }
  }

  method EncodeCells(cells: seq<NormalCell>) returns (ok: bool, body: Bytes, numeric: nat)
    ensures ok <==> forall k :: 0 <= k < |cells| ==> FitsCell(cells[k])
    ensures ok ==> body == ManyBytes(CellBytes, cells) && numeric == NumericOfCells(cells)
  {
    body, numeric := [], 0;
    for i := 0 to |cells|
      invariant forall k :: 0 <= k < i ==> FitsCell(cells[k])
      invariant body + ManyBytes(CellBytes, cells[i..]) == ManyBytes(CellBytes, cells)
      invariant numeric + NumericOfCells(cells[i..]) == NumericOfCells(cells)
    {
      var good, cellBody, cellNumeric := EncodeCell(cells[i]);
      if !good {
        return false, body, numeric;
      }
      NextBytes(CellBytes, cells, i, body);
      assert cells[i..][1..] == cells[i + 1..];
      body, numeric := body + cellBody, numeric + cellNumeric;
    }
    ok := true;
  }

  method EncodeCell(c: NormalCell) returns (ok: bool, body: Bytes, numeric: nat)
    ensures ok <==> FitsCell(c)
    ensures ok ==> body == CellBytes(c) && numeric == 33 * |c.cycles|
  {
    if !(|c.time| == |c.capacity| == |c.voltage| == |c.phases| == |c.cycles|) || |c.cycles| >= U32 {
      return false, [], 0;
    }
    numeric := 8 * |c.cycles| + 8 * |c.time| + 8 * |c.capacity| + 8 * |c.voltage| + |c.phases|;
    return true, CellBytes(c), numeric;
  }

  method EncodeSegments(segments: seq<seq<SegmentInput>>) returns (ok: bool, body: Bytes, numeric: nat)
    ensures ok <==> forall k :: 0 <= k < |segments| ==> SizedSegments(segments[k])
    ensures ok ==> body == ManyBytes(SegmentsBytes, segments) && numeric == NumericOfPayload(segments)
  {
    body, numeric := [], 0;
    for i := 0 to |segments|
      invariant forall k :: 0 <= k < i ==> SizedSegments(segments[k])
      invariant body + ManyBytes(SegmentsBytes, segments[i..]) == ManyBytes(SegmentsBytes, segments)
      invariant numeric + NumericOfPayload(segments[i..]) == NumericOfPayload(segments)
    {
      var good, cellBody, cellNumeric := EncodeCellSegments(segments[i]);
      if !good {
        return false, body, numeric;
      }
      NextBytes(SegmentsBytes, segments, i, body);
      assert segments[i..][1..] == segments[i + 1..];
      body, numeric := body + cellBody, numeric + cellNumeric;
    }
    ok := true;
  }

  method EncodeCellSegments(ss: seq<SegmentInput>) returns (ok: bool, body: Bytes, numeric: nat)
    ensures ok <==> SizedSegments(ss)
    ensures ok ==> body == SegmentsBytes(ss) && numeric == NumericOfSegments(ss)
  {
    if |ss| >= U32 {
      return false, [], 0;
    }
    body, numeric := Le(|ss|, 4), 0;
    for i := 0 to |ss|
      invariant forall k :: 0 <= k < i ==> SizedSegment(ss[k])
      invariant body + ManyBytes(SegmentBytes, ss[i..]) == SegmentsBytes(ss)
      invariant numeric + NumericOfSegments(ss[i..]) == NumericOfSegments(ss)
    {
      var good, segmentBody, segmentNumeric := EncodeSegment(ss[i]);
      if !good {
        return false, body, numeric;
      }
      NextBytes(SegmentBytes, ss, i, body);
      assert ss[i..][1..] == ss[i + 1..];
      body, numeric := body + segmentBody, numeric + segmentNumeric;
    }
    ok := true;
  }

  method EncodeSegment(s: SegmentInput) returns (ok: bool, body: Bytes, numeric: nat)
    ensures ok <==> SizedSegment(s)
    ensures ok ==> body == SegmentBytes(s) && numeric == 17 * |s.capacity|
  {
    if !(|s.capacity| == |s.voltage| == |s.explicitCv|) || |s.capacity| >= U32 {
      return false, [], 0;
    }
    numeric := 8 * |s.capacity| + 8 * |s.voltage| + |s.explicitCv|;
    return true, SegmentBytes(s), numeric;
  }

  // ---------------------------------------------------------------- the frame in plain terms

  /** A normal Cell: a count of four bytes, then cycles, time, capacity, voltage, a word each per row, and phases. */
  ghost predicate CellLies(b: Bytes, at: nat, c: NormalCell) {
    var n := |c.cycles|;
    && at + 4 + 33 * n <= |b| && Digits(b, at, 4) == n
    && WordsLie(b, at + 4, c.cycles) && WordsLie(b, at + 4 + 8 * n, c.time)
    && WordsLie(b, at + 4 + 16 * n, c.capacity) && WordsLie(b, at + 4 + 24 * n, c.voltage)
    && b[at + 4 + 32 * n..at + 4 + 33 * n] == c.phases
  }

  ghost predicate CellsLie(b: Bytes, at: nat, cells: seq<NormalCell>, end: nat)
    decreases |cells|
  {
    if cells == [] then at == end
    else CellLies(b, at, cells[0]) && CellsLie(b, at + 4 + 33 * |cells[0].cycles|, cells[1..], end)
  }

  /** A segment: a count of four bytes, its phase, three zeros, capacity, voltage, and a byte per row, 1 for true. */
  ghost predicate SegmentLies(b: Bytes, at: nat, s: SegmentInput) {
    var n := |s.capacity|;
    && at + 8 + 17 * n <= |b| && Digits(b, at, 4) == n && b[at + 4] == s.phase && b[at + 5..at + 8] == [0, 0, 0]
    && WordsLie(b, at + 8, s.capacity) && WordsLie(b, at + 8 + 8 * n, s.voltage)
    && TruthsLie(b, at + 8 + 16 * n, s.explicitCv) && |s.explicitCv| == n
  }

  ghost predicate TruthsLie(b: Bytes, at: nat, truths: seq<bool>) {
    at + |truths| <= |b| && forall k :: 0 <= k < |truths| ==> b[at + k] == if truths[k] then 1 else 0
  }

  ghost predicate SegmentsLie(b: Bytes, at: nat, ss: seq<SegmentInput>, end: nat)
    decreases |ss|
  {
    if ss == [] then at == end
    else SegmentLies(b, at, ss[0]) && SegmentsLie(b, at + 8 + 17 * |ss[0].capacity|, ss[1..], end)
  }

  /** A Cell of a derivative request: a count of four bytes, then its segments. */
  ghost predicate SegmentListsLie(b: Bytes, at: nat, lists: seq<seq<SegmentInput>>, end: nat)
    decreases |lists|
  {
    if lists == [] then at == end
    else
      && at + 4 <= |b| && Digits(b, at, 4) == |lists[0]|
      && exists next: nat :: SegmentsLie(b, at + 4, lists[0], next) && SegmentListsLie(b, next, lists[1..], end)
  }

  lemma {:induction false} CellsLay(b: Bytes, at: nat, cells: seq<NormalCell>, end: nat)
    requires at <= end <= |b| && b[at..end] == ManyBytes(CellBytes, cells)
    requires forall k :: 0 <= k < |cells| ==> FitsCell(cells[k])
    ensures CellsLie(b, at, cells, end)
    decreases |cells|
  {
    if cells != [] {
      var first, others := CellBytes(cells[0]), ManyBytes(CellBytes, cells[1..]);
      Cut(b, at, end, first, others);
      CellLays(b, at, cells[0], at + |first|);
      CellsLay(b, at + |first|, cells[1..], end);
    }
  }

  lemma {:induction false} CellLays(b: Bytes, at: nat, c: NormalCell, end: nat)
    requires FitsCell(c) && at <= end <= |b| && b[at..end] == CellBytes(c)
    ensures CellLies(b, at, c) && end == at + 4 + 33 * |c.cycles|
  {
    Limits();
    var n, voltages := |c.cycles|, Flat(c.capacity) + (Flat(c.voltage) + c.phases);
    CountedColumns(b, at, end, c.cycles, c.time, voltages);
    TwoColumns(b, at + 4 + 16 * n, end, c.capacity, c.voltage, c.phases);
  }

  lemma {:induction false} SegmentsLay(b: Bytes, at: nat, ss: seq<SegmentInput>, end: nat)
    requires at <= end <= |b| && b[at..end] == ManyBytes(SegmentBytes, ss)
    requires forall k :: 0 <= k < |ss| ==> SizedSegment(ss[k])
    ensures SegmentsLie(b, at, ss, end)
    decreases |ss|
  {
    if ss != [] {
      var first, others := SegmentBytes(ss[0]), ManyBytes(SegmentBytes, ss[1..]);
      Cut(b, at, end, first, others);
      SegmentLays(b, at, ss[0], at + |first|);
      SegmentsLay(b, at + |first|, ss[1..], end);
    }
  }

  lemma {:induction false} SegmentLays(b: Bytes, at: nat, s: SegmentInput, end: nat)
    requires SizedSegment(s) && at <= end <= |b| && b[at..end] == SegmentBytes(s)
    ensures SegmentLies(b, at, s) && end == at + 8 + 17 * |s.capacity|
  {
    Limits();
    SegmentLength(s);
    var n, flags := |s.capacity|, Flags(s.explicitCv);
    var columns := Flat(s.capacity) + (Flat(s.voltage) + flags);
    NumberField(b, at, end, n, 4, [s.phase] + ([0, 0, 0] + columns));
    PhaseLies(b, at + 4, end, s.phase, columns);
    TwoColumns(b, at + 8, end, s.capacity, s.voltage, flags);
    FlagsLie(b, at + 8 + 16 * n, end, s.explicitCv);
  }

  lemma {:induction false} PhaseLies(b: Bytes, at: nat, end: nat, phase: Byte, rest: Bytes)
    requires at <= end <= |b| && b[at..end] == [phase] + ([0, 0, 0] + rest)
    ensures at + 4 <= end && b[at] == phase && b[at + 1..at + 4] == [0, 0, 0] && b[at + 4..end] == rest
  {
    Cut(b, at, end, [phase], [0, 0, 0] + rest);
    Cut(b, at + 1, end, [0, 0, 0], rest);
    assert b[at] == b[at..at + 1][0];
  }

  lemma {:induction false} FlagsLie(b: Bytes, at: nat, end: nat, truths: seq<bool>)
    requires at <= end <= |b| && b[at..end] == Flags(truths)
    ensures TruthsLie(b, at, truths)
  {
    forall k | 0 <= k < |truths| ensures b[at + k] == if truths[k] then 1 else 0 {
      assert b[at..end][k] == Flags(truths)[k];
    }
  }

  lemma {:induction false} SegmentListsLay(b: Bytes, at: nat, lists: seq<seq<SegmentInput>>, end: nat)
    requires at <= end <= |b| && b[at..end] == ManyBytes(SegmentsBytes, lists)
    requires forall k :: 0 <= k < |lists| ==> SizedSegments(lists[k])
    ensures SegmentListsLie(b, at, lists, end)
    decreases |lists|
  {
    if lists != [] {
      var ss := lists[0];
      var inside, others := ManyBytes(SegmentBytes, ss), ManyBytes(SegmentsBytes, lists[1..]);
      Limits();
      assert SizedSegments(ss);
      Cut(b, at, end, SegmentsBytes(ss), others);
      var next := at + |SegmentsBytes(ss)|;
      NumberField(b, at, next, |ss|, 4, inside);
      SegmentsLay(b, at + 4, ss, next);
      SegmentListsLay(b, next, lists[1..], end);
    }
  }

  /**
   The frame of a request: the magic number and version 1, lowest byte first, one byte each for the kind (1 for normal)
   and five codes, the window and the number of Cells in four bytes, then the Cells up to its end.
   */
  lemma {:induction false} RequestMeaning(q: Request)
    requires Sized(q)
    ensures var b := RequestBytes(q);
            && |b| >= 20 && b[0..4] == [0x01, 0x05, 0x58, 0x43] && b[4..6] == [1, 0]
            && b[6] == (if q.payload.Normal? then 1 else 0) && b[7] == q.settings.mode
            && b[8] == q.settings.selectedPhase && b[9] == (if q.settings.absolute then 1 else 0)
            && b[10] == q.settings.display && b[11] == q.settings.timeUnit
            && Digits(b, 12, 4) == q.settings.window
            && match q.payload
               case Normal(cells) => Digits(b, 16, 4) == |cells| && CellsLie(b, 20, cells, |b|)
               case Derivative(lists) => Digits(b, 16, 4) == |lists| && SegmentListsLie(b, 20, lists, |b|)
  {
    var b := RequestBytes(q);
    assert b[0..|b|] == b;
    Cut(b, 0, |b|, SettingsBytes(q.settings, Kind(q.payload), q.payload.Count()), PayloadBytes(q.payload));
    SettingsLie(b, q.settings, Kind(q.payload), q.payload.Count());
    match q.payload
    case Normal(cells) => CellsLay(b, 20, cells, |b|);
    case Derivative(lists) => SegmentListsLay(b, 20, lists, |b|);
  }

  lemma {:induction false} SettingsLie(b: Bytes, s: Settings, kind: Byte, count: nat)
    requires |b| >= 20 && b[0..20] == SettingsBytes(s, kind, count) && s.window < U32 && count < U32
    ensures && b[0..4] == [0x01, 0x05, 0x58, 0x43] && b[4..6] == [1, 0]
            && b[6] == kind && b[7] == s.mode && b[8] == s.selectedPhase && b[9] == (if s.absolute then 1 else 0)
            && b[10] == s.display && b[11] == s.timeUnit
            && Digits(b, 12, 4) == s.window && Digits(b, 16, 4) == count
  {
    Limits();
    var codes: Bytes := [kind, s.mode, s.selectedPhase, Flag(s.absolute), s.display, s.timeUnit];
    var numbers := Le(s.window, 4) + Le(count, 4);
    Cut(b, 0, 20, Le(Wire.MAGIC, 4), Le(Wire.VERSION, 2) + (codes + numbers));
    Cut(b, 4, 20, Le(Wire.VERSION, 2), codes + numbers);
    Cut(b, 6, 20, codes, numbers);
    Cut(b, 12, 20, Le(s.window, 4), Le(count, 4));
    assert forall k :: 0 <= k < 6 ==> b[6 + k] == b[6..12][k];
    assert b[6] == b[6..12][0] && b[7] == b[6..12][1] && b[8] == b[6..12][2];
    assert b[9] == b[6..12][3] && b[10] == b[6..12][4] && b[11] == b[6..12][5];
    DigitsOfLe(b, 12, s.window, 4);
    DigitsOfLe(b, 16, count, 4);
    Wire.MagicBytes();
  }
}
