/**
 Writing an icon file: a header of six bytes, a directory with one entry of sixteen bytes per frame, and the frames'
 payloads back to back. An entry gives a frame's size, with 0 for 256, and where its payload lies in the file. Reading
 the directory back recovers every frame, and the ranges leave no gap.
 */
module Icon {
  import opened Bytes

  datatype Frame = Frame(size: nat, payload: Bytes)

  datatype Entry = Entry(size: nat, length: nat, offset: nat)

  /** A directory byte of zero stands for 256 pixels. */
  function Dimension(size: nat): Byte
    requires 1 <= size <= 256
  {
    if size == 256 then 0 else size
  }

  function SizeOf(dimension: Byte): nat { if dimension == 0 then 256 else dimension }

  function Payloads(frames: seq<Frame>): Bytes {
    if frames == [] then [] else frames[0].payload + Payloads(frames[1..])
  }

  /** The directory of frames whose first payload is written at `offset`. */
  function Directory(frames: seq<Frame>, offset: nat): (r: seq<Entry>)
    ensures |r| == |frames|
  {
    if frames == [] then []
    else [Entry(frames[0].size, |frames[0].payload|, offset)] + Directory(frames[1..], offset + |frames[0].payload|)
  }

  predicate ValidEntry(e: Entry) { 1 <= e.size <= 256 && e.length < U32 && e.offset < U32 }

  function EntryBytes(e: Entry): (r: Bytes)
    ensures |r| == 16
  {
    var d: Byte := if 1 <= e.size <= 256 then Dimension(e.size) else 0;
    [d, d, 0, 0] + (Le(1, 2) + (Le(32, 2) + (Le(e.length, 4) + Le(e.offset, 4))))
  }

  function HeaderSize(n: nat): nat { 6 + 16 * n }

  function IcoBytes(frames: seq<Frame>): Bytes {
    var entries := Directory(frames, HeaderSize(|frames|));
    Le(0, 2) + (Le(1, 2) + (Le(|frames|, 2) + (ManyBytes(EntryBytes, entries) + Payloads(frames))))
  }

  /** Sizes a directory byte can hold, and a file short enough for its offsets. */
  predicate Writable(frames: seq<Frame>) {
    && |frames| < U16 && (forall f <- frames :: 1 <= f.size <= 256)
    && HeaderSize(|frames|) + |Payloads(frames)| < U32
  }

  // ---------------------------------------------------------------- reading a file back

  function ReadEntry(b: Bytes): Parsed<Entry> {
    var (dims, b) :- Raw(b, 4);
    var (_, b) :- Number(b, 2);
    var (_, b) :- Number(b, 2);
    var (length, b) :- Number(b, 4);
    var (offset, b) :- Number(b, 4);
    Read(Entry(SizeOf(dims[0]), length, offset), b)
  }

  function ReadDirectory(file: Bytes): Parsed<seq<Entry>> {
    var (_, b) :- Number(file, 2);
    var (_, b) :- Number(b, 2);
    var (n, b) :- Number(b, 2);
    Many(ReadEntry, b, n)
  }

  /** The bytes an entry points at. */
  function Slice(file: Bytes, e: Entry): Bytes
    requires e.offset + e.length <= |file|
  {
    file[e.offset..e.offset + e.length]
  }

  // ---------------------------------------------------------------- layout

  /** Payload ranges follow one another without gaps or overlaps, and the last one ends with the payloads. */
  lemma {:induction false} Contiguous(frames: seq<Frame>, offset: nat, i: nat)
    requires i < |frames|
    ensures var d := Directory(frames, offset);
            && d[i].size == frames[i].size && d[i].length == |frames[i].payload|
            && d[i].offset == offset + |Payloads(frames[..i])|
            && d[i].offset + d[i].length == (if i + 1 < |frames| then d[i + 1].offset else offset + |Payloads(frames)|)
    decreases i
  {
    var rest, next := frames[1..], offset + |frames[0].payload|;
    if i > 0 {
      Contiguous(rest, next, i - 1);
      assert frames[..i][1..] == rest[..i - 1] && frames[..i][0] == frames[0];
    } else {
      assert frames[..0] == [];
      if |frames| > 1 {
        assert Directory(frames, offset)[1] == Directory(rest, next)[0];
      } else {
        assert rest == [];
      }
    }
  }

  /** The entry's slice of the payloads is the frame's payload. */
  lemma {:induction false} PayloadAt(frames: seq<Frame>, i: nat)
    requires i < |frames|
    ensures var start := |Payloads(frames[..i])|;
            start + |frames[i].payload| <= |Payloads(frames)|
            && Payloads(frames)[start..start + |frames[i].payload|] == frames[i].payload
    decreases i
  {
    var rest := frames[1..];
    if i == 0 {
      assert frames[..0] == [];
    } else {
      PayloadAt(rest, i - 1);
      assert frames[..i][1..] == rest[..i - 1] && frames[..i][0] == frames[0];
      var a, b := frames[0].payload, Payloads(rest);
      var start := |Payloads(rest[..i - 1])|;
      assert (a + b)[|a| + start..|a| + start + |frames[i].payload|] == b[start..start + |frames[i].payload|];
    }
  }

  lemma {:induction false} EntryReads(e: Entry, rest: Bytes)
    requires ValidEntry(e)
    ensures ReadEntry(EntryBytes(e) + rest) == Read(e, rest)
  {
    Limits();
    var d := Dimension(e.size);
    var b3 := Le(e.offset, 4) + rest;
    var b2 := Le(e.length, 4) + b3;
    var b1 := Le(32, 2) + b2;
    var b0 := Le(1, 2) + b1;
    var dims: Bytes := [d, d, 0, 0];
    Assoc(dims, Le(1, 2) + (Le(32, 2) + (Le(e.length, 4) + Le(e.offset, 4))), rest);
    Assoc(Le(1, 2), Le(32, 2) + (Le(e.length, 4) + Le(e.offset, 4)), rest);
    Assoc(Le(32, 2), Le(e.length, 4) + Le(e.offset, 4), rest);
    Assoc(Le(e.length, 4), Le(e.offset, 4), rest);
    RawOf(dims, b0);
    NumberOfLe(1, 2, b1);
    NumberOfLe(32, 2, b2);
    NumberOfLe(e.length, 4, b3);
    NumberOfLe(e.offset, 4, rest);
  }

  lemma {:induction false} EntriesLength(entries: seq<Entry>)
    ensures |ManyBytes(EntryBytes, entries)| == 16 * |entries|
    decreases |entries|
  {
    if entries != [] {
      EntriesLength(entries[1..]);
      assert |EntryBytes(entries[0])| == 16;
    }
  }

  lemma {:induction false} DirectoryValid(frames: seq<Frame>)
    requires Writable(frames)
    ensures forall e <- Directory(frames, HeaderSize(|frames|)) :: ValidEntry(e)
  {
    var d := Directory(frames, HeaderSize(|frames|));
    forall i | 0 <= i < |d| ensures ValidEntry(d[i]) {
      Contiguous(frames, HeaderSize(|frames|), i);
      PayloadAt(frames, i);
    }
  }

  lemma {:induction false} DirectoryReads(frames: seq<Frame>)
    requires Writable(frames)
    ensures ReadDirectory(IcoBytes(frames)) == Read(Directory(frames, HeaderSize(|frames|)), Payloads(frames))
  {
    Limits();
    var entries := Directory(frames, HeaderSize(|frames|));
    var b2 := ManyBytes(EntryBytes, entries) + Payloads(frames);
    NumberOfLe(0, 2, Le(1, 2) + (Le(|frames|, 2) + b2));
    NumberOfLe(1, 2, Le(|frames|, 2) + b2);
    NumberOfLe(|frames|, 2, b2);
    forall e, r | ValidEntry(e) ensures ReadEntry(EntryBytes(e) + r) == Read(e, r) {
      EntryReads(e, r);
    }
    DirectoryValid(frames);
    ManyReads(ReadEntry, EntryBytes, ValidEntry, entries, Payloads(frames));
  }

  lemma {:induction false} FileEndsWithPayloads(frames: seq<Frame>)
    ensures var file := IcoBytes(frames);
            && |file| == HeaderSize(|frames|) + |Payloads(frames)|
            && file[HeaderSize(|frames|)..] == Payloads(frames)
  {
    var entries := Directory(frames, HeaderSize(|frames|));
    EntriesLength(entries);
    var head := Le(0, 2) + (Le(1, 2) + (Le(|frames|, 2) + ManyBytes(EntryBytes, entries)));
    assert IcoBytes(frames) == head + Payloads(frames);
  }

  /**
   Main result: reading the written file's directory recovers every size and, byte for byte, every payload;
   the ranges are consecutive from the end of the directory to the end of the file.
   */
  lemma {:induction false} IconRoundTrip(frames: seq<Frame>, i: nat)
    requires Writable(frames) && i < |frames|
    ensures var file := IcoBytes(frames);
            ReadDirectory(file).Read? && |ReadDirectory(file).value| == |frames| &&
            var e := ReadDirectory(file).value[i];
            && e.offset + e.length <= |file| && Frame(e.size, Slice(file, e)) == frames[i]
            && (i == 0 ==> e.offset == HeaderSize(|frames|))
            && e.offset + e.length == (if i + 1 < |frames| then ReadDirectory(file).value[i + 1].offset else |file|)
  {
    DirectoryReads(frames);
    FileEndsWithPayloads(frames);
    RangeHoldsPayload(frames, HeaderSize(|frames|), IcoBytes(frames), i);
  }

  lemma {:induction false} RangeHoldsPayload(frames: seq<Frame>, h: nat, file: Bytes, i: nat)
    requires i < |frames| && |file| == h + |Payloads(frames)| && file[h..] == Payloads(frames)
    ensures var d := Directory(frames, h);
            && d[i].offset + d[i].length <= |file| && Frame(d[i].size, Slice(file, d[i])) == frames[i]
            && (i == 0 ==> d[i].offset == h)
            && d[i].offset + d[i].length == (if i + 1 < |frames| then d[i + 1].offset else |file|)
  {
    Contiguous(frames, h, i);
    PayloadAt(frames, i);
    var start, n := |Payloads(frames[..i])|, |frames[i].payload|;
    assert i == 0 ==> frames[..i] == [];
    assert file[h + start..h + start + n] == file[h..][start..start + n];
  }

  // ---------------------------------------------------------------- the file, byte by byte

  /** Six bytes of header: 0, 1 for an icon, and the number of frames. */
  ghost predicate HeaderLies(file: Bytes, n: nat) {
    |file| >= 6 && Digits(file, 0, 2) == 0 && Digits(file, 2, 2) == 1 && Digits(file, 4, 2) == n
  }

  /** Sixteen bytes: width and height, no palette, one plane, 32 bits per pixel, length and place of the payload. */
  ghost predicate EntryLies(file: Bytes, at: nat, size: nat, length: nat, offset: nat) {
    && at + 16 <= |file| && file[at] == file[at + 1] == (if size == 256 then 0 else size)
    && file[at + 2] == file[at + 3] == 0 && Digits(file, at + 4, 2) == 1 && Digits(file, at + 6, 2) == 32
    && Digits(file, at + 8, 4) == length && Digits(file, at + 12, 4) == offset
  }

  /** A list of records of `width` bytes, and what follows it. */
  lemma {:induction false} RecordAt(write: Entry -> Bytes, width: nat, entries: seq<Entry>, rest: Bytes, i: nat)
    requires i < |entries| && forall e {:trigger write(e)} :: |write(e)| == width
    ensures var all := ManyBytes(write, entries) + rest;
            width * i + width <= |all| && all[width * i..width * i + width] == write(entries[i])
    decreases i
  {
    var first, others := write(entries[0]), ManyBytes(write, entries[1..]) + rest;
    assert entries == [entries[0]] + entries[1..];
    ManyBytesCons(write, entries[0], entries[1..], rest);
    if i > 0 {
      RecordAt(write, width, entries[1..], rest, i - 1);
      Behind(first, others, width * (i - 1), width);
      assert width + width * (i - 1) == width * i;
    }
  }

  lemma {:induction false} Behind(a: Bytes, b: Bytes, at: nat, n: nat)
    requires at + n <= |b|
    ensures (a + b)[|a| + at..|a| + at + n] == b[at..at + n]
  {
  }

  lemma {:induction false} EntryLays(file: Bytes, at: nat, e: Entry)
    requires ValidEntry(e) && at + 16 <= |file| && file[at..at + 16] == EntryBytes(e)
    ensures EntryLies(file, at, e.size, e.length, e.offset)
  {
    var b1 := Le(1, 2) + (Le(32, 2) + (Le(e.length, 4) + Le(e.offset, 4)));
    DimensionsLie(file, at, at + 16, Dimension(e.size), b1);
    FieldsLie(file, at + 4, at + 16, e);
  }

  lemma {:induction false} DimensionsLie(file: Bytes, at: nat, end: nat, d: Byte, rest: Bytes)
    requires at <= end <= |file| && file[at..end] == [d, d, 0, 0] + rest
    ensures at + 4 <= end && file[at] == file[at + 1] == d && file[at + 2] == file[at + 3] == 0
    ensures file[at + 4..end] == rest
  {
    var dims: Bytes := [d, d, 0, 0];
    Cut(file, at, end, dims, rest);
    assert file[at] == file[at..at + 4][0] && file[at + 1] == file[at..at + 4][1];
    assert file[at + 2] == file[at..at + 4][2] && file[at + 3] == file[at..at + 4][3];
  }

  lemma {:induction false} FieldsLie(file: Bytes, at: nat, end: nat, e: Entry)
    requires ValidEntry(e) && at + 12 == end <= |file|
    requires file[at..end] == Le(1, 2) + (Le(32, 2) + (Le(e.length, 4) + Le(e.offset, 4)))
    ensures Digits(file, at, 2) == 1 && Digits(file, at + 2, 2) == 32
    ensures Digits(file, at + 4, 4) == e.length && Digits(file, at + 8, 4) == e.offset
  {
    Limits();
    var b3: Bytes := Le(e.offset, 4);
    var b2 := Le(e.length, 4) + b3;
    NumberField(file, at, end, 1, 2, Le(32, 2) + b2);
    NumberField(file, at + 2, end, 32, 2, b2);
    NumberField(file, at + 4, end, e.length, 4, b3);
    DigitsOfLe(file, at + 8, e.offset, 4);
  }

  lemma {:induction false} HeaderLays(file: Bytes, n: nat, rest: Bytes)
    requires n < U16 && file == Le(0, 2) + (Le(1, 2) + (Le(n, 2) + rest))
    ensures HeaderLies(file, n) && file[6..] == rest
  {
    Limits();
    assert file[0..|file|] == file;
    NumberField(file, 0, |file|, 0, 2, Le(1, 2) + (Le(n, 2) + rest));
    NumberField(file, 2, |file|, 1, 2, Le(n, 2) + rest);
    NumberField(file, 4, |file|, n, 2, rest);
  }

  /** Record `i` of a list that begins at `from`. */
  lemma {:induction false} RecordIn(file: Bytes, from: nat, write: Entry -> Bytes, width: nat, entries: seq<Entry>,
                                    rest: Bytes, i: nat)
    requires i < |entries| && forall e {:trigger write(e)} :: |write(e)| == width
    requires from <= |file| && file[from..] == ManyBytes(write, entries) + rest
    ensures var at := from + width * i; at + width <= |file| && file[at..at + width] == write(entries[i])
  {
    RecordAt(write, width, entries, rest, i);
    var k := width * i;
    assert k >= 0;
    assert file[from + k..from + k + width] == file[from..][k..k + width];
  }

  lemma {:induction false} HeadOf(frames: seq<Frame>)
    requires Writable(frames)
    ensures var file := IcoBytes(frames);
            && HeaderLies(file, |frames|)
            && file[6..] == ManyBytes(EntryBytes, Directory(frames, HeaderSize(|frames|))) + Payloads(frames)
  {
    var entries := Directory(frames, HeaderSize(|frames|));
    HeaderLays(IcoBytes(frames), |frames|, ManyBytes(EntryBytes, entries) + Payloads(frames));
  }

  /** The directory entry of a frame, at its place in the file. */
  lemma {:induction false} DirectoryLays(file: Bytes, entries: seq<Entry>, rest: Bytes, i: nat)
    requires i < |entries| && forall e <- entries :: ValidEntry(e)
    requires 6 <= |file| && file[6..] == ManyBytes(EntryBytes, entries) + rest
    ensures var e := entries[i]; EntryLies(file, 6 + 16 * i, e.size, e.length, e.offset)
  {
    var at := 6 + 16 * i;
    RecordIn(file, 6, EntryBytes, 16, entries, rest, i);
    assert ValidEntry(entries[i]);
    EntryLays(file, at, entries[i]);
  }

  /** The payload is found where the entry says. */
  lemma {:induction false} PayloadLies(frames: seq<Frame>, h: nat, file: Bytes, i: nat)
    requires i < |frames| && |file| == h + |Payloads(frames)| && file[h..] == Payloads(frames)
    ensures var e, f := Directory(frames, h)[i], frames[i];
            && e.size == f.size && e.length == |f.payload| && e.offset + e.length <= |file|
            && file[e.offset..e.offset + e.length] == f.payload
  {
    RangeHoldsPayload(frames, h, file, i);
  }

  /** Main result: header, directory and payloads in plain bytes. The payload is found where the entry says. */
  lemma {:induction false} FileMeaning(frames: seq<Frame>, i: nat) returns (start: nat)
    requires Writable(frames) && i < |frames|
    ensures var file, f := IcoBytes(frames), frames[i];
            && HeaderLies(file, |frames|) && EntryLies(file, 6 + 16 * i, f.size, |f.payload|, start)
            && start + |f.payload| <= |file| && file[start..start + |f.payload|] == f.payload
  {
    var file, h := IcoBytes(frames), HeaderSize(|frames|);
    var entries := Directory(frames, h);
    HeadOf(frames);
    DirectoryValid(frames);
    DirectoryLays(file, entries, Payloads(frames), i);
    FileEndsWithPayloads(frames);
    PayloadLies(frames, h, file, i);
    start := entries[i].offset;
  }

  // ---------------------------------------------------------------- the writer

  method WriteIco(frames: seq<Frame>) returns (file: Bytes)
    requires forall f <- frames :: 1 <= f.size <= 256
    ensures file == IcoBytes(frames)
  {
    var entries, payloads := WriteFrames(EntryBytes, frames, 6 + 16 * |frames|);
    file := Le(0, 2) + (Le(1, 2) + (Le(|frames|, 2) + (entries + payloads)));
  }

  /** The loop: the running offset, the directory so far, the payloads so far. `pack` lays out one entry. */
  method WriteFrames(pack: Entry -> Bytes, frames: seq<Frame>, start: nat) returns (entries: Bytes, payloads: Bytes)
    ensures entries == ManyBytes(pack, Directory(frames, start))
    ensures payloads == Payloads(frames)
  {
    var offset: nat := start;
    entries, payloads := [], [];
    assert frames[0..] == frames;
    assert [] + ManyBytes(pack, Directory(frames, start)) == ManyBytes(pack, Directory(frames, start));
    for i := 0 to |frames|
      invariant entries + ManyBytes(pack, Directory(frames[i..], offset)) == ManyBytes(pack, Directory(frames, start))
      invariant payloads + Payloads(frames[i..]) == Payloads(frames)
    {
      var f := frames[i];
      assert frames[i..] == [f] + frames[i + 1..];
      entries := entries + pack(Entry(f.size, |f.payload|, offset));
      payloads := payloads + f.payload;
      offset := offset + |f.payload|;
    }
    assert frames[|frames|..] == [];
    assert entries + [] == entries && payloads + [] == payloads;
  }
}
