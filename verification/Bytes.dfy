/**
 Little-endian fields, fixed-width words, and readers that consume a prefix of a buffer. Numbers are written lowest
 byte first. A list of records is read by reading one record after another, and if reading one undoes writing one, so
 it is for lists. `Digits` and `WordsLie` say where in a buffer something lies without any reader.
 */
module Bytes {

  type Byte = b: int | 0 <= b < 256

  type Bytes = seq<Byte>

  /** An eight-byte number; its value never matters here. */
  type Word = w: Bytes | |w| == 8 witness [0, 0, 0, 0, 0, 0, 0, 0]

  const U16 := 0x1_0000
  const U32 := 0x1_0000_0000
  const U64 := 0x1_0000_0000_0000_0000

  /** The outcome of reading a prefix: too few bytes, or a value and what follows it. */
  datatype Parsed<+T> = Short | Read(value: T, rest: Bytes)
  {
    predicate IsFailure() { Short? }

    function PropagateFailure<U>(): Parsed<U>
      requires Short?
    {
      Short
    }

    function Extract(): (T, Bytes)
      requires Read?
    {
      (value, rest)
    }
  }

  /** How many values fit into `k` bytes. */
  function Limit(k: nat): nat { if k == 0 then 1 else 256 * Limit(k - 1) }

  lemma {:induction false} Limits()
    ensures Limit(1) == 256 && Limit(2) == U16 && Limit(4) == U32 && Limit(8) == U64
  {
    assert Limit(2) == 256 * Limit(1);
    assert Limit(3) == 256 * Limit(2);
    assert Limit(4) == 256 * Limit(3);
    assert Limit(5) == 256 * Limit(4);
    assert Limit(6) == 256 * Limit(5);
    assert Limit(7) == 256 * Limit(6);
    assert Limit(8) == 256 * Limit(7);
  }

  function Le(n: nat, k: nat): (r: Bytes)
    ensures |r| == k
    decreases k
  {
    if k == 0 then [] else [n % 256] + Le(n / 256, k - 1)
  }

  function UnLe(b: Bytes): nat { if b == [] then 0 else b[0] + 256 * UnLe(b[1..]) }

  lemma {:induction false} UnLeOfLe(n: nat, k: nat)
    requires n < Limit(k)
    ensures UnLe(Le(n, k)) == n
    decreases k
  {
    if k > 0 {
      UnLeOfLe(n / 256, k - 1);
      assert Le(n, k)[1..] == Le(n / 256, k - 1);
    }
  }

  lemma {:induction false} LeOfUnLe(b: Bytes)
    ensures Le(UnLe(b), |b|) == b && UnLe(b) < Limit(|b|)
    decreases |b|
  {
    if b != [] {
      LeOfUnLe(b[1..]);
      var tail := UnLe(b[1..]);
      assert (b[0] + 256 * tail) % 256 == b[0] && (b[0] + 256 * tail) / 256 == tail;
      assert b == [b[0]] + b[1..];
    }
  }

  lemma {:induction false} Assoc(a: Bytes, b: Bytes, c: Bytes)
    ensures (a + b) + c == a + (b + c)
  {
  }

  /** Read a number of `k` bytes. */
  function Number(b: Bytes, k: nat): Parsed<nat> {
    if |b| < k then Short else Read(UnLe(b[..k]), b[k..])
  }

  lemma {:induction false} NumberOfLe(n: nat, k: nat, rest: Bytes)
    requires n < Limit(k)
    ensures Number(Le(n, k) + rest, k) == Read(n, rest)
  {
    UnLeOfLe(n, k);
    assert (Le(n, k) + rest)[..k] == Le(n, k) && (Le(n, k) + rest)[k..] == rest;
  }

  lemma {:induction false} LeOfNumber(b: Bytes, k: nat)
    requires Number(b, k).Read?
    ensures var p := Number(b, k); p.value < Limit(k) && b == Le(p.value, k) + p.rest
  {
    LeOfUnLe(b[..k]);
    assert b == b[..k] + b[k..];
  }

  // ---------------------------------------------------------------- runs of words

  function Flat(ws: seq<Word>): (b: Bytes)
    ensures |b| == 8 * |ws|
  {
    if ws == [] then [] else ws[0] + Flat(ws[1..])
  }

  function Chop(b: Bytes, n: nat): (ws: seq<Word>)
    requires |b| == 8 * n
    ensures |ws| == n
    decreases n
  {
    if n == 0 then [] else [b[..8]] + Chop(b[8..], n - 1)
  }

  lemma {:induction false} ChopOfFlat(ws: seq<Word>)
    ensures Chop(Flat(ws), |ws|) == ws
    decreases |ws|
  {
    if ws != [] {
      var w: Bytes, tail: Bytes := ws[0], Flat(ws[1..]);
      assert (w + tail)[..8] == w && (w + tail)[8..] == tail;
      ChopOfFlat(ws[1..]);
    }
  }

  lemma {:induction false} FlatOfChop(b: Bytes, n: nat)
    requires |b| == 8 * n
    ensures Flat(Chop(b, n)) == b
    decreases n
  {
    if n > 0 {
      FlatOfChop(b[8..], n - 1);
      assert Chop(b, n)[1..] == Chop(b[8..], n - 1);
      assert b == b[..8] + b[8..];
    }
  }

  /** Read `n` words. */
  function Words(b: Bytes, n: nat): Parsed<seq<Word>> {
    if |b| < 8 * n then Short else Read(Chop(b[..8 * n], n), b[8 * n..])
  }

  lemma {:induction false} WordsOfFlat(ws: seq<Word>, rest: Bytes)
    ensures Words(Flat(ws) + rest, |ws|) == Read(ws, rest)
  {
    ChopOfFlat(ws);
    assert (Flat(ws) + rest)[..8 * |ws|] == Flat(ws) && (Flat(ws) + rest)[8 * |ws|..] == rest;
  }

  lemma {:induction false} FlatOfWords(b: Bytes, n: nat)
    requires Words(b, n).Read?
    ensures var p := Words(b, n); |p.value| == n && b == Flat(p.value) + p.rest
  {
    FlatOfChop(b[..8 * n], n);
    assert b == b[..8 * n] + b[8 * n..];
  }

  /** Read `n` raw bytes. */
  function Raw(b: Bytes, n: nat): Parsed<Bytes> {
    if |b| < n then Short else Read(b[..n], b[n..])
  }

  lemma {:induction false} RawOf(a: Bytes, rest: Bytes)
    ensures Raw(a + rest, |a|) == Read(a, rest)
  {
  }

  // ---------------------------------------------------------------- places in a buffer

  ghost function Power(k: nat): nat { if k == 0 then 1 else Power(k - 1) * 256 }

  /** The number in `k` bytes from position `at` on, the lowest byte first. */
  ghost function Digits(b: Bytes, at: nat, k: nat): nat
    requires at + k <= |b|
  {
    if k == 0 then 0 else Digits(b, at, k - 1) + b[at + k - 1] * Power(k - 1)
  }

  lemma {:induction false} DigitsFront(b: Bytes, at: nat, k: nat)
    requires at + k <= |b| && k > 0
    ensures Digits(b, at, k) == b[at] + 256 * Digits(b, at + 1, k - 1)
    decreases k
  {
    if k == 1 {
      assert Power(0) == 1 && Digits(b, at, 0) == 0 == Digits(b, at + 1, 0);
    } else {
      DigitsFront(b, at, k - 1);
      assert b[at + k - 1] * Power(k - 1) == 256 * (b[at + k - 1] * Power(k - 2));
    }
  }

  /** Bytes that spell a number, lowest first, have it as their digits. */
  lemma {:induction false} DigitsOfLe(b: Bytes, at: nat, n: nat, k: nat)
    requires at + k <= |b| && b[at..at + k] == Le(n, k) && n < Limit(k)
    ensures Digits(b, at, k) == n
    decreases k
  {
    if k > 0 {
      assert b[at] == b[at..at + k][0] == n % 256;
      assert b[at + 1..at + k] == b[at..at + k][1..] == Le(n / 256, k - 1);
      DigitsOfLe(b, at + 1, n / 256, k - 1);
      DigitsFront(b, at, k);
    }
  }

  /** The words lie one after another, eight bytes each. */
  ghost predicate WordsLie(b: Bytes, at: nat, ws: seq<Word>) {
    at + 8 * |ws| <= |b| && forall k :: 0 <= k < |ws| ==> b[at + 8 * k..at + 8 * k + 8] == ws[k]
  }

  lemma {:induction false} FlatLies(b: Bytes, at: nat, ws: seq<Word>)
    requires at + 8 * |ws| <= |b| && b[at..at + 8 * |ws|] == Flat(ws)
    ensures WordsLie(b, at, ws)
    decreases |ws|
  {
    if ws != [] {
      var whole := b[at..at + 8 * |ws|];
      assert whole == ws[0] + Flat(ws[1..]);
      assert b[at..at + 8] == whole[..8] == ws[0];
      assert b[at + 8..at + 8 * |ws|] == whole[8..] == Flat(ws[1..]);
      FlatLies(b, at + 8, ws[1..]);
      forall k | 0 <= k < |ws| ensures b[at + 8 * k..at + 8 * k + 8] == ws[k] {
        if k > 0 {
          assert ws[1..][k - 1] == ws[k];
        }
      }
    }
  }

  /** A part of a buffer that begins with `a` and goes on with `rest`. */
  lemma {:induction false} Cut(b: Bytes, at: nat, end: nat, a: Bytes, rest: Bytes)
    requires at <= end <= |b| && b[at..end] == a + rest
    ensures at + |a| <= end && b[at..at + |a|] == a && b[at + |a|..end] == rest
  {
    assert b[at..at + |a|] == b[at..end][..|a|];
    assert b[at + |a|..end] == b[at..end][|a|..];
  }

  /** A number and what follows it. */
  lemma {:induction false} NumberField(b: Bytes, at: nat, end: nat, n: nat, k: nat, rest: Bytes)
    requires at <= end <= |b| && b[at..end] == Le(n, k) + rest && n < Limit(k)
    ensures at + k <= end && Digits(b, at, k) == n && b[at + k..end] == rest
  {
    Cut(b, at, end, Le(n, k), rest);
    DigitsOfLe(b, at, n, k);
  }

  /** Words and what follows them. */
  lemma {:induction false} WordsField(b: Bytes, at: nat, end: nat, ws: seq<Word>, rest: Bytes)
    requires at <= end <= |b| && b[at..end] == Flat(ws) + rest
    ensures at + 8 * |ws| <= end && WordsLie(b, at, ws) && b[at + 8 * |ws|..end] == rest
  {
    Cut(b, at, end, Flat(ws), rest);
    FlatLies(b, at, ws);
  }

  lemma {:induction false} TwoColumns(b: Bytes, at: nat, end: nat, v: seq<Word>, w: seq<Word>, rest: Bytes)
    requires at <= end <= |b| && b[at..end] == Flat(v) + (Flat(w) + rest)
    ensures at + 8 * |v| + 8 * |w| <= end && WordsLie(b, at, v) && WordsLie(b, at + 8 * |v|, w)
    ensures b[at + 8 * |v| + 8 * |w|..end] == rest
  {
    WordsField(b, at, end, v, Flat(w) + rest);
    WordsField(b, at + 8 * |v|, end, w, rest);
  }

  /** A count, then two columns of that many words, and what follows them. */
  lemma {:induction false} CountedColumns(b: Bytes, at: nat, end: nat, v: seq<Word>, w: seq<Word>, rest: Bytes)
    requires at <= end <= |b| && |v| == |w| < Limit(4) && b[at..end] == Le(|v|, 4) + (Flat(v) + (Flat(w) + rest))
    ensures at + 4 + 16 * |v| <= end && Digits(b, at, 4) == |v|
    ensures WordsLie(b, at + 4, v) && WordsLie(b, at + 4 + 8 * |v|, w) && b[at + 4 + 16 * |v|..end] == rest
  {
    NumberField(b, at, end, |v|, 4, Flat(v) + (Flat(w) + rest));
    TwoColumns(b, at + 4, end, v, w, rest);
  }

  // ---------------------------------------------------------------- lists of records

  /** Write records one after another. */
  function ManyBytes<T>(write: T -> Bytes, xs: seq<T>): Bytes {
    if xs == [] then [] else write(xs[0]) + ManyBytes(write, xs[1..])
  }

  /** Read `n` records one after another. */
  function Many<T>(read: Bytes -> Parsed<T>, b: Bytes, n: nat): Parsed<seq<T>>
    decreases n
  {
    if n == 0 then Read([], b)
    else
      var (first, b) :- read(b);
      var (others, b) :- Many(read, b, n - 1);
      Read([first] + others, b)
  }

  /** Reading undoes writing, whatever follows. */
  ghost predicate Reads<T(!new)>(read: Bytes -> Parsed<T>, write: T -> Bytes, valid: T -> bool) {
    forall x, rest {:trigger read(write(x) + rest)} :: valid(x) ==> read(write(x) + rest) == Read(x, rest)
  }

  /** What can be read is the writing of a valid record. */
  ghost predicate Writes<T(!new)>(read: Bytes -> Parsed<T>, write: T -> Bytes, valid: T -> bool) {
    forall b {:trigger read(b)} :: read(b).Read? ==> valid(read(b).value) && b == write(read(b).value) + read(b).rest
  }

  lemma {:induction false} ManyBytesCons<T>(write: T -> Bytes, x: T, xs: seq<T>, rest: Bytes)
    ensures ManyBytes(write, [x] + xs) + rest == write(x) + (ManyBytes(write, xs) + rest)
  {
    assert ([x] + xs)[1..] == xs;
    Assoc(write(x), ManyBytes(write, xs), rest);
  }

  lemma {:induction false} ManyReads<T(!new)>(read: Bytes -> Parsed<T>, write: T -> Bytes, valid: T -> bool,
                                              xs: seq<T>, rest: Bytes)
    requires Reads(read, write, valid) && forall x <- xs :: valid(x)
    ensures Many(read, ManyBytes(write, xs) + rest, |xs|) == Read(xs, rest)
    decreases |xs|
  {
    if xs == [] {
      assert ManyBytes(write, xs) + rest == rest;
    } else {
      assert xs == [xs[0]] + xs[1..];
      ManyBytesCons(write, xs[0], xs[1..], rest);
      ManyReads(read, write, valid, xs[1..], rest);
    }
  }

  lemma {:induction false} ManyWrites<T(!new)>(read: Bytes -> Parsed<T>, write: T -> Bytes, valid: T -> bool,
                                               b: Bytes, n: nat)
    requires Writes(read, write, valid) && Many(read, b, n).Read?
    ensures var p := Many(read, b, n);
            |p.value| == n && (forall x <- p.value :: valid(x)) && b == ManyBytes(write, p.value) + p.rest
    decreases n
  {
    if n == 0 {
      assert b == [] + b;
    } else {
      var first := read(b);
      ManyWrites(read, write, valid, first.rest, n - 1);
      var others := Many(read, first.rest, n - 1);
      ManyBytesCons(write, first.value, others.value, others.rest);
    }
  }

  /** The loop of a decoder: what is still to be read continues what was read already. */
  function Continue<T>(done: seq<T>, p: Parsed<seq<T>>): Parsed<seq<T>> {
    if p.Short? then Short else Read(done + p.value, p.rest)
  }

  lemma {:induction false} ContinueNothing<T>(done: seq<T>, p: Parsed<seq<T>>, b: Bytes)
    ensures Continue([], p) == p && Continue(done, Read([], b)) == Read(done, b)
  {
    assert p.Read? ==> [] + p.value == p.value;
    assert done + [] == done;
  }

  lemma {:induction false} ManyStep<T>(read: Bytes -> Parsed<T>, b: Bytes, n: nat, done: seq<T>)
    requires n > 0
    ensures Continue(done, Many(read, b, n))
         == if read(b).Short? then Short else Continue(done + [read(b).value], Many(read, read(b).rest, n - 1))
  {
    if read(b).Read? && Many(read, read(b).rest, n - 1).Read? {
      var others := Many(read, read(b).rest, n - 1).value;
      assert done + ([read(b).value] + others) == done + [read(b).value] + others;
    }
  }
}
