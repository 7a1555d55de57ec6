/**
 Release tags: the installer gate's sort key against the precedence of Semantic Versioning 2.0.0
 (section 11), the choice of the previous release, the prerelease publication gate, and bumps.

 A tag is modelled as the fields its pattern captures. Its numbers have no leading zeros and a
 compact beta keeps its digits, so a tag's text and its fields determine each other.
 */
module Versions {
  import opened Common

  datatype Core = Core(major: nat, minor: nat, patch: nat)

  /** `Compact("007")` is the suffix "-beta007". */
  datatype Pre = Stable | Alpha(n: nat) | Beta(n: nat) | Compact(digits: string)

  datatype AnyTag = Tag(core: Core, pre: Pre)

  type Tag = t: AnyTag | WellFormed(t) witness Tag(Core(0, 0, 0), Stable)

  datatype Channel = StableChannel | BetaChannel | AlphaChannel

  /** A compact suffix has at least one digit. */
  predicate WellFormed(t: AnyTag) {
    t.pre.Compact? ==> t.pre.digits != "" && forall c <- t.pre.digits :: '0' <= c <= '9'
  }

  function ChannelOf(t: Tag): Channel {
    match t.pre
    case Stable => StableChannel
    case Alpha(_) => AlphaChannel
    case Beta(_) => BetaChannel
    case Compact(_) => BetaChannel
  }

  // ---------------------------------------------------------------- orders

  predicate CoreLess(a: Core, b: Core) {
    a.major < b.major || (a.major == b.major && (a.minor < b.minor || (a.minor == b.minor && a.patch < b.patch)))
  }

  /** Lexical order of strings by character code. */
  predicate TextLess(a: string, b: string) {
    b != "" && (a == "" || a[0] < b[0] || (a[0] == b[0] && TextLess(a[1..], b[1..])))
  }

  lemma {:induction false} TextTrichotomy(a: string, b: string)
    ensures a == b || TextLess(a, b) || TextLess(b, a)
    ensures !(TextLess(a, b) && TextLess(b, a)) && !TextLess(a, a)
    decreases |a|
  {
    if a != "" && b != "" {
      TextTrichotomy(a[1..], b[1..]);
      assert a == [a[0]] + a[1..] && b == [b[0]] + b[1..];
    }
    if a != "" { TextTrichotomy(a[1..], a[1..]); }
  }

  lemma {:induction false} TextTransitive(a: string, b: string, c: string)
    requires TextLess(a, b) && TextLess(b, c)
    ensures TextLess(a, c)
    decreases |a|
  {
    if a != "" && a[0] == b[0] == c[0] {
      TextTransitive(a[1..], b[1..], c[1..]);
    }
  }

  lemma {:induction false} TextSamePrefix(p: string, a: string, b: string)
    ensures TextLess(p + a, p + b) <==> TextLess(a, b)
    decreases |p|
  {
    if p == "" {
      assert p + a == a && p + b == b;
    } else {
      assert (p + a)[1..] == p[1..] + a && (p + b)[1..] == p[1..] + b;
      TextSamePrefix(p[1..], a, b);
    }
  }

  // ---------------------------------------------------------------- the gate's sort key

  datatype Key = Key(core: Core, compact: bool, digits: string, sequence: nat)

  function KeyOf(t: Tag): Key {
    match t.pre
    case Stable => Key(t.core, false, "", 0)
    case Alpha(n) => Key(t.core, false, "", n)
    case Beta(n) => Key(t.core, false, "", n)
    case Compact(d) => Key(t.core, d != "", d, 0)
  }

  /** Order of the tuples: core, then the flag, then the text, then the number. */
  predicate KeyLess(a: Key, b: Key) {
    CoreLess(a.core, b.core) || (a.core == b.core &&
      ((!a.compact && b.compact) || (a.compact == b.compact &&
        (TextLess(a.digits, b.digits) || (a.digits == b.digits && a.sequence < b.sequence)))))
  }

  lemma {:induction false} KeyTrichotomy(a: Key, b: Key)
    ensures a == b || KeyLess(a, b) || KeyLess(b, a)
    ensures !(KeyLess(a, b) && KeyLess(b, a)) && !KeyLess(a, a)
  {
    TextTrichotomy(a.digits, b.digits);
    TextTrichotomy(a.digits, a.digits);
  }

  lemma {:induction false} KeyTransitive(a: Key, b: Key, c: Key)
    requires KeyLess(a, b) && KeyLess(b, c)
    ensures KeyLess(a, c)
  {
    if TextLess(a.digits, b.digits) && TextLess(b.digits, c.digits) {
      TextTransitive(a.digits, b.digits, c.digits);
    }
  }

  // ---------------------------------------------------------------- Semantic Versioning 2.0.0, section 11

  datatype Identifier = Numeric(n: nat) | Alphanumeric(text: string)

  /** The dot-separated identifiers behind the hyphen. */
  function Identifiers(p: Pre): seq<Identifier> {
    match p
    case Stable => []
    case Alpha(n) => [Alphanumeric("alpha"), Numeric(n)]
    case Beta(n) => [Alphanumeric("beta"), Numeric(n)]
    case Compact(d) => [Alphanumeric("beta" + d)]
  }

  /** Numeric identifiers compare as numbers, others as text, and numeric ones are lower. */
  predicate IdentifierLess(a: Identifier, b: Identifier) {
    match (a, b)
    case (Numeric(m), Numeric(n)) => m < n
    case (Numeric(_), Alphanumeric(_)) => true
    case (Alphanumeric(_), Numeric(_)) => false
    case (Alphanumeric(s), Alphanumeric(t)) => TextLess(s, t)
  }

  /** The first difference decides; a longer list of identifiers is higher than its prefix. */
  predicate ListLess(a: seq<Identifier>, b: seq<Identifier>) {
    b != [] && (a == [] || IdentifierLess(a[0], b[0]) || (a[0] == b[0] && ListLess(a[1..], b[1..])))
  }

  /** `a` has lower precedence than `b`: a release is above its own prereleases. */
  predicate Precedes(a: Tag, b: Tag) {
    CoreLess(a.core, b.core) || (a.core == b.core &&
      var x, y := Identifiers(a.pre), Identifiers(b.pre);
      if y == [] then x != [] else x != [] && ListLess(x, y))
  }

  lemma {:induction false} ListLessPairs(s: string, m: nat, t: string, n: nat)
    ensures ListLess([Alphanumeric(s), Numeric(m)], [Alphanumeric(t), Numeric(n)])
            <==> TextLess(s, t) || (s == t && m < n)
  {
    var a, b := [Alphanumeric(s), Numeric(m)], [Alphanumeric(t), Numeric(n)];
    assert a[1..] == [Numeric(m)] && b[1..] == [Numeric(n)];
    assert [Numeric(m)][1..] == [] && [Numeric(n)][1..] == [];
    assert ListLess([Numeric(m)], [Numeric(n)]) <==> m < n;
    assert ListLess(a, b) <==> TextLess(s, t) || (s == t && ListLess([Numeric(m)], [Numeric(n)]));
  }

  lemma {:induction false} ListLessSingle(s: string, t: string, n: nat)
    ensures ListLess([Alphanumeric(s)], [Alphanumeric(t), Numeric(n)]) <==> TextLess(s, t) || s == t
    ensures ListLess([Alphanumeric(t), Numeric(n)], [Alphanumeric(s)]) <==> TextLess(t, s)
    ensures ListLess([Alphanumeric(s)], [Alphanumeric(t)]) <==> TextLess(s, t)
  {
    assert [Alphanumeric(s)][1..] == [] && [Alphanumeric(t)][1..] == [];
    assert [Alphanumeric(t), Numeric(n)][1..] == [Numeric(n)];
  }

  lemma {:induction false} CompactAboveDotted(d: string)
    requires d != ""
    ensures TextLess("beta", "beta" + d) && !TextLess("beta" + d, "beta") && "beta" + d != "beta"
  {
    TextSamePrefix("beta", "", d);
    TextSamePrefix("beta", d, "");
    assert "beta" + "" == "beta";
  }

  /** Main result: within a channel the sort key orders tags exactly by precedence. */
  lemma {:induction false} KeyIsPrecedence(a: Tag, b: Tag)
    requires ChannelOf(a) == ChannelOf(b)
    ensures KeyLess(KeyOf(a), KeyOf(b)) <==> Precedes(a, b)
  {
    TextTrichotomy("", "");
    match (a.pre, b.pre)
    case (Alpha(m), Alpha(n)) =>
      ListLessPairs("alpha", m, "alpha", n);
      TextTrichotomy("alpha", "alpha");
    case (Beta(m), Beta(n)) =>
      ListLessPairs("beta", m, "beta", n);
      TextTrichotomy("beta", "beta");
    case (Beta(m), Compact(d)) =>
      CompactAboveDotted(d);
      ListLessSingle("beta" + d, "beta", m);
    case (Compact(d), Beta(n)) =>
      CompactAboveDotted(d);
      ListLessSingle("beta" + d, "beta", n);
    case (Compact(d), Compact(e)) =>
      TextSamePrefix("beta", d, e);
      ListLessSingle("beta" + d, "beta" + e, 0);
    case _ =>
  }

  /** The key loses nothing within a channel. */
  lemma {:induction false} KeyInjective(a: Tag, b: Tag)
    requires ChannelOf(a) == ChannelOf(b) && KeyOf(a) == KeyOf(b)
    ensures a == b
  {
  }

  // ---------------------------------------------------------------- precedence in plain terms

  function Parts(c: Core): seq<nat> { [c.major, c.minor, c.patch] }

  /** Part `k` is lower, and those in front of it are the same. */
  ghost predicate LowerPart(p: seq<nat>, q: seq<nat>, k: nat) {
    k < |p| == |q| && p[k] < q[k] && forall j :: 0 <= j < k ==> p[j] == q[j]
  }

  lemma {:induction false} CoreMeaning(a: Core, b: Core)
    ensures CoreLess(a, b) <==> exists k :: LowerPart(Parts(a), Parts(b), k)
  {
    var p, q := Parts(a), Parts(b);
    assert LowerPart(p, q, 0) <==> a.major < b.major;
    assert LowerPart(p, q, 1) <==> a.major == b.major && a.minor < b.minor;
    assert LowerPart(p, q, 2) <==> a.major == b.major && a.minor == b.minor && a.patch < b.patch;
    if k: nat :| LowerPart(p, q, k) {
      assert k == 0 || k == 1 || k == 2;
    }
  }

  /** At the first character that differs the text is lower, or it ends there. */
  ghost predicate LowerAt(a: string, b: string, k: nat) {
    k <= |a| && k < |b| && a[..k] == b[..k] && (k == |a| || a[k] < b[k])
  }

  lemma {:induction false} LowerText(a: string, b: string) returns (k: nat)
    requires TextLess(a, b)
    ensures LowerAt(a, b, k)
    decreases |a|
  {
    if a == "" || a[0] != b[0] {
      k := 0;
    } else {
      var n := LowerText(a[1..], b[1..]);
      k := n + 1;
      assert a[..k] == [a[0]] + a[1..][..n] && b[..k] == [b[0]] + b[1..][..n];
    }
  }

  lemma {:induction false} TextMeaning(a: string, b: string)
    ensures TextLess(a, b) <==> exists k: nat :: LowerAt(a, b, k)
  {
    if TextLess(a, b) {
      var k := LowerText(a, b);
    }
    if k: nat :| LowerAt(a, b, k) {
      assert a == a[..k] + a[k..] && b == a[..k] + b[k..];
      TextSamePrefix(a[..k], a[k..], b[k..]);
    }
  }

  /** Of tags with one core and of one channel: numbers by value, compact suffixes as text and above dotted ones. */
  lemma {:induction false} PrecedenceMeaning(a: Tag, b: Tag)
    requires ChannelOf(a) == ChannelOf(b)
    ensures CoreLess(a.core, b.core) ==> Precedes(a, b)
    ensures CoreLess(b.core, a.core) ==> !Precedes(a, b)
    ensures a.core == b.core ==>
              && (a.pre.Stable? ==> !Precedes(a, b))
              && (a.pre.Alpha? ==> (Precedes(a, b) <==> a.pre.n < b.pre.n))
              && (a.pre.Beta? && b.pre.Beta? ==> (Precedes(a, b) <==> a.pre.n < b.pre.n))
              && (a.pre.Beta? && b.pre.Compact? ==> Precedes(a, b))
              && (a.pre.Compact? && b.pre.Beta? ==> !Precedes(a, b))
              && (a.pre.Compact? && b.pre.Compact? ==> (Precedes(a, b) <==> TextLess(a.pre.digits, b.pre.digits)))
  {
    KeyIsPrecedence(a, b);
    TextTrichotomy("", "");
    if a.pre.Compact? { TextTrichotomy(a.pre.digits, ""); }
    if b.pre.Compact? { TextTrichotomy(b.pre.digits, ""); }
  }

  /** The suffix decides about the channel. */
  lemma {:induction false} ChannelMeaning(t: Tag)
    ensures ChannelOf(t) == StableChannel <==> t.pre == Stable
    ensures ChannelOf(t) == AlphaChannel <==> exists n :: t.pre == Alpha(n)
    ensures ChannelOf(t) == BetaChannel <==> (exists n :: t.pre == Beta(n)) || exists d :: t.pre == Compact(d)
  {
  }

  // ---------------------------------------------------------------- the previous release

  /** `tag` is `None` for a name that is not a release tag. */
  datatype Row = Row(tag: Option<Tag>, draft: bool, published: bool)

  /** Published in the channel, not the candidate itself, and below it if the candidate is of this channel. */
  predicate Eligible(r: Row, channel: Channel, candidate: Option<Tag>) {
    && r.tag.Some? && ChannelOf(r.tag.value) == channel && !r.draft && r.published && r.tag != candidate
    && (candidate.Some? && ChannelOf(candidate.value) == channel ==> Precedes(r.tag.value, candidate.value))
  }

  lemma {:induction false} EligibleMeaning(r: Row, channel: Channel, candidate: Option<Tag>)
    ensures Eligible(r, channel, candidate)
            <==> exists tag: Tag ::
                   && r == Row(Some(tag), false, true) && ChannelOf(tag) == channel && candidate != Some(tag)
                   && (candidate.Some? && ChannelOf(candidate.value) == channel ==> Precedes(tag, candidate.value))
  {
    if Eligible(r, channel, candidate) {
      assert r == Row(Some(r.tag.value), false, true);
    }
  }

  method PreviousRelease(rows: seq<Row>, channel: Channel, candidate: Option<Tag>) returns (r: Option<Row>)
    ensures r.None? <==> forall row <- rows :: !Eligible(row, channel, candidate)
    ensures r.Some? ==> r.value in rows && Eligible(r.value, channel, candidate)
    ensures r.Some? ==> forall row <- rows :: Eligible(row, channel, candidate) ==>
              row.tag == r.value.tag || Precedes(row.tag.value, r.value.tag.value)
  {
    var eligible := CollectEligible(rows, channel, candidate);
    if eligible == [] {
      return None;
    }
    var best := eligible[0];
    for i := 1 to |eligible|
      invariant best in eligible
      invariant forall k :: 0 <= k < i ==> AtMost(eligible[k].0, best.0)
    {
      if KeyLess(KeyOf(best.0), KeyOf(eligible[i].0)) {
        forall k | 0 <= k < i ensures AtMost(eligible[k].0, eligible[i].0) {
          AtMostThenLess(eligible[k].0, best.0, eligible[i].0);
        }
        best := eligible[i];
      } else {
        NotLess(best.0, eligible[i].0);
      }
    }
    forall row | row in rows && Eligible(row, channel, candidate)
      ensures row.tag == best.1.tag || Precedes(row.tag.value, best.1.tag.value)
    {
      assert (row.tag.value, row) in eligible;
      KeyIsPrecedence(row.tag.value, best.0);
    }
    r := Some(best.1);
  }

  ghost predicate AtMost(a: Tag, b: Tag) { ChannelOf(a) == ChannelOf(b) && (a == b || KeyLess(KeyOf(a), KeyOf(b))) }

  lemma {:induction false} AtMostThenLess(a: Tag, b: Tag, c: Tag)
    requires AtMost(a, b) && KeyLess(KeyOf(b), KeyOf(c)) && ChannelOf(b) == ChannelOf(c)
    ensures AtMost(a, c)
  {
    if a != b {
      KeyTransitive(KeyOf(a), KeyOf(b), KeyOf(c));
    }
  }

  lemma {:induction false} NotLess(a: Tag, b: Tag)
    requires !KeyLess(KeyOf(a), KeyOf(b)) && ChannelOf(a) == ChannelOf(b)
    ensures AtMost(b, a)
  {
    KeyTrichotomy(KeyOf(a), KeyOf(b));
    if KeyOf(a) == KeyOf(b) {
      KeyInjective(a, b);
    }
  }

  /** The filtering loop, on keys: each eligible row with its parsed tag. */
  method CollectEligible(rows: seq<Row>, channel: Channel, candidate: Option<Tag>) returns (eligible: seq<(Tag, Row)>)
    ensures forall e <- eligible :: e.1 in rows && Eligible(e.1, channel, candidate) && e.1.tag == Some(e.0)
    ensures forall row <- rows :: Eligible(row, channel, candidate) ==> (row.tag.value, row) in eligible
  {
    eligible := [];
    for i := 0 to |rows|
      invariant forall e <- eligible :: e.1 in rows && Eligible(e.1, channel, candidate) && e.1.tag == Some(e.0)
      invariant forall k :: 0 <= k < i && Eligible(rows[k], channel, candidate) ==>
                  (rows[k].tag.value, rows[k]) in eligible
    {
      var row := rows[i];
      if row.tag.None? || ChannelOf(row.tag.value) != channel || row.draft || !row.published || row.tag == candidate {
        continue;
      }
      var tag: Tag := row.tag.value;
      if candidate.Some? && ChannelOf(candidate.value) == channel {
        KeyIsPrecedence(tag, candidate.value);
        if !KeyLess(KeyOf(tag), KeyOf(candidate.value)) {
          continue;
        }
      }
      eligible := eligible + [(tag, row)];
    }
  }

  // ---------------------------------------------------------------- the prerelease gate

  /** One entry of the releases response: a page of rows, a row, or something else. A page skips what is not a row. */
  datatype Entry = Page(items: seq<Option<Row>>) | Single(row: Row) | Invalid

  function RowsOfPage(items: seq<Option<Row>>): seq<Row> {
    if items == [] then []
    else (if items[0].Some? then [items[0].value] else []) + RowsOfPage(items[1..])
  }

  /** All rows in order, or nothing if an entry is invalid. */
  function AllRows(payload: seq<Entry>): Option<seq<Row>> {
    if payload == [] then Some([])
    else
      var rest := AllRows(payload[1..]);
      if payload[0].Invalid? || rest.None? then None
      else Some((if payload[0].Page? then RowsOfPage(payload[0].items) else [payload[0].row]) + rest.value)
  }

  /** One entry behind the others: a page adds what is a row in it, in order, a single row itself. */
  lemma {:induction false} RowsMeaning(payload: seq<Entry>, row: Row, items: seq<Option<Row>>)
    ensures AllRows([]) == Some([])
    ensures AllRows(payload + [Invalid]) == None
    ensures AllRows(payload + [Single(row)])
         == if AllRows(payload).None? then None else Some(AllRows(payload).value + [row])
    ensures AllRows(payload + [Page(items)])
         == if AllRows(payload).None? then None else Some(AllRows(payload).value + RowsOfPage(items))
  {
    LastEntry(payload, Invalid, []);
    LastEntry(payload, Single(row), [row]);
    LastEntry(payload, Page(items), RowsOfPage(items));
  }

  lemma {:induction false} LastEntry(payload: seq<Entry>, last: Entry, rows: seq<Row>)
    requires last.Single? ==> rows == [last.row]
    requires last.Page? ==> rows == RowsOfPage(last.items)
    ensures AllRows(payload + [last])
         == if last.Invalid? || AllRows(payload).None? then None else Some(AllRows(payload).value + rows)
    decreases |payload|
  {
    if payload == [] {
      assert payload + [last] == [last] && [last][1..] == [];
      assert rows + [] == rows == [] + rows;
    } else {
      LastEntry(payload[1..], last, rows);
      assert (payload + [last])[1..] == payload[1..] + [last];
      RowsJoin(if payload[0].Page? then RowsOfPage(payload[0].items)
               else if payload[0].Single? then [payload[0].row] else [],
               if AllRows(payload[1..]).Some? then AllRows(payload[1..]).value else [], Some(rows));
    }
  }

  lemma {:induction false} PageMeaning(items: seq<Option<Row>>, row: Row)
    ensures RowsOfPage([]) == []
    ensures RowsOfPage(items + [None]) == RowsOfPage(items)
    ensures RowsOfPage(items + [Some(row)]) == RowsOfPage(items) + [row]
    decreases |items|
  {
    if items == [] {
      assert (items + [None])[1..] == [] && (items + [Some(row)])[1..] == [];
      assert RowsOfPage([]) == [];
    } else {
      PageMeaning(items[1..], row);
      assert (items + [None])[1..] == items[1..] + [None] && (items + [Some(row)])[1..] == items[1..] + [Some(row)];
    }
  }

  predicate RealStable(r: Row) { !r.draft && r.published && r.tag.Some? && r.tag.value.pre.Stable? }

  /** Published, not a draft, and tagged with a release. */
  lemma {:induction false} RealStableMeaning(r: Row)
    ensures RealStable(r) <==> exists core :: r == Row(Some(Tag(core, Stable)), false, true)
  {
    if RealStable(r) {
      assert r == Row(Some(Tag(r.tag.value.core, Stable)), false, true);
    }
  }

  datatype Verdict = Allowed | NotAbove | NoStable | BadResponse

  method ReleaseRows(payload: seq<Entry>) returns (rows: Option<seq<Row>>)
    ensures rows == AllRows(payload)
  {
    var all: seq<Row> := [];
    assert payload[0..] == payload && forall rest: seq<Row> :: [] + rest == rest;
    for i := 0 to |payload|
      invariant AllRows(payload) == match AllRows(payload[i..]) case None => None case Some(rest) => Some(all + rest)
    {
      assert payload[i..][0] == payload[i] && payload[i..][1..] == payload[i + 1..];
      match payload[i] {
        case Page(items) =>
          RowsJoin(all, RowsOfPage(items), AllRows(payload[i + 1..]));
          all := all + RowsOfPage(items);
        case Single(row) =>
          RowsJoin(all, [row], AllRows(payload[i + 1..]));
          all := all + [row];
        case Invalid =>
          return None;
      }
    }
    assert all + [] == all;
    rows := Some(all);
  }

  lemma {:induction false} RowsJoin(a: seq<Row>, b: seq<Row>, c: Option<seq<Row>>)
    ensures c.Some? ==> a + (b + c.value) == a + b + c.value
  {
  }

  /** Whether a prerelease tag may be published: its core must exceed the latest published stable core. */
  method RequireFutureStable(candidate: Tag, payload: seq<Entry>) returns (v: Verdict)
    requires !candidate.pre.Stable?
    ensures v.BadResponse? <==> AllRows(payload).None?
    ensures v.NoStable? <==> AllRows(payload).Some? && forall r <- AllRows(payload).value :: !RealStable(r)
    ensures v.Allowed? <==>
              && AllRows(payload).Some? && (exists r :: r in AllRows(payload).value && RealStable(r))
              && forall r <- AllRows(payload).value :: RealStable(r) ==> Precedes(r.tag.value, candidate)
  {
    var rows := ReleaseRows(payload);
    if rows.None? {
      return BadResponse;
    }
    var latest: Option<Core> := None;
    for i := 0 to |rows.value|
      invariant latest.None? <==> forall k :: 0 <= k < i ==> !RealStable(rows.value[k])
      invariant latest.Some? ==>
                  exists k :: 0 <= k < i && RealStable(rows.value[k]) && rows.value[k].tag.value.core == latest.value
      invariant latest.Some? ==>
                  forall k :: 0 <= k < i && RealStable(rows.value[k]) ==>
                    !CoreLess(latest.value, rows.value[k].tag.value.core)
    {
      if RealStable(rows.value[i]) {
        var core := rows.value[i].tag.value.core;
        if latest.None? || CoreLess(latest.value, core) {
          latest := Some(core);
        }
      }
    }
    if latest.None? {
      return NoStable;
    }
    v := if CoreLess(latest.value, candidate.core) then Allowed else NotAbove;
  }

  // ---------------------------------------------------------------- bumps

  /** The new stable core; the largest requested part wins, and asking for none is an error. */
  function Bump(current: Tag, patch: bool, minor: bool, major: bool): Option<Tag> {
    var c := current.core;
    if major then Some(Tag(Core(c.major + 1, 0, 0), Stable))
    else if minor then Some(Tag(Core(c.major, c.minor + 1, 0), Stable))
    else if patch then Some(Tag(Core(c.major, c.minor, c.patch + 1), Stable))
    else None
  }

  /**
   A bump strictly outranks its input, prerelease or not, and is the lowest release above it that keeps the
   parts left of the bumped one and has a higher core.
   */
  lemma {:induction false} BumpOutranks(current: Tag, patch: bool, minor: bool, major: bool, other: Tag)
    requires patch || minor || major
    ensures var b := Bump(current, patch, minor, major);
            b.Some? && b.value.pre.Stable? && Precedes(current, b.value)
    ensures var b := Bump(current, patch, minor, major);
            var sameKind := other.pre.Stable? && (major || minor ==> other.core.patch == 0)
                            && (major ==> other.core.minor == 0);
            sameKind && CoreLess(current.core, other.core) ==> b.value == other || Precedes(b.value, other)
  {
  }
}
