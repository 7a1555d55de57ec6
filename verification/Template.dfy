/** The installer template renderer. */
module Template {
  import opened Common

  // An index-driven interpreter for nested `each`/`if`/`else` blocks, proved equal to a direct evaluation of the
  // template's tree.

  datatype Kind = EachBlock | IfBlock

  /**
   A template is a sequence of pieces: runs of text, block openers, and every other tag. A tag is a closer when its
   expression starts with '/', and an `else` when it is exactly that word; both are plain variable lookups when the
   renderer meets them as expressions. An empty alias stands for an opener without " as ".
   */
  datatype Piece =
    | Text(text: string)
    | Open(kind: Kind, key: string, alias: string)
    | Tag(expr: string)

  datatype Value =
    | Str(s: string)
    | List(items: seq<Value>, shown: string)
  {
    predicate Truthy() { if Str? then s != "" else items != [] }

    /** What a Python `for` over the value visits. */
    function Elements(): seq<Value> {
      if Str? then seq(|s|, i requires 0 <= i < |s| => Str([s[i]])) else items
    }

    function Show(): string { if Str? then s else shown }
  }

  type Env = map<string, Value>

  datatype Outcome = Rendered(text: string) | Unclosed | Unsupported(expr: string)

  predicate IsCloser(p: Piece) { p.Tag? && |p.expr| > 0 && p.expr[0] == '/' }

  predicate IsElse(p: Piece) { p.Tag? && p.expr == "else" }

  /** The context shadows the global values. */
  function Lookup(ctx: Env, values: Env, key: string): Option<Value> {
    if key in ctx then Some(ctx[key]) else if key in values then Some(values[key]) else None
  }

  function ItemContext(ctx: Env, item: Value, alias: string): Env {
    var inner := ctx["this" := item];
    if alias == "" then inner else inner[alias := item]
  }

  /** Sequential composition: the first failure wins. */
  function Then(first: Outcome, second: Outcome): Outcome {
    if !first.Rendered? then first
    else if !second.Rendered? then second
    else Rendered(first.text + second.text)
  }

  lemma {:induction false} ThenAssociative(a: Outcome, b: Outcome, c: Outcome)
    ensures Then(Then(a, b), c) == Then(a, Then(b, c))
  {
    if a.Rendered? && b.Rendered? && c.Rendered? {
      assert a.text + b.text + c.text == a.text + (b.text + c.text);
    }
  }

  lemma {:induction false} ThenUnit(a: Outcome)
    ensures Then(Rendered(""), a) == a == Then(a, Rendered(""))
  {
    if a.Rendered? {
      assert "" + a.text == a.text == a.text + "";
    }
  }

  // ---------------------------------------------------------------- block matching

  /** How a piece moves the nesting depth. */
  function Delta(p: Piece): int { if p.Open? then 1 else if IsCloser(p) then -1 else 0 }

  /** Nesting depth after the first `n` pieces behind an opener. */
  function Level(s: seq<Piece>, n: nat): int
    requires n <= |s|
  {
    if n == 0 then 1 else Level(s, n - 1) + Delta(s[n - 1])
  }

  /** `c` is the closer of the opener that precedes `s`: the first place where the depth is zero. */
  ghost predicate Matches(s: seq<Piece>, c: nat) {
    c < |s| && Level(s, c + 1) == 0 && forall j: nat :: j <= c ==> Level(s, j) > 0
  }

  /** `a` is an `else` that belongs to the opener itself. */
  ghost predicate OwnElse(s: seq<Piece>, a: nat) {
    a < |s| && IsElse(s[a]) && Level(s, a) == 1
  }

  datatype Block = NoBlock | Block(closing: nat, alternate: Option<nat>)

  /** What the depth scan must find behind an opener. */
  ghost predicate IsBlock(s: seq<Piece>, b: Block) {
    match b
    case NoBlock => forall c: nat :: !Matches(s, c)
    case Block(c, None) => Matches(s, c) && forall a: nat :: a < c ==> !OwnElse(s, a)
    case Block(c, Some(a)) =>
      && Matches(s, c) && a < c && OwnElse(s, a)
      && forall later: nat :: a < later < c ==> !OwnElse(s, later)
  }

  /** The depth scan: `s` is what is left to scan, `i` its position, the rest what was seen so far. */
  function Scan(s: seq<Piece>, i: nat, depth: int, alternate: Option<nat>): Block {
    if s == [] then NoBlock
    else if IsCloser(s[0]) && depth == 1 then Block(i, alternate)
    else Scan(s[1..], i + 1, depth + Delta(s[0]), if IsElse(s[0]) && depth == 1 then Some(i) else alternate)
  }

  ghost predicate ScanState(s: seq<Piece>, i: nat, depth: int, alternate: Option<nat>) {
    && i <= |s| && depth == Level(s, i)
    && (forall j: nat :: j <= i ==> Level(s, j) > 0)
    && (match alternate
        case None => forall a: nat :: a < i ==> !OwnElse(s, a)
        case Some(a) => a < i && OwnElse(s, a) && forall later: nat :: a < later < i ==> !OwnElse(s, later))
  }

  /** The scan finds exactly the matching closer and the last `else` of the opener itself. */
  lemma {:induction false} ScanFindsBlock(s: seq<Piece>, i: nat, depth: int, alternate: Option<nat>)
    requires ScanState(s, i, depth, alternate)
    ensures IsBlock(s, Scan(s[i..], i, depth, alternate))
    decreases |s| - i
  {
    if i < |s| {
      assert Level(s, i + 1) == Level(s, i) + Delta(s[i]);
      if !(IsCloser(s[i]) && depth == 1) {
        assert s[i..][1..] == s[i + 1..];
        ScanFindsBlock(s, i + 1, depth + Delta(s[i]), if IsElse(s[i]) && depth == 1 then Some(i) else alternate);
      }
    } else {
      forall c: nat ensures !Matches(s, c) {
        if c < |s| {
          assert c + 1 <= i;
        }
      }
    }
  }

  /** There is at most one block behind an opener, so `IsBlock` determines the scan's answer. */
  lemma {:induction false} BlockUnique(s: seq<Piece>, b: Block, b': Block)
    requires IsBlock(s, b) && IsBlock(s, b')
    ensures b == b'
  {
    if b.Block? && b'.Block? {
      assert !(b.closing + 1 <= b'.closing) && !(b'.closing + 1 <= b.closing);
    }
  }

  /** The block behind the opener `s[0]`. */
  function BlockAt(s: seq<Piece>): (b: Block)
    requires s != []
    ensures b.Block? ==> b.closing + 1 < |s| && (b.alternate.Some? ==> b.alternate.value < b.closing)
  {
    ScanAtOpener(s[1..]);
    Scan(s[1..], 0, 1, None)
  }

  lemma {:induction false} ScanAtOpener(s: seq<Piece>)
    ensures IsBlock(s, Scan(s, 0, 1, None))
  {
    ScanFindsBlock(s, 0, 1, None);
    assert s[0..] == s;
  }

  /** The matching loop of the renderer, over the positions of the source itself. */
  method FindBlock(src: seq<Piece>, from: nat, end: nat) returns (b: Block)
    requires from <= end <= |src|
    ensures IsBlock(src[from..end], b)
    ensures b == Scan(src[from..end], 0, 1, None)
  {
    var depth: int, alternate: Option<nat>, closing: Option<nat> := 1, None, None;
    var i := from;
    ghost var s := src[from..end];
    assert s[0..] == s;
    ScanAtOpener(s);
    while i < end && closing == None
      invariant from <= i <= end
      invariant closing == None ==> Scan(s, 0, 1, None) == Scan(s[i - from..], i - from, depth, alternate)
      invariant closing.Some? ==> Scan(s, 0, 1, None) == Block(closing.value, alternate)
    {
      var candidate := src[i];
      assert candidate == s[i - from..][0] && s[i - from..][1..] == s[i + 1 - from..];
      if candidate.Open? {
        depth := depth + 1;
      } else if IsCloser(candidate) {
        depth := depth - 1;
        if depth == 0 {
          closing := Some(i - from);
        }
      } else if IsElse(candidate) && depth == 1 {
        alternate := Some(i - from);
      }
      i := i + 1;
    }
    b := if closing.Some? then Block(closing.value, alternate) else NoBlock;
  }

  // ---------------------------------------------------------------- rendering a range

  /** What the renderer makes of a range of pieces: its head, then whatever follows the head. */
  function RenderSeq(s: seq<Piece>, ctx: Env, values: Env): Outcome
    decreases |s|, 2, 0
  {
    if s == [] then Rendered("") else Then(Head(s, ctx, values), RenderSeq(s[HeadLength(s)..], ctx, values))
  }

  /** A text run or a plain tag is one piece long; a block reaches past its closer. */
  function HeadLength(s: seq<Piece>): (n: nat)
    requires s != []
    ensures 1 <= n <= |s|
  {
    if !s[0].Open? then 1
    else match BlockAt(s)
      case NoBlock => |s|
      case Block(c, _) => c + 2
  }

  function Head(s: seq<Piece>, ctx: Env, values: Env): Outcome
    requires s != []
    decreases |s|, 1, 0
  {
    match s[0]
    case Text(t) => Rendered(t)
    case Tag(e) => ShowTag(e, ctx, values)
    case Open(_, _, _) =>
      match BlockAt(s)
      case NoBlock => Unclosed
      case Block(c, split) => Choose(s[0], Body(s, c, split), Alternate(s, c, split), ctx, values)
  }

  /** An `each` never reaches its alternate; an `if` renders one of its two branches. */
  function Choose(opener: Piece, body: seq<Piece>, alternate: seq<Piece>, ctx: Env, values: Env): Outcome
    requires opener.Open?
    decreases |body| + |alternate|, 4, 0
  {
    var value := Lookup(ctx, values, opener.key);
    if opener.kind.EachBlock? then RenderItems(body, Visited(value), opener.alias, ctx, values)
    else if value.Some? && value.value.Truthy() then RenderSeq(body, ctx, values)
    else RenderSeq(alternate, ctx, values)
  }

  /** What lies between the opener `s[0]` and its `else`, or its closer if it has no `else`. */
  function Body(s: seq<Piece>, closing: nat, split: Option<nat>): seq<Piece>
    requires closing + 1 < |s| && (split.Some? ==> split.value < closing)
  {
    s[1..1 + (if split.Some? then split.value else closing)]
  }

  /** What lies between the `else` and the closer. */
  function Alternate(s: seq<Piece>, closing: nat, split: Option<nat>): seq<Piece>
    requires closing + 1 < |s| && (split.Some? ==> split.value < closing)
  {
    if split.Some? then s[2 + split.value..1 + closing] else []
  }

  /** A missing key is an empty loop, not an error. */
  function Visited(value: Option<Value>): seq<Value> {
    if value.Some? then value.value.Elements() else []
  }

  function ShowTag(e: string, ctx: Env, values: Env): Outcome {
    match Lookup(ctx, values, e)
    case None => Unsupported(e)
    case Some(v) => Rendered(v.Show())
  }

  function RenderItems(body: seq<Piece>, items: seq<Value>, alias: string, ctx: Env, values: Env): Outcome
    decreases |body|, 3, |items|
  {
    if items == [] then Rendered("")
    else Then(RenderSeq(body, ItemContext(ctx, items[0], alias), values),
              RenderItems(body, items[1..], alias, ctx, values))
  }

  /** The interpreter: one cursor over the source, recursing on sub-ranges of it. */
  method Render(src: seq<Piece>, start: nat, end: nat, ctx: Env, values: Env) returns (r: Outcome)
    requires start <= end <= |src|
    ensures r == RenderSeq(src[start..end], ctx, values)
    decreases end - start, 1
  {
    var output: string := "";
    var pos := start;
    ThenUnit(RenderSeq(src[start..end], ctx, values));
    while pos < end
      invariant start <= pos <= end
      invariant Then(Rendered(output), RenderSeq(src[pos..end], ctx, values)) == RenderSeq(src[start..end], ctx, values)
    {
      var inner, next := RenderHead(src, pos, end, ctx, values);
      assert src[next..end] == src[pos..end][next - pos..];
      ThenAssociative(Rendered(output), inner, RenderSeq(src[next..end], ctx, values));
      if !inner.Rendered? {
        return inner;
      }
      output := output + inner.text;
      pos := next;
    }
    ThenUnit(Rendered(output));
    r := Rendered(output);
  }

  /** One turn of the interpreter's loop: what it appends and where the cursor goes. */
  method RenderHead(src: seq<Piece>, pos: nat, end: nat, ctx: Env, values: Env)
    returns (inner: Outcome, next: nat)
    requires pos < end <= |src|
    ensures inner == Head(src[pos..end], ctx, values)
    ensures next == pos + HeadLength(src[pos..end]) <= end
    decreases end - pos, 0
  {
    match src[pos] {
      case Text(t) =>
        inner, next := Rendered(t), pos + 1;
      case Tag(e) =>
        inner, next := ShowTag(e, ctx, values), pos + 1;
      case Open(_, _, _) =>
        SliceOfSlice(src, pos, end, 1, end - pos);
        var b := FindBlock(src, pos + 1, end);
        if b.NoBlock? {
          inner, next := Unclosed, end;
        } else {
          var closing := pos + 1 + b.closing;
          var bodyEnd := if b.alternate.Some? then pos + 1 + b.alternate.value else closing;
          var otherStart := if b.alternate.Some? then bodyEnd + 1 else closing;
          inner := RenderBlock(src, pos, bodyEnd, otherStart, closing, ctx, values);
          next := closing + 1;
          HeadOfRange(src, pos, end, bodyEnd, otherStart, closing, ctx, values);
        }
    }
  }

  lemma {:induction false} HeadOfRange(src: seq<Piece>, pos: nat, end: nat, bodyEnd: nat, otherStart: nat, closing: nat,
                    ctx: Env, values: Env)
    requires pos < bodyEnd <= otherStart <= closing < end <= |src| && src[pos].Open?
    requires BlockAt(src[pos..end])
             == Block(closing - pos - 1, if bodyEnd < closing then Some(bodyEnd - pos - 1) else None)
    requires otherStart == if bodyEnd < closing then bodyEnd + 1 else closing
    ensures Head(src[pos..end], ctx, values)
         == Choose(src[pos], src[pos + 1..bodyEnd], src[otherStart..closing], ctx, values)
  {
    SliceOfSlice(src, pos, end, 1, bodyEnd - pos);
    SliceOfSlice(src, pos, end, otherStart - pos, closing - pos);
  }

  method RenderBlock(src: seq<Piece>, pos: nat, bodyEnd: nat, otherStart: nat, closing: nat, ctx: Env, values: Env)
    returns (inner: Outcome)
    requires pos < bodyEnd <= otherStart <= closing <= |src| && src[pos].Open?
    ensures inner == Choose(src[pos], src[pos + 1..bodyEnd], src[otherStart..closing], ctx, values)
    decreases closing - pos - 1, 3
  {
    var value := Lookup(ctx, values, src[pos].key);
    if src[pos].kind.EachBlock? {
      inner := RenderEach(src, pos + 1, bodyEnd, Visited(value), src[pos].alias, ctx, values);
    } else if value.Some? && value.value.Truthy() {
      inner := Render(src, pos + 1, bodyEnd, ctx, values);
    } else {
      inner := Render(src, otherStart, closing, ctx, values);
    }
  }

  /** The loop over an `each` value; every item gets its own context. */
  method RenderEach(src: seq<Piece>, start: nat, end: nat, items: seq<Value>, alias: string, ctx: Env, values: Env)
    returns (r: Outcome)
    requires start <= end <= |src|
    ensures r == RenderItems(src[start..end], items, alias, ctx, values)
    decreases end - start, 2
  {
    ghost var body := src[start..end];
    var output: string := "";
    var k: nat := 0;
    ThenUnit(RenderItems(body, items, alias, ctx, values));
    assert items[0..] == items;
    while k < |items|
      invariant k <= |items|
      invariant Then(Rendered(output), RenderItems(body, items[k..], alias, ctx, values))
             == RenderItems(body, items, alias, ctx, values)
    {
      ghost var before := output;
      var inner := Render(src, start, end, ItemContext(ctx, items[k], alias), values);
      assert items[k..][1..] == items[k + 1..];
      ThenAssociative(Rendered(before), inner, RenderItems(body, items[k + 1..], alias, ctx, values));
      if !inner.Rendered? {
        return inner;
      }
      output := output + inner.text;
      k := k + 1;
    }
    ThenUnit(Rendered(output));
    r := Rendered(output);
  }

  // ---------------------------------------------------------------- template trees

  /** A block's closer may carry any name: every "/x" closes every opener. */
  datatype Node =
    | TextNode(t: string)
    | VarNode(name: string)
    | BlockNode(kind: Kind, key: string, alias: string,
                body: seq<Node>, hasElse: bool, alternate: seq<Node>, closer: string)

  predicate WellFormed(n: Node) {
    match n
    case TextNode(_) => true
    case VarNode(name) => name != "else" && (name == "" || name[0] != '/')
    case BlockNode(_, _, _, body, hasElse, alternate, _) =>
      && (forall m <- body :: WellFormed(m))
      && (forall m <- alternate :: WellFormed(m))
      && (!hasElse ==> alternate == [])
  }

  predicate AllWellFormed(f: seq<Node>) { forall n <- f :: WellFormed(n) }

  function Print(n: Node): seq<Piece>
    decreases n, 1
  {
    match n
    case TextNode(t) => [Text(t)]
    case VarNode(name) => [Tag(name)]
    case BlockNode(kind, key, alias, _, _, _, _) => [Open(kind, key, alias)] + PrintInside(n)
  }

  /** Everything behind the opener, up to and including the closer. */
  function PrintInside(n: Node): seq<Piece>
    requires n.BlockNode?
    decreases n, 0
  {
    var end := [Tag("/" + n.closer)];
    PrintAll(n.body) + (if n.hasElse then [Tag("else")] + (PrintAll(n.alternate) + end) else end)
  }

  function PrintAll(f: seq<Node>): seq<Piece>
    decreases f, |f|
  {
    if f == [] then [] else Print(f[0]) + PrintAll(f[1..])
  }

  /** Direct evaluation of a tree: no tokens, no positions, no depth. */
  function Eval(n: Node, ctx: Env, values: Env): Outcome
    decreases n, 0, 0
  {
    match n
    case TextNode(t) => Rendered(t)
    case VarNode(name) => ShowTag(name, ctx, values)
    case BlockNode(kind, key, alias, body, _, alternate, _) =>
      var value := Lookup(ctx, values, key);
      if kind.EachBlock? then EvalItems(body, Visited(value), alias, ctx, values)
      else if value.Some? && value.value.Truthy() then EvalAll(body, ctx, values)
      else EvalAll(alternate, ctx, values)
  }

  function EvalAll(f: seq<Node>, ctx: Env, values: Env): Outcome
    decreases f, 0, |f|
  {
    if f == [] then Rendered("") else Then(Eval(f[0], ctx, values), EvalAll(f[1..], ctx, values))
  }

  function EvalItems(body: seq<Node>, items: seq<Value>, alias: string, ctx: Env, values: Env): Outcome
    decreases body, 1, |items|
  {
    if items == [] then Rendered("")
    else Then(EvalAll(body, ItemContext(ctx, items[0], alias), values), EvalItems(body, items[1..], alias, ctx, values))
  }

  // ---------------------------------------------------------------- rendering equals evaluation

  lemma {:induction false} ScanCons(p: Piece, s: seq<Piece>, i: nat, depth: int, alternate: Option<nat>)
    ensures Scan([p] + s, i, depth, alternate)
         == if IsCloser(p) && depth == 1 then Block(i, alternate)
            else Scan(s, i + 1, depth + Delta(p), if IsElse(p) && depth == 1 then Some(i) else alternate)
  {
    assert ([p] + s)[1..] == s;
  }

  /** The depth scan steps over a whole printed forest: nothing inside belongs to the block outside. */
  lemma {:induction false} ScanSkipsAll(f: seq<Node>, rest: seq<Piece>, i: nat, depth: int, alternate: Option<nat>)
    requires AllWellFormed(f) && depth >= 1
    ensures Scan(PrintAll(f) + rest, i, depth, alternate) == Scan(rest, i + |PrintAll(f)|, depth, alternate)
    decreases f, |f|
  {
    if f == [] {
      assert PrintAll(f) + rest == rest;
    } else {
      var first, tail := Print(f[0]), PrintAll(f[1..]);
      assert PrintAll(f) + rest == first + (tail + rest);
      ScanSkips(f[0], tail + rest, i, depth, alternate);
      ScanSkipsAll(f[1..], rest, i + |first|, depth, alternate);
    }
  }

  lemma {:induction false} ScanSkips(n: Node, rest: seq<Piece>, i: nat, depth: int, alternate: Option<nat>)
    requires WellFormed(n) && depth >= 1
    ensures Scan(Print(n) + rest, i, depth, alternate) == Scan(rest, i + |Print(n)|, depth, alternate)
    decreases n, 1
  {
    if n.BlockNode? {
      var inside := PrintInside(n);
      assert Print(n) + rest == [Print(n)[0]] + (inside + rest);
      ScanCons(Print(n)[0], inside + rest, i, depth, alternate);
      ScanInside(n, rest, i + 1, depth + 1, alternate);
      ScanCons(Tag("/" + n.closer), rest, i + |inside|, depth + 1, alternate);
    } else {
      ScanCons(Print(n)[0], rest, i, depth, alternate);
    }
  }

  /** From behind an opener the scan reaches its closer, having noticed the `else` only at depth one. */
  lemma {:induction false} ScanInside(n: Node, rest: seq<Piece>, i: nat, depth: int, alternate: Option<nat>)
    requires n.BlockNode? && WellFormed(n) && depth >= 1
    ensures Scan(PrintInside(n) + rest, i, depth, alternate)
         == Scan([Tag("/" + n.closer)] + rest, i + |PrintInside(n)| - 1, depth,
                 if n.hasElse && depth == 1 then Some(i + |PrintAll(n.body)|) else alternate)
    decreases n, 0
  {
    var end := [Tag("/" + n.closer)] + rest;
    if n.hasElse {
      var after := PrintAll(n.alternate) + end;
      assert PrintInside(n) + rest == PrintAll(n.body) + ([Tag("else")] + after);
      ScanSkipsAll(n.body, [Tag("else")] + after, i, depth, alternate);
      var at := i + |PrintAll(n.body)|;
      ScanCons(Tag("else"), after, at, depth, alternate);
      ScanSkipsAll(n.alternate, end, at + 1, depth, if depth == 1 then Some(at) else alternate);
    } else {
      assert PrintInside(n) + rest == PrintAll(n.body) + end;
      ScanSkipsAll(n.body, end, i, depth, alternate);
    }
  }

  /** Where the `else` of a printed block sits. */
  function PrintedElse(n: Node): Option<nat>
    requires n.BlockNode?
  {
    if n.hasElse then Some(|PrintAll(n.body)|) else None
  }

  lemma {:induction false} BlockOfPrint(n: Node, rest: seq<Piece>)
    requires n.BlockNode? && WellFormed(n)
    ensures BlockAt(Print(n) + rest) == Block(|PrintInside(n)| - 1, PrintedElse(n))
    ensures HeadLength(Print(n) + rest) == |Print(n)|
  {
    var inside := PrintInside(n);
    assert (Print(n) + rest)[1..] == inside + rest;
    ScanInside(n, rest, 0, 1, None);
    ScanCons(Tag("/" + n.closer), rest, |inside| - 1, 1, PrintedElse(n));
  }

  lemma {:induction false} BranchesAroundElse(body: seq<Piece>, alternate: seq<Piece>, end: seq<Piece>, s: seq<Piece>)
    requires s != [] && s == [s[0]] + (body + ([Tag("else")] + (alternate + end))) && end != []
    ensures Body(s, |body| + 1 + |alternate|, Some(|body|)) == body
    ensures Alternate(s, |body| + 1 + |alternate|, Some(|body|)) == alternate
  {
    var front := [s[0]] + body + [Tag("else")];
    assert s == front + (alternate + end);
    Middle([s[0]], body, [Tag("else")] + (alternate + end));
    Middle(front, alternate, end);
  }

  lemma {:induction false} BranchesOfPrint(n: Node, rest: seq<Piece>)
    requires n.BlockNode? && WellFormed(n)
    ensures Body(Print(n) + rest, |PrintInside(n)| - 1, PrintedElse(n)) == PrintAll(n.body)
    ensures Alternate(Print(n) + rest, |PrintInside(n)| - 1, PrintedElse(n)) == PrintAll(n.alternate)
  {
    var opener, close := Print(n)[0], Tag("/" + n.closer);
    assert Print(n) + rest == [opener] + (PrintInside(n) + rest);
    if n.hasElse {
      BranchesWithElse(opener, PrintAll(n.body), PrintAll(n.alternate), close, rest);
    } else {
      BranchesWithoutElse(opener, PrintAll(n.body), close, rest);
    }
  }

  lemma {:induction false} BranchesWithElse(opener: Piece, body: seq<Piece>, alternate: seq<Piece>, close: Piece,
                                            rest: seq<Piece>)
    ensures var s := [opener] + ((body + ([Tag("else")] + (alternate + [close]))) + rest);
            && Body(s, |body| + 1 + |alternate|, Some(|body|)) == body
            && Alternate(s, |body| + 1 + |alternate|, Some(|body|)) == alternate
  {
    var inside := body + ([Tag("else")] + (alternate + [close]));
    assert inside + rest == body + ([Tag("else")] + (alternate + ([close] + rest)));
    BranchesAroundElse(body, alternate, [close] + rest, [opener] + (inside + rest));
  }

  lemma {:induction false} BranchesWithoutElse(opener: Piece, body: seq<Piece>, close: Piece, rest: seq<Piece>)
    ensures Body([opener] + ((body + [close]) + rest), |body|, None) == body
  {
    assert (body + [close]) + rest == body + ([close] + rest);
    Middle([opener], body, [close] + rest);
  }

  /** The head of a printed node is that node, whatever follows it. */
  lemma {:induction false} HeadIsEval(n: Node, rest: seq<Piece>, ctx: Env, values: Env)
    requires WellFormed(n)
    ensures Head(Print(n) + rest, ctx, values) == Eval(n, ctx, values)
    ensures HeadLength(Print(n) + rest) == |Print(n)|
    decreases n, 0, 0
  {
    if n.BlockNode? {
      BlockOfPrint(n, rest);
      BranchesOfPrint(n, rest);
      var value := Lookup(ctx, values, n.key);
      if n.kind.EachBlock? {
        ItemsAreEval(n.body, Visited(value), n.alias, ctx, values);
      } else if value.Some? && value.value.Truthy() {
        RangeIsEval(n.body, ctx, values);
      } else {
        RangeIsEval(n.alternate, ctx, values);
      }
    }
  }

  /** Main result: rendering a printed template is evaluating its tree. */
  lemma {:induction false} RangeIsEval(f: seq<Node>, ctx: Env, values: Env)
    requires AllWellFormed(f)
    ensures RenderSeq(PrintAll(f), ctx, values) == EvalAll(f, ctx, values)
    decreases f, 0, |f|
  {
    if f != [] {
      var first, rest := Print(f[0]), PrintAll(f[1..]);
      HeadIsEval(f[0], rest, ctx, values);
      RangeIsEval(f[1..], ctx, values);
      assert (first + rest)[|first|..] == rest;
    }
  }

  lemma {:induction false} ItemsAreEval(body: seq<Node>, items: seq<Value>, alias: string, ctx: Env, values: Env)
    requires AllWellFormed(body)
    ensures RenderItems(PrintAll(body), items, alias, ctx, values) == EvalItems(body, items, alias, ctx, values)
    decreases body, 1, |items|
  {
    if items != [] {
      RangeIsEval(body, ItemContext(ctx, items[0], alias), values);
      ItemsAreEval(body, items[1..], alias, ctx, values);
    }
  }

  /** A printed forest renders independently of what follows it. */
  lemma {:induction false} RenderForest(f: seq<Node>, rest: seq<Piece>, ctx: Env, values: Env)
    requires AllWellFormed(f)
    ensures RenderSeq(PrintAll(f) + rest, ctx, values) == Then(EvalAll(f, ctx, values), RenderSeq(rest, ctx, values))
    decreases |f|
  {
    if f == [] {
      assert PrintAll(f) + rest == rest;
      ThenUnit(RenderSeq(rest, ctx, values));
    } else {
      var first, tail := Print(f[0]), PrintAll(f[1..]) + rest;
      assert PrintAll(f) + rest == first + tail;
      assert (first + tail)[|first|..] == tail;
      HeadIsEval(f[0], tail, ctx, values);
      RenderForest(f[1..], rest, ctx, values);
      ThenAssociative(Eval(f[0], ctx, values), EvalAll(f[1..], ctx, values), RenderSeq(rest, ctx, values));
    }
  }

  // ---------------------------------------------------------------- failing closed

  /** A block that is never closed fails, unless something in front of it failed first. */
  lemma {:induction false} UnclosedFails(f: seq<Node>, s: seq<Piece>, ctx: Env, values: Env)
    requires AllWellFormed(f) && s != [] && s[0].Open? && forall c: nat :: !Matches(s[1..], c)
    ensures RenderSeq(PrintAll(f) + s, ctx, values) == Then(EvalAll(f, ctx, values), Unclosed)
  {
    RenderForest(f, s, ctx, values);
    ScanAtOpener(s[1..]);
  }

  lemma {:induction false} UnknownTagBehind(f: seq<Node>, e: string, rest: seq<Piece>, ctx: Env, values: Env)
    requires AllWellFormed(f) && e !in ctx && e !in values
    ensures RenderSeq(PrintAll(f) + [Tag(e)] + rest, ctx, values) == Then(EvalAll(f, ctx, values), Unsupported(e))
  {
    assert PrintAll(f) + [Tag(e)] + rest == PrintAll(f) + ([Tag(e)] + rest);
    RenderForest(f, [Tag(e)] + rest, ctx, values);
  }

  /** The cursor comes by position `i`, unless it fails before. */
  ghost predicate Reached(s: seq<Piece>, i: nat)
    decreases |s|
  {
    i == 0 || (s != [] && HeadLength(s) <= i && Reached(s[HeadLength(s)..], i - HeadLength(s)))
  }

  /** What is rendered in front of position `i`. */
  ghost function RenderUpTo(s: seq<Piece>, i: nat, ctx: Env, values: Env): Outcome
    requires Reached(s, i)
    decreases |s|
  {
    if i == 0 then Rendered("")
    else Then(Head(s, ctx, values), RenderUpTo(s[HeadLength(s)..], i - HeadLength(s), ctx, values))
  }

  lemma {:induction false} TailOfTail(s: seq<Piece>, n: nat, i: nat)
    requires n <= i <= |s|
    ensures s[n..][i - n..] == s[i..] && s[0..] == s
  {
  }

  /** Rendering can be cut at every position the cursor comes by. */
  lemma {:induction false} RenderCut(s: seq<Piece>, i: nat, ctx: Env, values: Env)
    requires Reached(s, i)
    ensures i <= |s| && RenderSeq(s, ctx, values) == Then(RenderUpTo(s, i, ctx, values), RenderSeq(s[i..], ctx, values))
    decreases |s|
  {
    if i == 0 {
      TailOfTail(s, 0, 0);
      ThenUnit(RenderSeq(s, ctx, values));
    } else {
      var n := HeadLength(s);
      var tail := s[n..];
      RenderCut(tail, i - n, ctx, values);
      TailOfTail(s, n, i);
      ThenAssociative(Head(s, ctx, values), RenderUpTo(tail, i - n, ctx, values), RenderSeq(s[i..], ctx, values));
    }
  }

  /** A tag that is in neither environment fails: this covers a stray closer and a stray `else`. */
  lemma {:induction false} UnknownTagFails(s: seq<Piece>, i: nat, e: string, ctx: Env, values: Env)
    requires Reached(s, i) && i < |s| && s[i] == Tag(e) && e !in ctx && e !in values
    ensures RenderSeq(s, ctx, values) == Then(RenderUpTo(s, i, ctx, values), Unsupported(e))
  {
    RenderCut(s, i, ctx, values);
    assert s[i..][0] == Tag(e);
  }

  /** A token is reported as unsupported only if it is in the stream and known to neither environment. */
  lemma {:induction false} UnsupportedIsUnknown(s: seq<Piece>, e: string, ctx: Env, values: Env)
    requires RenderSeq(s, ctx, values) == Unsupported(e)
    ensures Tag(e) in s && e !in ctx && e !in values
    decreases |s|, 1, 0
  {
    if Head(s, ctx, values) == Unsupported(e) {
      UnsupportedHead(s, e, ctx, values);
    } else {
      UnsupportedIsUnknown(s[HeadLength(s)..], e, ctx, values);
    }
  }

  lemma {:induction false} UnsupportedHead(s: seq<Piece>, e: string, ctx: Env, values: Env)
    requires s != [] && Head(s, ctx, values) == Unsupported(e)
    ensures Tag(e) in s && e !in ctx && e !in values
    decreases |s|, 0, 0
  {
    if s[0].Open? {
      var b := BlockAt(s);
      var body, alternate := Body(s, b.closing, b.alternate), Alternate(s, b.closing, b.alternate);
      var value := Lookup(ctx, values, s[0].key);
      if s[0].kind.EachBlock? {
        UnsupportedItems(body, Visited(value), s[0].alias, e, ctx, values);
        assert Tag(e) in body;
      } else if value.Some? && value.value.Truthy() {
        UnsupportedIsUnknown(body, e, ctx, values);
      } else {
        UnsupportedIsUnknown(alternate, e, ctx, values);
      }
    } else {
      assert s[0] == Tag(e);
    }
  }

  lemma {:induction false} UnsupportedItems(body: seq<Piece>, items: seq<Value>, alias: string, e: string, ctx: Env,
                                            values: Env)
    requires RenderItems(body, items, alias, ctx, values) == Unsupported(e)
    ensures Tag(e) in body && e !in ctx && e !in values
    decreases |body|, 2, |items|
  {
    var inner := ItemContext(ctx, items[0], alias);
    if RenderSeq(body, inner, values) == Unsupported(e) {
      UnsupportedIsUnknown(body, e, inner, values);
    } else {
      UnsupportedItems(body, items[1..], alias, e, ctx, values);
    }
  }

  /** Every variable that evaluation comes by is known where it does. */
  predicate Known(n: Node, ctx: Env, values: Env)
    decreases n, 0
  {
    match n
    case TextNode(_) => true
    case VarNode(name) => name in ctx || name in values
    case BlockNode(kind, key, alias, body, _, alternate, _) =>
      var value := Lookup(ctx, values, key);
      if kind.EachBlock? then
        forall k :: 0 <= k < |Visited(value)| ==> AllKnown(body, ItemContext(ctx, Visited(value)[k], alias), values)
      else if value.Some? && value.value.Truthy() then AllKnown(body, ctx, values)
      else AllKnown(alternate, ctx, values)
  }

  predicate AllKnown(f: seq<Node>, ctx: Env, values: Env)
    decreases f, 1
  {
    forall k :: 0 <= k < |f| ==> Known(f[k], ctx, values)
  }

  lemma {:induction false} AllKnownExactly(f: seq<Node>, ctx: Env, values: Env)
    ensures EvalAll(f, ctx, values).Rendered? <==> AllKnown(f, ctx, values)
    decreases f, 0, |f|
  {
    if f != [] {
      KnownExactly(f[0], ctx, values);
      AllKnownExactly(f[1..], ctx, values);
      EvalNeverUnclosed(f[1..], ctx, values);
    }
  }

  lemma {:induction false} KnownExactly(n: Node, ctx: Env, values: Env)
    ensures Eval(n, ctx, values).Rendered? <==> Known(n, ctx, values)
    decreases n, 0, 0
  {
    if n.BlockNode? {
      var value := Lookup(ctx, values, n.key);
      if n.kind.EachBlock? {
        ItemsKnownExactly(n.body, Visited(value), n.alias, ctx, values);
      } else if value.Some? && value.value.Truthy() {
        AllKnownExactly(n.body, ctx, values);
      } else {
        AllKnownExactly(n.alternate, ctx, values);
      }
    }
  }

  lemma {:induction false} ItemsKnownExactly(body: seq<Node>, items: seq<Value>, alias: string, ctx: Env, values: Env)
    ensures EvalItems(body, items, alias, ctx, values).Rendered?
            <==> forall k :: 0 <= k < |items| ==> AllKnown(body, ItemContext(ctx, items[k], alias), values)
    decreases body, 1, |items|
  {
    if items != [] {
      AllKnownExactly(body, ItemContext(ctx, items[0], alias), values);
      ItemsKnownExactly(body, items[1..], alias, ctx, values);
    }
  }

  /** Each kind of evaluation failure needs a reason in the tree: evaluation never reports an unclosed block. */
  lemma {:induction false} EvalNeverUnclosed(f: seq<Node>, ctx: Env, values: Env)
    ensures EvalAll(f, ctx, values) != Unclosed
    decreases f, 0, |f|
  {
    if f != [] {
      EvalNodeNeverUnclosed(f[0], ctx, values);
      EvalNeverUnclosed(f[1..], ctx, values);
    }
  }

  lemma {:induction false} EvalNodeNeverUnclosed(n: Node, ctx: Env, values: Env)
    ensures Eval(n, ctx, values) != Unclosed
    decreases n, 0, 0
  {
    if n.BlockNode? {
      EvalItemsNeverUnclosed(n.body, Visited(Lookup(ctx, values, n.key)), n.alias, ctx, values);
      EvalNeverUnclosed(n.body, ctx, values);
      EvalNeverUnclosed(n.alternate, ctx, values);
    }
  }

  lemma {:induction false} EvalItemsNeverUnclosed(body: seq<Node>, items: seq<Value>, alias: string, ctx: Env,
                                                  values: Env)
    ensures EvalItems(body, items, alias, ctx, values) != Unclosed
    decreases body, 1, |items|
  {
    if items != [] {
      EvalNeverUnclosed(body, ItemContext(ctx, items[0], alias), values);
      EvalItemsNeverUnclosed(body, items[1..], alias, ctx, values);
    }
  }

  // ---------------------------------------------------------------- openers without a closer

  ghost predicate Closes(s: seq<Piece>) { exists c: nat :: Matches(s, c) }

  /** The opener at position `i` has no closer in the stream. */
  ghost predicate Unmatched(s: seq<Piece>, i: nat) { i < |s| && s[i].Open? && !Closes(s[i + 1..]) }

  ghost predicate AllMatched(s: seq<Piece>) { forall i: nat :: !Unmatched(s, i) }

  /** A match is the first place where the depth is not positive. */
  lemma {:induction false} FirstZero(s: seq<Piece>, n: nat)
    requires n <= |s| && Level(s, n) <= 0
    ensures Closes(s)
    decreases n
  {
    if j: nat :| j < n && Level(s, j) <= 0 {
      FirstZero(s, j);
    } else {
      assert Matches(s, n - 1);
    }
  }

  lemma {:induction false} LevelBehind(s: seq<Piece>, j: nat, n: nat)
    requires j < |s| && s[j].Open? && j + 1 + n <= |s|
    ensures Level(s[j + 1..], n) == Level(s, j + 1 + n) - Level(s, j)
    decreases n
  {
    if n == 0 {
      assert Level(s, j + 1) == Level(s, j) + Delta(s[j]);
    } else {
      LevelBehind(s, j, n - 1);
      assert s[j + 1..][n - 1] == s[j + n];
    }
  }

  lemma {:induction false} LevelOfPrefix(s: seq<Piece>, m: nat, n: nat)
    requires n <= m <= |s|
    ensures Level(s[..m], n) == Level(s, n)
    decreases n
  {
    if n > 0 {
      LevelOfPrefix(s, m, n - 1);
    }
  }

  /** An opener is matched before the depth comes back to what it was in front of it. */
  lemma {:induction false} MatchedWithin(s: seq<Piece>, j: nat, n: nat)
    requires j < n <= |s| && s[j].Open? && Level(s, n) <= Level(s, j)
    ensures Closes(s[j + 1..])
  {
    LevelBehind(s, j, n - j - 1);
    FirstZero(s[j + 1..], n - j - 1);
  }

  /** Between an opener and its closer, behind an own `else` or not, every opener is matched. */
  lemma {:induction false} InsideMatched(s: seq<Piece>, from: nat, m: nat, c: nat)
    requires Matches(s, c) && from <= m <= c && Level(s, m) == 1
    ensures AllMatched(s[from..m])
  {
    var part := s[from..m];
    forall i: nat ensures !Unmatched(part, i) {
      if i < |part| && part[i].Open? {
        LevelOfPrefix(s, m, m);
        LevelOfPrefix(s, m, from + i);
        assert Level(s, from + i) > 0;
        MatchedWithin(s[..m], from + i, m);
        assert s[..m][from + i + 1..] == part[i + 1..];
      }
    }
  }

  lemma {:induction false} BranchesMatched(s: seq<Piece>)
    requires s != [] && BlockAt(s).Block?
    ensures var b := BlockAt(s);
            AllMatched(Body(s, b.closing, b.alternate)) && AllMatched(Alternate(s, b.closing, b.alternate))
  {
    var t, c, split := s[1..], BlockAt(s).closing, BlockAt(s).alternate;
    ScanAtOpener(t);
    assert Level(t, c + 1) == Level(t, c) + Delta(t[c]);
    assert t == s[1..|s|];
    if split.Some? {
      var a := split.value;
      InsideMatched(t, 0, a, c);
      InsideMatched(t, a + 1, c, c);
      SliceOfSlice(s, 1, |s|, 0, a);
      SliceOfSlice(s, 1, |s|, a + 1, c);
    } else {
      InsideMatched(t, 0, c, c);
      SliceOfSlice(s, 1, |s|, 0, c);
    }
  }

  lemma {:induction false} OpenerInsideCloses(s: seq<Piece>, i: nat)
    requires s != [] && s[0].Open? && BlockAt(s).Block? && 0 < i < HeadLength(s) && s[i].Open?
    ensures Closes(s[i + 1..])
  {
    var t, c := s[1..], BlockAt(s).closing;
    ScanAtOpener(t);
    BlockTags(s);
    assert i - 1 < c && t[i - 1] == s[i];
    MatchedWithin(t, i - 1, c + 1);
    assert t[i..] == s[i + 1..];
  }

  /** An opener without a closer is never inside a block that has one. */
  lemma {:induction false} UnmatchedIsBehind(s: seq<Piece>, i: nat)
    requires s != [] && Unmatched(s, i) && !Unmatched(s, 0)
    ensures HeadLength(s) <= i && Unmatched(s[HeadLength(s)..], i - HeadLength(s))
  {
    var n := HeadLength(s);
    if s[0].Open? {
      ScanAtOpener(s[1..]);
      if i < n {
        OpenerInsideCloses(s, i);
      }
    }
    assert n <= i;
    assert s[n..][i - n + 1..] == s[i + 1..];
  }

  lemma {:induction false} MatchedBehind(s: seq<Piece>, n: nat)
    requires n <= |s|
    ensures forall i: nat :: Unmatched(s[n..], i) ==> Unmatched(s, n + i)
  {
    forall i: nat | Unmatched(s[n..], i) ensures Unmatched(s, n + i) {
      assert s[n..][i + 1..] == s[n + i + 1..];
    }
  }

  /** The first opener without a closer fails when the cursor comes to it, whatever is around it. */
  lemma {:induction false} FirstUnmatchedFails(s: seq<Piece>, i: nat, ctx: Env, values: Env)
    requires Unmatched(s, i) && forall k: nat :: k < i ==> !Unmatched(s, k)
    ensures Reached(s, i) && RenderSeq(s, ctx, values) == Then(RenderUpTo(s, i, ctx, values), Unclosed)
    decreases |s|
  {
    if i > 0 {
      var n := HeadLength(s);
      UnmatchedIsBehind(s, i);
      MatchedBehind(s, n);
      FirstUnmatchedFails(s[n..], i - n, ctx, values);
    } else {
      ScanAtOpener(s[1..]);
    }
    RenderCut(s, i, ctx, values);
    assert Unmatched(s[i..], 0) by {
      assert s[i..][1..] == s[i + 1..];
    }
    ScanAtOpener(s[i..][1..]);
  }

  /** If every opener is closed, nothing is reported as unclosed. */
  lemma {:induction false} MatchedNeverUnclosed(s: seq<Piece>, ctx: Env, values: Env)
    requires AllMatched(s)
    ensures RenderSeq(s, ctx, values) != Unclosed
    decreases |s|, 1, 0
  {
    if s != [] {
      MatchedHead(s, ctx, values);
      MatchedBehind(s, HeadLength(s));
      MatchedNeverUnclosed(s[HeadLength(s)..], ctx, values);
    }
  }

  lemma {:induction false} MatchedHead(s: seq<Piece>, ctx: Env, values: Env)
    requires s != [] && AllMatched(s)
    ensures Head(s, ctx, values) != Unclosed
    decreases |s|, 0, 0
  {
    if s[0].Open? {
      ScanAtOpener(s[1..]);
      assert !Unmatched(s, 0);
      var b := BlockAt(s);
      BranchesMatched(s);
      var body, alternate := Body(s, b.closing, b.alternate), Alternate(s, b.closing, b.alternate);
      MatchedItems(body, Visited(Lookup(ctx, values, s[0].key)), s[0].alias, ctx, values);
      MatchedNeverUnclosed(body, ctx, values);
      MatchedNeverUnclosed(alternate, ctx, values);
    }
  }

  lemma {:induction false} MatchedItems(body: seq<Piece>, items: seq<Value>, alias: string, ctx: Env, values: Env)
    requires AllMatched(body)
    ensures RenderItems(body, items, alias, ctx, values) != Unclosed
    decreases |body|, 2, |items|
  {
    if items != [] {
      MatchedNeverUnclosed(body, ItemContext(ctx, items[0], alias), values);
      MatchedItems(body, items[1..], alias, ctx, values);
    }
  }

  /**
   Main result: a stream with an opener that has no closer always fails, wherever the opener is and whatever surrounds
   it; and "unclosed" is reported of no other stream.
   */
  lemma {:induction false} UnmatchedFails(s: seq<Piece>, ctx: Env, values: Env)
    ensures !AllMatched(s) ==> !RenderSeq(s, ctx, values).Rendered?
    ensures RenderSeq(s, ctx, values) == Unclosed ==> !AllMatched(s)
  {
    if AllMatched(s) {
      MatchedNeverUnclosed(s, ctx, values);
    } else {
      var i: nat :| Unmatched(s, i);
      var k := FirstUnmatched(s, i);
      FirstUnmatchedFails(s, k, ctx, values);
    }
  }

  lemma {:induction false} FirstUnmatched(s: seq<Piece>, i: nat) returns (k: nat)
    requires Unmatched(s, i)
    ensures Unmatched(s, k) && forall j: nat :: j < k ==> !Unmatched(s, j)
    decreases i
  {
    if j: nat :| j < i && Unmatched(s, j) {
      k := FirstUnmatched(s, j);
    } else {
      k := i;
    }
  }

  // ---------------------------------------------------------------- more than one `else`

  /**
   With two `else` tags in one `if`, the last one splits the block: the false branch is what follows the
   last `else`, and the true branch runs into the first one and fails (unless "else" is itself a variable).
   */
  lemma {:induction false} SecondElse(a: seq<Node>, b: seq<Node>, c: seq<Node>, key: string, alias: string,
                                      end: seq<Piece>, ctx: Env, values: Env)
    requires AllWellFormed(a) && AllWellFormed(b) && AllWellFormed(c) && end != [] && IsCloser(end[0])
    requires "else" !in ctx && "else" !in values
    ensures
      var t2 := PrintAll(c) + end;
      var t1 := PrintAll(b) + ([Tag("else")] + t2);
      var s := [Open(IfBlock, key, alias)] + (PrintAll(a) + ([Tag("else")] + t1));
      var value := Lookup(ctx, values, key);
      Head(s, ctx, values) == if value.Some? && value.value.Truthy()
                              then Then(EvalAll(a, ctx, values), Unsupported("else"))
                              else EvalAll(c, ctx, values)
  {
    var body := PrintAll(a) + [Tag("else")] + PrintAll(b);
    SecondElseHead(a, b, c, Open(IfBlock, key, alias), end, ctx, values);
    assert Choose(Open(IfBlock, key, alias), body, PrintAll(c), ctx, values)
        == var value := Lookup(ctx, values, key);
           if value.Some? && value.value.Truthy() then RenderSeq(body, ctx, values)
           else RenderSeq(PrintAll(c), ctx, values);
    UnknownTagBehind(a, "else", PrintAll(b), ctx, values);
    RangeIsEval(c, ctx, values);
  }

  lemma {:induction false} SecondElseHead(a: seq<Node>, b: seq<Node>, c: seq<Node>, opener: Piece, end: seq<Piece>,
                                          ctx: Env, values: Env)
    requires AllWellFormed(a) && AllWellFormed(b) && AllWellFormed(c) && end != [] && IsCloser(end[0]) && opener.Open?
    ensures
      var t2 := PrintAll(c) + end;
      var t1 := PrintAll(b) + ([Tag("else")] + t2);
      Head([opener] + (PrintAll(a) + ([Tag("else")] + t1)), ctx, values)
      == Choose(opener, PrintAll(a) + [Tag("else")] + PrintAll(b), PrintAll(c), ctx, values)
  {
    var t1 := PrintAll(b) + ([Tag("else")] + (PrintAll(c) + end));
    ScanToElse(a, t1, 0, None);
    LastElseScan(b, c, end, |PrintAll(a)| + 1, Some(|PrintAll(a)|));
    HeadAroundElse(opener, PrintAll(a), PrintAll(b), PrintAll(c), end, ctx, values);
  }

  lemma {:induction false} HeadAroundElse(opener: Piece, a: seq<Piece>, b: seq<Piece>, c: seq<Piece>, end: seq<Piece>,
                                          ctx: Env, values: Env)
    requires opener.Open? && end != []
    requires Scan(a + ([Tag("else")] + (b + ([Tag("else")] + (c + end)))), 0, 1, None)
          == Block(|a| + 1 + |b| + 1 + |c|, Some(|a| + 1 + |b|))
    ensures Head([opener] + (a + ([Tag("else")] + (b + ([Tag("else")] + (c + end))))), ctx, values)
         == Choose(opener, a + [Tag("else")] + b, c, ctx, values)
  {
    var t := a + ([Tag("else")] + (b + ([Tag("else")] + (c + end))));
    assert ([opener] + t)[1..] == t;
    assert t == (a + [Tag("else")] + b) + ([Tag("else")] + (c + end));
    BranchesAroundElse(a + [Tag("else")] + b, c, end, [opener] + t);
  }

  /** From the first `else` on: the scan forgets it at the second one. */
  lemma {:induction false} LastElseScan(b: seq<Node>, c: seq<Node>, end: seq<Piece>, i: nat, alternate: Option<nat>)
    requires AllWellFormed(b) && AllWellFormed(c) && end != [] && IsCloser(end[0])
    ensures var at := i + |PrintAll(b)|;
            Scan(PrintAll(b) + ([Tag("else")] + (PrintAll(c) + end)), i, 1, alternate)
            == Block(at + 1 + |PrintAll(c)|, Some(at))
  {
    ScanToElse(b, PrintAll(c) + end, i, alternate);
    ScanSkipsAll(c, end, i + |PrintAll(b)| + 1, 1, Some(i + |PrintAll(b)|));
  }

  lemma {:induction false} ScanToElse(f: seq<Node>, rest: seq<Piece>, i: nat, alternate: Option<nat>)
    requires AllWellFormed(f)
    ensures var at := i + |PrintAll(f)|;
            Scan(PrintAll(f) + ([Tag("else")] + rest), i, 1, alternate) == Scan(rest, at + 1, 1, Some(at))
  {
    ScanSkipsAll(f, [Tag("else")] + rest, i, 1, alternate);
    ScanCons(Tag("else"), rest, i + |PrintAll(f)|, 1, alternate);
  }

  // ---------------------------------------------------------------- which streams are printed trees

  /** The tree of a stream, when it has one. */
  function Parse(s: seq<Piece>): Option<seq<Node>>
    decreases |s|, 1
  {
    if s == [] then Some([])
    else
      var head, rest := ParseHead(s), Parse(s[HeadLength(s)..]);
      if head.None? || rest.None? then None else Some([head.value] + rest.value)
  }

  function ParseHead(s: seq<Piece>): Option<Node>
    requires s != []
    decreases |s|, 0
  {
    match s[0]
    case Text(t) => Some(TextNode(t))
    case Tag(e) => if IsCloser(s[0]) || IsElse(s[0]) then None else Some(VarNode(e))
    case Open(kind, key, alias) =>
      match BlockAt(s)
      case NoBlock => None
      case Block(c, split) =>
        var body, alternate := Parse(Body(s, c, split)), Parse(Alternate(s, c, split));
        if body.None? || alternate.None? || !IsCloser(s[1 + c]) then None
        else Some(BlockNode(kind, key, alias, body.value, split.Some?, alternate.value, s[1 + c].expr[1..]))
  }

  lemma {:induction false} ParseOfPrint(f: seq<Node>)
    requires AllWellFormed(f)
    ensures Parse(PrintAll(f)) == Some(f)
    decreases f, |f|
  {
    if f != [] {
      var first, rest := Print(f[0]), PrintAll(f[1..]);
      assert (first + rest)[|first|..] == rest;
      ParseHeadOfPrint(f[0], rest);
      ParseOfPrint(f[1..]);
      assert f == [f[0]] + f[1..];
    }
  }

  lemma {:induction false} ParseHeadOfPrint(n: Node, rest: seq<Piece>)
    requires WellFormed(n)
    ensures ParseHead(Print(n) + rest) == Some(n) && HeadLength(Print(n) + rest) == |Print(n)|
    decreases n, 0
  {
    if n.BlockNode? {
      BlockOfPrint(n, rest);
      BranchesOfPrint(n, rest);
      ParseOfPrint(n.body);
      ParseOfPrint(n.alternate);
      assert (Print(n) + rest)[|PrintInside(n)|] == Tag("/" + n.closer);
      assert ("/" + n.closer)[1..] == n.closer;
    }
  }

  /** The scan's answer points at a closer and at an `else`. */
  lemma {:induction false} BlockTags(s: seq<Piece>)
    requires s != [] && BlockAt(s).Block?
    ensures IsCloser(s[1 + BlockAt(s).closing])
    ensures BlockAt(s).alternate.Some? ==> s[1 + BlockAt(s).alternate.value] == Tag("else")
  {
    ScanAtOpener(s[1..]);
    var c := BlockAt(s).closing;
    assert Level(s[1..], c + 1) == Level(s[1..], c) + Delta(s[1..][c]);
  }

  lemma {:induction false} PrintOfParse(s: seq<Piece>)
    requires Parse(s).Some?
    ensures AllWellFormed(Parse(s).value) && PrintAll(Parse(s).value) == s
    decreases |s|, 1
  {
    if s != [] {
      var rest := s[HeadLength(s)..];
      ParseSplits(s);
      PrintOfParseHead(s);
      PrintOfParse(rest);
      PrintCons(ParseHead(s).value, Parse(rest).value);
      assert s == s[..HeadLength(s)] + rest;
    }
  }

  lemma {:induction false} ParseSplits(s: seq<Piece>)
    requires s != [] && Parse(s).Some?
    ensures var head, rest := ParseHead(s), Parse(s[HeadLength(s)..]);
            head.Some? && rest.Some? && Parse(s) == Some([head.value] + rest.value)
  {
  }

  lemma {:induction false} PrintCons(n: Node, f: seq<Node>)
    ensures PrintAll([n] + f) == Print(n) + PrintAll(f)
    ensures WellFormed(n) && AllWellFormed(f) ==> AllWellFormed([n] + f)
  {
    assert ([n] + f)[1..] == f;
  }

  lemma {:induction false} PrintOfParseHead(s: seq<Piece>)
    requires s != [] && ParseHead(s).Some?
    ensures WellFormed(ParseHead(s).value) && Print(ParseHead(s).value) == s[..HeadLength(s)]
    decreases |s|, 0
  {
    if s[0].Open? {
      var n, b := ParseHead(s).value, BlockAt(s);
      PrintOfParse(Body(s, b.closing, b.alternate));
      PrintOfParse(Alternate(s, b.closing, b.alternate));
      BlockTags(s);
      PrintBlock(n, s, b.closing, b.alternate);
    }
  }

  lemma {:induction false} PrintBlock(n: Node, s: seq<Piece>, c: nat, split: Option<nat>)
    requires c + 1 < |s| && (split.Some? ==> split.value < c)
    requires n.BlockNode? && n.hasElse == split.Some? && s[0] == Open(n.kind, n.key, n.alias)
    requires PrintAll(n.body) == Body(s, c, split) && PrintAll(n.alternate) == Alternate(s, c, split)
    requires s[1 + c] == Tag("/" + n.closer) && (split.Some? ==> s[1 + split.value] == Tag("else"))
    ensures Print(n) == s[..c + 2]
  {
    if split.Some? {
      RebuildBlock(s, split.value, c);
    } else {
      RebuildPlainBlock(s, c);
    }
  }

  lemma {:induction false} SplitOne(s: seq<Piece>, i: nat, k: nat)
    requires i < k <= |s|
    ensures s[i..k] == [s[i]] + s[i + 1..k]
  {
  }

  lemma {:induction false} RebuildBlock(s: seq<Piece>, i: nat, c: nat)
    requires i < c < |s| - 1
    ensures s[..c + 2] == [s[0]] + (s[1..1 + i] + ([s[1 + i]] + (s[2 + i..1 + c] + [s[1 + c]])))
  {
    SplitOne(s, 0, c + 2);
    SplitSlice(s, 1, 1 + i, c + 2);
    SplitOne(s, 1 + i, c + 2);
    SplitSlice(s, 2 + i, 1 + c, c + 2);
    assert s[1 + c..c + 2] == [s[1 + c]];
  }

  lemma {:induction false} RebuildPlainBlock(s: seq<Piece>, c: nat)
    requires c < |s| - 1
    ensures s[..c + 2] == [s[0]] + (s[1..1 + c] + [s[1 + c]])
  {
    SplitSlice(s, 0, 1, c + 2);
    SplitSlice(s, 1, 1 + c, c + 2);
  }

  /** A stream that has a tree renders to the tree's value; exactly the printed well-formed forests have one. */
  lemma {:induction false} RenderIsMeaning(s: seq<Piece>, ctx: Env, values: Env)
    ensures Parse(s).Some? <==> exists f :: AllWellFormed(f) && PrintAll(f) == s
    ensures Parse(s).Some? ==> RenderSeq(s, ctx, values) == EvalAll(Parse(s).value, ctx, values)
  {
    if Parse(s).Some? {
      PrintOfParse(s);
      RangeIsEval(Parse(s).value, ctx, values);
    }
    forall f | AllWellFormed(f) && PrintAll(f) == s ensures Parse(s).Some? {
      ParseOfPrint(f);
    }
  }

  /** A stream that has a tree renders if and only if every variable that evaluation comes by is known there. */
  lemma {:induction false} RendersIfKnown(s: seq<Piece>, ctx: Env, values: Env)
    requires Parse(s).Some?
    ensures RenderSeq(s, ctx, values).Rendered? <==> AllKnown(Parse(s).value, ctx, values)
  {
    RenderIsMeaning(s, ctx, values);
    AllKnownExactly(Parse(s).value, ctx, values);
  }

  /** The renderer on a whole source: the value of its tree, whenever it has one. */
  method RenderTemplate(src: seq<Piece>, values: Env) returns (r: Outcome)
    ensures Parse(src).Some? ==> r == EvalAll(Parse(src).value, map[], values)
    ensures r == RenderSeq(src, map[], values)
  {
    r := Render(src, 0, |src|, map[], values);
    assert src[0..|src|] == src;
    RenderIsMeaning(src, map[], values);
  }

  // ---------------------------------------------------------------- the pieces in plain terms

  /** One outcome behind another: the first failure, or both texts in their order. */
  ghost predicate Joined(first: Outcome, rest: Outcome, whole: Outcome) {
    if !first.Rendered? then whole == first
    else if !rest.Rendered? then whole == rest
    else whole == Rendered(first.text + rest.text)
  }

  /** Outcomes in turn: the first failure, or all texts in their order. */
  ghost predicate InTurn(outcomes: seq<Outcome>, whole: Outcome) {
    if forall k :: 0 <= k < |outcomes| ==> outcomes[k].Rendered? then
      whole == Rendered(Flatten(seq(|outcomes|, k requires 0 <= k < |outcomes| => outcomes[k].text)))
    else exists k :: 0 <= k < |outcomes| && whole == outcomes[k] && !whole.Rendered?
                     && forall j :: 0 <= j < k ==> outcomes[j].Rendered?
  }

  /** The value a name has: the context's if it is there, else the global one. */
  ghost predicate Holds(ctx: Env, values: Env, name: string, v: Option<Value>) {
    v == if name in ctx then Some(ctx[name]) else if name in values then Some(values[name]) else None
  }

  /** Text is copied, and an empty stream renders to nothing. */
  lemma {:induction false} TextMeaning(t: string, s: seq<Piece>, ctx: Env, values: Env)
    ensures RenderSeq([], ctx, values) == Rendered("")
    ensures Joined(Rendered(t), RenderSeq(s, ctx, values), RenderSeq([Text(t)] + s, ctx, values))
  {
    assert ([Text(t)] + s)[1..] == s;
  }

  /** A tag shows its value: a string as it is, a list in its own notation; without a value it is unsupported. */
  lemma {:induction false} TagMeaning(e: string, v: Option<Value>, s: seq<Piece>, ctx: Env, values: Env)
    requires Holds(ctx, values, e, v)
    ensures var shown := match v
                         case None => Unsupported(e)
                         case Some(Str(text)) => Rendered(text)
                         case Some(List(_, text)) => Rendered(text);
            Joined(shown, RenderSeq(s, ctx, values), RenderSeq([Tag(e)] + s, ctx, values))
  {
    assert ([Tag(e)] + s)[1..] == s;
  }

  lemma {:induction false} BlockIs(s: seq<Piece>, c: nat, split: Option<nat>)
    requires s != [] && s[0].Open? && IsBlock(s[1..], Block(c, split))
    ensures BlockAt(s) == Block(c, split) && HeadLength(s) == c + 2 <= |s|
  {
    ScanAtOpener(s[1..]);
    BlockUnique(s[1..], BlockAt(s), Block(c, split));
  }

  /**
   An `if` renders what lies between it and its `else` or closer exactly if its value is a string that is not empty or a
   list with items; otherwise what lies between `else` and closer, if there is an `else`.
   */
  lemma {:induction false} IfMeaning(s: seq<Piece>, c: nat, split: Option<nat>, v: Option<Value>, ctx: Env, values: Env)
    requires s != [] && s[0].Open? && s[0].kind.IfBlock? && IsBlock(s[1..], Block(c, split))
    requires Holds(ctx, values, s[0].key, v)
    ensures c + 2 <= |s| && (split.Some? ==> split.value < c)
    ensures var holds := match v
                          case None => false
                          case Some(Str(text)) => text != ""
                          case Some(List(items, _)) => |items| > 0;
            var chosen := if holds then s[1..1 + (if split.Some? then split.value else c)]
                          else if split.Some? then s[split.value + 2..c + 1] else [];
            Joined(RenderSeq(chosen, ctx, values), RenderSeq(s[c + 2..], ctx, values), RenderSeq(s, ctx, values))
  {
    BlockIs(s, c, split);
    HeadOfBlock(s, c, split, ctx, values);
    assert Lookup(ctx, values, s[0].key) == v;
  }

  lemma {:induction false} HeadOfBlock(s: seq<Piece>, c: nat, split: Option<nat>, ctx: Env, values: Env)
    requires s != [] && s[0].Open? && BlockAt(s) == Block(c, split) && c + 2 <= |s|
    ensures var body := s[1..1 + (if split.Some? then split.value else c)];
            var alternate := if split.Some? then s[split.value + 2..c + 1] else [];
            RenderSeq(s, ctx, values)
            == Then(Choose(s[0], body, alternate, ctx, values), RenderSeq(s[c + 2..], ctx, values))
  {
    assert Body(s, c, split) == s[1..1 + (if split.Some? then split.value else c)];
    assert Alternate(s, c, split) == if split.Some? then s[split.value + 2..c + 1] else [];
    assert Head(s, ctx, values) == Choose(s[0], Body(s, c, split), Alternate(s, c, split), ctx, values);
  }

  /** What an `each` goes through: the items of a list, the characters of a string, nothing if there is no value. */
  ghost predicate GoesThrough(v: Option<Value>, items: seq<Value>) {
    match v
    case None => items == []
    case Some(Str(text)) => |items| == |text| && forall k :: 0 <= k < |text| ==> items[k] == Str([text[k]])
    case Some(List(all, _)) => items == all
  }

  /** The context of an item: "this" and the alias, if there is one, are the item, all other names are as before. */
  ghost predicate Binds(inner: Env, ctx: Env, item: Value, alias: string) {
    && "this" in inner && inner["this"] == item
    && (alias != "" ==> alias in inner && inner[alias] == item)
    && forall name :: name != "this" && (alias == "" || name != alias) ==>
         (name in inner <==> name in ctx) && (name in ctx ==> inner[name] == ctx[name])
  }

  lemma {:induction false} BindsExactly(inner: Env, ctx: Env, item: Value, alias: string)
    requires Binds(inner, ctx, item, alias)
    ensures inner == ItemContext(ctx, item, alias)
  {
    var other := ItemContext(ctx, item, alias);
    forall name ensures name in inner <==> name in other {
    }
    forall name | name in inner ensures inner[name] == other[name] {
    }
  }

  lemma {:induction false} ItemsInTurn(body: seq<Piece>, items: seq<Value>, alias: string, inner: seq<Env>,
                                       outcomes: seq<Outcome>, ctx: Env, values: Env)
    requires |inner| == |outcomes| == |items|
    requires forall k :: 0 <= k < |items| ==>
               Binds(inner[k], ctx, items[k], alias) && outcomes[k] == RenderSeq(body, inner[k], values)
    ensures InTurn(outcomes, RenderItems(body, items, alias, ctx, values))
    decreases |items|
  {
    if items != [] {
      BindsExactly(inner[0], ctx, items[0], alias);
      ItemsInTurn(body, items[1..], alias, inner[1..], outcomes[1..], ctx, values);
      TurnCons(outcomes, RenderItems(body, items[1..], alias, ctx, values),
               RenderItems(body, items, alias, ctx, values));
    }
  }

  lemma {:induction false} TurnCons(outcomes: seq<Outcome>, rest: Outcome, whole: Outcome)
    requires outcomes != [] && InTurn(outcomes[1..], rest) && whole == Then(outcomes[0], rest)
    ensures InTurn(outcomes, whole)
  {
    var tail := outcomes[1..];
    if forall k :: 0 <= k < |outcomes| ==> outcomes[k].Rendered? {
      var texts := seq(|outcomes|, k requires 0 <= k < |outcomes| => outcomes[k].text);
      var others := seq(|tail|, k requires 0 <= k < |tail| => tail[k].text);
      assert texts == [outcomes[0].text] + others;
      FlattenConcat([outcomes[0].text], others);
      FlattenAppend([], outcomes[0].text);
      assert [] + [outcomes[0].text] == [outcomes[0].text];
    } else if outcomes[0].Rendered? {
      assert !(forall k :: 0 <= k < |tail| ==> tail[k].Rendered?) by {
        var k :| 0 <= k < |outcomes| && !outcomes[k].Rendered?;
        assert tail[k - 1] == outcomes[k];
      }
      var k :| 0 <= k < |tail| && rest == tail[k] && !rest.Rendered? && forall j :: 0 <= j < k ==> tail[j].Rendered?;
      assert outcomes[k + 1] == tail[k];
      forall j | 0 <= j < k + 1 ensures outcomes[j].Rendered? {
        assert j > 0 ==> outcomes[j] == tail[j - 1];
      }
    }
  }

  /**
   An `each` renders what lies between it and its `else` or closer once per item, in order, each time with "this" and
   the alias bound to the item.
   */
  lemma {:induction false} EachMeaning(s: seq<Piece>, c: nat, split: Option<nat>, v: Option<Value>, items: seq<Value>,
                                       inner: seq<Env>, outcomes: seq<Outcome>, ctx: Env, values: Env)
    returns (head: Outcome)
    requires s != [] && s[0].Open? && s[0].kind.EachBlock? && IsBlock(s[1..], Block(c, split))
    requires Holds(ctx, values, s[0].key, v) && GoesThrough(v, items) && |inner| == |outcomes| == |items|
    requires c + 2 <= |s| && (split.Some? ==> split.value < c)
    requires var body := s[1..1 + (if split.Some? then split.value else c)];
             forall k :: 0 <= k < |items| ==>
               Binds(inner[k], ctx, items[k], s[0].alias) && outcomes[k] == RenderSeq(body, inner[k], values)
    ensures InTurn(outcomes, head)
    ensures Joined(head, RenderSeq(s[c + 2..], ctx, values), RenderSeq(s, ctx, values))
  {
    BlockIs(s, c, split);
    HeadOfBlock(s, c, split, ctx, values);
    var body := s[1..1 + (if split.Some? then split.value else c)];
    assert Lookup(ctx, values, s[0].key) == v && Visited(v) == items;
    head := RenderItems(body, items, s[0].alias, ctx, values);
    ItemsInTurn(body, items, s[0].alias, inner, outcomes, ctx, values);
  }

  /** A block without a closer fails, whatever its value. */
  lemma {:induction false} OpenMeaning(s: seq<Piece>, ctx: Env, values: Env)
    requires s != [] && s[0].Open? && !Closes(s[1..])
    ensures RenderSeq(s, ctx, values) == Unclosed
  {
    ScanAtOpener(s[1..]);
  }
}
