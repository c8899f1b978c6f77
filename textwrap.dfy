/** textwrap.wrap(text, width, break_long_words=False, break_on_hyphens=False)
    with its other options at their defaults (expand_tabs, replace_whitespace
    and drop_whitespace on, no indents, no line limit).

    The text is first munged: tabs are expanded to the next multiple of 8
    columns and every ASCII whitespace character becomes a space. It is then
    cut into chunks, the maximal runs of spaces and of other characters. The
    chunks are laid out greedily: a line takes chunks while it stays within
    the width, a chunk longer than the width goes alone on an empty line, a
    whitespace chunk is dropped at the end of every line and at the start of
    every line but the first. Lines are kept as positions into the munged
    text, so a line is a stretch of it, indentation and inner runs of
    spaces included. */
module TextWrap {
  import opened PyStr

  // ---------------------------------------------------------------------------
  // _munge_whitespace

  function Spaces(n: nat): (s: string)
    ensures |s| == n && forall i :: 0 <= i < n ==> s[i] == ' '
  {
    seq(n, i => ' ')
  }

  /** str.expandtabs(8) from column col: a tab becomes the spaces up to the
      next multiple of 8, '\n' and '\r' return to column 0, and any other
      character takes one column. */
  function ExpandFrom(s: string, col: nat): (t: string)
    ensures s == [] <==> t == []
    ensures s != [] ==> (IsSpace(t[0]) <==> IsSpace(s[0]))
    decreases |s|
  {
    if s == [] then []
    else if s[0] == '\t' then Spaces(8 - col % 8) + ExpandFrom(s[1..], col + 8 - col % 8)
    else if s[0] == '\n' || s[0] == '\r' then [s[0]] + ExpandFrom(s[1..], 0)
    else [s[0]] + ExpandFrom(s[1..], col + 1)
  }

  /** The whitespace textwrap itself knows: "\t\n\x0b\x0c\r ". */
  predicate IsAsciiSpace(c: char) {
    c == '\t' || c == '\n' || c == '\U{B}' || c == '\U{C}' || c == '\r' || c == ' '
  }

  /** The text as textwrap cuts it: tabs expanded, then each ASCII whitespace
      character replaced by a space. */
  function Munge(s: string): (m: string)
    ensures forall i :: 0 <= i < |m| ==> !IsAsciiSpace(m[i]) || m[i] == ' '
  {
    var t := ExpandFrom(s, 0);
    seq(|t|, i requires 0 <= i < |t| => if IsAsciiSpace(t[i]) then ' ' else t[i])
  }

  // ---------------------------------------------------------------------------
  // Chunks

  /** Position p of m is between two chunks (or at an end of m). */
  predicate Boundary(m: string, p: nat) {
    p == 0 || p == |m| || (0 < p < |m| && (m[p - 1] == ' ') != (m[p] == ' '))
  }

  /** The end of the chunk that starts at p: the maximal run of spaces, or of
      other characters, beginning there. */
  function RunEnd(m: string, p: nat): (e: nat)
    requires p < |m|
    ensures p < e <= |m| && Boundary(m, e)
    ensures forall k :: p <= k < e ==> (m[k] == ' ') == (m[p] == ' ')
    decreases |m| - p
  {
    if p + 1 < |m| && (m[p + 1] == ' ') == (m[p] == ' ') then RunEnd(m, p + 1) else p + 1
  }

  /** m[x..y] is all whitespace, which is what chunk.strip() == '' tests. */
  predicate Blank(m: string, x: nat, y: nat)
    requires x <= y <= |m|
  {
    forall k :: x <= k < y ==> IsSpace(m[k])
  }

  /** m[x..y] has no space: it is (part of) one non-space chunk. */
  predicate NoSpace(m: string, x: nat, y: nat)
    requires x <= y <= |m|
  {
    forall k :: x <= k < y ==> m[k] != ' '
  }

  /** A chunk is all spaces or has no space at all. */
  lemma ChunkKind(m: string, p: nat)
    requires p < |m|
    ensures m[p] == ' ' ==> Blank(m, p, RunEnd(m, p))
    ensures m[p] != ' ' ==> NoSpace(m, p, RunEnd(m, p))
  {
  }

  /** A chunk never runs past a boundary after its start. */
  lemma {:induction false} RunWithin(m: string, a: nat, b: nat)
    requires a < b <= |m| && Boundary(m, b)
    ensures RunEnd(m, a) <= b
    decreases b - a
  {
    if a + 1 < b {
      RunWithin(m, a + 1, b);
    }
  }

  // ---------------------------------------------------------------------------
  // _wrap_chunks

  /** Where a line starts when the next chunk starts at p: a whitespace chunk
      there is dropped, except before the first line. */
  function LineStart(m: string, p: nat, started: bool): (a: nat)
    requires p < |m| && Boundary(m, p)
    ensures p <= a <= |m| && Boundary(m, a) && Blank(m, p, a)
    ensures a > p ==> started && a == RunEnd(m, p)
  {
    var e := RunEnd(m, p);
    if started && Blank(m, p, e) then e else p
  }

  /** The inner loop: a line that starts at a and so far ends at q (its last
      chunk starting at last) takes the next chunk while the line stays
      within w. Returns where the line stops and where its last chunk starts. */
  function FillLine(m: string, w: int, a: nat, q: nat, last: nat): (r: (nat, nat))
    requires a <= last <= q <= |m| && q - a <= w && Boundary(m, q)
    ensures q <= r.0 <= |m| && r.0 - a <= w && Boundary(m, r.0)
    ensures r.0 < |m| ==> RunEnd(m, r.0) - a > w
    ensures r.0 == q ==> r.1 == last
    ensures r.0 > q ==> q <= r.1 < r.0 && Boundary(m, r.1) && RunEnd(m, r.1) == r.0
    decreases |m| - q
  {
    if q < |m| && RunEnd(m, q) - a <= w then FillLine(m, w, a, RunEnd(m, q), q) else (q, last)
  }

  /** The chunks a line starting at a takes: the greedy fill, or, when not
      even the first chunk fits, that chunk alone (_handle_long_word on an
      empty line). Returns the end of the chunks taken and where the last
      of them starts. */
  function TakeChunks(m: string, w: int, a: nat): (r: (nat, nat))
    requires a <= |m| && Boundary(m, a) && w > 0
    ensures a <= r.1 <= r.0 <= |m| && Boundary(m, r.0)
    ensures a < |m| ==> a < r.0
    ensures r.0 > a ==> r.1 < r.0 && Boundary(m, r.1) && RunEnd(m, r.1) == r.0
    ensures r.0 - a <= w || (r.1 == a && r.0 == RunEnd(m, a))
    ensures r.0 < |m| ==> RunEnd(m, r.0) - a > w
  {
    var (q, last) := FillLine(m, w, a, a, a);
    if q == a && q < |m| && RunEnd(m, q) - q > w then (RunEnd(m, q), q) else (q, last)
  }

  /** Where the line ends: a whitespace chunk at its end is dropped. */
  function LineEnd(m: string, a: nat, next: nat, last: nat): (b: nat)
    requires a <= last <= next <= |m|
    ensures a <= b <= next
  {
    if next > a && Blank(m, last, next) then last else next
  }

  /** One pass of the outer loop from chunk boundary p, with `started` telling
      whether a line has been produced already. Returns (a, b, next): the line
      is m[a..b] when b > a (no line otherwise), and the next pass starts at
      next. */
  function NextLine(m: string, w: int, p: nat, started: bool): (r: (nat, nat, nat))
    requires p < |m| && w > 0 && Boundary(m, p)
    ensures p <= r.0 <= r.1 <= r.2 <= |m| && p < r.2
  {
    var a := LineStart(m, p, started);
    var (next, last) := TakeChunks(m, w, a);
    (a, LineEnd(m, a, next, last), next)
  }

  /** The lines from chunk boundary p on, as (start, end) positions in m. */
  function WrapFrom(m: string, w: int, p: nat, started: bool): (sp: seq<(nat, nat)>)
    requires p <= |m| && w > 0 && Boundary(m, p)
    ensures forall i :: 0 <= i < |sp| ==> p <= sp[i].0 < sp[i].1 <= |m|
    decreases |m| - p
  {
    if p == |m| then []
    else
      var (a, b, next) := NextLine(m, w, p, started);
      if b > a then [(a, b)] + WrapFrom(m, w, next, true) else WrapFrom(m, w, next, started)
  }

  /** The positions of the lines of the wrap of munged text m. */
  function Spans(m: string, w: int): seq<(nat, nat)>
    requires w > 0
  {
    WrapFrom(m, w, 0, false)
  }

  /** The stretches of m that the spans mark. */
  function Cut(m: string, sp: seq<(nat, nat)>): (lines: seq<string>)
    requires forall i :: 0 <= i < |sp| ==> sp[i].0 <= sp[i].1 <= |m|
    ensures |lines| == |sp| && forall i :: 0 <= i < |sp| ==> lines[i] == m[sp[i].0..sp[i].1]
  {
    seq(|sp|, i requires 0 <= i < |sp| => m[sp[i].0..sp[i].1])
  }

  /** textwrap.wrap(text, width, break_long_words=False, break_on_hyphens=False). */
  function Wrap(text: string, width: int): seq<string>
    requires width > 0
  {
    var m := Munge(text);
    Cut(m, Spans(m, width))
  }

  // ---------------------------------------------------------------------------
  // What a wrap looks like

  /** The spans are non-empty stretches of m, in order, with room between them. */
  predicate Ordered(m: string, sp: seq<(nat, nat)>) {
    && (forall i :: 0 <= i < |sp| ==> sp[i].0 < sp[i].1 <= |m|)
    && (forall i :: 0 < i < |sp| ==> sp[i - 1].1 < sp[i].0)
  }

  /** Every line begins and ends between chunks: no chunk is split. */
  predicate Whole(m: string, sp: seq<(nat, nat)>) {
    forall i :: 0 <= i < |sp| ==> Boundary(m, sp[i].0) && Boundary(m, sp[i].1)
  }

  /** What lies between two lines is whitespace. */
  predicate Gaps(m: string, sp: seq<(nat, nat)>)
    requires Ordered(m, sp)
  {
    forall i :: 0 < i < |sp| ==> Blank(m, sp[i - 1].1, sp[i].0)
  }

  /** A line is at most w long unless it is a single non-space chunk. */
  predicate Narrow(m: string, sp: seq<(nat, nat)>, w: int)
    requires Ordered(m, sp)
  {
    forall i :: 0 <= i < |sp| ==> sp[i].1 - sp[i].0 <= w || NoSpace(m, sp[i].0, sp[i].1)
  }

  /** Greedy: the first chunk of each line would have taken the line before
      it past w, counted from that line's start. */
  predicate Full(m: string, sp: seq<(nat, nat)>, w: int)
    requires Ordered(m, sp)
  {
    forall i :: 0 < i < |sp| ==> RunEnd(m, sp[i].0) - sp[i - 1].0 > w
  }

  /** The lines from position p on: the conditions above, with whitespace
      before the first line and after the last (all of m[p..] when there is
      no line). */
  predicate LayoutFrom(m: string, sp: seq<(nat, nat)>, w: int, p: nat) {
    && p <= |m| && Ordered(m, sp) && Whole(m, sp) && Gaps(m, sp) && Narrow(m, sp, w) && Full(m, sp, w)
    && (sp == [] ==> Blank(m, p, |m|))
    && (sp != [] ==> p <= sp[0].0 && Blank(m, p, sp[0].0) && Blank(m, sp[|sp| - 1].1, |m|))
  }

  /** The layout textwrap produces for munged text m at width w:
      - the lines are non-empty stretches of m, in order, each beginning
        and ending between chunks, so no chunk is split;
      - what lies before, between and after them is whitespace, and there is
        some between any two lines;
      - a line is at most w long unless it is a single non-space chunk;
      - greedy: the first chunk of each line would have taken the line before
        it past w (measured from that line's start);
      - the first line keeps the text's leading whitespace unless that
        whitespace and the first chunk after it do not fit in w together. */
  predicate Layout(m: string, sp: seq<(nat, nat)>, w: int) {
    && LayoutFrom(m, sp, w, 0)
    && (sp != [] && sp[0].0 > 0 ==> RunEnd(m, sp[0].0) > w)
  }

  lemma BlankJoin(m: string, x: nat, y: nat, z: nat)
    requires x <= y <= z <= |m| && Blank(m, x, y) && Blank(m, y, z)
    ensures Blank(m, x, z)
  {
  }

  /** A line that keeps a whitespace chunk at its end is followed by spaces. */
  lemma LineEndFacts(m: string, a: nat, next: nat, last: nat)
    requires a <= last <= next <= |m| && Boundary(m, next)
    requires next > a ==> last < next && RunEnd(m, last) == next
    ensures var b := LineEnd(m, a, next, last);
      && Blank(m, b, next)
      && (b == a ==> Blank(m, a, next))
      && (b == next && b > a && next < |m| ==> m[next] == ' ')
      && (b == next && b > a ==> m[last] != ' ')
  {
    if next > a {
      ChunkKind(m, last);
    }
  }

  /** A whitespace chunk at the start of a line after the first is dropped. */
  lemma StartFacts(m: string, p: nat, started: bool)
    requires p < |m| && Boundary(m, p)
    ensures started && m[p] == ' ' ==> LineStart(m, p, started) > p
  {
    ChunkKind(m, p);
  }

  /** The line a pass takes from a: whitespace after it up to where the next
      pass starts, within w unless it is one non-space chunk, and followed
      by a space if it ends before the end of m. */
  lemma BodyFacts(m: string, w: int, a: nat)
    requires a <= |m| && Boundary(m, a) && w > 0
    ensures var t := TakeChunks(m, w, a);
      var b := LineEnd(m, a, t.0, t.1);
      && Boundary(m, b) && Blank(m, b, t.0)
      && (b > a ==> b - a <= w || NoSpace(m, a, b))
      && (b == t.0 && b > a && t.0 < |m| ==> m[t.0] == ' ')
      && (b == a ==> Blank(m, a, t.0))
  {
    var t := TakeChunks(m, w, a);
    var next, last := t.0, t.1;
    var b := LineEnd(m, a, next, last);
    LineEndFacts(m, a, next, last);
    if b > a && b - a > w {
      assert last == a && next == RunEnd(m, a) && b == next;
      ChunkKind(m, a);
    }
  }

  /** The facts about one pass of the outer loop that the layout rests on. */
  lemma NextLineFacts(m: string, w: int, p: nat, started: bool)
    requires p < |m| && w > 0 && Boundary(m, p)
    ensures var r := NextLine(m, w, p, started);
      var a, b, next := r.0, r.1, r.2;
      && Boundary(m, a) && Boundary(m, b) && Boundary(m, next)
      && Blank(m, p, a) && Blank(m, b, next)
      && (a > p ==> started && a == RunEnd(m, p))
      && (started && m[p] == ' ' ==> a > p)
      && (b > a ==> b - a <= w || NoSpace(m, a, b))
      && (next < |m| ==> RunEnd(m, next) - a > w)
      && (b == next && b > a && next < |m| ==> m[next] == ' ')
      && (b == a ==> Blank(m, a, next))
  {
    StartFacts(m, p, started);
    BodyFacts(m, w, LineStart(m, p, started));
  }

  lemma OrderedCons(m: string, a: nat, b: nat, rest: seq<(nat, nat)>)
    requires a < b <= |m| && Ordered(m, rest) && (rest != [] ==> b < rest[0].0)
    ensures Ordered(m, [(a, b)] + rest)
  {
    var sp := [(a, b)] + rest;
    forall i | 1 < i < |sp| ensures sp[i - 1].1 < sp[i].0 {
      assert sp[i - 1] == rest[i - 2] && sp[i] == rest[i - 1];
    }
  }

  lemma GapsCons(m: string, a: nat, b: nat, rest: seq<(nat, nat)>)
    requires a < b <= |m| && Ordered(m, rest) && Gaps(m, rest) && (rest != [] ==> b < rest[0].0)
    requires rest != [] ==> Blank(m, b, rest[0].0)
    ensures Ordered(m, [(a, b)] + rest) && Gaps(m, [(a, b)] + rest)
  {
    OrderedCons(m, a, b, rest);
    var sp := [(a, b)] + rest;
    forall i | 0 < i < |sp| ensures Blank(m, sp[i - 1].1, sp[i].0) {
      if i > 1 {
        assert sp[i - 1] == rest[i - 2] && sp[i] == rest[i - 1];
      }
    }
  }

  lemma NarrowCons(m: string, a: nat, b: nat, rest: seq<(nat, nat)>, w: int)
    requires a < b <= |m| && Ordered(m, [(a, b)] + rest) && Ordered(m, rest) && Narrow(m, rest, w)
    requires b - a <= w || NoSpace(m, a, b)
    requires Whole(m, rest) && Boundary(m, a) && Boundary(m, b)
    ensures Narrow(m, [(a, b)] + rest, w) && Whole(m, [(a, b)] + rest)
  {
    var sp := [(a, b)] + rest;
    forall i | 0 < i < |sp| ensures sp[i] == rest[i - 1] {
    }
  }

  lemma FullCons(m: string, a: nat, b: nat, rest: seq<(nat, nat)>, w: int)
    requires Ordered(m, [(a, b)] + rest) && Ordered(m, rest) && Full(m, rest, w)
    requires rest != [] ==> RunEnd(m, rest[0].0) - a > w
    ensures Full(m, [(a, b)] + rest, w)
  {
    var sp := [(a, b)] + rest;
    forall i | 1 < i < |sp| ensures RunEnd(m, sp[i].0) - sp[i - 1].0 > w {
      assert sp[i - 1] == rest[i - 2] && sp[i] == rest[i - 1];
    }
  }

  /** A pass that produces the line m[a..b] in front of the lines from next on. */
  lemma EmitStep(m: string, w: int, p: nat, a: nat, b: nat, next: nat, rest: seq<(nat, nat)>)
    requires p <= a < b <= next <= |m| && Boundary(m, a) && Boundary(m, b)
    requires Blank(m, p, a) && Blank(m, b, next) && (b - a <= w || NoSpace(m, a, b))
    requires LayoutFrom(m, rest, w, next)
    requires rest != [] ==> b < rest[0].0 && RunEnd(m, rest[0].0) - a > w
    ensures LayoutFrom(m, [(a, b)] + rest, w, p)
  {
    if rest != [] {
      BlankJoin(m, b, next, rest[0].0);
    } else {
      BlankJoin(m, b, next, |m|);
    }
    GapsCons(m, a, b, rest);
    NarrowCons(m, a, b, rest, w);
    FullCons(m, a, b, rest, w);
  }

  /** A pass that produces no line: the lines are those from next on. */
  lemma SkipStep(m: string, w: int, p: nat, a: nat, next: nat, rest: seq<(nat, nat)>)
    requires p <= a <= next <= |m| && Blank(m, p, a) && Blank(m, a, next)
    requires LayoutFrom(m, rest, w, next)
    ensures LayoutFrom(m, rest, w, p)
  {
    BlankJoin(m, p, a, next);
    if rest != [] {
      BlankJoin(m, p, next, rest[0].0);
    } else {
      BlankJoin(m, p, next, |m|);
    }
  }

  /** One step of WrapFrom, with the pass's result named. */
  lemma WrapFromStep(m: string, w: int, p: nat, started: bool)
    requires p < |m| && w > 0 && Boundary(m, p)
    ensures var r := NextLine(m, w, p, started);
      WrapFrom(m, w, p, started)
      == if r.1 > r.0 then [(r.0, r.1)] + WrapFrom(m, w, r.2, true) else WrapFrom(m, w, r.2, started)
  {
  }

  /** The layout of the lines from chunk boundary p on, where prev is the
      start of the line before (or p itself before the first line). */
  lemma {:induction false} WrapFromLayout(m: string, w: int, p: nat, started: bool, prev: nat)
    requires p <= |m| && w > 0 && Boundary(m, p)
    requires prev <= p && (started ==> prev < p)
    requires p == prev || p == |m| || RunEnd(m, p) - prev > w
    ensures var sp := WrapFrom(m, w, p, started);
      && LayoutFrom(m, sp, w, p)
      && (sp != [] && sp[0].0 > prev ==> RunEnd(m, sp[0].0) - prev > w)
      && (started && p < |m| && m[p] == ' ' && sp != [] ==> sp[0].0 > p)
    decreases |m| - p, 1
  {
    if p < |m| {
      var r := NextLine(m, w, p, started);
      if r.1 > r.0 {
        EmitLayout(m, w, p, started, prev);
      } else {
        SkipLayout(m, w, p, started, prev);
      }
    }
  }

  /** WrapFromLayout when the pass from p produces a line. */
  lemma {:induction false} EmitLayout(m: string, w: int, p: nat, started: bool, prev: nat)
    requires p < |m| && w > 0 && Boundary(m, p)
    requires prev <= p && (started ==> prev < p)
    requires p == prev || RunEnd(m, p) - prev > w
    requires NextLine(m, w, p, started).1 > NextLine(m, w, p, started).0
    ensures var sp := WrapFrom(m, w, p, started);
      && LayoutFrom(m, sp, w, p)
      && (sp != [] && sp[0].0 > prev ==> RunEnd(m, sp[0].0) - prev > w)
      && (started && m[p] == ' ' && sp != [] ==> sp[0].0 > p)
    decreases |m| - p, 0
  {
    var r := NextLine(m, w, p, started);
    var a, b, next := r.0, r.1, r.2;
    NextLineFacts(m, w, p, started);
    WrapFromLayout(m, w, next, true, a);
    var rest := WrapFrom(m, w, next, true);
    EmitStep(m, w, p, a, b, next, rest);
    WrapFromStep(m, w, p, started);
    assert WrapFrom(m, w, p, started)[0] == (a, b);
    assert a > prev ==> RunEnd(m, a) - prev > w;
    assert started && m[p] == ' ' ==> a > p;
  }

  /** WrapFromLayout when the pass from p produces no line. */
  lemma {:induction false} SkipLayout(m: string, w: int, p: nat, started: bool, prev: nat)
    requires p < |m| && w > 0 && Boundary(m, p)
    requires prev <= p && (started ==> prev < p)
    requires p == prev || RunEnd(m, p) - prev > w
    requires NextLine(m, w, p, started).1 == NextLine(m, w, p, started).0
    ensures var sp := WrapFrom(m, w, p, started);
      && LayoutFrom(m, sp, w, p)
      && (sp != [] && sp[0].0 > prev ==> RunEnd(m, sp[0].0) - prev > w)
      && (started && m[p] == ' ' && sp != [] ==> sp[0].0 > p)
    decreases |m| - p, 0
  {
    var r := NextLine(m, w, p, started);
    var a, next := r.0, r.2;
    NextLineFacts(m, w, p, started);
    WrapFromLayout(m, w, next, started, prev);
    var rest := WrapFrom(m, w, next, started);
    SkipStep(m, w, p, a, next, rest);
    WrapFromStep(m, w, p, started);
  }

  // ---------------------------------------------------------------------------
  // Words

  /** Expanding tabs changes no word. */
  lemma {:induction false} WordsExpand(s: string, col: nat)
    ensures Words(ExpandFrom(s, col)) == Words(s)
    decreases |s|
  {
    if s != [] {
      var t := ExpandFrom(s, col);
      if s[0] == '\t' {
        var n := 8 - col % 8;
        WordsExpand(s[1..], col + n);
        WordsShape(Spaces(n));
        WordsConcat(Spaces(n), ExpandFrom(s[1..], col + n));
      } else {
        var col' := if s[0] == '\n' || s[0] == '\r' then 0 else col + 1;
        var r := ExpandFrom(s[1..], col');
        WordsExpand(s[1..], col');
        assert t == [s[0]] + r;
        assert t[1..] == r;
        assert |s| > 1 ==> s[1..][0] == s[1];
      }
    }
  }

  /** Munging changes no word. */
  lemma MungeWords(s: string)
    ensures Words(Munge(s)) == Words(s)
  {
    var t := ExpandFrom(s, 0);
    WordsExpand(s, 0);
    WordsRespace(t, Munge(s));
  }

  /** Expanding tabs in a text without tabs changes nothing. */
  lemma {:induction false} ExpandNoTab(s: string, col: nat)
    requires forall i :: 0 <= i < |s| ==> s[i] != '\t'
    ensures ExpandFrom(s, col) == s
    decreases |s|
  {
    if s != [] {
      ExpandNoTab(s[1..], if s[0] == '\n' || s[0] == '\r' then 0 else col + 1);
      assert s == [s[0]] + s[1..];
    }
  }

  /** A text whose only whitespace is spaces is its own munge. */
  lemma MungeSpaced(s: string)
    requires forall i :: 0 <= i < |s| && IsSpace(s[i]) ==> s[i] == ' '
    ensures Munge(s) == s
  {
    ExpandNoTab(s, 0);
  }

  /** Lines that sit between whitespace read back as the words of the text. */
  /** Dropping the lines' first span leaves spans with the same shape. */
  lemma LayoutTail(m: string, sp: seq<(nat, nat)>)
    requires sp != [] && Ordered(m, sp) && Gaps(m, sp)
    ensures Ordered(m, sp[1..]) && Gaps(m, sp[1..])
  {
    var rest := sp[1..];
    forall i | 0 <= i < |rest| ensures rest[i] == sp[i + 1] {
    }
  }

  /** The words from x on are those of the line m[a..b] and then those after
      it, when only whitespace comes before the line and after it. */
  lemma WordsSplitAt(m: string, x: nat, a: nat, b: nat)
    requires x <= a < b <= |m| && Blank(m, x, a) && (b < |m| ==> IsSpace(m[b]))
    ensures Words(m[x..]) == Words(m[a..b]) + Words(m[b..])
  {
    assert m[x..] == m[x..a] + (m[a..b] + m[b..]);
    assert AllSpace(m[x..a]) by {
      forall k | 0 <= k < a - x ensures IsSpace(m[x..a][k]) {
        assert m[x..a][k] == m[x + k];
      }
    }
    WordsShape(m[x..a]);
    WordsConcat(m[x..a], m[a..b] + m[b..]);
    assert m[b..] != [] ==> m[b..][0] == m[b];
    WordsConcat(m[a..b], m[b..]);
  }

  /** Reading the lines word by word gives the words of m from x on. */
  lemma {:induction false} WordsOfSpans(m: string, sp: seq<(nat, nat)>, x: nat)
    requires Ordered(m, sp) && Gaps(m, sp) && x <= |m|
    requires sp == [] ==> Blank(m, x, |m|)
    requires sp != [] ==> x <= sp[0].0 && Blank(m, x, sp[0].0) && Blank(m, sp[|sp| - 1].1, |m|)
    ensures AllWords(Cut(m, sp)) == Words(m[x..])
    decreases |sp|
  {
    if sp == [] {
      assert AllSpace(m[x..]) by {
        forall k | 0 <= k < |m| - x ensures IsSpace(m[x..][k]) {
          assert m[x..][k] == m[x + k];
        }
      }
      WordsShape(m[x..]);
    } else {
      var (a, b) := sp[0];
      var rest := sp[1..];
      LayoutTail(m, sp);
      if rest != [] {
        assert rest[0] == sp[1] && rest[|rest| - 1] == sp[|sp| - 1];
        assert Blank(m, sp[0].1, sp[1].0);
      }
      WordsOfSpans(m, rest, b);
      assert Cut(m, sp) == [m[a..b]] + Cut(m, rest);
      WordsSplitAt(m, x, a, b);
    }
  }

  /** The lines a narrow layout cuts are non-empty, and at most w long
      unless they hold no space. */
  lemma NarrowLines(m: string, sp: seq<(nat, nat)>, w: int)
    requires Ordered(m, sp) && Narrow(m, sp, w)
    ensures var lines := Cut(m, sp);
      forall i :: 0 <= i < |lines| ==> lines[i] != [] && (|lines[i]| <= w || ' ' !in lines[i])
  {
    var lines := Cut(m, sp);
    forall i | 0 <= i < |lines| ensures lines[i] != [] && (|lines[i]| <= w || ' ' !in lines[i]) {
      if |lines[i]| > w {
        assert NoSpace(m, sp[i].0, sp[i].1);
        forall k | 0 <= k < |lines[i]| ensures lines[i][k] != ' ' {
          assert lines[i][k] == m[sp[i].0 + k];
        }
      }
    }
  }

  /** What textwrap.wrap promises for any text:
      - the lines are the stretches of the munged text that Layout describes,
        indentation and inner runs of spaces included;
      - reading the lines word by word gives the words of the text, in
        order, none lost, none split;
      - a text with a non-space character gives at least one line;
      - every line is non-empty, and at most width long unless it is a
        single chunk with no space in it. */
  lemma WrapLayout(text: string, width: int)
    requires width > 0
    ensures var m := Munge(text);
      var sp := Spans(m, width);
      var lines := Wrap(text, width);
      && Layout(m, sp, width)
      && lines == Cut(m, sp)
      && AllWords(lines) == Words(text)
      && (!AllSpace(text) ==> lines != [])
      && (forall i :: 0 <= i < |lines| ==> lines[i] != [] && (|lines[i]| <= width || ' ' !in lines[i]))
  {
    var m := Munge(text);
    var sp := Spans(m, width);
    WrapFromLayout(m, width, 0, false, 0);
    WordsOfSpans(m, sp, 0);
    assert m[0..] == m;
    MungeWords(text);
    WordsShape(text);
    NarrowLines(m, sp, width);
  }

  /** No chunk boundary lies strictly inside a chunk. */
  lemma InsideRun(m: string, p: nat, y: nat)
    requires p < |m|
    ensures p < y < RunEnd(m, p) ==> !Boundary(m, y)
  {
    if p < y < RunEnd(m, p) {
      assert (m[y - 1] == ' ') == (m[p] == ' ') == (m[y] == ' ');
    }
  }

  /** In a layout of m, when m starts with spaces, and those spaces and the
      chunk after them fit w together and are not all whitespace, the first
      line starts at 0 and takes that chunk in full. */
  lemma LayoutKeepsIndent(m: string, sp: seq<(nat, nat)>, w: int)
    requires Layout(m, sp, w)
    requires m != [] && m[0] == ' ' && RunEnd(m, 0) < |m|
    requires RunEnd(m, RunEnd(m, 0)) <= w
    requires !Blank(m, RunEnd(m, 0), RunEnd(m, RunEnd(m, 0)))
    ensures sp != [] && sp[0].0 == 0 && RunEnd(m, RunEnd(m, 0)) <= sp[0].1
  {
    var e0 := RunEnd(m, 0);
    var e1 := RunEnd(m, e0);
    var k :| e0 <= k < e1 && !IsSpace(m[k]);
    assert sp != [];
    var x, y := sp[0].0, sp[0].1;
    InsideRun(m, 0, x);
    InsideRun(m, e0, x);
    assert x == 0;
    InsideRun(m, 0, y);
    InsideRun(m, e0, y);
    if |sp| > 1 {
      InsideRun(m, e0, sp[1].0);
    }
  }

  /** Indentation is kept: when the text starts with spaces, and those
      spaces and the word after them fit the width together, the first line
      starts at the start of the munged text and holds that word in full. */
  lemma WrapKeepsIndent(text: string, width: int)
    requires width > 0
    requires var m := Munge(text);
      && m != [] && m[0] == ' ' && RunEnd(m, 0) < |m|
      && RunEnd(m, RunEnd(m, 0)) <= width
      && !Blank(m, RunEnd(m, 0), RunEnd(m, RunEnd(m, 0)))
    ensures var m := Munge(text);
      var lines := Wrap(text, width);
      && lines != []
      && RunEnd(m, RunEnd(m, 0)) <= |lines[0]|
      && lines[0] == m[..|lines[0]|]
  {
    var m := Munge(text);
    var sp := Spans(m, width);
    WrapFromLayout(m, width, 0, false, 0);
    LayoutKeepsIndent(m, sp, width);
  }

  // ---------------------------------------------------------------------------
  // Single-spaced text: words joined by single spaces

  /** One output line of single-spaced text: its words joined by single spaces. */
  function Line(ws: seq<string>): string {
    JoinWith(ws, " ")
  }

  /** A line fits width w when it is no longer than w, or when it is one
      single (over-long) word. */
  predicate Fits(line: string, w: int) {
    |line| <= w || |Words(line)| == 1
  }

  /** Every line fits width w. */
  predicate WithinWidth(lines: seq<string>, w: int) {
    forall i :: 0 <= i < |lines| ==> Fits(lines[i], w)
  }

  /** No line could have taken the first word of the next one: each line
      after the first has a word, and that word plus a space would have made
      the line before it longer than w. */
  predicate Greedy(lines: seq<string>, w: int) {
    forall i :: 0 < i < |lines| ==> Words(lines[i]) != [] && |lines[i - 1]| + 1 + |Words(lines[i])[0]| > w
  }

  /** Every whitespace character of x is a single space with a non-space
      character on each side. */
  predicate Spaced(x: string) {
    forall k :: 0 <= k < |x| && IsSpace(x[k]) ==>
      x[k] == ' ' && 0 < k < |x| - 1 && !IsSpace(x[k - 1]) && !IsSpace(x[k + 1])
  }

  lemma {:induction false} LineAppend(a: seq<string>, b: seq<string>)
    requires a != [] && b != []
    ensures Line(a + b) == Line(a) + " " + Line(b)
    decreases |a|
  {
    if |a| == 1 {
      assert (a + b)[1..] == b;
    } else {
      LineAppend(a[1..], b);
      assert (a + b)[1..] == a[1..] + b;
    }
  }

  /** Words joined by single spaces are spaced. */
  lemma {:induction false} SpacedJoin(ws: seq<string>)
    requires AllWordsOk(ws)
    ensures Spaced(Line(ws))
    decreases |ws|
  {
    if |ws| == 1 {
      assert Line(ws) == ws[0];
    } else if |ws| > 1 {
      var h, rest := ws[0], Line(ws[1..]);
      SpacedJoin(ws[1..]);
      JoinEmpty(ws[1..]);
      var x := Line(ws);
      assert x == h + " " + rest;
      forall k | 0 <= k < |h| ensures !IsSpace(x[k]) {
        assert x[k] == h[k];
      }
      forall k | 0 <= k < |x| && IsSpace(x[k])
        ensures x[k] == ' ' && 0 < k < |x| - 1 && !IsSpace(x[k - 1]) && !IsSpace(x[k + 1])
      {
        if k == |h| {
          assert x[k - 1] == h[|h| - 1];
          assert x[k + 1] == rest[0];
        } else {
          assert x[k] == rest[k - |h| - 1];
          assert x[k + 1] == rest[k - |h|];
          assert k - |h| - 1 > 0 ==> x[k - 1] == rest[k - |h| - 2];
        }
      }
    }
  }

  /** A spaced text is its words joined by single spaces. */
  lemma {:induction false} SpacedLine(x: string)
    requires Spaced(x)
    ensures Line(Words(x)) == x
    decreases |x|
  {
    if forall k :: 0 <= k < |x| ==> !IsSpace(x[k]) {
      if x != [] {
        WordsOfWord(x);
      }
    } else {
      var i :| 0 <= i < |x| && IsSpace(x[i]);
      var l, r := x[..i], x[i + 1..];
      assert x == l + " " + r;
      assert Spaced(l) by {
        forall k | 0 <= k < |l| && IsSpace(l[k]) ensures l[k] == ' ' && 0 < k < |l| - 1 && !IsSpace(l[k - 1]) && !IsSpace(l[k + 1]) {
          assert l[k] == x[k] && l[k - 1] == x[k - 1];
          assert k + 1 != i;
          assert l[k + 1] == x[k + 1];
        }
      }
      assert Spaced(r) by {
        forall k | 0 <= k < |r| && IsSpace(r[k]) ensures r[k] == ' ' && 0 < k < |r| - 1 && !IsSpace(r[k - 1]) && !IsSpace(r[k + 1]) {
          assert r[k] == x[k + i + 1] && r[k + 1] == x[k + i + 2];
          assert k != 0;
          assert r[k - 1] == x[k + i];
        }
      }
      SpacedLine(l);
      SpacedLine(r);
      WordsAroundSep(l, " ", r);
      assert l[0] == x[0];
      assert r[0] == x[i + 1];
      WordsShape(l);
      WordsShape(r);
      LineAppend(Words(l), Words(r));
    }
  }

  /** In a spaced text, a stretch that starts and ends with a non-space
      character is spaced too. */
  lemma SpacedSlice(m: string, a: nat, b: nat)
    requires Spaced(m) && a < b <= |m| && !IsSpace(m[a]) && !IsSpace(m[b - 1])
    ensures Spaced(m[a..b])
  {
    var x := m[a..b];
    forall k | 0 <= k < |x| && IsSpace(x[k]) ensures x[k] == ' ' && 0 < k < |x| - 1 && !IsSpace(x[k - 1]) && !IsSpace(x[k + 1]) {
      assert x[k] == m[a + k];
      assert k != 0 && k != |x| - 1;
      assert x[k - 1] == m[a + k - 1] && x[k + 1] == m[a + k + 1];
    }
  }

  /** The first word of a line that starts a chunk is that chunk. */
  lemma FirstWord(m: string, a: nat, b: nat)
    requires a < b <= |m| && Boundary(m, b) && m[a] != ' '
    requires forall k :: a <= k < b ==> (IsSpace(m[k]) ==> m[k] == ' ')
    ensures RunEnd(m, a) <= b
    ensures Words(m[a..b]) != [] && |Words(m[a..b])[0]| == RunEnd(m, a) - a
  {
    var e := RunEnd(m, a);
    RunWithin(m, a, b);
    var word := m[a..e];
    assert IsWord(word) by {
      forall k | 0 <= k < |word| ensures !IsSpace(word[k]) {
        assert word[k] == m[a + k];
      }
    }
    WordsOfWord(word);
    assert m[a..b] == word + m[e..b];
    if e < b {
      assert m[e..b][0] == m[e] == ' ';
    }
    WordsConcat(word, m[e..b]);
  }

  /** In spaced text, every line of a layout starts and ends with a
      non-space character. */
  lemma SpanEdges(m: string, sp: seq<(nat, nat)>, w: int)
    requires Spaced(m) && LayoutFrom(m, sp, w, 0)
    ensures forall i :: 0 <= i < |sp| ==> !IsSpace(m[sp[i].0]) && !IsSpace(m[sp[i].1 - 1])
  {
    forall i | 0 <= i < |sp| ensures !IsSpace(m[sp[i].0]) && !IsSpace(m[sp[i].1 - 1]) {
      if i == 0 {
        assert !IsSpace(m[0]) && Blank(m, 0, sp[0].0);
      } else {
        assert Blank(m, sp[i - 1].1, sp[i].0);
        assert IsSpace(m[sp[i].0 - 1]);
      }
      if i < |sp| - 1 {
        assert sp[i].1 < sp[i + 1].0;
        assert IsSpace(m[sp[i].1]);
      } else if sp[i].1 < |m| {
        assert IsSpace(m[sp[i].1]);
      }
    }
  }

  /** In spaced text, every line of a layout is its words joined by single
      spaces and fits the width. */
  lemma SpacedLines(m: string, sp: seq<(nat, nat)>, w: int)
    requires Spaced(m) && LayoutFrom(m, sp, w, 0)
    ensures var lines := Cut(m, sp);
      && (forall i :: 0 <= i < |lines| ==> Line(Words(lines[i])) == lines[i])
      && WithinWidth(lines, w)
  {
    SpanEdges(m, sp, w);
    var lines := Cut(m, sp);
    forall i | 0 <= i < |lines| ensures Line(Words(lines[i])) == lines[i] && Fits(lines[i], w) {
      SpacedSlice(m, sp[i].0, sp[i].1);
      SpacedLine(lines[i]);
      if |lines[i]| > w {
        assert IsWord(lines[i]) by {
          forall k | 0 <= k < |lines[i]| ensures !IsSpace(lines[i][k]) {
            assert lines[i][k] == m[sp[i].0 + k];
          }
        }
        WordsOfWord(lines[i]);
      }
    }
  }

  /** In spaced text, the lines of a layout are greedy word by word. */
  lemma GreedyLines(m: string, sp: seq<(nat, nat)>, w: int)
    requires Spaced(m) && LayoutFrom(m, sp, w, 0)
    ensures Greedy(Cut(m, sp), w)
  {
    SpanEdges(m, sp, w);
    var lines := Cut(m, sp);
    forall i | 0 < i < |lines|
      ensures Words(lines[i]) != [] && |lines[i - 1]| + 1 + |Words(lines[i])[0]| > w
    {
      var (a, b) := sp[i];
      assert sp[i - 1].1 + 1 == a by {
        var e := sp[i - 1].1;
        assert Blank(m, e, a);
        assert IsSpace(m[e]);
        assert !IsSpace(m[e + 1]);
      }
      FirstWord(m, a, b);
    }
  }

  /** What textwrap.wrap promises for single-spaced text, as the tutor
      client passes it:
      - there is no line exactly when the text has no word;
      - reading the lines word by word gives the words of the text, in
        order, none lost, none split;
      - every line is non-empty and is its words joined by single spaces;
      - every line fits the width, unless it is a single over-long word;
      - greedy: the first word of each line would not have fitted at the
        end of the line before it. */
  lemma WrapSpec(text: string, width: int)
    requires width > 0
    requires Line(Words(text)) == text
    ensures var lines := Wrap(text, width);
      && (lines == [] <==> AllSpace(text))
      && AllWords(lines) == Words(text)
      && (forall i :: 0 <= i < |lines| ==> lines[i] != [] && Line(Words(lines[i])) == lines[i])
      && WithinWidth(lines, width)
      && Greedy(lines, width)
  {
    WordsShape(text);
    SpacedJoin(Words(text));
    MungeSpaced(text);
    WrapLayout(text, width);
    if AllSpace(text) {
      JoinEmpty(Words(text));
    }
    SpacedLines(text, Spans(text, width), width);
    GreedyLines(text, Spans(text, width), width);
  }
}
