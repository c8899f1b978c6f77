/** The part of Python's str API that the chat clients rely on: whitespace as
    str.isspace() defines it, str.split() with and without a separator,
    str.strip(), str.splitlines(), sep.join(parts) and an ASCII str.lower(). */
module PyStr {

  /** str.isspace() for one character. */
  predicate IsSpace(c: char) {
    ('\t' <= c <= '\r') || ('\U{1C}' <= c <= ' ') || c == '\U{85}' || c == '\U{A0}'
    || c == '\U{1680}' || ('\U{2000}' <= c <= '\U{200A}') || c == '\U{2028}' || c == '\U{2029}'
    || c == '\U{202F}' || c == '\U{205F}' || c == '\U{3000}'
  }

  predicate AllSpace(s: string) {
    forall i :: 0 <= i < |s| ==> IsSpace(s[i])
  }

  /** A word as str.split() yields it: non-empty, with no whitespace in it. */
  predicate IsWord(w: string) {
    w != [] && forall i :: 0 <= i < |w| ==> !IsSpace(w[i])
  }

  predicate AllWordsOk(ws: seq<string>) {
    forall i :: 0 <= i < |ws| ==> IsWord(ws[i])
  }

  /** Puts character c in front of the first part of parts (or makes it a
      part of its own when there is none). */
  function Glue(c: char, parts: seq<string>): (r: seq<string>)
    ensures r != []
  {
    if parts == [] then [[c]] else [[c] + parts[0]] + parts[1..]
  }

  /** The words of [c] + t, given the words of t: a space adds nothing, a
      character that touches the next non-space character joins its word, and
      any other character is a word of its own. */
  function Push(c: char, ws: seq<string>, touches: bool): seq<string> {
    if IsSpace(c) then ws else if touches then Glue(c, ws) else [[c]] + ws
  }

  /** s.split(): the maximal runs of non-whitespace characters, left to right. */
  function Words(s: string): seq<string>
    decreases |s|
  {
    if s == [] then [] else Push(s[0], Words(s[1..]), |s| > 1 && !IsSpace(s[1]))
  }

  /** sep.join(parts). */
  function JoinWith(parts: seq<string>, sep: string): string {
    if parts == [] then []
    else if |parts| == 1 then parts[0]
    else parts[0] + sep + JoinWith(parts[1..], sep)
  }

  /** Concatenation of a sequence of sequences. */
  function Concat<T>(xss: seq<seq<T>>): seq<T> {
    if xss == [] then [] else xss[0] + Concat(xss[1..])
  }

  /** The words of every line, in order: what a reader sees on the screen. */
  function AllWords(lines: seq<string>): seq<string> {
    if lines == [] then [] else Words(lines[0]) + AllWords(lines[1..])
  }

  /** s.split(sep) for a non-empty separator: cut at every occurrence of sep,
      found left to right without overlap. */
  function SplitOn(s: string, sep: string): (parts: seq<string>)
    requires sep != []
    ensures parts != []
    decreases |s|
  {
    if |s| < |sep| then [s]
    else if s[..|sep|] == sep then [[]] + SplitOn(s[|sep|..], sep)
    else Glue(s[0], SplitOn(s[1..], sep))
  }

  /** The characters str.splitlines() breaks at ("\r\n" counts as one break). */
  predicate IsLineBreak(c: char) {
    ('\n' <= c <= '\r') || ('\U{1C}' <= c <= '\U{1E}') || c == '\U{85}' || c == '\U{2028}' || c == '\U{2029}'
  }

  /** s.splitlines(): the lines of s without their line breaks; no trailing
      empty line for a final break, and no line at all for the empty string. */
  function SplitLines(s: string): (lines: seq<string>)
    ensures lines == [] <==> s == []
    decreases |s|
  {
    if s == [] then []
    else if s[0] == '\r' && |s| > 1 && s[1] == '\n' then [[]] + SplitLines(s[2..])
    else if IsLineBreak(s[0]) then [[]] + SplitLines(s[1..])
    else Glue(s[0], SplitLines(s[1..]))
  }

  /** s.lstrip(): s without its leading whitespace. */
  function TrimStart(s: string): (r: string)
    ensures |r| <= |s|
    ensures r == [] || !IsSpace(r[0])
    decreases |s|
  {
    if s != [] && IsSpace(s[0]) then TrimStart(s[1..]) else s
  }

  /** What s.lstrip() drops is whitespace, and what it keeps is the rest of s. */
  lemma {:induction false} TrimStartSpec(s: string)
    ensures var r := TrimStart(s);
      r == s[|s| - |r|..] && AllSpace(s[..|s| - |r|])
    decreases |s|
  {
    if s != [] && IsSpace(s[0]) {
      var r := TrimStart(s[1..]);
      TrimStartSpec(s[1..]);
      assert s[1..][|s| - 1 - |r|..] == s[|s| - |r|..];
      assert s[..|s| - |r|] == [s[0]] + s[1..][..|s| - 1 - |r|];
    }
  }

  /** s.rstrip(): s without its trailing whitespace. */
  function TrimEnd(s: string): (r: string)
    ensures |r| <= |s|
    ensures r == [] || !IsSpace(r[|r| - 1])
    decreases |s|
  {
    if s != [] && IsSpace(s[|s| - 1]) then TrimEnd(s[..|s| - 1]) else s
  }

  /** What s.rstrip() drops is whitespace, and what it keeps is the start of s. */
  lemma {:induction false} TrimEndSpec(s: string)
    ensures var r := TrimEnd(s);
      r == s[..|r|] && AllSpace(s[|r|..])
    decreases |s|
  {
    if s != [] && IsSpace(s[|s| - 1]) {
      var r := TrimEnd(s[..|s| - 1]);
      TrimEndSpec(s[..|s| - 1]);
      assert s[..|s| - 1][..|r|] == s[..|r|];
      assert s[|r|..] == s[..|s| - 1][|r|..] + [s[|s| - 1]];
    }
  }

  /** s.strip(): empty exactly when s is all whitespace, and otherwise starting
      and ending with a non-space character. */
  function Strip(s: string): (r: string)
    ensures r == [] <==> AllSpace(s)
    ensures r != [] ==> !IsSpace(r[0]) && !IsSpace(r[|r| - 1])
  {
    var t := TrimStart(s);
    TrimStartSpec(s);
    var r := TrimEnd(t);
    TrimEndSpec(t);
    assert s == s[..|s| - |t|] + t;
    assert r == [] ==> t == t[|r|..];
    assert r != [] ==> r[0] == t[0] == s[|s| - |t|];
    r
  }

  /** s.strip() is the stretch of s left when the whitespace at both ends is
      cut off. */
  lemma StripSpec(s: string)
    ensures var r := Strip(s);
      exists i, j :: 0 <= i <= j <= |s| && r == s[i..j] && AllSpace(s[..i]) && AllSpace(s[j..])
  {
    var t := TrimStart(s);
    var r := TrimEnd(t);
    TrimStartSpec(s);
    TrimEndSpec(t);
    var i := |s| - |t|;
    var j := i + |r|;
    assert r == s[i..j];
    assert s[j..] == t[|r|..];
  }

  /** str.lower() restricted to ASCII letters. */
  function LowerChar(c: char): char {
    if 'A' <= c <= 'Z' then (c as int + 32) as char else c
  }

  function Lower(s: string): string {
    seq(|s|, i requires 0 <= i < |s| => LowerChar(s[i]))
  }

  // ---------------------------------------------------------------------------
  // Lemmas about the words of a string

  /** Every word is non-empty and free of whitespace, and there is no word
      exactly when the text is all whitespace. */
  lemma {:induction false} WordsShape(s: string)
    ensures AllWordsOk(Words(s))
    ensures Words(s) == [] <==> AllSpace(s)
    ensures s != [] && !IsSpace(s[0]) ==> Words(s) != [] && Words(s)[0][0] == s[0]
    decreases |s|
  {
    if s != [] {
      WordsShape(s[1..]);
      var ws := Words(s[1..]);
      if !IsSpace(s[0]) && |s| > 1 && !IsSpace(s[1]) {
        assert ws != [] && ws[0][0] == s[1];
        assert Words(s)[0] == [s[0]] + ws[0];
      }
      if AllSpace(s[1..]) && IsSpace(s[0]) {
        assert s == [s[0]] + s[1..];
      }
    }
  }

  /** A word is its own single word. */
  lemma {:induction false} WordsOfWord(w: string)
    requires IsWord(w)
    ensures Words(w) == [w]
    decreases |w|
  {
    assert w == [w[0]] + w[1..];
    assert !IsSpace(w[0]);
    if |w| == 1 {
      assert w[1..] == [];
      assert Words(w[1..]) == [];
      assert w == [w[0]];
    } else {
      assert !IsSpace(w[1]);
      WordsOfWord(w[1..]);
      assert Words(w) == Glue(w[0], [w[1..]]);
    }
  }

  lemma PushAppend(c: char, q: seq<string>, w: seq<string>, touches: bool)
    requires q != [] || !touches
    ensures Push(c, q + w, touches) == Push(c, q, touches) + w
  {
    if touches && q != [] {
      assert (q + w)[0] == q[0];
      assert (q + w)[1..] == q[1..] + w;
    }
  }

  /** Words distribute over concatenation when whitespace separates the two parts. */
  lemma {:induction false} WordsConcat(a: string, b: string)
    requires a == [] || b == [] || IsSpace(a[|a| - 1]) || IsSpace(b[0])
    ensures Words(a + b) == Words(a) + Words(b)
    decreases |a|
  {
    if a == [] {
      assert a + b == b;
    } else if b == [] {
      assert a + b == a;
    } else {
      var t := a[1..];
      assert (a + b)[0] == a[0];
      assert (a + b)[1..] == t + b;
      if t == [] {
        assert t + b == b;
        PushAppend(a[0], [], Words(b), false);
      } else {
        WordsConcat(t, b);
        assert (a + b)[1] == a[1];
        if !IsSpace(a[1]) { WordsShape(t); }
        PushAppend(a[0], Words(t), Words(b), !IsSpace(a[1]));
      }
    }
  }

  /** Changing whitespace into other whitespace changes no word: in particular
      a soft-wrapping newline and a space are interchangeable. */
  lemma {:induction false} WordsRespace(s: string, t: string)
    requires |s| == |t|
    requires forall i :: 0 <= i < |s| ==> (IsSpace(s[i]) <==> IsSpace(t[i]))
    requires forall i :: 0 <= i < |s| && !IsSpace(s[i]) ==> s[i] == t[i]
    ensures Words(s) == Words(t)
    decreases |s|
  {
    if s != [] {
      WordsRespace(s[1..], t[1..]);
      assert s[..1] == [s[0]];
      assert t[..1] == [t[0]];
    }
  }

  /** Joining words with single spaces and splitting again gives the words back. */
  lemma {:induction false} WordsOfJoin(ws: seq<string>)
    requires AllWordsOk(ws)
    ensures Words(JoinWith(ws, " ")) == ws
    decreases |ws|
  {
    if ws == [] {
    } else if |ws| == 1 {
      WordsOfWord(ws[0]);
    } else {
      WordsOfJoin(ws[1..]);
      var rest := JoinWith(ws[1..], " ");
      assert ws[0] + " " + rest == ws[0] + (" " + rest);
      WordsConcat(ws[0], " " + rest);
      assert (" " + rest)[1..] == rest;
      WordsOfWord(ws[0]);
    }
  }

  /** Single-space joined words are empty only when there is no word. */
  lemma {:induction false} JoinEmpty(ws: seq<string>)
    requires AllWordsOk(ws)
    ensures JoinWith(ws, " ") == [] <==> ws == []
  {
    if ws != [] {
      WordsOfJoin(ws);
    }
  }

  /** The words of a text split at whitespace separators are the words of its parts. */
  lemma {:induction false} WordsOfJoinSep(parts: seq<string>, sep: string)
    requires sep != [] && AllSpace(sep)
    ensures Words(JoinWith(parts, sep)) == AllWords(parts)
    decreases |parts|
  {
    if |parts| == 1 {
      assert AllWords(parts) == Words(parts[0]) + AllWords([]);
    } else if |parts| > 1 {
      var head := parts[0];
      var rest := JoinWith(parts[1..], sep);
      WordsOfJoinSep(parts[1..], sep);
      WordsAroundSep(head, sep, rest);
      assert JoinWith(parts, sep) == head + sep + rest;
    }
  }

  lemma WordsAroundSep(head: string, sep: string, rest: string)
    requires sep != [] && AllSpace(sep)
    ensures Words(head + sep + rest) == Words(head) + Words(rest)
  {
    WordsShape(sep);
    WordsConcat(head, sep);
    WordsConcat(head + sep, rest);
  }

  lemma {:induction false} AllWordsAppend(a: seq<string>, b: seq<string>)
    ensures AllWords(a + b) == AllWords(a) + AllWords(b)
    decreases |a|
  {
    if a != [] {
      AllWordsAppend(a[1..], b);
      assert (a + b)[1..] == a[1..] + b;
    } else {
      assert a + b == b;
    }
  }

  lemma {:induction false} ConcatAppend<T>(a: seq<seq<T>>, b: seq<seq<T>>)
    ensures Concat(a + b) == Concat(a) + Concat(b)
    decreases |a|
  {
    if a != [] {
      ConcatAppend(a[1..], b);
      assert (a + b)[1..] == a[1..] + b;
    } else {
      assert a + b == b;
    }
  }

  /** Lines grouped by source paragraph read back as the paragraphs' words
      when each group does. */
  lemma {:induction false} AllWordsOfGroups(gs: seq<seq<string>>, ps: seq<string>)
    requires |gs| == |ps|
    requires forall j :: 0 <= j < |gs| ==> AllWords(gs[j]) == Words(ps[j])
    ensures AllWords(Concat(gs)) == AllWords(ps)
    decreases |gs|
  {
    if gs != [] {
      AllWordsOfGroups(gs[1..], ps[1..]);
      AllWordsAppend(gs[0], Concat(gs[1..]));
    }
  }

  lemma ConcatSnoc<T>(groups: seq<seq<T>>, k: nat)
    requires k < |groups|
    ensures Concat(groups[..k + 1]) == Concat(groups[..k]) + groups[k]
  {
    ConcatAppend(groups[..k], [groups[k]]);
    assert groups[..k + 1] == groups[..k] + [groups[k]];
    assert Concat([groups[k]]) == groups[k] + Concat([]);
  }

  /** Where element i of a concatenation comes from: element k of part j. */
  lemma TakeDrop<T>(s: seq<T>, n: nat)
    requires n <= |s|
    ensures s == s[..n] + s[n..]
  {
  }

  lemma {:induction false} ConcatIndex<T>(xss: seq<seq<T>>, i: nat) returns (j: nat, k: nat)
    requires i < |Concat(xss)|
    ensures j < |xss| && k < |xss[j]| && xss[j][k] == Concat(xss)[i]
    decreases |xss|
  {
    if i < |xss[0]| {
      j, k := 0, i;
    } else {
      var j', k' := ConcatIndex(xss[1..], i - |xss[0]|);
      j, k := j' + 1, k';
    }
  }

  /** The number of empty lines. */
  function Blanks(lines: seq<string>): nat {
    if lines == [] then 0 else (if lines[0] == [] then 1 else 0) + Blanks(lines[1..])
  }

  /** The number of all-whitespace paragraphs. */
  function BlankCount(ps: seq<string>): nat {
    if ps == [] then 0 else (if AllSpace(ps[0]) then 1 else 0) + BlankCount(ps[1..])
  }

  lemma {:induction false} BlanksAppend(a: seq<string>, b: seq<string>)
    ensures Blanks(a + b) == Blanks(a) + Blanks(b)
    decreases |a|
  {
    if a != [] {
      BlanksAppend(a[1..], b);
      assert (a + b)[1..] == a[1..] + b;
    } else {
      assert a + b == b;
    }
  }

  /** Groups that hold one empty line per all-whitespace paragraph and none
      otherwise hold, together, one empty line per all-whitespace paragraph. */
  lemma {:induction false} BlanksOfGroups(gs: seq<seq<string>>, ps: seq<string>)
    requires |gs| == |ps|
    requires forall j :: 0 <= j < |gs| ==> Blanks(gs[j]) == (if AllSpace(ps[j]) then 1 else 0)
    ensures Blanks(Concat(gs)) == BlankCount(ps)
    decreases |gs|
  {
    if gs != [] {
      BlanksOfGroups(gs[1..], ps[1..]);
      BlanksAppend(gs[0], Concat(gs[1..]));
    }
  }

  // ---------------------------------------------------------------------------
  // Lemmas about splitting

  lemma JoinGlue(c: char, parts: seq<string>, sep: string)
    requires parts != []
    ensures JoinWith(Glue(c, parts), sep) == [c] + JoinWith(parts, sep)
  {
    var g := Glue(c, parts);
    assert g[0] == [c] + parts[0];
    assert g[1..] == parts[1..];
    if |parts| > 1 {
      var x := JoinWith(parts[1..], sep);
      calc {
        JoinWith(g, sep);
        g[0] + sep + x;
        [c] + parts[0] + sep + x;
        [c] + (parts[0] + sep + x);
      }
    }
  }

  lemma GlueAppend(c: char, p: seq<string>, q: seq<string>)
    requires p != []
    ensures Glue(c, p + q) == Glue(c, p) + q
  {
    assert (p + q)[0] == p[0];
    assert (p + q)[1..] == p[1..] + q;
  }

  /** Joining the parts of s.split(sep) with sep gives s back. */
  lemma {:induction false} JoinSplitOn(s: string, sep: string)
    requires sep != []
    ensures JoinWith(SplitOn(s, sep), sep) == s
    decreases |s|
  {
    if |s| >= |sep| {
      if s[..|sep|] == sep {
        var t := s[|sep|..];
        var r := SplitOn(t, sep);
        JoinSplitOn(t, sep);
        assert SplitOn(s, sep) == [[]] + r;
        JoinCons([], r, sep);
        TakeDrop(s, |sep|);
      } else {
        var t := s[1..];
        JoinSplitOn(t, sep);
        assert SplitOn(s, sep) == Glue(s[0], SplitOn(t, sep));
        JoinGlue(s[0], SplitOn(t, sep), sep);
        TakeDrop(s, 1);
        assert s[..1] == [s[0]];
      }
    }
  }

  /** Joining a first part onto at least one more puts the separator
      between them. */
  lemma JoinCons(x: string, r: seq<string>, sep: string)
    requires r != []
    ensures JoinWith([x] + r, sep) == x + sep + JoinWith(r, sep)
  {
    assert ([x] + r)[1..] == r;
  }

  /** Splitting at a one-character separator is compositional: text on either
      side of one separator is split independently. */
  lemma {:induction false} SplitOnCharConcat(a: string, c: char, b: string)
    ensures SplitOn(a + [c] + b, [c]) == SplitOn(a, [c]) + SplitOn(b, [c])
    decreases |a|
  {
    var s := a + [c] + b;
    if a == [] {
      assert s == [c] + b;
      assert s[..1] == [c];
      assert s[1..] == b;
    } else {
      assert s[..1] == [a[0]];
      assert s[1..] == a[1..] + [c] + b;
      SplitOnCharConcat(a[1..], c, b);
      if a[0] != c {
        assert a[..1] == [a[0]];
        GlueAppend(a[0], SplitOn(a[1..], [c]), SplitOn(b, [c]));
      } else {
        assert a[..1] == [c];
      }
    }
  }

  /** sep occurs in s at position i. */
  predicate OccursAt(s: string, sep: string, i: int) {
    0 <= i && i + |sep| <= |s| && s[i..i + |sep|] == sep
  }

  /** A text in which the separator never occurs is one part. */
  lemma {:induction false} SplitOnAbsent(s: string, sep: string)
    requires sep != []
    requires forall i :: !OccursAt(s, sep, i)
    ensures SplitOn(s, sep) == [s]
    decreases |s|
  {
    if |s| >= |sep| {
      assert s[0..0 + |sep|] == s[..|sep|];
      assert !OccursAt(s, sep, 0);
      forall i ensures !OccursAt(s[1..], sep, i) {
        if OccursAt(s[1..], sep, i) {
          assert s[1..][i..i + |sep|] == s[i + 1..i + 1 + |sep|];
          assert OccursAt(s, sep, i + 1);
        }
      }
      SplitOnAbsent(s[1..], sep);
      assert [s[0]] + s[1..] == s;
    }
  }

  /** The only line break in s is '\n'. */
  predicate OnlyNewlines(s: string) {
    forall i :: 0 <= i < |s| && IsLineBreak(s[i]) ==> s[i] == '\n'
  }

  /** When the only line break in s is '\n' and s does not end with one,
      joining its lines with '\n' gives s back. */
  lemma {:induction false} JoinSplitLines(s: string)
    requires OnlyNewlines(s)
    requires s == [] || s[|s| - 1] != '\n'
    ensures JoinWith(SplitLines(s), "\n") == s
    decreases |s|
  {
    if s != [] {
      var t := s[1..];
      assert OnlyNewlines(t) by {
        forall i | 0 <= i < |t| && IsLineBreak(t[i]) ensures t[i] == '\n' {
          assert t[i] == s[i + 1];
        }
      }
      assert t == [] || t[|t| - 1] == s[|s| - 1];
      JoinSplitLines(t);
      var r := SplitLines(t);
      assert IsLineBreak(s[0]) ==> s[0] == '\n';
      assert s == [s[0]] + t;
      if s[0] == '\n' {
        assert t != [];
        assert JoinWith([[]] + r, "\n") == [] + "\n" + JoinWith(r, "\n");
      } else if r == [] {
        assert t == [];
      } else {
        JoinGlue(s[0], r, "\n");
      }
    }
  }
}
