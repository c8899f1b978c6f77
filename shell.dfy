/** Quoting of a message for a POSIX shell command line (section 2.2 of the
    POSIX Shell Command Language, "Quoting"): the clients' hand-written
    single-quote escape, Python's shlex.quote, and the unquoting a POSIX
    shell applies to one argument word. */
module Shell {
  import opened Wrappers

  predicate NoQuote(s: string) {
    forall i :: 0 <= i < |s| ==> s[i] != '\''
  }

  /** The first index of c in s, or |s| when c does not occur. */
  function IndexOf(s: string, c: char): (k: nat)
    ensures k <= |s|
    ensures forall i :: 0 <= i < k ==> s[i] != c
    ensures k < |s| ==> s[k] == c
  {
    if s == [] then 0 else if s[0] == c then 0 else 1 + IndexOf(s[1..], c)
  }

  // ---------------------------------------------------------------------------
  // Quoting as the clients do it

  /** msg.replace("'", "'\\''"): every single quote becomes quote, backslash,
      quote, quote (close the quoted span, an escaped quote, reopen). */
  function EscapeQuotes(s: string): string {
    if s == [] then []
    else (if s[0] == '\'' then "'\\''" else [s[0]]) + EscapeQuotes(s[1..])
  }

  /** The characters shlex.quote leaves unquoted: ASCII letters and digits
      and _ @ % + = : , . / - */
  predicate IsSafe(c: char) {
    ('a' <= c <= 'z') || ('A' <= c <= 'Z') || ('0' <= c <= '9')
    || c == '_' || c == '@' || c == '%' || c == '+' || c == '=' || c == ':' || c == ',' || c == '.' || c == '/' || c == '-'
  }

  predicate AllSafe(s: string) {
    forall i :: 0 <= i < |s| ==> IsSafe(s[i])
  }

  /** s.replace("'", "'\"'\"'"): the escape shlex.quote uses inside its quotes. */
  function ShlexEscape(s: string): string {
    if s == [] then []
    else (if s[0] == '\'' then "'\"'\"'" else [s[0]]) + ShlexEscape(s[1..])
  }

  /** shlex.quote(s). */
  function ShlexQuote(s: string): string {
    if s == [] then "''"
    else if AllSafe(s) then s
    else "'" + ShlexEscape(s) + "'"
  }

  // ---------------------------------------------------------------------------
  // What a POSIX shell makes of one argument word

  /** Characters that stand for something other than themselves when unquoted
      (section 2.2: | & ; < > ( ) $ ` \ " ' space tab newline, and the
      characters that may need quoting: * ? [ # ~). */
  predicate IsSpecial(c: char) {
    c == '|' || c == '&' || c == ';' || c == '<' || c == '>' || c == '(' || c == ')' || c == '$'
    || c == '`' || c == '\\' || c == '"' || c == '\'' || c == ' ' || c == '\t' || c == '\n'
    || c == '*' || c == '?' || c == '[' || c == '#' || c == '~'
  }

  /** Characters that keep a special meaning inside double quotes (section 2.2.3). */
  predicate IsDoubleQuoteSpecial(c: char) {
    c == '$' || c == '`' || c == '\\' || c == '"'
  }

  /** No character of s keeps a special meaning inside double quotes. */
  predicate NoDoubleQuoteSpecial(s: string) {
    s == [] || (!IsDoubleQuoteSpecial(s[0]) && NoDoubleQuoteSpecial(s[1..]))
  }

  function Prefix(p: string, r: Option<string>): Option<string> {
    match r
    case None => None
    case Some(v) => Some(p + v)
  }

  /** The value of one shell word made of unquoted ordinary characters,
      backslash escapes (section 2.2.1), single-quoted spans (section 2.2.2)
      and double-quoted spans without expansions (section 2.2.3); None for an
      unterminated quote, a trailing backslash, or anything that would split,
      expand or redirect (not a single literal argument). */
  function Unquote(w: string): Option<string>
    decreases |w|
  {
    if w == [] then Some([])
    else if w[0] == '\'' then
      var n := IndexOf(w[1..], '\'');
      if n == |w| - 1 then None else Prefix(w[1..n + 1], Unquote(w[n + 2..]))
    else if w[0] == '"' then
      var n := IndexOf(w[1..], '"');
      if n == |w| - 1 then None
      else if !NoDoubleQuoteSpecial(w[1..n + 1]) then None
      else Prefix(w[1..n + 1], Unquote(w[n + 2..]))
    else if w[0] == '\\' then
      if |w| == 1 then None
      else if w[1] == '\n' then Unquote(w[2..])
      else Prefix([w[1]], Unquote(w[2..]))
    else if IsSpecial(w[0]) then None
    else Prefix([w[0]], Unquote(w[1..]))
  }

  // ---------------------------------------------------------------------------
  // os.path.dirname on POSIX paths

  predicate AllSlash(s: string) {
    forall k :: 0 <= k < |s| ==> s[k] == '/'
  }

  /** p.rfind('/') + 1: the length of p up to and including its last slash. */
  function LastSlashEnd(p: string): (i: nat)
    ensures i <= |p|
    ensures i > 0 ==> p[i - 1] == '/'
    ensures forall k :: i <= k < |p| ==> p[k] != '/'
  {
    if p == [] then 0 else if p[|p| - 1] == '/' then |p| else LastSlashEnd(p[..|p| - 1])
  }

  /** s.rstrip('/'). */
  function TrimSlashes(s: string): (r: string)
    ensures |r| <= |s| && r == s[..|r|] && AllSlash(s[|r|..])
    ensures r == [] || r[|r| - 1] != '/'
  {
    if s != [] && s[|s| - 1] == '/' then
      var r := TrimSlashes(s[..|s| - 1]);
      assert s[..|s| - 1][..|r|] == s[..|r|];
      assert s[|r|..] == s[..|s| - 1][|r|..] + [s[|s| - 1]];
      r
    else
      s
  }

  /** os.path.dirname(p): everything before the last slash, without trailing
      slashes unless it is made only of slashes. */
  function DirName(p: string): (d: string)
    ensures |d| <= |p| && d == p[..|d|]
  {
    var head := p[..LastSlashEnd(p)];
    if head != [] && !AllSlash(head) then TrimSlashes(head) else head
  }

  // ---------------------------------------------------------------------------
  // Lemmas

  /** A name inside a directory d has d as its directory. */
  lemma DirNameOfFile(d: string, f: string)
    requires d != [] && d[|d| - 1] != '/' && !AllSlash(d)
    requires forall k :: 0 <= k < |f| ==> f[k] != '/'
    ensures DirName(d + "/" + f) == d
  {
    var p := d + "/" + f;
    var i := LastSlashEnd(p);
    assert p[|d|] == '/';
    assert i == |d| + 1;
    assert p[..i] == d + "/";
    assert TrimSlashes(d + "/") == TrimSlashes(d) by {
      assert (d + "/")[..|d + "/"| - 1] == d;
    }
    assert !AllSlash(d + "/") by {
      var k :| 0 <= k < |d| && d[k] != '/';
      assert (d + "/")[k] == d[k];
    }
  }


  lemma {:induction false} EscapeConcat(a: string, b: string)
    ensures EscapeQuotes(a + b) == EscapeQuotes(a) + EscapeQuotes(b)
    decreases |a|
  {
    if a == [] {
      assert a + b == b;
    } else {
      assert (a + b)[0] == a[0];
      assert (a + b)[1..] == a[1..] + b;
      EscapeConcat(a[1..], b);
    }
  }

  lemma {:induction false} ShlexEscapeConcat(a: string, b: string)
    ensures ShlexEscape(a + b) == ShlexEscape(a) + ShlexEscape(b)
    decreases |a|
  {
    if a == [] {
      assert a + b == b;
    } else {
      assert (a + b)[0] == a[0];
      assert (a + b)[1..] == a[1..] + b;
      ShlexEscapeConcat(a[1..], b);
    }
  }

  function CountQuotes(s: string): nat {
    if s == [] then 0 else (if s[0] == '\'' then 1 else 0) + CountQuotes(s[1..])
  }

  /** The escape adds three characters per single quote and changes nothing
      else: a message without a quote is left as it is, and any message with
      one is changed. */
  lemma {:induction false} EscapeLength(s: string)
    ensures |EscapeQuotes(s)| == |s| + 3 * CountQuotes(s)
    ensures EscapeQuotes(s) == s <==> NoQuote(s)
    decreases |s|
  {
    if s != [] {
      EscapeLength(s[1..]);
      assert NoQuote(s) <==> s[0] != '\'' && NoQuote(s[1..]);
      if s[0] != '\'' {
        assert EscapeQuotes(s) == [s[0]] + EscapeQuotes(s[1..]);
        assert s == [s[0]] + s[1..];
      }
    }
  }

  lemma {:induction false} EscapeNoQuote(s: string)
    requires NoQuote(s)
    ensures EscapeQuotes(s) == s && ShlexEscape(s) == s
    decreases |s|
  {
    if s != [] {
      EscapeNoQuote(s[1..]);
      assert s == [s[0]] + s[1..];
    }
  }

  /** A single-quoted span without a quote inside stands for its content. */
  lemma UnquoteSingleSpan(q: string, rest: string)
    requires NoQuote(q)
    ensures Unquote("'" + q + "'" + rest) == Prefix(q, Unquote(rest))
  {
    var w := "'" + q + "'" + rest;
    assert w[1..] == q + "'" + rest;
    var n := IndexOf(w[1..], '\'');
    assert (q + "'" + rest)[|q|] == '\'';
    assert n == |q|;
    assert w[1..n + 1] == q;
    assert w[n + 2..] == rest;
  }

  /** A double-quoted span holding only a single quote stands for that quote. */
  lemma UnquoteDoubleQuotedQuote(rest: string)
    ensures Unquote("\"'\"" + rest) == Prefix("'", Unquote(rest))
  {
    var w := "\"'\"" + rest;
    assert w[1..] == "'\"" + rest;
    assert IndexOf(w[1..], '"') == 1;
    assert w[1..2] == "'";
    assert w[3..] == rest;
    assert NoDoubleQuoteSpecial(w[1..2]);
  }

  /** A backslash-escaped quote stands for a quote. */
  lemma UnquoteEscapedQuote(rest: string)
    ensures Unquote("\\'" + rest) == Prefix("'", Unquote(rest))
  {
    var w := "\\'" + rest;
    assert w[1] == '\'';
    assert w[2..] == rest;
  }

  /** Escaping a message that holds a single quote, at the first one. */
  lemma EscapeAtQuote(a: string, b: string)
    requires NoQuote(a)
    ensures EscapeQuotes(a + ("'" + b)) == a + ("'\\''" + EscapeQuotes(b))
    ensures ShlexEscape(a + ("'" + b)) == a + ("'\"'\"'" + ShlexEscape(b))
  {
    EscapeConcat(a, "'" + b);
    ShlexEscapeConcat(a, "'" + b);
    EscapeNoQuote(a);
    assert ("'" + b)[1..] == b;
  }

  lemma NoQuoteConcat(x: string, y: string)
    requires NoQuote(x) && NoQuote(y)
    ensures NoQuote(x + y)
  {
    forall i | 0 <= i < |x + y|
      ensures (x + y)[i] != '\''
    {
      if i < |x| {
        assert (x + y)[i] == x[i];
      } else {
        assert (x + y)[i] == y[i - |x|];
      }
    }
  }

  /** A quote-free text in single quotes stands for itself. */
  lemma UnquoteQuoteFree(q: string)
    requires NoQuote(q)
    ensures Unquote("'" + q + "'") == Some(q)
  {
    UnquoteSingleSpan(q, "");
    assert "'" + q + "'" == "'" + q + "'" + "";
    assert Unquote("") == Some([]);
    assert q + [] == q;
  }

  /** A message without a single quote needs no escape. */
  lemma UnquoteNoEscape(p: string, m: string)
    requires NoQuote(p) && NoQuote(m)
    ensures Unquote("'" + p + EscapeQuotes(m) + "'") == Some(p + m)
    ensures Unquote("'" + p + ShlexEscape(m) + "'") == Some(p + m)
  {
    assert Unquote("'" + (p + m) + "'") == Some(p + m) by {
      NoQuoteConcat(p, m);
      UnquoteQuoteFree(p + m);
    }
    assert "'" + p + m + "'" == "'" + (p + m) + "'";
    EscapeNoQuote(m);
  }

  /** Regrouping of a quoted word around the escape of one quote. */
  lemma Regroup(p: string, a: string, mid: string, eb: string)
    ensures "'" + p + (a + ("'" + mid + "'" + eb)) + "'" == "'" + (p + a) + "'" + (mid + ("'" + eb + "'"))
  {
  }

  /** The word around the first escaped quote, regrouped as a quoted span,
      the quote's own escape, and the rest of the word. */
  lemma EscapedWord(p: string, a: string, b: string)
    requires NoQuote(a)
    ensures "'" + p + EscapeQuotes(a + ("'" + b)) + "'" == "'" + (p + a) + "'" + ("\\'" + ("'" + EscapeQuotes(b) + "'"))
  {
    EscapeAtQuote(a, b);
    assert "'\\''" + EscapeQuotes(b) == "'" + "\\'" + "'" + EscapeQuotes(b);
    Regroup(p, a, "\\'", EscapeQuotes(b));
  }

  /** One escaped quote between two quote-free parts: if the shell reads
      the rest of the word as b, it reads the whole word as p + a + "'" + b. */
  lemma UnquoteEscapedStep(p: string, a: string, b: string)
    requires NoQuote(p) && NoQuote(a)
    requires Unquote("'" + [] + EscapeQuotes(b) + "'") == Some([] + b)
    ensures Unquote("'" + p + EscapeQuotes(a + ("'" + b)) + "'") == Some((p + a) + ("'" + b))
  {
    var T := "'" + EscapeQuotes(b) + "'";
    var R := "\\'" + T;
    assert Unquote(T) == Some(b) by {
      assert "'" + [] + EscapeQuotes(b) + "'" == T;
      assert [] + b == b;
    }
    assert Unquote(R) == Some("'" + b) by {
      UnquoteEscapedQuote(T);
    }
    assert "'" + p + EscapeQuotes(a + ("'" + b)) + "'" == "'" + (p + a) + "'" + R by {
      EscapedWord(p, a, b);
    }
    NoQuoteConcat(p, a);
    UnquoteSingleSpan(p + a, R);
  }

  /** The word around the first escaped quote, regrouped as a quoted span,
      the quote's own escape, and the rest of the word. */
  lemma ShlexEscapedWord(p: string, a: string, b: string)
    requires NoQuote(a)
    ensures "'" + p + ShlexEscape(a + ("'" + b)) + "'" == "'" + (p + a) + "'" + ("\"'\"" + ("'" + ShlexEscape(b) + "'"))
  {
    EscapeAtQuote(a, b);
    assert "'\"'\"'" + ShlexEscape(b) == "'" + "\"'\"" + "'" + ShlexEscape(b);
    Regroup(p, a, "\"'\"", ShlexEscape(b));
  }

  lemma UnquoteShlexEscapedStep(p: string, a: string, b: string)
    requires NoQuote(p) && NoQuote(a)
    requires Unquote("'" + [] + ShlexEscape(b) + "'") == Some([] + b)
    ensures Unquote("'" + p + ShlexEscape(a + ("'" + b)) + "'") == Some((p + a) + ("'" + b))
  {
    var T := "'" + ShlexEscape(b) + "'";
    var R := "\"'\"" + T;
    assert Unquote(T) == Some(b) by {
      assert "'" + [] + ShlexEscape(b) + "'" == T;
      assert [] + b == b;
    }
    assert Unquote(R) == Some("'" + b) by {
      UnquoteDoubleQuotedQuote(T);
    }
    assert "'" + p + ShlexEscape(a + ("'" + b)) + "'" == "'" + (p + a) + "'" + R by {
      ShlexEscapedWord(p, a, b);
    }
    NoQuoteConcat(p, a);
    UnquoteSingleSpan(p + a, R);
  }

  /** A text cut at its first single quote: a quote-free part, the quote,
      and the rest. */
  lemma SplitAtQuote(m: string, i: nat)
    requires i == IndexOf(m, '\'') && i < |m|
    ensures NoQuote(m[..i]) && m == m[..i] + ("'" + m[i + 1..])
  {
    QuoteFreeBefore(m, i);
    CutAt(m, i, '\'');
  }

  lemma QuoteFreeBefore(m: string, i: nat)
    requires i == IndexOf(m, '\'')
    ensures NoQuote(m[..i])
  {
    forall j | 0 <= j < i
      ensures m[..i][j] != '\''
    {
      assert m[..i][j] == m[j];
    }
  }

  /** A text is what comes before position i, its character there, and
      what follows. */
  lemma CutAt(m: string, i: nat, c: char)
    requires i < |m| && m[i] == c
    ensures m == m[..i] + ([c] + m[i + 1..])
  {
    assert [c] + m[i + 1..] == m[i..];
  }

  /** The clients' remote quoting round-trips: the shell reads the word
      "'" + p + EscapeQuotes(m) + "'" back as exactly p + m. */
  lemma {:induction false} UnquoteEscaped(p: string, m: string)
    requires NoQuote(p)
    ensures Unquote("'" + p + EscapeQuotes(m) + "'") == Some(p + m)
    decreases |m|
  {
    var i := IndexOf(m, '\'');
    if i == |m| {
      UnquoteNoEscape(p, m);
    } else {
      var a, b := m[..i], m[i + 1..];
      SplitAtQuote(m, i);
      UnquoteEscaped([], b);
      UnquoteEscapedStep(p, a, b);
      assert p + m == (p + a) + ("'" + b);
    }
  }

  /** shlex.quote's quoting branch round-trips the same way. */
  lemma {:induction false} UnquoteShlexEscaped(p: string, m: string)
    requires NoQuote(p)
    ensures Unquote("'" + p + ShlexEscape(m) + "'") == Some(p + m)
    decreases |m|
  {
    var i := IndexOf(m, '\'');
    if i == |m| {
      UnquoteNoEscape(p, m);
    } else {
      var a, b := m[..i], m[i + 1..];
      SplitAtQuote(m, i);
      UnquoteShlexEscaped([], b);
      UnquoteShlexEscapedStep(p, a, b);
      assert p + m == (p + a) + ("'" + b);
    }
  }

  /** A word of safe characters stands for itself. */
  lemma {:induction false} UnquoteSafe(s: string)
    requires AllSafe(s)
    ensures Unquote(s) == Some(s)
    decreases |s|
  {
    if s != [] {
      assert AllSafe(s[1..]);
      UnquoteSafe(s[1..]);
      assert s == [s[0]] + s[1..];
    }
  }

  /** shlex.quote(s) is read back by the shell as exactly s, for every s. */
  lemma ShlexRoundTrip(s: string)
    ensures Unquote(ShlexQuote(s)) == Some(s)
  {
    if s == [] {
      UnquoteSingleSpan("", "");
      assert "''" == "'" + "" + "'" + "";
    } else if AllSafe(s) {
      UnquoteSafe(s);
    } else {
      UnquoteShlexEscaped("", s);
      assert "'" + "" == "'";
      assert "'" + ShlexEscape(s) + "'" == "'" + "" + ShlexEscape(s) + "'";
      assert "" + s == s;
    }
  }

  /** A text with a space in it is never left bare by shlex.quote: it is
      always put in single quotes. */
  lemma ShlexQuotesSpaced(s: string, i: nat)
    requires i < |s| && s[i] == ' '
    ensures ShlexQuote(s) == "'" + ShlexEscape(s) + "'"
  {
    assert !IsSafe(s[i]);
  }
}
