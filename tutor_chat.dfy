/** tui/tutor-chat.py: a REPL that sends each typed line to the tutor agent
    and prints the reply reflowed to the terminal width. A reply arrives
    already wrapped by the backend, so it is cut into paragraphs at blank
    lines ("\n\n"), the whitespace inside each paragraph is collapsed, and
    each paragraph is wrapped again; the first paragraph leaves room for the
    "Name → " label, the others for a four-space indent. */
module TutorChat {
  import opened PyStr
  import TextWrap
  import Shell
  import Wrappers
  import Repl

  // ---------------------------------------------------------------------------
  // Reflow (wrap_text)

  /** text.split('\n\n'): the paragraphs of a reply. */
  function Paragraphs(text: string): (ps: seq<string>)
    ensures ps != []
  {
    SplitOn(text, "\n\n")
  }

  /** ' '.join(paragraph.split()): the paragraph with its soft wraps and
      other whitespace runs collapsed to single spaces. */
  function Collapse(p: string): string {
    JoinWith(Words(p), " ")
  }

  /** The lines one paragraph gives at wrap width w: one empty line for a
      blank paragraph, otherwise its wrap. */
  function ParagraphLines(p: string, w: int): seq<string>
    requires w > 0
  {
    var reflowed := Collapse(p);
    if reflowed == [] then [""]
    else
      var wrapped := TextWrap.Wrap(reflowed, w);
      if wrapped != [] then wrapped else [""]
  }

  /** The wrap width of paragraph j: only paragraph 0 is wrapped with the
      first-line prefix in mind, whether or not it is blank. */
  function Bound(j: nat, width: int, firstPrefixLen: int, contPrefixLen: int): int {
    if j == 0 then width - firstPrefixLen else width - contPrefixLen
  }

  /** The lines of each paragraph, paragraph by paragraph. */
  function Groups(text: string, width: int, firstPrefixLen: int, contPrefixLen: int): (gs: seq<seq<string>>)
    requires width > firstPrefixLen && width > contPrefixLen
    ensures |gs| == |Paragraphs(text)|
  {
    var ps := Paragraphs(text);
    seq(|ps|, j requires 0 <= j < |ps| => ParagraphLines(ps[j], Bound(j, width, firstPrefixLen, contPrefixLen)))
  }

  /** What wrap_text returns: the lines of all paragraphs, in order. */
  function Reflow(text: string, width: int, firstPrefixLen: int, contPrefixLen: int): seq<string>
    requires width > firstPrefixLen && width > contPrefixLen
  {
    Concat(Groups(text, width, firstPrefixLen, contPrefixLen))
  }

  /** wrap_text: a loop over the paragraphs that extends `lines` and clears
      `isFirst` after the first paragraph, blank or not. */
  method WrapText(text: string, width: int, firstPrefixLen: int, contPrefixLen: int) returns (lines: seq<string>)
    requires width > firstPrefixLen && width > contPrefixLen
    ensures lines == Reflow(text, width, firstPrefixLen, contPrefixLen)
  {
    lines := [];
    var isFirst := true;
    var paragraphs := SplitOn(text, "\n\n");
    ghost var groups := Groups(text, width, firstPrefixLen, contPrefixLen);
    for k := 0 to |paragraphs|
      invariant isFirst <==> k == 0
      invariant lines == Concat(groups[..k])
    {
      ConcatSnoc(groups, k);
      var reflowed := JoinWith(Words(paragraphs[k]), " ");
      if reflowed == [] {
        lines := lines + [""];
        isFirst := false;
        continue;
      }
      if isFirst {
        var firstWrapped := TextWrap.Wrap(reflowed, width - firstPrefixLen);
        lines := lines + (if firstWrapped != [] then firstWrapped else [""]);
        isFirst := false;
      } else {
        var wrapped := TextWrap.Wrap(reflowed, width - contPrefixLen);
        lines := lines + (if wrapped != [] then wrapped else [""]);
      }
    }
    assert groups[..|paragraphs|] == groups;
  }

  // ---------------------------------------------------------------------------
  // Properties of the reflow

  /** One paragraph: at least one line; a blank paragraph gives exactly one
      empty line; any other paragraph gives non-empty lines that read back as
      its words, each its words joined by single spaces, each within the
      width unless it is one over-long word, and greedy. */
  lemma ParagraphLinesSpec(p: string, w: int)
    requires w > 0
    ensures var ls := ParagraphLines(p, w);
      && ls != []
      && AllWords(ls) == Words(p)
      && (AllSpace(p) ==> ls == [""])
      && (!AllSpace(p) ==> forall i :: 0 <= i < |ls| ==> ls[i] != [] && TextWrap.Line(Words(ls[i])) == ls[i])
      && TextWrap.WithinWidth(ls, w)
      && TextWrap.Greedy(ls, w)
      && Blanks(ls) == (if AllSpace(p) then 1 else 0)
  {
    var ws := Words(p);
    var reflowed := Collapse(p);
    WordsShape(p);
    WordsOfJoin(ws);
    JoinEmpty(ws);
    if reflowed == [] {
      assert ParagraphLines(p, w) == [""];
      assert AllWords([""]) == Words("") + AllWords([]);
      assert Blanks([""]) == 1 + Blanks([]);
    } else {
      WordsShape(reflowed);
      TextWrap.WrapSpec(reflowed, w);
      var ls := TextWrap.Wrap(reflowed, w);
      assert ParagraphLines(p, w) == ls;
      NoBlanks(ls);
    }
  }

  lemma {:induction false} NoBlanks(ls: seq<string>)
    requires forall i :: 0 <= i < |ls| ==> ls[i] != []
    ensures Blanks(ls) == 0
    decreases |ls|
  {
    if ls != [] {
      NoBlanks(ls[1..]);
    }
  }

  /** The words of a reply are the words of its paragraphs. */
  lemma WordsOfParagraphs(text: string)
    ensures AllWords(Paragraphs(text)) == Words(text)
  {
    JoinSplitOn(text, "\n\n");
    WordsOfJoinSep(Paragraphs(text), "\n\n");
  }

  /** No word of the reply is lost, reordered, split or invented: reading the
      output lines word by word gives text.split(). */
  lemma ReflowWords(text: string, width: int, firstPrefixLen: int, contPrefixLen: int)
    requires width > firstPrefixLen && width > contPrefixLen
    ensures AllWords(Reflow(text, width, firstPrefixLen, contPrefixLen)) == Words(text)
  {
    var ps := Paragraphs(text);
    var gs := Groups(text, width, firstPrefixLen, contPrefixLen);
    forall j | 0 <= j < |gs| ensures AllWords(gs[j]) == Words(ps[j]) {
      ParagraphLinesSpec(ps[j], Bound(j, width, firstPrefixLen, contPrefixLen));
    }
    AllWordsOfGroups(gs, ps);
    WordsOfParagraphs(text);
  }

  /** The layout of each paragraph's lines: paragraph 0 is wrapped at
      width - firstPrefixLen and every later one at width - contPrefixLen
      (even when paragraph 0 was blank); no line is longer than its bound
      unless it is one over-long word; and a line ends only where the next
      word would not have fitted. */
  lemma ReflowLayout(text: string, width: int, firstPrefixLen: int, contPrefixLen: int)
    requires width > firstPrefixLen && width > contPrefixLen
    ensures var gs := Groups(text, width, firstPrefixLen, contPrefixLen);
      var ps := Paragraphs(text);
      && Reflow(text, width, firstPrefixLen, contPrefixLen) == Concat(gs)
      && (forall j :: 0 <= j < |gs| ==> gs[j] != [] && AllWords(gs[j]) == Words(ps[j]))
      && (forall j :: 0 <= j < |gs| ==> TextWrap.WithinWidth(gs[j], if j == 0 then width - firstPrefixLen else width - contPrefixLen))
      && (forall j :: 0 <= j < |gs| ==> TextWrap.Greedy(gs[j], Bound(j, width, firstPrefixLen, contPrefixLen)))
  {
    var gs := Groups(text, width, firstPrefixLen, contPrefixLen);
    var ps := Paragraphs(text);
    forall j | 0 <= j < |gs|
      ensures gs[j] != [] && AllWords(gs[j]) == Words(ps[j])
      ensures TextWrap.WithinWidth(gs[j], Bound(j, width, firstPrefixLen, contPrefixLen))
      ensures TextWrap.Greedy(gs[j], Bound(j, width, firstPrefixLen, contPrefixLen))
    {
      ParagraphLinesSpec(ps[j], Bound(j, width, firstPrefixLen, contPrefixLen));
    }
  }

  /** Empty lines come only from blank paragraphs, one each: two non-blank
      paragraphs next to each other get no empty line between them. */
  lemma ReflowBlankLines(text: string, width: int, firstPrefixLen: int, contPrefixLen: int)
    requires width > firstPrefixLen && width > contPrefixLen
    ensures Blanks(Reflow(text, width, firstPrefixLen, contPrefixLen)) == BlankCount(Paragraphs(text))
  {
    var ps := Paragraphs(text);
    var gs := Groups(text, width, firstPrefixLen, contPrefixLen);
    forall j | 0 <= j < |gs| ensures Blanks(gs[j]) == (if AllSpace(ps[j]) then 1 else 0) {
      ParagraphLinesSpec(ps[j], Bound(j, width, firstPrefixLen, contPrefixLen));
    }
    BlanksOfGroups(gs, ps);
  }

  /** An all-whitespace reply gives one empty line per paragraph: [""] when
      it holds no "\n\n", and more than one line otherwise. */
  lemma ReflowBlankText(text: string, width: int, firstPrefixLen: int, contPrefixLen: int)
    requires width > firstPrefixLen && width > contPrefixLen
    requires AllSpace(text)
    ensures var out := Reflow(text, width, firstPrefixLen, contPrefixLen);
      && |out| == |Paragraphs(text)|
      && (forall i :: 0 <= i < |out| ==> out[i] == "")
      && ((forall i :: !OccursAt(text, "\n\n", i)) ==> out == [""])
  {
    var ps := Paragraphs(text);
    var gs := Groups(text, width, firstPrefixLen, contPrefixLen);
    WordsOfParagraphs(text);
    WordsShape(text);
    forall j | 0 <= j < |gs| ensures gs[j] == [""] {
      NoWordsInPart(ps, j);
      WordsShape(ps[j]);
      ParagraphLinesSpec(ps[j], Bound(j, width, firstPrefixLen, contPrefixLen));
    }
    SingletonLines(gs);
    if forall i :: !OccursAt(text, "\n\n", i) {
      SplitOnAbsent(text, "\n\n");
    }
  }

  /** When the paragraphs together have no words, none of them has. */
  lemma {:induction false} NoWordsInPart(ps: seq<string>, j: nat)
    requires AllWords(ps) == [] && j < |ps|
    ensures Words(ps[j]) == []
    decreases j
  {
    if j > 0 {
      NoWordsInPart(ps[1..], j - 1);
    }
  }

  lemma {:induction false} SingletonLines(gs: seq<seq<string>>)
    requires forall j :: 0 <= j < |gs| ==> gs[j] == [""]
    ensures |Concat(gs)| == |gs| && forall i :: 0 <= i < |gs| ==> Concat(gs)[i] == ""
    decreases |gs|
  {
    if gs != [] {
      SingletonLines(gs[1..]);
    }
  }

  /** De-wrapping: a reply whose paragraphs have the same words as another's
      reflows to the same lines, however the whitespace inside each paragraph
      differs (single newlines, runs of spaces, tabs). */
  lemma ReflowDewrap(s: string, t: string, width: int, firstPrefixLen: int, contPrefixLen: int)
    requires width > firstPrefixLen && width > contPrefixLen
    requires |Paragraphs(s)| == |Paragraphs(t)|
    requires forall j :: 0 <= j < |Paragraphs(s)| ==> Words(Paragraphs(s)[j]) == Words(Paragraphs(t)[j])
    ensures Reflow(s, width, firstPrefixLen, contPrefixLen) == Reflow(t, width, firstPrefixLen, contPrefixLen)
  {
    var gs := Groups(s, width, firstPrefixLen, contPrefixLen);
    var gt := Groups(t, width, firstPrefixLen, contPrefixLen);
    forall j | 0 <= j < |gs| ensures gs[j] == gt[j] {
      assert Collapse(Paragraphs(s)[j]) == Collapse(Paragraphs(t)[j]);
    }
    assert gs == gt;
  }

  /** In particular, turning soft-wrap newlines of a one-paragraph reply
      into spaces changes nothing. */
  lemma ReflowSoftWraps(s: string, t: string, width: int, firstPrefixLen: int, contPrefixLen: int)
    requires width > firstPrefixLen && width > contPrefixLen
    requires |s| == |t|
    requires forall i :: 0 <= i < |s| ==> s[i] == t[i] || (s[i] == '\n' && t[i] == ' ')
    requires forall i :: !OccursAt(s, "\n\n", i)
    ensures Reflow(s, width, firstPrefixLen, contPrefixLen) == Reflow(t, width, firstPrefixLen, contPrefixLen)
  {
    forall i ensures !OccursAt(t, "\n\n", i) {
      BreakAt(s, i);
      BreakAt(t, i);
    }
    SplitOnAbsent(s, "\n\n");
    SplitOnAbsent(t, "\n\n");
    WordsRespace(s, t);
    ReflowDewrap(s, t, width, firstPrefixLen, contPrefixLen);
  }

  /** A paragraph break is two newlines next to each other. */
  lemma BreakAt(s: string, i: int)
    ensures OccursAt(s, "\n\n", i) <==> 0 <= i && i + 1 < |s| && s[i] == '\n' && s[i + 1] == '\n'
  {
    if 0 <= i && i + 1 < |s| {
      assert s[i..i + 2] == [s[i], s[i + 1]];
    }
  }

  /** Every output line fits the wider bound, and the first one the first
      bound (the first line always comes from paragraph 0). */
  lemma ReflowFlatFits(text: string, width: int, firstPrefixLen: int, contPrefixLen: int)
    requires width > firstPrefixLen && width > contPrefixLen
    requires firstPrefixLen >= contPrefixLen
    ensures var out := Reflow(text, width, firstPrefixLen, contPrefixLen);
      && out != []
      && TextWrap.Fits(out[0], width - firstPrefixLen)
      && forall i :: 0 <= i < |out| ==> TextWrap.Fits(out[i], width - contPrefixLen)
  {
    var gs := Groups(text, width, firstPrefixLen, contPrefixLen);
    var out := Reflow(text, width, firstPrefixLen, contPrefixLen);
    ReflowLayout(text, width, firstPrefixLen, contPrefixLen);
    assert out == gs[0] + Concat(gs[1..]);
    assert out[0] == gs[0][0];
    forall i | 0 <= i < |out| ensures TextWrap.Fits(out[i], width - contPrefixLen) {
      var j, k := ConcatIndex(gs, i);
      assert TextWrap.WithinWidth(gs[j], Bound(j, width, firstPrefixLen, contPrefixLen));
      assert TextWrap.Fits(gs[j][k], Bound(j, width, firstPrefixLen, contPrefixLen));
    }
    assert TextWrap.WithinWidth(gs[0], width - firstPrefixLen);
  }

  // ---------------------------------------------------------------------------
  // Printing a reply (main, the response branch)

  /** What main prints for one reply: prefix_len = len(name) + 3 leaves room
      for "Name → " on the first line; an empty reply prints the notice. */
  function ReplyBlock(response: string, width: int, name: string): seq<string>
    requires width > |name| + 3 && width > 4
  {
    if response != [] then Repl.Labelled(Reflow(response, width, |name| + 3, 4), name) else [Repl.NoResponse]
  }

  /** The response branch of main: wrap, then print line by line. */
  method ShowReply(response: string, width: int, name: string) returns (out: seq<string>)
    requires width > |name| + 3 && width > 4
    ensures out == ReplyBlock(response, width, name)
  {
    if response != [] {
      var prefixLen := |name| + 3;
      var lines := WrapText(response, width, prefixLen, 4);
      out := [];
      for i := 0 to |lines|
        invariant out == Repl.Labelled(lines[..i], name)
      {
        Repl.LabelledSnoc(lines, i, name);
        if i == 0 {
          out := out + [name + Repl.Arrow + lines[i]];
        } else {
          out := out + [Repl.Indent + lines[i]];
        }
      }
      assert lines[..|lines|] == lines;
    } else {
      out := [Repl.NoResponse];
    }
  }

  /** A printed reply fits the terminal: with a non-empty name every printed
      line is at most `width` characters, except a line holding one
      over-long word. */
  /** Each printed line fits the terminal, unless the line of text it shows
      is one word. */
  predicate FitsTerminal(block: seq<string>, lines: seq<string>, width: int) {
    && |block| == |lines|
    && forall i :: 0 <= i < |block| ==> |block[i]| <= width || |Words(lines[i])| == 1
  }

  lemma ReplyFitsTerminal(response: string, width: int, name: string)
    requires width > |name| + 3 && width > 4
    requires name != []
    ensures response != [] ==> FitsTerminal(ReplyBlock(response, width, name), Reflow(response, width, |name| + 3, 4), width)
  {
    if response != [] {
      ReflowLabelledFits(response, width, name);
    }
  }

  /** The labelled reflow of any text fits the terminal, except lines that
      are one over-long word. */
  lemma ReflowLabelledFits(text: string, width: int, name: string)
    requires width > |name| + 3 && width > 4
    requires name != []
    ensures var lines := Reflow(text, width, |name| + 3, 4);
      FitsTerminal(Repl.Labelled(lines, name), lines, width)
  {
    ReflowFlatFits(text, width, |name| + 3, 4);
    LabelledFits(Reflow(text, width, |name| + 3, 4), name, width);
  }

  /** Labelling lines that fit the widths left by the prefixes gives lines
      that fit the terminal, except single words longer than it. */
  lemma LabelledFits(lines: seq<string>, name: string, width: int)
    requires lines != [] && TextWrap.Fits(lines[0], width - |name| - 3)
    requires forall i :: 0 <= i < |lines| ==> TextWrap.Fits(lines[i], width - 4)
    ensures FitsTerminal(Repl.Labelled(lines, name), lines, width)
  {
    Repl.LabelledLengths(lines, name);
  }

  // ---------------------------------------------------------------------------
  // The command for one message (send_message)

  /** The argument vector send_message runs: the agent CLI itself on
      localhost, otherwise ssh with one command line for the remote shell. */
  function SendCommand(msg: string, cfg: Repl.Config): seq<string> {
    if cfg.server == "localhost" then
      [cfg.openclaw, "agent", "--agent", cfg.agent, "--message", "[terminal] " + msg]
    else
      ["ssh", cfg.server, Repl.RemoteHead(cfg) + " --message " + Repl.MessageWord(msg)]
  }

  /** The agent receives exactly "[terminal] " + msg: as the last argument
      on localhost, and as what the remote shell makes of the last word of
      the command line otherwise, whatever quotes msg holds. */
  lemma SendCommandDelivers(msg: string, cfg: Repl.Config)
    ensures var argv := SendCommand(msg, cfg);
      && (cfg.server == "localhost" ==> |argv| == 6 && argv[5] == "[terminal] " + msg)
      && (cfg.server != "localhost" ==>
            argv == ["ssh", cfg.server, Repl.RemoteHead(cfg) + " --message " + Repl.MessageWord(msg)])
      && Shell.Unquote(Repl.MessageWord(msg)) == Wrappers.Some("[terminal] " + msg)
  {
    Repl.MessageWordUnquotes(msg);
  }

  // ---------------------------------------------------------------------------
  // The session (main)

  const Farewell := "Session over, thanks!"
  const EndNotice := "Session ended. Your tutor will write the summary."

  /** What main prints for the n-th message: a blank line, the reply to
      it, another blank line. */
  function Show(reply: nat -> string, width: int, name: string): nat -> seq<string>
    requires width > |name| + 3 && width > 4
  {
    (n: nat) => Repl.Framed(ReplyBlock(reply(n), width, name))
  }

  /** An exit word prints the notice and sends the farewell. */
  const OnExit := Repl.Outcome([Farewell], [EndNotice])
  /** End of input or an interrupt prints an empty line and sends nothing. */
  const OnEof := Repl.Outcome([], [""])

  /** The session of main, when reply(n) is what send_message returns for
      the n-th message. */
  function Session(events: seq<Repl.Event>, reply: nat -> string, width: int, name: string): Repl.Outcome
    requires width > |name| + 3 && width > 4
  {
    Repl.Run(events, Show(reply, width, name), 0, OnExit, OnEof)
  }

  /** The banner printed before the first prompt. */
  function Header(name: string): seq<string> {
    [name + " \U{2014} CS Tutor", "Type your message and press Enter. Ctrl+C or Ctrl+D to exit.", ""]
  }

  /** main: print the banner, then read, classify, send and print until the
      session ends. */
  method RunSession(events: seq<Repl.Event>, reply: nat -> string, width: int, name: string)
    returns (sent: seq<string>, screen: seq<string>)
    requires width > |name| + 3 && width > 4
    ensures sent == Session(events, reply, width, name).sent
    ensures screen == Header(name) + Session(events, reply, width, name).screen
  {
    ghost var show := Show(reply, width, name);
    ghost var whole := Session(events, reply, width, name);
    sent, screen := [], Header(name);
    var k := 0;
    ghost var rest := whole;
    while true
      invariant 0 <= k <= |events|
      invariant rest == Repl.Run(events[k..], show, |sent|, OnExit, OnEof)
      invariant sent + rest.sent == whole.sent
      invariant screen + rest.screen == Header(name) + whole.screen
      decreases |events| - k
    {
      if k == |events| || events[k].Eof? {
        screen := screen + [""];
        break;
      }
      var msg := Strip(events[k].line);
      Repl.RunTyped(events[k..], show, |sent|, OnExit, OnEof);
      assert events[k..][1..] == events[k + 1..];
      k := k + 1;
      if msg == [] {
        rest := Repl.Run(events[k..], show, |sent|, OnExit, OnEof);
        continue;
      }
      if msg == "quit" || msg == "exit" || msg == "bye" {
        screen := screen + [EndNotice];
        sent := sent + [Farewell];
        break;
      }
      ghost var next := Repl.Run(events[k..], show, |sent| + 1, OnExit, OnEof);
      assert rest == Repl.Then(Repl.Outcome([msg], show(|sent|)), next);
      ghost var before, shown := screen, show(|sent|);
      screen := screen + [""];
      var response := reply(|sent|);
      sent := sent + [msg];
      var block := ShowReply(response, width, name);
      screen := screen + block + [""];
      assert shown == Repl.Framed(block);
      Repl.FramedAppend(before, block);
      Repl.AppendAssoc(before, shown, next.screen);
      Repl.AppendAssoc(sent[..|sent| - 1], [msg], next.sent);
      rest := next;
    }
  }

  /** What is sent: the stripped text of every line typed before the session
      ends that is neither blank nor an exit word, each once and in order,
      then the farewell exactly when an exit word ended the session; and each
      message's reply is printed after it, in the same order. */
  lemma SessionSends(events: seq<Repl.Event>, reply: nat -> string, width: int, name: string)
    requires width > |name| + 3 && width > 4
    ensures var ms := Repl.Messages(events[..Repl.FirstEnd(events)]);
      && Session(events, reply, width, name).sent == ms + (if Repl.EndsByExit(events) then [Farewell] else [])
      && Session(events, reply, width, name).screen
         == Repl.Shown(Show(reply, width, name), 0, |ms|) + (if Repl.EndsByExit(events) then [EndNotice] else [""])
  {
    Repl.RunShape(events, Show(reply, width, name), 0, OnExit, OnEof);
  }

  /** Nothing typed after the session ended is read. */
  lemma SessionIgnoresRest(events: seq<Repl.Event>, more: seq<Repl.Event>, reply: nat -> string, width: int, name: string)
    requires width > |name| + 3 && width > 4
    requires Repl.FirstEnd(events) < |events|
    ensures Session(events + more, reply, width, name) == Session(events, reply, width, name)
  {
    var show := Show(reply, width, name);
    Repl.RunIgnoresRest(events, more, show, 0, OnExit, OnEof);
    assert Session(events + more, reply, width, name) == Repl.Run(events + more, show, 0, OnExit, OnEof);
  }
}
