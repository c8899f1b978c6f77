/** agent-tui.py: a REPL that sends each typed line to an agent and prints
    the reply wrapped to the terminal width. Unlike the tutor client it
    keeps the reply's line structure: every "\n" is a hard break, a blank
    line stays one empty line, and each line is wrapped on its own at
    width - 4. An exit word ends the session without telling the agent. */
module AgentTui {
  import opened PyStr
  import TextWrap
  import Shell
  import Wrappers
  import Repl

  // ---------------------------------------------------------------------------
  // Reflow (wrap_text)

  /** text.split('\n'): the lines of a reply. */
  function InputLines(text: string): (ls: seq<string>)
    ensures ls != []
  {
    SplitOn(text, "\n")
  }

  /** The output lines of one input line at wrap width w: one empty line
      for a blank line, otherwise its wrap. */
  function LineGroup(line: string, w: int): seq<string>
    requires w > 0
  {
    if Strip(line) == [] then [""]
    else
      var wrapped := TextWrap.Wrap(line, w);
      if wrapped != [] then wrapped else [""]
  }

  /** The output lines of each of the lines ls, line by line. */
  function GroupsOf(ls: seq<string>, w: int): (gs: seq<seq<string>>)
    requires w > 0
    ensures |gs| == |ls|
  {
    seq(|ls|, j requires 0 <= j < |ls| => LineGroup(ls[j], w))
  }

  /** The output lines of each input line, input line by input line. */
  function Groups(text: string, width: int): (gs: seq<seq<string>>)
    requires width > 4
    ensures |gs| == |InputLines(text)|
  {
    GroupsOf(InputLines(text), width - 4)
  }

  /** What wrap_text returns: the groups one after the other. */
  function Reflow(text: string, width: int): seq<string>
    requires width > 4
  {
    Concat(Groups(text, width))
  }

  /** wrap_text: a loop over the input lines that appends an empty line for
      a blank one and extends `lines` with the wrap of any other. */
  method WrapText(text: string, width: int) returns (lines: seq<string>)
    requires width > 4
    ensures lines == Reflow(text, width)
  {
    lines := [];
    var paragraphs := SplitOn(text, "\n");
    ghost var groups := Groups(text, width);
    for k := 0 to |paragraphs|
      invariant lines == Concat(groups[..k])
    {
      ghost var before := lines;
      if Strip(paragraphs[k]) == [] {
        lines := lines + [""];
      } else {
        var wrapped := TextWrap.Wrap(paragraphs[k], width - 4);
        lines := lines + (if wrapped != [] then wrapped else [""]);
      }
      assert lines == before + LineGroup(paragraphs[k], width - 4);
      ConcatSnoc(groups, k);
    }
    assert groups[..|paragraphs|] == groups;
  }

  // ---------------------------------------------------------------------------
  // Properties of the reflow

  /** One input line: at least one output line, and a blank line gives
      exactly one empty line. Any other line gives its wrap, which is laid
      out as TextWrap.Layout describes (the line's leading whitespace kept
      on the first output line unless it does not fit with the first word,
      inner runs of spaces kept, greedy), reads back as its words, and has
      non-empty lines each within w unless it is one chunk with no space. */
  lemma LineGroupSpec(line: string, w: int)
    requires w > 0
    ensures var g := LineGroup(line, w);
      var m := TextWrap.Munge(line);
      && g != []
      && AllWords(g) == Words(line)
      && (AllSpace(line) <==> g == [""])
      && (!AllSpace(line) ==> g == TextWrap.Wrap(line, w) && TextWrap.Layout(m, TextWrap.Spans(m, w), w))
      && (!AllSpace(line) ==> forall i :: 0 <= i < |g| ==> g[i] != [])
      && (forall i :: 0 <= i < |g| ==> |g[i]| <= w || ' ' !in g[i])
  {
    WordsShape(line);
    TextWrap.WrapLayout(line, w);
    if AllSpace(line) {
      assert AllWords([""]) == Words("") + AllWords([]);
    } else {
      var g := TextWrap.Wrap(line, w);
      assert g[0] != [];
    }
  }

  /** The words of a reply are the words of its lines. */
  lemma WordsOfInputLines(text: string)
    ensures AllWords(InputLines(text)) == Words(text)
  {
    JoinSplitOn(text, "\n");
    WordsOfJoinSep(InputLines(text), "\n");
  }

  /** Each input line maps to its own non-empty group of output lines, in
      input order: a blank input line to exactly one empty line, any other
      to its wrap at width - 4, which holds exactly its words; every output
      line is within width - 4 unless it is one chunk with no space. */
  lemma ReflowLayout(text: string, width: int)
    requires width > 4
    ensures var gs := Groups(text, width);
      var ls := InputLines(text);
      && Reflow(text, width) == Concat(gs)
      && (forall j :: 0 <= j < |gs| ==> gs[j] != [] && AllWords(gs[j]) == Words(ls[j]))
      && (forall j :: 0 <= j < |gs| ==> (AllSpace(ls[j]) <==> gs[j] == [""]))
      && (forall j :: 0 <= j < |gs| && !AllSpace(ls[j]) ==> gs[j] == TextWrap.Wrap(ls[j], width - 4))
      && (forall j, k :: 0 <= j < |gs| && 0 <= k < |gs[j]| ==> |gs[j][k]| <= width - 4 || ' ' !in gs[j][k])
  {
    var gs := Groups(text, width);
    var ls := InputLines(text);
    forall j | 0 <= j < |gs|
      ensures gs[j] != [] && AllWords(gs[j]) == Words(ls[j])
      ensures AllSpace(ls[j]) <==> gs[j] == [""]
      ensures !AllSpace(ls[j]) ==> gs[j] == TextWrap.Wrap(ls[j], width - 4)
      ensures forall k :: 0 <= k < |gs[j]| ==> |gs[j][k]| <= width - 4 || ' ' !in gs[j][k]
    {
      LineGroupSpec(ls[j], width - 4);
    }
  }

  /** No word of the reply is lost, reordered, split or invented. */
  lemma ReflowWords(text: string, width: int)
    requires width > 4
    ensures AllWords(Reflow(text, width)) == Words(text)
  {
    var ls := InputLines(text);
    var gs := Groups(text, width);
    forall j | 0 <= j < |gs| ensures AllWords(gs[j]) == Words(ls[j]) {
      LineGroupSpec(ls[j], width - 4);
    }
    AllWordsOfGroups(gs, ls);
    WordsOfInputLines(text);
  }

  /** Every output line is at most width - 4 long, unless it is one
      over-long chunk with no space standing alone. */
  lemma ReflowWidth(text: string, width: int)
    requires width > 4
    ensures var out := Reflow(text, width);
      forall i :: 0 <= i < |out| ==> |out[i]| <= width - 4 || ' ' !in out[i]
  {
    var gs := Groups(text, width);
    var out := Reflow(text, width);
    ReflowLayout(text, width);
    forall i | 0 <= i < |out| ensures |out[i]| <= width - 4 || ' ' !in out[i] {
      var j, k := ConcatIndex(gs, i);
    }
  }

  lemma GroupsOfPrefix(l1: seq<string>, l2: seq<string>, w: int)
    requires w > 0
    ensures GroupsOf(l1 + l2, w)[..|l1|] == GroupsOf(l1, w)
  {
    var g := GroupsOf(l1 + l2, w);
    forall j | 0 <= j < |l1| ensures g[j] == LineGroup(l1[j], w) {
      assert (l1 + l2)[j] == l1[j];
    }
  }

  lemma GroupsOfSuffix(l1: seq<string>, l2: seq<string>, w: int)
    requires w > 0
    ensures GroupsOf(l1 + l2, w)[|l1|..] == GroupsOf(l2, w)
  {
    var g := GroupsOf(l1 + l2, w);
    forall j | 0 <= j < |l2| ensures g[|l1| + j] == LineGroup(l2[j], w) {
      assert (l1 + l2)[|l1| + j] == l2[j];
    }
  }

  lemma GroupsOfAppend(l1: seq<string>, l2: seq<string>, w: int)
    requires w > 0
    ensures GroupsOf(l1 + l2, w) == GroupsOf(l1, w) + GroupsOf(l2, w)
  {
    GroupsOfPrefix(l1, l2, w);
    GroupsOfSuffix(l1, l2, w);
    TakeDrop(GroupsOf(l1 + l2, w), |l1|);
  }

  /** A single newline is a hard break: the lines before it and the lines
      after it are wrapped separately and never joined. */
  lemma ReflowHardBreak(a: string, b: string, width: int)
    requires width > 4
    ensures Reflow(a + "\n" + b, width) == Reflow(a, width) + Reflow(b, width)
  {
    SplitOnCharConcat(a, '\n', b);
    GroupsOfAppend(InputLines(a), InputLines(b), width - 4);
    ConcatAppend(Groups(a, width), Groups(b, width));
  }

  // ---------------------------------------------------------------------------
  // Printing a reply (main, the response branch)

  /** What main prints for one reply: the label before the first line, four
      spaces before the others; an empty reply prints the notice. */
  function ReplyBlock(response: string, width: int, agentLabel: string): seq<string>
    requires width > 4
  {
    if response != [] then Repl.Labelled(Reflow(response, width), agentLabel) else [Repl.NoResponse]
  }

  /** The response branch of main: wrap, then print line by line. */
  method ShowReply(response: string, width: int, agentLabel: string) returns (out: seq<string>)
    requires width > 4
    ensures out == ReplyBlock(response, width, agentLabel)
  {
    if response != [] {
      var lines := WrapText(response, width);
      out := [];
      for i := 0 to |lines|
        invariant out == Repl.Labelled(lines[..i], agentLabel)
      {
        Repl.LabelledSnoc(lines, i, agentLabel);
        if i == 0 {
          out := out + [agentLabel + Repl.Arrow + lines[i]];
        } else {
          out := out + [Repl.Indent + lines[i]];
        }
      }
      assert lines[..|lines|] == lines;
    } else {
      out := [Repl.NoResponse];
    }
  }

  /** A printed reply: the label and arrow, then the first wrapped line;
      four spaces before each later one. The wrap leaves room for the
      indent only, so every later line fits the terminal (bar one
      over-long chunk with no space) while the first may overrun it by the label length less one. */
  lemma ReplyBlockShape(response: string, width: int, agentLabel: string)
    requires width > 4
    requires response != []
    ensures var lines := Reflow(response, width);
      var block := ReplyBlock(response, width, agentLabel);
      && |block| == |lines| > 0
      && block[0] == agentLabel + Repl.Arrow + lines[0]
      && (forall i :: 0 < i < |block| ==> block[i] == Repl.Indent + lines[i])
      && (forall i :: 0 < i < |block| ==> |block[i]| <= width || ' ' !in lines[i])
      && (|block[0]| <= width + |agentLabel| - 1 || ' ' !in lines[0])
  {
    var lines := Reflow(response, width);
    var gs := Groups(response, width);
    ReflowWidth(response, width);
    ReflowLayout(response, width);
    assert lines == gs[0] + Concat(gs[1..]);
  }

  // ---------------------------------------------------------------------------
  // The command for one message (send_message)

  /** The argument vector send_message runs: the agent CLI itself on
      localhost, otherwise ssh (with its log level set to ERROR) and one
      command line for the remote shell. */
  function SendCommand(msg: string, cfg: Repl.Config): seq<string> {
    if cfg.server == "localhost" then
      [cfg.openclaw, "agent", "--agent", cfg.agent, "--message", "[terminal] " + msg]
    else
      ["ssh", "-o", "LogLevel=ERROR", cfg.server, Repl.RemoteHead(cfg) + " --message " + Repl.MessageWord(msg)]
  }

  /** The agent receives exactly "[terminal] " + msg: as the last argument
      on localhost, and as what the remote shell makes of the last word of
      the command line otherwise. */
  lemma SendCommandDelivers(msg: string, cfg: Repl.Config)
    ensures var argv := SendCommand(msg, cfg);
      && (cfg.server == "localhost" ==> |argv| == 6 && argv[0] == cfg.openclaw && argv[5] == "[terminal] " + msg)
      && (cfg.server != "localhost" ==>
            |argv| == 5 && argv[3] == cfg.server && argv[4] == Repl.RemoteHead(cfg) + " --message " + Repl.MessageWord(msg))
      && Shell.Unquote(Repl.MessageWord(msg)) == Wrappers.Some("[terminal] " + msg)
  {
    Repl.MessageWordUnquotes(msg);
  }

  // ---------------------------------------------------------------------------
  // The session (main)

  const Goodbye := "See you later."

  /** What main prints for the n-th message: a blank line, the reply to it,
      another blank line. */
  function Show(reply: nat -> string, width: int, agentLabel: string): nat -> seq<string>
    requires width > 4
  {
    (n: nat) => Repl.Framed(ReplyBlock(reply(n), width, agentLabel))
  }

  /** An exit word prints the goodbye and sends nothing. */
  const OnExit := Repl.Outcome([], [Goodbye])
  /** End of input or an interrupt prints an empty line and sends nothing. */
  const OnEof := Repl.Outcome([], [""])

  /** The session of main, when reply(n) is what send_message returns for
      the n-th message. */
  function Session(events: seq<Repl.Event>, reply: nat -> string, width: int, agentLabel: string): Repl.Outcome
    requires width > 4
  {
    Repl.Run(events, Show(reply, width, agentLabel), 0, OnExit, OnEof)
  }

  /** The banner printed before the first prompt. */
  function Header(agentLabel: string): seq<string> {
    [agentLabel + " \U{2014} terminal", "Type your message and press Enter. Ctrl+C or Ctrl+D to exit.", ""]
  }

  /** main: print the banner, then read, classify, send and print until the
      session ends. */
  method RunSession(events: seq<Repl.Event>, reply: nat -> string, width: int, agentLabel: string)
    returns (sent: seq<string>, screen: seq<string>)
    requires width > 4
    ensures sent == Session(events, reply, width, agentLabel).sent
    ensures screen == Header(agentLabel) + Session(events, reply, width, agentLabel).screen
  {
    ghost var show := Show(reply, width, agentLabel);
    ghost var whole := Session(events, reply, width, agentLabel);
    sent, screen := [], Header(agentLabel);
    var k := 0;
    ghost var rest := whole;
    while true
      invariant 0 <= k <= |events|
      invariant rest == Repl.Run(events[k..], show, |sent|, OnExit, OnEof)
      invariant sent + rest.sent == whole.sent
      invariant screen + rest.screen == Header(agentLabel) + whole.screen
      decreases |events| - k
    {
      if k == |events| || events[k].Eof? {
        screen := screen + [""];
        break;
      }
      var msg := Strip(events[k].line);
      Repl.RunTyped(events[k..], show, |sent|, OnExit, OnEof);
      assert events[k..][1..] == events[k + 1..];
      k := k + 1;
      if msg == [] {
        rest := Repl.Run(events[k..], show, |sent|, OnExit, OnEof);
        continue;
      }
      if msg == "quit" || msg == "exit" || msg == "bye" {
        screen := screen + [Goodbye];
        break;
      }
      ghost var next := Repl.Run(events[k..], show, |sent| + 1, OnExit, OnEof);
      assert rest == Repl.Then(Repl.Outcome([msg], show(|sent|)), next);
      ghost var before, shown := screen, show(|sent|);
      screen := screen + [""];
      var response := reply(|sent|);
      sent := sent + [msg];
      var block := ShowReply(response, width, agentLabel);
      screen := screen + block + [""];
      assert shown == Repl.Framed(block);
      Repl.FramedAppend(before, block);
      Repl.AppendAssoc(before, shown, next.screen);
      Repl.AppendAssoc(sent[..|sent| - 1], [msg], next.sent);
      rest := next;
    }
  }

  /** What is sent: the stripped text of every line typed before the session
      ends that is neither blank nor an exit word, each once and in order,
      and nothing else (an exit word is not passed on to the agent); each
      message's reply is printed after it, in the same order. */
  lemma SessionSends(events: seq<Repl.Event>, reply: nat -> string, width: int, agentLabel: string)
    requires width > 4
    ensures var ms := Repl.Messages(events[..Repl.FirstEnd(events)]);
      && Session(events, reply, width, agentLabel).sent == ms
      && Session(events, reply, width, agentLabel).screen
         == Repl.Shown(Show(reply, width, agentLabel), 0, |ms|) + (if Repl.EndsByExit(events) then [Goodbye] else [""])
  {
    Repl.RunShape(events, Show(reply, width, agentLabel), 0, OnExit, OnEof);
    var ms := Repl.Messages(events[..Repl.FirstEnd(events)]);
    assert ms + [] == ms;
  }
}
