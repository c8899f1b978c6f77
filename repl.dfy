/** What the two REPL clients (agent-tui.py and tui/tutor-chat.py) share.
    On the input side, each typed line is stripped, an empty line is
    skipped, "quit", "exit" or "bye" ends the session, end of input or an
    interrupt ends it too, and any other line is a message for the agent.
    On the output side, a reply is printed as "Label → " before its first
    line and four spaces before each later one. The remote command line
    puts the message in single quotes. */
module Repl {
  import opened PyStr
  import Shell
  import Wrappers

  /** What one read of the prompt yields: a typed line, or EOFError /
      KeyboardInterrupt. */
  datatype Event = Typed(line: string) | Eof

  /** What the loop does with one typed line. */
  datatype Command = Skip | Leave | Send(msg: string)

  predicate IsExitWord(m: string) {
    m == "quit" || m == "exit" || m == "bye"
  }

  /** The classification of one typed line: blank lines are skipped, the exit
      words (matched exactly, after stripping) leave, anything else is sent
      stripped. */
  function Classify(line: string): Command {
    var msg := Strip(line);
    if msg == [] then Skip else if IsExitWord(msg) then Leave else Send(msg)
  }

  /** A line is skipped exactly when it is all whitespace, ends the session
      exactly when it strips to an exit word, and is otherwise sent without
      its surrounding whitespace. */
  lemma ClassifySpec(line: string)
    ensures var c := Classify(line);
      && (c == Skip <==> AllSpace(line))
      && (c == Leave <==> IsExitWord(Strip(line)))
      && (c.Send? <==> !AllSpace(line) && !IsExitWord(Strip(line)))
      && (c.Send? ==> c.msg == Strip(line))
  {

  }

  /** An event that ends the session. */
  predicate Ends(e: Event) {
    e.Eof? || Classify(e.line) == Leave
  }

  /** The position of the first event that ends the session (|events| when
      the input runs out first, which reads as end of input). */
  function FirstEnd(events: seq<Event>): (k: nat)
    ensures k <= |events|
    decreases |events|
  {
    if events == [] then 0 else if Ends(events[0]) then 0 else 1 + FirstEnd(events[1..])
  }

  /** FirstEnd is the first event that ends the session, if any. */
  lemma {:induction false} FirstEndSpec(events: seq<Event>)
    ensures var k := FirstEnd(events);
      && (forall i :: 0 <= i < k ==> !Ends(events[i]))
      && (k < |events| ==> Ends(events[k]))
    decreases |events|
  {
    if events != [] && !Ends(events[0]) {
      var rest := events[1..];
      var k := FirstEnd(rest);
      FirstEndSpec(rest);
      assert FirstEnd(events) == 1 + k;
      forall i | 0 < i < 1 + k ensures !Ends(events[i]) {
        assert events[i] == rest[i - 1];
      }
    }
  }

  /** The session ends because the user typed an exit word. */
  predicate EndsByExit(events: seq<Event>) {
    FirstEnd(events) < |events| && events[FirstEnd(events)].Typed?
  }

  /** The messages among some events, in order: the stripped text of every
      typed line that is neither blank nor an exit word. */
  function Messages(events: seq<Event>): seq<string> {
    if events == [] then []
    else
      var rest := Messages(events[1..]);
      match events[0]
      case Eof => rest
      case Typed(line) => if Classify(line).Send? then [Strip(line)] + rest else rest
  }

  /** A text the loop may send: stripped, non-empty, not an exit word. */
  predicate IsMessage(m: string) {
    m != [] && !IsExitWord(m) && Strip(m) == m
  }

  /** Every message is stripped, non-empty and not an exit word, and there are
      never more messages than events. */
  lemma {:induction false} MessagesShape(events: seq<Event>)
    ensures |Messages(events)| <= |events|
    ensures forall i :: 0 <= i < |Messages(events)| ==> IsMessage(Messages(events)[i])
    decreases |events|
  {
    if events != [] {
      var ms, rest := Messages(events), Messages(events[1..]);
      MessagesShape(events[1..]);
      if events[0].Typed? && Classify(events[0].line).Send? {
        var m := Strip(events[0].line);
        StripStripped(events[0].line);
        assert IsMessage(m);
        assert ms == [m] + rest;
        forall i | 0 <= i < |ms| ensures IsMessage(ms[i]) {
          if i > 0 {
            assert ms[i] == rest[i - 1];
          }
        }
      } else {
        assert ms == rest;
      }
    }
  }

  /** Messages of a concatenation: each event contributes on its own. */
  lemma {:induction false} MessagesAppend(a: seq<Event>, b: seq<Event>)
    ensures Messages(a + b) == Messages(a) + Messages(b)
    decreases |a|
  {
    if a == [] {
      assert a + b == b;
    } else {
      assert (a + b)[0] == a[0];
      assert (a + b)[1..] == a[1..] + b;
      MessagesAppend(a[1..], b);
    }
  }

  /** Stripping twice is stripping once. */
  lemma StripStripped(s: string)
    ensures Strip(Strip(s)) == Strip(s)
  {
    var r := Strip(s);
    if r != [] {
      assert TrimStart(r) == r;
      assert TrimEnd(r) == r;
    }
  }

  lemma TakeCons<T>(s: seq<T>, k: nat)
    requires k < |s|
    ensures s[..1 + k] == [s[0]] + s[1..][..k]
  {
  }

  lemma AppendAssoc<T>(a: seq<T>, b: seq<T>, c: seq<T>)
    ensures a + (b + c) == (a + b) + c
  {
  }

  lemma ConsAppend<T>(s: seq<T>, t: seq<T>)
    requires s != []
    ensures (s + t)[0] == s[0] && (s + t)[1..] == s[1..] + t
  {
  }

  // ---------------------------------------------------------------------------
  // The read-eval-print loop both clients run (main)

  /** What a session did: the messages sent, and the lines printed. */
  datatype Outcome = Outcome(sent: seq<string>, screen: seq<string>)

  function Then(a: Outcome, b: Outcome): Outcome {
    Outcome(a.sent + b.sent, a.screen + b.screen)
  }

  /** The session from some point on, when n messages have gone out before:
      show(n) is what is printed for the n-th message and its reply, exit
      what happens on an exit word, eof what happens at end of input. */
  function Run(events: seq<Event>, show: nat -> seq<string>, n: nat, exit: Outcome, eof: Outcome): Outcome
    decreases |events|
  {
    if events == [] || events[0].Eof? then eof
    else
      match Classify(events[0].line)
      case Skip => Run(events[1..], show, n, exit, eof)
      case Leave => exit
      case Send(m) => Then(Outcome([m], show(n)), Run(events[1..], show, n + 1, exit, eof))
  }

  /** show(n), show(n + 1), ..., show(n + k - 1), one after the other. */
  function Shown(show: nat -> seq<string>, n: nat, k: nat): seq<string>
    decreases k
  {
    if k == 0 then [] else show(n) + Shown(show, n + 1, k - 1)
  }

  /** One typed line, stripped: skipped when empty, the end of the session
      for an exit word, and otherwise sent. */
  lemma RunTyped(events: seq<Event>, show: nat -> seq<string>, n: nat, exit: Outcome, eof: Outcome)
    requires events != [] && events[0].Typed?
    ensures var msg := Strip(events[0].line);
      Run(events, show, n, exit, eof)
      == if msg == [] then Run(events[1..], show, n, exit, eof)
         else if IsExitWord(msg) then exit
         else Then(Outcome([msg], show(n)), Run(events[1..], show, n + 1, exit, eof))
  {
  }

  /** What a session sends and prints: every message typed before the
      session ends, once and in order, each followed on screen by what is
      shown for it, and then what the exit word or the end of input does. */
  predicate Shaped(events: seq<Event>, show: nat -> seq<string>, n: nat, exit: Outcome, eof: Outcome) {
    var ms := Messages(events[..FirstEnd(events)]);
    var last := if EndsByExit(events) then exit else eof;
    Run(events, show, n, exit, eof) == Outcome(ms + last.sent, Shown(show, n, |ms|) + last.screen)
  }

  lemma {:induction false} RunShape(events: seq<Event>, show: nat -> seq<string>, n: nat, exit: Outcome, eof: Outcome)
    ensures Shaped(events, show, n, exit, eof)
    decreases |events|
  {
    if events == [] || events[0].Eof? || Classify(events[0].line) == Leave {
      assert events[..FirstEnd(events)] == [];
    } else {
      var c := Classify(events[0].line);
      var tail := events[1..];
      RunShape(tail, show, if c.Send? then n + 1 else n, exit, eof);
      PrefixStep(events);
      var ms := Messages(tail[..FirstEnd(tail)]);
      var last := if EndsByExit(tail) then exit else eof;
      if c.Send? {
        RunShapeSend(events, show, n, exit, eof, ms, last);
      } else {
        RunShapeSkip(events, show, n, exit, eof, ms, last);
      }
    }
  }

  /** The inductive step of RunShape for a line that is sent: its message
      goes in front of what the rest of the session sends, and what is
      shown for it in front of what the rest shows. */
  lemma RunShapeSend(events: seq<Event>, show: nat -> seq<string>, n: nat, exit: Outcome, eof: Outcome, ms: seq<string>, last: Outcome)
    requires events != [] && events[0].Typed? && Classify(events[0].line).Send?
    requires Run(events[1..], show, n + 1, exit, eof) == Outcome(ms + last.sent, Shown(show, n + 1, |ms|) + last.screen)
    ensures var mine := [Classify(events[0].line).msg];
      Run(events, show, n, exit, eof) == Outcome((mine + ms) + last.sent, Shown(show, n, |mine + ms|) + last.screen)
  {
    var c := Classify(events[0].line);
    RunSend(events, show, n, exit, eof);
    SendStep(c.msg, show(n), Shown(show, n + 1, |ms|), ms, last);
    ShownStep(show, n, |ms|);
  }

  /** The inductive step of RunShape for a blank line: it adds nothing. */
  lemma RunShapeSkip(events: seq<Event>, show: nat -> seq<string>, n: nat, exit: Outcome, eof: Outcome, ms: seq<string>, last: Outcome)
    requires events != [] && events[0].Typed? && Classify(events[0].line).Skip?
    requires Run(events[1..], show, n, exit, eof) == Outcome(ms + last.sent, Shown(show, n, |ms|) + last.screen)
    ensures Run(events, show, n, exit, eof) == Outcome(([] + ms) + last.sent, Shown(show, n, |[] + ms|) + last.screen)
  {
    RunSkip(events, show, n, exit, eof);
    assert [] + ms == ms;
  }

  lemma RunSend(events: seq<Event>, show: nat -> seq<string>, n: nat, exit: Outcome, eof: Outcome)
    requires events != [] && events[0].Typed? && Classify(events[0].line).Send?
    ensures Run(events, show, n, exit, eof)
         == Then(Outcome([Classify(events[0].line).msg], show(n)), Run(events[1..], show, n + 1, exit, eof))
  {
  }

  lemma RunSkip(events: seq<Event>, show: nat -> seq<string>, n: nat, exit: Outcome, eof: Outcome)
    requires events != [] && events[0].Typed? && Classify(events[0].line).Skip?
    ensures Run(events, show, n, exit, eof) == Run(events[1..], show, n, exit, eof)
  {
  }

  lemma ShownStep(show: nat -> seq<string>, n: nat, k: nat)
    ensures Shown(show, n, k + 1) == show(n) + Shown(show, n + 1, k)
  {
  }

  /** Before the end, a line that is not an exit word moves the end one
      event further, keeps the reason it ends for, and puts its own message,
      if any, in front of the later ones. */
  lemma PrefixStep(events: seq<Event>)
    requires events != [] && events[0].Typed? && Classify(events[0].line) != Leave
    ensures FirstEnd(events) == 1 + FirstEnd(events[1..])
    ensures EndsByExit(events) == EndsByExit(events[1..])
    ensures Messages(events[..FirstEnd(events)])
         == (if Classify(events[0].line).Send? then [Strip(events[0].line)] else []) + Messages(events[1..][..FirstEnd(events[1..])])
  {
    FirstEndStep(events);
    ExitStep(events);
    MessagesStep(events);
  }

  lemma FirstEndStep(events: seq<Event>)
    requires events != [] && events[0].Typed? && Classify(events[0].line) != Leave
    ensures FirstEnd(events) == 1 + FirstEnd(events[1..])
  {
  }

  lemma ExitStep(events: seq<Event>)
    requires events != [] && events[0].Typed? && Classify(events[0].line) != Leave
    ensures EndsByExit(events) == EndsByExit(events[1..])
  {
    FirstEndStep(events);
    var k := FirstEnd(events[1..]);
    assert k < |events[1..]| ==> events[1..][k] == events[k + 1];
  }

  lemma MessagesStep(events: seq<Event>)
    requires events != [] && events[0].Typed? && Classify(events[0].line) != Leave
    ensures Messages(events[..FirstEnd(events)])
         == (if Classify(events[0].line).Send? then [Strip(events[0].line)] else []) + Messages(events[1..][..FirstEnd(events[1..])])
  {
    FirstEndStep(events);
    var tail := events[1..];
    var k := FirstEnd(tail);
    TakeCons(events, k);
    MessagesAppend([events[0]], tail[..k]);
    assert Messages([events[0]]) == (if Classify(events[0].line).Send? then [Strip(events[0].line)] else []) by {
      assert [events[0]][1..] == [];
    }
  }

  lemma SendStep(m: string, mine: seq<string>, later: seq<string>, ms: seq<string>, last: Outcome)
    ensures Then(Outcome([m], mine), Outcome(ms + last.sent, later + last.screen))
         == Outcome(([m] + ms) + last.sent, (mine + later) + last.screen)
  {
    AppendAssoc([m], ms, last.sent);
    AppendAssoc(mine, later, last.screen);
  }

  /** Nothing typed after the session has ended is read: more events
      change neither what is sent nor what is printed. */
  lemma {:induction false} RunIgnoresRest(events: seq<Event>, more: seq<Event>, show: nat -> seq<string>, n: nat, exit: Outcome, eof: Outcome)
    requires FirstEnd(events) < |events|
    ensures Run(events + more, show, n, exit, eof) == Run(events, show, n, exit, eof)
    decreases |events|
  {
    ConsAppend(events, more);
    if events[0].Typed? && !Ends(events[0]) {
      var c := Classify(events[0].line);
      RunIgnoresRest(events[1..], more, show, if c.Send? then n + 1 else n, exit, eof);
    }
  }

  // ---------------------------------------------------------------------------
  // Printing a reply (the response branch of main)

  const Arrow := " \U{2192} "
  const Indent := "    "
  const NoResponse := "(no response \U{2014} check connection)"

  /** The printed lines: the label and an arrow before the first line, four
      spaces before each later one. */
  function Labelled(lines: seq<string>, name: string): (out: seq<string>)
    ensures |out| == |lines|
  {
    seq(|lines|, i requires 0 <= i < |lines| => (if i == 0 then name + Arrow else Indent) + lines[i])
  }

  /** The label and arrow take |name| + 3 characters, the indent four. */
  lemma LabelledLengths(lines: seq<string>, name: string)
    ensures var out := Labelled(lines, name);
      forall i :: 0 <= i < |out| ==> |out[i]| == (if i == 0 then |name| + 3 else 4) + |lines[i]|
  {
  }

  lemma LabelledSnoc(lines: seq<string>, i: nat, name: string)
    requires i < |lines|
    ensures Labelled(lines[..i + 1], name) == Labelled(lines[..i], name) + [(if i == 0 then name + Arrow else Indent) + lines[i]]
  {
    var a, b := Labelled(lines[..i + 1], name), Labelled(lines[..i], name) + [(if i == 0 then name + Arrow else Indent) + lines[i]];
    forall m | 0 <= m <= i ensures a[m] == b[m] {
      assert lines[..i + 1][m] == lines[m];
    }
  }

  /** A reply as main prints it: a blank line, the reply's lines, another
      blank line. */
  function Framed(block: seq<string>): seq<string> {
    [""] + block + [""]
  }

  lemma FramedAppend(before: seq<string>, block: seq<string>)
    ensures before + [""] + block + [""] == before + Framed(block)
  {
  }

  // ---------------------------------------------------------------------------
  // The remote command line for one message (send_message)

  datatype Config = Config(agent: string, server: string, openclaw: string)

  /** PATH=<dirname of the openclaw binary>:$PATH. */
  function RemotePath(openclaw: string): string {
    "PATH=" + Shell.DirName(openclaw) + ":$PATH"
  }

  /** The last word of the remote command: the message behind "[terminal] ",
      inside single quotes, with each quote in it escaped. */
  function MessageWord(msg: string): string {
    "'[terminal] " + Shell.EscapeQuotes(msg) + "'"
  }

  /** The remote command line up to the message option. */
  function RemoteHead(cfg: Config): string {
    RemotePath(cfg.openclaw) + " " + cfg.openclaw + " agent --agent " + cfg.agent
  }

  /** The shell reads the message word back as exactly "[terminal] " + msg,
      whatever quotes msg holds. */
  lemma MessageWordUnquotes(msg: string)
    ensures Shell.Unquote(MessageWord(msg)) == Wrappers.Some("[terminal] " + msg)
  {
    var tag := "[terminal] ";
    assert Shell.NoQuote(tag) by {
      forall i | 0 <= i < |tag| ensures tag[i] != '\'' {
        assert tag[i] in "[terminal] ";
      }
    }
    Shell.UnquoteEscaped(tag, msg);
    assert "'[terminal] " == "'" + tag;
  }
}
