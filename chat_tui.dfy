/** tui/chat_tui.py: a full-screen chat client. Enter in the input box sends
    the stripped text; the app writes a "You → …" record to the chat log,
    shows a spinner with a whimsical phrase while the agent works, then
    writes the agent's reply (or the error, or "(no response)") followed by
    a blank spacer record. The reply is the agent's output without the
    status lines "completed", "sent" and "queued". */
module ChatTui {
  import opened PyStr
  import opened Wrappers
  import Shell
  import Repl

  // ---------------------------------------------------------------------------
  // The command for one message (build_command)

  /** PATH=<dirname of the binary>:$PATH, or PATH=$PATH for the bare name. */
  function RemotePath(openclaw: string): string {
    if openclaw != "openclaw" then "PATH=" + Shell.DirName(openclaw) + ":$PATH" else "PATH=$PATH"
  }

  /** The payload as build_command forms it: "[terminal] " and the message
      with each single quote already replaced by '\''. */
  function Payload(message: string): string {
    "[terminal] " + Shell.EscapeQuotes(message)
  }

  /** The remote command line: the payload is passed through shlex.quote. */
  function RemoteCommand(payload: string, cfg: Repl.Config): string {
    RemotePath(cfg.openclaw) + " " + cfg.openclaw + " agent --agent " + cfg.agent + " --message " + Shell.ShlexQuote(payload)
  }

  /** build_command as written: the escaped payload is handed over as it
      is on localhost and through shlex.quote over ssh. */
  function BuildCommand(message: string, cfg: Repl.Config): seq<string> {
    var payload := Payload(message);
    if cfg.server == "localhost" then
      [cfg.openclaw, "agent", "--agent", cfg.agent, "--message", payload]
    else
      ["ssh", cfg.server, RemoteCommand(payload, cfg)]
  }

  /** What build_command hands the agent: the payload, as the last argument
      on localhost, and as what the remote shell makes of the last word of
      the command line otherwise. The payload always holds a space, so
      shlex.quote always takes its quoting branch. The payload is the
      message behind "[terminal] " exactly when the message has no single
      quote: a quote arrives as the four characters '\''. */
  lemma BuildCommandDelivers(message: string, cfg: Repl.Config)
    ensures var argv := BuildCommand(message, cfg);
      var payload := Payload(message);
      && (cfg.server == "localhost" ==> argv == [cfg.openclaw, "agent", "--agent", cfg.agent, "--message", payload])
      && (cfg.server != "localhost" ==>
            && |argv| == 3 && argv[0] == "ssh" && argv[1] == cfg.server
            && argv[2] == RemotePath(cfg.openclaw) + " " + cfg.openclaw + " agent --agent " + cfg.agent + " --message " + Shell.ShlexQuote(payload))
      && Shell.ShlexQuote(payload) == "'" + Shell.ShlexEscape(payload) + "'"
      && Shell.Unquote(Shell.ShlexQuote(payload)) == Some(payload)
      && (payload == "[terminal] " + message <==> Shell.NoQuote(message))
  {
    var payload := Payload(message);
    Shell.ShlexQuotesSpaced(payload, 10);
    Shell.ShlexRoundTrip(payload);
    Shell.EscapeLength(message);
    if payload == "[terminal] " + message {
      assert Shell.EscapeQuotes(message) == payload[11..] == message;
    }
  }

  /** The message "it's" reaches the agent as "[terminal] it'\''s". */
  lemma BuildCommandDoubleEscapes()
    ensures Payload("it's") == "[terminal] it'\\''s"
    ensures Payload("it's") != "[terminal] " + "it's"
  {
    assert "it's" == "it" + ("'" + "s");
    Shell.EscapeAtQuote("it", "s");
    assert Shell.EscapeQuotes("s") == "s";
    assert |Payload("it's")| == 18;
  }

  /** build_command as its other callers evidently intend it: the message
      goes behind "[terminal] " unescaped, and only shlex.quote protects it
      on its way through the remote shell. */
  function BuildCommandIntended(message: string, cfg: Repl.Config): seq<string> {
    var payload := "[terminal] " + message;
    if cfg.server == "localhost" then
      [cfg.openclaw, "agent", "--agent", cfg.agent, "--message", payload]
    else
      ["ssh", cfg.server, RemoteCommand(payload, cfg)]
  }

  /** With the intended command the agent receives exactly "[terminal] " +
      message in both modes, whatever quotes the message holds. */
  lemma BuildCommandIntendedDelivers(message: string, cfg: Repl.Config)
    ensures var argv := BuildCommandIntended(message, cfg);
      var payload := "[terminal] " + message;
      && (cfg.server == "localhost" ==> |argv| == 6 && argv[5] == "[terminal] " + message)
      && (cfg.server != "localhost" ==> |argv| == 3 && argv[2] == RemoteCommand(payload, cfg))
      && Shell.ShlexQuote(payload) == "'" + Shell.ShlexEscape(payload) + "'"
      && Shell.Unquote(Shell.ShlexQuote(payload)) == Some("[terminal] " + message)
  {
    var payload := "[terminal] " + message;
    Shell.ShlexQuotesSpaced(payload, 10);
    Shell.ShlexRoundTrip(payload);
  }

  // ---------------------------------------------------------------------------
  // The reply (the line filter in _get_response)

  /** A status line the agent CLI prints: "completed", "sent" or "queued",
      ignoring surrounding whitespace and case. */
  predicate IsStatus(line: string) {
    var t := Lower(Strip(line));
    t == "completed" || t == "sent" || t == "queued"
  }

  /** [l for l in lines if not drop(l)]. */
  function Filter(lines: seq<string>, drop: string -> bool): seq<string> {
    if lines == [] then []
    else (if drop(lines[0]) then [] else [lines[0]]) + Filter(lines[1..], drop)
  }

  /** The lines the reply keeps: those that are not status lines. */
  function Kept(lines: seq<string>): seq<string> {
    Filter(lines, IsStatus)
  }

  /** The reply: the output stripped, cut into lines, without the status
      lines, joined again and stripped. */
  function Response(output: string): string {
    Strip(JoinWith(Kept(SplitLines(Strip(output))), "\n"))
  }

  /** A filter keeps a line exactly when it is not dropped, and changes
      nothing exactly when no line is dropped; a single line is kept or
      dropped on its own, so with FilterAppend the filter is fixed line by
      line, in order. */
  lemma {:induction false} FilterSpec(lines: seq<string>, drop: string -> bool)
    ensures forall l :: l in Filter(lines, drop) <==> l in lines && !drop(l)
    ensures |lines| == 1 ==> Filter(lines, drop) == if drop(lines[0]) then [] else lines
    ensures |Filter(lines, drop)| <= |lines|
    ensures Filter(lines, drop) == lines <==> forall i :: 0 <= i < |lines| ==> !drop(lines[i])
    ensures (forall i :: 0 <= i < |lines| ==> drop(lines[i])) ==> Filter(lines, drop) == []
    decreases |lines|
  {
    if lines != [] {
      var rest := Filter(lines[1..], drop);
      FilterSpec(lines[1..], drop);
      assert lines == [lines[0]] + lines[1..];
      if drop(lines[0]) {
        assert Filter(lines, drop) == rest;
      } else {
        assert Filter(lines, drop) == [lines[0]] + rest;
        assert Filter(lines, drop) == lines ==> rest == lines[1..];
      }
    }
  }

  /** Filtering two runs of lines one after the other is filtering each:
      the kept lines stay in their order. */
  lemma {:induction false} FilterAppend(a: seq<string>, b: seq<string>, drop: string -> bool)
    ensures Filter(a + b, drop) == Filter(a, drop) + Filter(b, drop)
    decreases |a|
  {
    if a == [] {
      assert a + b == b;
    } else {
      assert (a + b)[0] == a[0];
      assert (a + b)[1..] == a[1..] + b;
      FilterAppend(a[1..], b, drop);
    }
  }

  /** The kept lines are exactly the lines of the output, in order, that
      are not status lines; the filter works line by line. */
  lemma KeptSpec(lines: seq<string>, more: seq<string>)
    ensures forall l :: l in Kept(lines) <==> l in lines && !IsStatus(l)
    ensures Kept(lines) == lines <==> forall i :: 0 <= i < |lines| ==> !IsStatus(lines[i])
    ensures Kept(lines + more) == Kept(lines) + Kept(more)
  {
    FilterSpec(lines, IsStatus);
    FilterAppend(lines, more, IsStatus);
  }

  /** An output made of status lines only gives an empty reply, which the
      app shows as "(no response)" rather than as an error. */
  lemma ResponseAllStatus(output: string)
    requires forall l :: l in SplitLines(Strip(output)) ==> IsStatus(l)
    ensures Response(output) == []
  {
    var ls := SplitLines(Strip(output));
    FilterSpec(ls, IsStatus);
  }

  /** A stripped output whose only line break is '\n' and that has no
      status line comes through unchanged. */
  lemma ResponseClean(output: string)
    requires Strip(output) == output
    requires OnlyNewlines(output)
    requires forall l :: l in SplitLines(output) ==> !IsStatus(l)
    ensures Response(output) == output
  {
    var ls := SplitLines(output);
    FilterSpec(ls, IsStatus);
    assert Kept(ls) == ls;
    StrippedEnd(output);
    JoinSplitLines(output);
  }

  /** A stripped text does not end with a newline. */
  lemma StrippedEnd(s: string)
    requires Strip(s) == s
    ensures s == [] || s[|s| - 1] != '\n'
  {
    if s != [] {
      assert !IsSpace(s[|s| - 1]);
    }
  }

  // ---------------------------------------------------------------------------
  // The records of the chat log

  /** One record of the chat log. */
  datatype Record =
    | UserRecord(text: string)
    | AgentRecord(name: string, text: string)
    | ErrorRecord(error: string)
    | NoResponseRecord
    | Spacer

  /** The text a record shows, without its styling: the label and arrow,
      then the message itself; only the spacer is blank. */
  function Plain(r: Record): (out: string)
    ensures r.UserRecord? ==> out == "You \U{2192} " + r.text
    ensures r.AgentRecord? ==> out == r.name + " \U{2192} " + r.text
    ensures r.ErrorRecord? ==> out == "Error: " + r.error
    ensures out == [] <==> r.Spacer?
  {
    match r
    case UserRecord(text) => "You" + Repl.Arrow + text
    case AgentRecord(name, text) => name + Repl.Arrow + text
    case ErrorRecord(error) => "Error: " + error
    case NoResponseRecord => "(no response)"
    case Spacer => ""
  }

  /** The record _show_response writes for an exchange: a non-empty error
      wins, then a non-empty reply, and otherwise "(no response)". */
  function Verdict(response: string, error: string, name: string): (r: Record)
    ensures r.ErrorRecord? <==> error != []
    ensures r.AgentRecord? <==> error == [] && response != []
    ensures r == NoResponseRecord <==> error == [] && response == []
    ensures Plain(r) == if error != [] then "Error: " + error
                        else if response != [] then name + Repl.Arrow + response
                        else "(no response)"
  {
    if error != [] then ErrorRecord(error) else if response != [] then AgentRecord(name, response) else NoResponseRecord
  }

  /** What the agent call gave: its combined output, or the exception. */
  datatype Backend = Output(text: string) | Failure(message: string)

  /** The arguments _get_response passes to _show_response. */
  function Resolve(b: Backend): (string, string) {
    match b
    case Output(text) => (Response(text), "")
    case Failure(message) => ("", message)
  }

  /** The outcome of one call: an output of status lines only is an explicit
      "(no response)" and not an error; a failure with a message is an
      error; an output with anything else in it is the agent's reply. */
  lemma ResolveOutcome(b: Backend, name: string)
    ensures var (response, error) := Resolve(b);
      && (b.Output? && (forall l :: l in SplitLines(Strip(b.text)) ==> IsStatus(l)) ==> Verdict(response, error, name) == NoResponseRecord)
      && (b.Failure? && b.message != [] ==> Verdict(response, error, name) == ErrorRecord(b.message))
      && (b.Output? ==> !Verdict(response, error, name).ErrorRecord?)
  {
    if b.Output? && forall l :: l in SplitLines(Strip(b.text)) ==> IsStatus(l) {
      ResponseAllStatus(b.text);
    }
  }

  // ---------------------------------------------------------------------------
  // The spinner

  const ThinkingMessages: seq<string> := [
    "compiling thoughts", "traversing the tree", "searching the heap", "resolving dependencies",
    "optimizing", "dereferencing pointers", "unwinding the stack", "consulting the docs",
    "running the garbage collector", "rebalancing the tree", "checking edge cases",
    "reducing to base case", "following the linked list", "hashing it out",
    "building the parse tree", "evaluating the expression", "allocating brain cells",
    "performing a deep copy", "sorting thoughts in O(n log n)", "awaiting the future"
  ]

  /** The ten braille frames of the spinner. */
  const SpinnerFrames: string := "\U{280B}\U{2819}\U{2839}\U{2838}\U{283C}\U{2834}\U{2826}\U{2827}\U{2807}\U{280F}"

  /** The frame after frame i. */
  function NextFrame(i: nat): nat {
    (i + 1) % |SpinnerFrames|
  }

  /** The frame after n ticks from frame i. */
  function FrameAfter(i: nat, n: nat): nat
    decreases n
  {
    if n == 0 then i else NextFrame(FrameAfter(i, n - 1))
  }

  /** How many of n ticks from frame i land on frame 0 and so draw a new
      phrase. */
  function Redraws(i: nat, n: nat): nat
    decreases n
  {
    if n == 0 then 0 else Redraws(i, n - 1) + (if FrameAfter(i, n) == 0 then 1 else 0)
  }

  /** Ticking from frame i moves n frames on, modulo ten, and draws a new
      phrase once per full turn of the wheel. */
  lemma {:induction false} TickCycle(i: nat, n: nat)
    requires i < |SpinnerFrames|
    ensures FrameAfter(i, n) == (i + n) % 10
    ensures Redraws(i, n) == (i + n) / 10
    decreases n
  {
    if n > 0 {
      TickCycle(i, n - 1);
      var m := i + n - 1;
      assert FrameAfter(i, n) == (m % 10 + 1) % 10;
      if m % 10 == 9 {
        assert (m + 1) % 10 == 0 && (m + 1) / 10 == m / 10 + 1;
      } else {
        assert (m + 1) % 10 == m % 10 + 1 && (m + 1) / 10 == m / 10;
      }
    }
  }

  /** The spinner line: frame, phrase and an ellipsis. */
  function SpinnerLine(i: nat, phrase: string): string
    requires i < |SpinnerFrames|
  {
    "  " + [SpinnerFrames[i]] + " " + phrase + "..."
  }

  // ---------------------------------------------------------------------------
  // The app

  lemma SetAddRemove(s: set<nat>, x: nat)
    requires x !in s
    ensures (s + {x}) - {x} == s
  {
  }

  /** ChatApp: the chat log, the spinner's frame, phrase and timer, and the
      interval timers that are still firing. */
  class ChatApp {
    const displayName: string
    var chat: seq<Record>
    var spinnerIndex: nat
    var thinkingMsg: string
    var spinnerTimer: Option<nat>
    var spinnerText: string
    var spinnerShown: bool
    /** The interval timers set and not stopped. */
    ghost var running: set<nat>
    /** The identity the next interval timer gets. */
    var nextTimer: nat

    ghost predicate Valid()
      reads this
    {
      && spinnerIndex < |SpinnerFrames|
      && (running != {} ==> thinkingMsg in ThinkingMessages)
      && (spinnerTimer.Some? ==> spinnerTimer.value in running)
      && (forall t :: t in running ==> t < nextTimer)
    }

    constructor (displayName: string)
      ensures Valid()
      ensures this.displayName == displayName && chat == []
      ensures spinnerIndex == 0 && thinkingMsg == "" && spinnerTimer == None && !spinnerShown && running == {}
    {
      this.displayName := displayName;
      chat := [];
      spinnerIndex := 0;
      thinkingMsg := "";
      spinnerTimer := None;
      spinnerText := "";
      spinnerShown := false;
      running := {};
      nextTimer := 0;
    }

    /** _start_spinner: frame 0, some phrase of the list, the spinner shown
        and a new interval timer; a timer set before is not stopped. */
    method StartSpinner()
      requires Valid()
      modifies this`spinnerIndex, this`thinkingMsg, this`spinnerTimer, this`spinnerText, this`spinnerShown, this`running, this`nextTimer
      ensures Valid()
      ensures spinnerIndex == 0 && thinkingMsg in ThinkingMessages
      ensures spinnerText == SpinnerLine(0, thinkingMsg) && spinnerShown
      ensures spinnerTimer == Some(old(nextTimer)) && old(nextTimer) !in old(running)
      ensures running == old(running) + {old(nextTimer)} && nextTimer == old(nextTimer) + 1
    {
      spinnerIndex := 0;
      var k :| 0 <= k < |ThinkingMessages|;
      thinkingMsg := ThinkingMessages[k];
      spinnerText := SpinnerLine(0, thinkingMsg);
      spinnerShown := true;
      spinnerTimer := Some(nextTimer);
      running := running + {nextTimer};
      nextTimer := nextTimer + 1;
    }

    /** _tick_spinner: called by a firing timer; the next frame, and a new
        phrase of the list only when the frame comes back to 0. */
    method TickSpinner()
      requires Valid() && running != {}
      modifies this`spinnerIndex, this`thinkingMsg, this`spinnerText
      ensures Valid()
      ensures spinnerIndex == NextFrame(old(spinnerIndex))
      ensures thinkingMsg in ThinkingMessages
      ensures spinnerIndex != 0 ==> thinkingMsg == old(thinkingMsg)
      ensures spinnerText == SpinnerLine(spinnerIndex, thinkingMsg)
    {
      spinnerIndex := (spinnerIndex + 1) % |SpinnerFrames|;
      if spinnerIndex == 0 {
        var k :| 0 <= k < |ThinkingMessages|;
        thinkingMsg := ThinkingMessages[k];
      }
      spinnerText := SpinnerLine(spinnerIndex, thinkingMsg);
    }

    /** _stop_spinner: stops the current timer, if any, and hides the
        spinner; with no timer it only hides it, so stopping twice is safe. */
    method StopSpinner()
      requires Valid()
      modifies this`spinnerTimer, this`spinnerShown, this`running
      ensures Valid()
      ensures spinnerTimer == None && !spinnerShown
      ensures running == if old(spinnerTimer).Some? then old(running) - {old(spinnerTimer).value} else old(running)
    {
      if spinnerTimer.Some? {
        running := running - {spinnerTimer.value};
        spinnerTimer := None;
      }
      spinnerShown := false;
    }

    /** send_message: one "You → text" record after the earlier ones, then
        the spinner starts. */
    method SendMessage(text: string)
      requires Valid()
      modifies this`chat, this`spinnerIndex, this`thinkingMsg, this`spinnerTimer, this`spinnerText, this`spinnerShown, this`running, this`nextTimer
      ensures Valid()
      ensures chat == old(chat) + [UserRecord(text)]
      ensures spinnerIndex == 0 && thinkingMsg in ThinkingMessages
      ensures spinnerText == SpinnerLine(0, thinkingMsg) && spinnerShown
      ensures spinnerTimer == Some(old(nextTimer)) && running == old(running) + {old(nextTimer)}
      ensures nextTimer == old(nextTimer) + 1
    {
      chat := chat + [UserRecord(text)];
      StartSpinner();
    }

    /** _show_response: the spinner stops first; then exactly two records
        follow the earlier ones, the verdict and a blank spacer. */
    method ShowResponse(response: string, error: string)
      requires Valid()
      modifies this`chat, this`spinnerTimer, this`spinnerShown, this`running
      ensures Valid()
      ensures chat == old(chat) + [Verdict(response, error, displayName), Spacer]
      ensures spinnerTimer == None && !spinnerShown
      ensures running == if old(spinnerTimer).Some? then old(running) - {old(spinnerTimer).value} else old(running)
      ensures spinnerIndex == old(spinnerIndex) && thinkingMsg == old(thinkingMsg)
    {
      StopSpinner();
      if error != [] {
        chat := chat + [ErrorRecord(error)];
      } else if response != [] {
        chat := chat + [AgentRecord(displayName, response)];
      } else {
        chat := chat + [NoResponseRecord];
      }
      chat := chat + [Spacer];
    }

    /** _get_response once the agent call is over: the output is filtered,
        or the exception's text becomes the error. */
    method GetResponse(b: Backend)
      requires Valid()
      modifies this`chat, this`spinnerTimer, this`spinnerShown, this`running
      ensures Valid()
      ensures chat == old(chat) + [Verdict(Resolve(b).0, Resolve(b).1, displayName), Spacer]
      ensures spinnerTimer == None && !spinnerShown
      ensures running == if old(spinnerTimer).Some? then old(running) - {old(spinnerTimer).value} else old(running)
      ensures spinnerIndex == old(spinnerIndex) && thinkingMsg == old(thinkingMsg)
    {
      match b
      case Output(text) =>
        var raw := Strip(text);
        var lines := Kept(SplitLines(raw));
        var response := Strip(JoinWith(lines, "\n"));
        ShowResponse(response, "");
      case Failure(message) =>
        ShowResponse("", message);
    }

    /** One exchange from an idle app: three records after the earlier
        ones, the message first, and no timer left firing that was not
        firing before. */
    method Exchange(text: string, b: Backend)
      requires Valid() && spinnerTimer == None
      modifies this`chat, this`spinnerIndex, this`thinkingMsg, this`spinnerTimer, this`spinnerText, this`spinnerShown, this`running, this`nextTimer
      ensures Valid() && spinnerTimer == None && !spinnerShown
      ensures chat == old(chat) + [UserRecord(text), Verdict(Resolve(b).0, Resolve(b).1, displayName), Spacer]
      ensures running == old(running) && nextTimer == old(nextTimer) + 1
      ensures spinnerIndex == 0 && thinkingMsg in ThinkingMessages
    {
      ghost var before, timers, started := chat, running, nextTimer;
      ghost var verdict := Verdict(Resolve(b).0, Resolve(b).1, displayName);
      SendMessage(text);
      assert started !in timers;
      GetResponse(b);
      SetAddRemove(timers, started);
      assert chat == (before + [UserRecord(text)]) + [verdict, Spacer];
    }
  }

  /** ChatInput: the text of the input box and the app it sends to. */
  class ChatInput {
    var text: string
    const app: ChatApp

    constructor (app: ChatApp)
      ensures this.app == app && text == ""
    {
      this.app := app;
      text := "";
    }

    /** action_submit: a box that strips to nothing changes nothing;
        otherwise the stripped text is sent and the box is cleared. */
    method ActionSubmit()
      requires app.Valid()
      modifies this`text, app`chat, app`spinnerIndex, app`thinkingMsg, app`spinnerTimer, app`spinnerText, app`spinnerShown, app`running, app`nextTimer
      ensures app.Valid()
      ensures Strip(old(text)) == [] ==> text == old(text) && unchanged(app)
      ensures Strip(old(text)) != [] ==>
        && text == ""
        && app.chat == old(app.chat) + [UserRecord(Strip(old(text)))]
        && app.spinnerIndex == 0 && app.thinkingMsg in ThinkingMessages
        && app.spinnerText == SpinnerLine(0, app.thinkingMsg) && app.spinnerShown
        && app.spinnerTimer == Some(old(app.nextTimer))
        && app.running == old(app.running) + {old(app.nextTimer)}
    {
      var t := Strip(text);
      if t != [] {
        app.SendMessage(t);
        text := "";
      }
    }
  }
}
