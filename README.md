# Terminal classroom chat clients, modelled in Dafny

The repository holds three chat clients for an agent reached through the
`openclaw agent` command line, either locally or over `ssh`:

- `tui/tutor-chat.py` is a REPL for the tutor agent. It cuts the reply into
  paragraphs at blank lines, undoes the backend's soft wraps, and re-wraps
  each paragraph to the terminal width. The first paragraph leaves room for
  the "Name → " label and the others for a four-space indent.
- `agent-tui.py` is a REPL for any agent. It keeps the reply's line
  structure: every newline is a hard break, and each line is wrapped at
  `width - 4`.
- `tui/chat_tui.py` is a full-screen client. It has a chat log, a spinner
  with a random phrase while the agent works, and a filter that drops the
  CLI's status lines ("completed", "sent", "queued") from the reply.

The model covers the text layout and the interaction logic these share:

- paragraph and line reflow, over a model of `textwrap.wrap`;
- the shell quoting of the message;
- the line filter and the choice of the record to show;
- the spinner state;
- the chat log;
- the REPL input loop, as a run over a sequence of input events.

Modules, one per file:

| module | file | what it holds |
|---|---|---|
| `Wrappers` | wrappers.dfy | `Option` |
| `PyStr` | pystr.dfy | Python's `str.isspace`, `split()`, `split(sep)`, `splitlines`, `strip`, `join` and an ASCII `lower`, with their lemmas |
| `TextWrap` | textwrap.dfy | `textwrap.wrap(..., break_long_words=False, break_on_hyphens=False)`: tab expansion, whitespace munging, chunks and the greedy layout of chunks into lines |
| `Shell` | shell.dfy | the `'` → `'\''` escape, `shlex.quote`, `os.path.dirname`, and what a POSIX shell makes of one argument word (section 2.2 of the POSIX Shell Command Language, "Quoting") |
| `Repl` | repl.dfy | what the two REPLs share: input classification, the session run, the labelled printing of a reply, the remote command line |
| `TutorChat` | tutor_chat.dfy | `tui/tutor-chat.py` |
| `AgentTui` | agent_tui.dfy | `agent-tui.py` |
| `ChatTui` | chat_tui.dfy | `tui/chat_tui.py`: `build_command`, the reply filter, the records, the `ChatApp` and `ChatInput` classes |

## Behaviour worth knowing

- `tui/tutor-chat.py` wraps the WHOLE first paragraph at
  `width - first_prefix_len`, not only its first output line. A blank
  first paragraph still uses up that width, so every later paragraph gets
  the continuation width.
- A width no larger than the prefix is not clamped to 1. `textwrap`
  raises `ValueError` for it, so the model makes `width > prefix` a
  precondition.
- In `tui/tutor-chat.py`, an all-whitespace reply gives one empty line per
  `"\n\n"` span. It gives `[""]` only when the reply holds no `"\n\n"`.
- `agent-tui.py` hands each line to `textwrap.wrap` as it is. The first
  output line of a line keeps its leading indentation, and runs of spaces
  inside a line are kept, unless that indentation and the first word
  together do not fit.
- No client refuses a second request while one is pending.
- The two REPLs turn a timeout into a reply string: a remote timeout gives
  "(timeout — check connection)", and a local timeout or a missing binary
  gives "(error: …)". `tui/chat_tui.py` catches every exception from the
  agent call, its 180 s timeout included, and shows the exception's text as
  an "Error: …" record.
- Nothing re-renders the chat when the terminal is resized.
- `agent-tui.py` sends nothing on an exit word. Only `tui/tutor-chat.py`
  sends a farewell.

## Model

| member | source | states |
|---|---|---|
| `PyStr.Strip` | tui/tutor-chat.py:122 | `s.strip()` is empty exactly when `s` is all whitespace, and otherwise starts and ends with a non-space |
| `PyStr.StripSpec` | tui/tutor-chat.py:122 | `s.strip()` is the stretch `s[i..j]` with only whitespace before `i` and after `j` |
| `PyStr.WordsOfJoin` | tui/tutor-chat.py:57 | joining words with single spaces and splitting again gives the same words |
| `PyStr.WordsRespace` | tui/tutor-chat.py:56-57 | replacing whitespace by other whitespace (a soft-wrap newline by a space) changes no word |
| `PyStr.JoinSplitOn` | tui/tutor-chat.py:53 | `sep.join(s.split(sep)) == s` |
| `PyStr.SplitOnCharConcat` | agent-tui.py:34 | splitting at `'\n'` splits the text on either side of one newline independently |
| `PyStr.JoinSplitLines` | tui/chat_tui.py:170-171 | `"\n".join(s.splitlines()) == s` when `'\n'` is the only line break and `s` does not end in one |
| `TextWrap.WrapLayout` | agent-tui.py:38-40 | `textwrap.wrap` of any text: the lines are stretches of the text after tab expansion and whitespace munging, in order, no chunk split, only whitespace before, between and after them; each is non-empty and at most the width unless it is one chunk with no space; greedy; the first line keeps the leading indentation unless it does not fit with the first chunk; the lines read back as the text's words; a text with a non-space character gives a line |
| `TextWrap.LayoutKeepsIndent` | agent-tui.py:38-40 | in any greedy layout of a munged text that starts with spaces, when those spaces and the chunk after them fit the width together and that chunk is not whitespace, the first line starts at position 0 and takes that chunk in full |
| `TextWrap.WrapKeepsIndent` | agent-tui.py:38-40 | `textwrap.wrap` keeps a line's indentation: under the same condition, its first line is a prefix of the munged text that holds the leading spaces and the whole first word |
| `TextWrap.WrapSpec` | tui/tutor-chat.py:63-72 | `textwrap.wrap` of a text already collapsed to single spaces, as `wrap_text` passes it: no line exactly for an all-whitespace text; the lines read back as the text's words; each line is its words joined by single spaces; each fits the width unless it is one over-long word; greedy |
| `Shell.EscapeLength` | tui/tutor-chat.py:77 | the escape adds three characters per `'` and leaves a quote-free message unchanged |
| `Shell.UnquoteEscaped` | tui/tutor-chat.py:86 | the shell reads `'p` + escaped message + `'` back as exactly `p` + message, for every message |
| `Shell.ShlexRoundTrip` | tui/chat_tui.py:73 | the shell reads `shlex.quote(s)` back as exactly `s`, for every `s` |
| `Shell.ShlexQuotesSpaced` | tui/chat_tui.py:69-73 | a text with a space in it always gets single quotes from `shlex.quote` |
| `Shell.DirNameOfFile` | tui/tutor-chat.py:14 | `os.path.dirname(d + "/" + f)` is `d` |
| `Repl.ClassifySpec` | tui/tutor-chat.py:116-135 | a line is skipped exactly when it is all whitespace, ends the session exactly when it strips to `quit`, `exit` or `bye` (exact match), and is otherwise sent stripped |
| `Repl.FirstEndSpec` | tui/tutor-chat.py:116-135 | the session ends at the first end of input or exit word |
| `Repl.MessagesShape` | tui/tutor-chat.py:122-132 | every message sent is stripped, non-empty and not an exit word; never more messages than input events |
| `Repl.RunShape` | tui/tutor-chat.py:116-150 | a session sends every message typed before its end, once and in order; each is followed on screen by its reply, then by what the exit word or end of input does |
| `Repl.RunIgnoresRest` | tui/tutor-chat.py:125-135 | nothing typed after the session ended is read |
| `Repl.MessageWordUnquotes` | agent-tui.py:55 | the remote shell reads `'[terminal] {escaped}'` back as `"[terminal] " + msg` |
| `Repl.LabelledSnoc` | tui/tutor-chat.py:143-147 | printing one more line adds the label and arrow on line 0 and four spaces on the others |
| `TutorChat.WrapText` | tui/tutor-chat.py:40-73 | the loop over `"\n\n"` spans, with its `is_first` flag, returns the concatenated paragraph lines of `Reflow` |
| `TutorChat.ParagraphLinesSpec` | tui/tutor-chat.py:57-72 | one span: a blank span gives exactly `[""]`; any other gives non-empty single-spaced lines that read back as its words, fit the bound unless one over-long word, and are greedy |
| `TutorChat.ReflowWords` | tui/tutor-chat.py:53-72 | the words of the output lines, in order, are exactly `text.split()` |
| `TutorChat.ReflowLayout` | tui/tutor-chat.py:58-72 | span 0 is wrapped at `width - first_prefix_len` and every later span at `width - cont_prefix_len`, even after a blank span 0; every line fits its bound unless one over-long word; greedy |
| `TutorChat.ReflowBlankLines` | tui/tutor-chat.py:53-61 | the empty output lines are exactly one per all-whitespace span, so adjacent non-empty spans get no separator |
| `TutorChat.ReflowBlankText` | tui/tutor-chat.py:53-61 | an all-whitespace text gives one `""` per span, and exactly `[""]` when it has no `"\n\n"` |
| `TutorChat.ReflowDewrap` | tui/tutor-chat.py:51-57 | texts whose spans have the same words give the same lines |
| `TutorChat.ReflowSoftWraps` | tui/tutor-chat.py:43-46 | in a text without `"\n\n"`, turning newlines into spaces changes nothing |
| `TutorChat.ReflowFlatFits` | tui/tutor-chat.py:62-72 | the first output line fits `width - first_prefix_len`, and every line fits the continuation bound, unless it is one over-long word |
| `TutorChat.ShowReply` | tui/tutor-chat.py:139-149 | a non-empty reply is printed as "Name → " before line 0 and four spaces before the rest; an empty one prints "(no response — check connection)" |
| `TutorChat.ReplyFitsTerminal` | tui/tutor-chat.py:140-147 | with `prefix_len = len(name) + 3`, every printed line fits the terminal unless it holds one over-long word |
| `TutorChat.SendCommandDelivers` | tui/tutor-chat.py:75-88 | localhost passes `"[terminal] " + msg` as the last argument; remote runs `ssh SERVER cmd`, whose last word the shell reads as `"[terminal] " + msg` |
| `TutorChat.RunSession` | tui/tutor-chat.py:104-150 | the `main` loop prints the banner and then sends and prints exactly what the session run over the input events says |
| `TutorChat.SessionSends` | tui/tutor-chat.py:116-138 | the messages typed before the end are sent once each, in order; an exit word adds exactly one "Session over, thanks!"; end of input sends nothing more |
| `TutorChat.SessionIgnoresRest` | tui/tutor-chat.py:125-135 | input after the end changes nothing |
| `AgentTui.WrapText` | agent-tui.py:30-42 | the loop over `'\n'` lines returns the concatenated line groups of `Reflow` |
| `AgentTui.LineGroupSpec` | agent-tui.py:35-41 | one input line gives at least one output line; a whitespace-only line gives exactly `[""]`, and only such a line does; any other line gives exactly its `textwrap.wrap` at `width - 4`, laid out as `TextWrap.WrapLayout` states (indentation on its first line and inner runs of spaces kept), non-empty lines that read back as its words, each within `width - 4` unless one chunk with no space |
| `AgentTui.ReflowLayout` | agent-tui.py:34-41 | each input line maps to its own contiguous group of output lines, in input order, holding exactly its words: `[""]` for a blank line, its `textwrap.wrap` at `width - 4` for any other; every line within `width - 4` unless one chunk with no space |
| `AgentTui.ReflowWords` | agent-tui.py:34-41 | the words of the output equal the words of the input, in order, none split |
| `AgentTui.ReflowWidth` | agent-tui.py:38-40 | every output line is at most `width - 4` long unless it is one chunk with no space |
| `AgentTui.ReflowHardBreak` | agent-tui.py:34 | `Reflow(a + "\n" + b) == Reflow(a) + Reflow(b)`: a single newline is a hard break and lines are never joined across it |
| `AgentTui.ShowReply` | agent-tui.py:102-110 | the labelled reply, or "(no response — check connection)" for an empty one |
| `AgentTui.ReplyBlockShape` | agent-tui.py:104-108 | label and arrow before line 0, four spaces before the others; later lines fit the terminal unless one chunk with no space; line 0 may overrun it by the label length less one |
| `AgentTui.SendCommandDelivers` | agent-tui.py:44-63 | localhost passes `"[terminal] " + msg`; remote runs `ssh -o LogLevel=ERROR SERVER cmd`, whose last word the shell reads as `"[terminal] " + msg` |
| `AgentTui.RunSession` | agent-tui.py:65-111 | the `main` loop prints the banner and then sends and prints exactly what the session run says |
| `AgentTui.SessionSends` | agent-tui.py:80-98 | the messages typed before the end are sent once each, in order, and nothing else: an exit word only prints "See you later." |
| `ChatTui.BuildCommandDelivers` | tui/chat_tui.py:66-74 | localhost: `[OPENCLAW, "agent", "--agent", AGENT, "--message", payload]`; remote: `["ssh", SERVER, remote_cmd]` ending in `shlex.quote(payload)`, which always quotes and unquotes to `payload`; `payload == "[terminal] " + message` exactly when the message has no `'` |
| `ChatTui.BuildCommandDoubleEscapes` | tui/chat_tui.py:68-71 | the message `it's` reaches the agent as `[terminal] it'\''s` |
| `ChatTui.BuildCommandIntendedDelivers` | tui/chat_tui.py:66-74 | with the payload built from the unescaped message, the agent receives exactly `"[terminal] " + message` in both modes |
| `ChatTui.FilterSpec` | tui/chat_tui.py:170 | a list comprehension keeps a line exactly when it is not dropped; a single line is kept or dropped on its own; nothing changes exactly when nothing is dropped; all lines dropped gives `[]` |
| `ChatTui.FilterAppend` | tui/chat_tui.py:170 | filtering two runs of lines one after the other gives the two filtered runs in the same order, so with `FilterSpec` the filter keeps lines in order |
| `ChatTui.KeptSpec` | tui/chat_tui.py:170 | the kept lines are exactly the lines whose `strip().lower()` is not `completed`, `sent` or `queued`, and the filter works line by line |
| `ChatTui.ResponseAllStatus` | tui/chat_tui.py:169-171 | an output of status lines only gives an empty reply |
| `ChatTui.ResponseClean` | tui/chat_tui.py:169-171 | a stripped output with `'\n'` breaks and no status line comes through unchanged |
| `ChatTui.Plain` | tui/chat_tui.py:156-190 | a user record reads "You → text" (lines 156-158), an agent record "Name → reply" and an error "Error: message" (lines 180-190); only the spacer is blank |
| `ChatTui.Verdict` | tui/chat_tui.py:179-190 | a non-empty error gives the "Error: " record, else a non-empty reply gives the agent record, else "(no response)"; each in both directions |
| `ChatTui.ResolveOutcome` | tui/chat_tui.py:163-191 | an output of status lines only is "(no response)", not an error; a failure with a message is an error; an output is never an error |
| `ChatTui.TickCycle` | tui/chat_tui.py:137-141 | after `n` ticks from frame `i` the frame is `(i + n) % 10`, and a new phrase has been drawn `(i + n) / 10` times |
| `ChatTui.ChatApp.constructor` | tui/chat_tui.py:110-113 | frame 0, no phrase, no timer, empty log |
| `ChatTui.ChatApp.StartSpinner` | tui/chat_tui.py:129-135 | frame 0, a phrase of the list, spinner shown, a new timer active; an earlier timer is not stopped |
| `ChatTui.ChatApp.TickSpinner` | tui/chat_tui.py:137-145 | the frame advances by 1 mod 10; the phrase stays in the list and changes only when the frame returns to 0 |
| `ChatTui.ChatApp.StopSpinner` | tui/chat_tui.py:147-151 | no active timer afterwards; the current timer, if any, stops; with none, only the spinner is hidden |
| `ChatTui.ChatApp.SendMessage` | tui/chat_tui.py:153-161 | exactly one "You → text" record after the unchanged earlier ones, then the spinner starts: frame 0, a phrase of the list, a new timer |
| `ChatTui.ChatApp.ShowResponse` | tui/chat_tui.py:176-191 | the spinner stops; exactly two records follow the earlier ones, the verdict and a blank spacer |
| `ChatTui.ChatApp.GetResponse` | tui/chat_tui.py:163-174 | the filtered output, or the exception text as the error, goes to `ShowResponse`: the verdict and a spacer are appended, the spinner stops, its frame and phrase are unchanged, and nothing else changes |
| `ChatTui.ChatApp.Exchange` | tui/chat_tui.py:153-191 | from an idle app, one exchange appends the user record, the verdict and the spacer, in that order; it leaves no timer running that was not running before, the spinner hidden at frame 0 with a phrase of the list, and one timer identity used |
| `ChatTui.ChatInput.ActionSubmit` | tui/chat_tui.py:84-88 | if the text strips to nothing, nothing changes; otherwise the stripped text is sent as one user record, the box is cleared, and the spinner starts at frame 0 with a phrase of the list and a new running timer |

## Findings

| source | as written | input that shows it | evidently intended | confidence | as-written member | corrected member |
|---|---|---|---|---|---|---|
| tui/chat_tui.py:68-73 | `build_command` replaces each `'` with `'\''` and then passes the payload unchanged as an argument (localhost), or through `shlex.quote`, which already protects quotes (remote). The escape is never undone. | the message `it's`: the agent receives `[terminal] it'\''s` in both modes | the agent receives `[terminal] it's`, as from the two REPL clients | high (not executed) | `ChatTui.BuildCommandDoubleEscapes` | `ChatTui.BuildCommandIntendedDelivers` |

`ChatTui.BuildCommand` models the code as written. `ChatTui.BuildCommandIntended`
is the corrected definition. The app model (`ChatApp`) takes the agent's
output as a parameter, so it uses neither command.

## Left out

- Running the agent is not modelled. That covers `subprocess.run`, `ssh`,
  the 120 s and 180 s timeouts, the exception capture and the strings
  "(error: …)" and "(timeout — check connection)". A REPL's reply is a
  parameter `reply(n)` for the n-th message. The full-screen client's
  result is a `Backend` value: the output, or the exception text.
- Terminal-width probing (`tput`, `COLUMNS`, `shutil`) is not modelled.
  The width is a parameter.
- `sys.argv`, environment variables and `_find_openclaw` are not modelled.
  The agent, server and binary are a `Config`, and the display name is a
  parameter.
- Colours, ANSI codes, Rich markup and styles, Textual widgets and CSS,
  `compose`, `on_mount` and `prompt_toolkit` sessions are not modelled.
  The typed-line input and its fallback behave alike and are one `Event`.
- Worker threads, `call_from_thread` and the 0.08 s `set_interval` timer
  are not modelled as threads or time. Ticks and responses are explicit
  calls. The set of timers still firing is a ghost field.
- `random.choice` is a nondeterministic choice of some element of
  `THINKING_MESSAGES`.
- `ChatInput._on_key` is not modelled: it inserts a newline at the cursor,
  and the editor's cursor is not modelled. The app's quit bindings are not
  modelled either.
- The `textwrap` options the clients leave at their defaults
  (`fix_sentence_endings`, `initial_indent`, `subsequent_indent`,
  `max_lines`, `tabsize`) are fixed in the model, not parameters.
- PyStr.Lower: lowers ASCII letters only. This is exact for the status
  test. The only non-ASCII characters whose lowercase is ASCII are the
  Kelvin sign (→ `k`) and `İ` (→ `i` plus a combining dot), and none of
  `completed`, `sent` or `queued` contains `k` or `i`.
- ChatTui.ChatApp.StartSpinner: a second start before a stop overwrites
  the timer field and leaves the first timer firing, as the code does.
  `_get_response` runs before `run_worker` receives it, so the app is busy
  until the reply is shown. The model does not model that blocking, or how
  the UI library treats `call_from_thread` from its own thread.
