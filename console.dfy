/** The console front end (`main`): it reads a line, stops on a goodbye word,
    otherwise appends the user's message and the bot's reply to the history,
    and stops once the history is long enough to end the conversation.
    Console reads arrive as a sequence of inputs and the language model's
    outcome for the k-th call as `oracle(k)`; printing is not modelled. */
module Console {
  import opened PyStr
  import opened App

  /** One call of `input()`: a line of text, or a KeyboardInterrupt. */
  datatype ConsoleInput = Line(text: string) | Interrupt

  /** Why the loop stopped. InputExhausted stands for `input()` reaching the
      end of its stream, which raises an exception the loop does not catch. */
  datatype Exit = Farewell | Interrupted | TurnLimit | InputExhausted

  /** The goodbye words, already in lower case: "doviđenja", "cao", "ćao". */
  const GoodbyeWords: seq<string> := ["dovi\U{111}enja", "cao", "\U{107}ao"]

  /** `user_input.lower() in [...]` for the already stripped input. */
  predicate IsGoodbye(input: string)
    ensures IsGoodbye(input) ==> |input| == 3 || |input| == 9
    ensures IsGoodbye(input) ==> Strip(input) == input
  {
    if Lower(input) in GoodbyeWords then
      UnpaddedGoodbye(input);
      true
    else
      false
  }

  /** An input that lower-cases to a goodbye word starts and ends with a letter,
      so stripping leaves it as it is. */
  lemma {:induction false} UnpaddedGoodbye(input: string)
    requires Lower(input) in GoodbyeWords
    ensures |input| == 3 || |input| == 9
    ensures Strip(input) == input
  {
    var w := Lower(input);
    GoodbyeWordUnpadded(w);
    LowerKeepsSpace(input[0]);
    LowerKeepsSpace(input[|input| - 1]);
    StripUnpadded(input);
  }

  /** Each goodbye word is non-empty and starts and ends with a letter. */
  lemma {:induction false} GoodbyeWordUnpadded(w: string)
    requires w in GoodbyeWords
    ensures |w| == 3 || |w| == 9
    ensures !IsSpace(w[0]) && !IsSpace(w[|w| - 1])
  {
  }

  /** The goodbye test ignores case: lower-casing the input first changes nothing. */
  lemma {:induction false} GoodbyeIgnoresCase(input: string)
    ensures IsGoodbye(Lower(input)) <==> IsGoodbye(input)
  {
    LowerIdempotent(input);
  }

  /** Worked cases: upper-case and Serbian capitals are recognised, but the
      comparison is exact, so trailing punctuation defeats it. */
  lemma GoodbyeExamples()
    ensures IsGoodbye("\U{106}AO") && IsGoodbye("DOVI\U{110}ENJA") && IsGoodbye("Cao")
    ensures !IsGoodbye("cao!") && !IsGoodbye("")
  {
    assert Lower("\U{106}AO") == GoodbyeWords[2];
    assert Lower("DOVI\U{110}ENJA") == GoodbyeWords[0];
    assert Lower("Cao") == GoodbyeWords[1];
  }

  /** Line `line` was answered as the user's message `input`: it is a line of
      text, `input` is that text stripped, and it is not a goodbye word. */
  ghost predicate Accepts(line: ConsoleInput, input: string) {
    line.Line? && input == Strip(line.text) && !IsGoodbye(input)
  }

  /** The first |inputs| console lines were each answered, as `inputs`. */
  ghost predicate AcceptedLines(lines: seq<ConsoleInput>, inputs: seq<string>)
    decreases |inputs|
  {
    |inputs| <= |lines| &&
    (inputs == [] ||
     (AcceptedLines(lines, inputs[..|inputs| - 1]) && Accepts(lines[|inputs| - 1], inputs[|inputs| - 1])))
  }

  /** Each accepted line, at every position, is a non-goodbye line whose
      stripped text is the recorded user message. */
  lemma {:induction false} AcceptedLinesAt(lines: seq<ConsoleInput>, inputs: seq<string>, k: nat)
    requires AcceptedLines(lines, inputs) && k < |inputs|
    ensures lines[k].Line? && inputs[k] == Strip(lines[k].text) && !IsGoodbye(inputs[k])
    decreases |inputs|
  {
    if k < |inputs| - 1 {
      var shorter := inputs[..|inputs| - 1];
      AcceptedLinesAt(lines, shorter, k);
      assert shorter[k] == inputs[k];
    }
  }

  /** Every reply is exactly one message. */
  ghost predicate SingleReplies(respond: (nat, seq<Message>) -> seq<Message>) {
    forall k: nat, history: seq<Message> :: |respond(k, history)| == 1
  }

  /** How `main` answers the k-th line: `process_message` on the history so
      far, with the k-th outcome of the language model. Every reply is a
      single assistant message. */
  function BotReplies(faqs: seq<Faq>, oracle: nat -> Generation): (r: (nat, seq<Message>) -> seq<Message>)
    ensures forall k: nat, history: seq<Message> ::
              |r(k, history)| == 1 && r(k, history)[0].role == Assistant
  {
    var f := (k: nat, history: seq<Message>) => ProcessMessage(history, faqs, oracle(k));
    assert forall k: nat, history: seq<Message> :: f(k, history) == ProcessMessage(history, faqs, oracle(k));
    f
  }

  /** The history `main` has built once the stripped user lines `inputs` were
      each answered in turn: the system message, then for every line the
      user's message followed by the reply `respond` gives for that line and
      the history up to and including that message. */
  function Transcript(systemPrompt: string, inputs: seq<string>,
                      respond: (nat, seq<Message>) -> seq<Message>): (h: seq<Message>)
    ensures |h| >= 1 && h[0] == Message(System, systemPrompt)
    ensures SingleReplies(respond) ==> |h| == 1 + 2 * |inputs|
    decreases |inputs|
  {
    if inputs == [] then [Message(System, systemPrompt)]
    else
      var n := |inputs| - 1;
      var asked := Transcript(systemPrompt, inputs[..n], respond) + [Message(User, inputs[n])];
      asked + respond(n, asked)
  }

  /** The history only grows: the transcript of the first `m` lines is a
      prefix of the transcript of all of them. */
  lemma {:induction false} TranscriptGrows(systemPrompt: string, inputs: seq<string>,
                                           respond: (nat, seq<Message>) -> seq<Message>, m: nat)
    requires SingleReplies(respond) && m <= |inputs|
    ensures Transcript(systemPrompt, inputs[..m], respond)
            == Transcript(systemPrompt, inputs, respond)[..1 + 2 * m]
    decreases |inputs|
  {
    var h := Transcript(systemPrompt, inputs, respond);
    if m == |inputs| {
      assert inputs[..m] == inputs;
    } else {
      var n := |inputs| - 1;
      TranscriptGrows(systemPrompt, inputs[..n], respond, m);
      assert inputs[..n][..m] == inputs[..m];
      assert h[..2 * n + 1] == Transcript(systemPrompt, inputs[..n], respond);
    }
  }

  /** Exchange `k` of a transcript: message 2k + 1 is the user's line k and
      message 2k + 2 is the reply to everything before it. */
  lemma {:induction false} TranscriptExchange(systemPrompt: string, inputs: seq<string>,
                                              respond: (nat, seq<Message>) -> seq<Message>, k: nat)
    requires SingleReplies(respond) && k < |inputs|
    ensures var h := Transcript(systemPrompt, inputs, respond);
            h[2 * k + 1] == Message(User, inputs[k]) &&
            [h[2 * k + 2]] == respond(k, h[..2 * k + 2])
  {
    var h := Transcript(systemPrompt, inputs, respond);
    var g := Transcript(systemPrompt, inputs[..k + 1], respond);
    TranscriptGrows(systemPrompt, inputs, respond, k + 1);
    assert g == h[..2 * k + 3];
    var asked := Transcript(systemPrompt, inputs[..k + 1][..k], respond) + [Message(User, inputs[k])];
    var reply := respond(k, asked);
    assert g == asked + reply;
    assert |reply| == 1;
    assert g[..2 * k + 2] == asked;
    assert h[..2 * k + 2] == asked;
    assert [h[2 * k + 2]] == [g[2 * k + 2]] == reply;
  }

  /** `should_end` stops the conversation exactly from the third answered line on. */
  lemma TranscriptEndsAfterThree(systemPrompt: string, inputs: seq<string>,
                                 respond: (nat, seq<Message>) -> seq<Message>)
    requires SingleReplies(respond)
    ensures ShouldEnd(Transcript(systemPrompt, inputs, respond)) == End <==> |inputs| >= 3
  {
    EndsAfterThirdExchange(Transcript(systemPrompt, inputs, respond), |inputs|);
  }

  /** `for msg in ai_messages: state["messages"].append(msg)`: the replies
      are appended one by one, in order. */
  method AppendReplies(history: seq<Message>, replies: seq<Message>) returns (extended: seq<Message>)
    ensures extended == history + replies
  {
    extended := history;
    for j := 0 to |replies|
      invariant extended == history + replies[..j]
    {
      extended := extended + [replies[j]];
    }
    assert replies[..|replies|] == replies;
  }

  /** In the bot's transcript, message 2k + 2 is the one message
      `process_message` returns for the history up to the user's line k. */
  lemma BotTranscriptExchange(systemPrompt: string, faqs: seq<Faq>, inputs: seq<string>,
                              oracle: nat -> Generation, k: nat)
    requires k < |inputs|
    ensures var h := Transcript(systemPrompt, inputs, BotReplies(faqs, oracle));
            2 * k + 2 < |h| && h[2 * k + 1] == Message(User, inputs[k]) &&
            [h[2 * k + 2]] == ProcessMessage(h[..2 * k + 2], faqs, oracle(k))
  {
    TranscriptExchange(systemPrompt, inputs, BotReplies(faqs, oracle), k);
  }

  /** One answered line extends both the accepted lines and the transcript. */
  lemma AnswerLine(systemPrompt: string, lines: seq<ConsoleInput>,
                   respond: (nat, seq<Message>) -> seq<Message>, inputs: seq<string>, input: string)
    requires AcceptedLines(lines, inputs) && |inputs| < |lines| && Accepts(lines[|inputs|], input)
    ensures AcceptedLines(lines, inputs + [input])
    ensures var asked := Transcript(systemPrompt, inputs, respond) + [Message(User, input)];
            Transcript(systemPrompt, inputs + [input], respond) == asked + respond(|inputs|, asked)
  {
    assert (inputs + [input])[..|inputs|] == inputs;
  }

  /** `main`'s loop, for a reply function that gives one message per line;
      `main` itself runs it with `BotReplies(faqs, oracle)`. The history
      starts as the one system message and is always the transcript of the
      lines answered so far; a goodbye word or an interrupt stops the loop
      before anything is appended; and the loop stops right after the third
      exchange, the first time the history holds more than MaxMessages
      messages. */
  method RunConsole(systemPrompt: string, lines: seq<ConsoleInput>,
                    respond: (nat, seq<Message>) -> seq<Message>)
    returns (history: seq<Message>, inputs: seq<string>, exit: Exit)
    requires SingleReplies(respond)
    ensures |inputs| <= 3 && AcceptedLines(lines, inputs)
    ensures history == Transcript(systemPrompt, inputs, respond)
    ensures exit == TurnLimit <==> |inputs| == 3
    ensures exit == Farewell ==>
              |inputs| < |lines| && lines[|inputs|].Line? && IsGoodbye(Strip(lines[|inputs|].text))
    ensures exit == Interrupted ==> |inputs| < |lines| && lines[|inputs|].Interrupt?
    ensures exit == InputExhausted ==> |inputs| == |lines|
  {
    history := [Message(System, systemPrompt)];
    inputs := [];
    exit := InputExhausted;
    while |inputs| < |lines|
      invariant |inputs| < 3 && AcceptedLines(lines, inputs)
      invariant history == Transcript(systemPrompt, inputs, respond)
      invariant exit == InputExhausted
      decreases |lines| - |inputs|
    {
      var line := lines[|inputs|];
      if line.Interrupt? {
        exit := Interrupted;
        break;
      }
      var userInput := Strip(line.text);
      if IsGoodbye(userInput) {
        exit := Farewell;
        break;
      }

      AnswerLine(systemPrompt, lines, respond, inputs, userInput);
      history := history + [Message(User, userInput)];
      history := AppendReplies(history, respond(|inputs|, history));
      inputs := inputs + [userInput];

      if ShouldEnd(history) == End {
        exit := TurnLimit;
        break;
      }
    }
  }

  /** `main`: the console loop with the bot's own replies. Starting from the
      system prompt, the history is the bot's transcript of the lines it
      answered, and at most three lines are answered. */
  method RunBot(systemPrompt: string, faqs: seq<Faq>, lines: seq<ConsoleInput>, oracle: nat -> Generation)
    returns (history: seq<Message>, inputs: seq<string>, exit: Exit)
    ensures |inputs| <= 3 && AcceptedLines(lines, inputs)
    ensures history == Transcript(systemPrompt, inputs, BotReplies(faqs, oracle))
    ensures |history| == 1 + 2 * |inputs|
    ensures exit == TurnLimit <==> |inputs| == 3
    ensures exit == Farewell ==>
              |inputs| < |lines| && lines[|inputs|].Line? && IsGoodbye(Strip(lines[|inputs|].text))
    ensures exit == Interrupted ==> |inputs| < |lines| && lines[|inputs|].Interrupt?
    ensures exit == InputExhausted ==> |inputs| == |lines|
  {
    history, inputs, exit := RunConsole(systemPrompt, lines, BotReplies(faqs, oracle));
  }
}
