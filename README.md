# Zinger interior-design chatbot: the reply pipeline and console loop

This project models the deterministic logic of the Zinger bot (`app.py`), a persona chatbot.
It answers questions about an interior-design course by calling a hosted language model, and it
falls back on a small FAQ knowledge base. The model covers:

- **FAQ fallback lookup** (`find_matching_faq`). This is a first-match, case-insensitive
  search. The user's query must be a substring of an entry's question.
- **Few-shot example selection**. The first five knowledge-base entries, in their stored order,
  become input/output examples.
- **Reply construction** (`process_message`). The function receives the language model's
  outcome as a value: either the generated text, or a failure with its detail string. It then
  builds the one assistant message:
  - If the call failed, the message is the apology carrying the error detail.
  - If the stripped generated text is shorter than 20 characters and the earliest entry whose
    question contains the latest message has a non-empty answer, that answer replaces the text.
    A later matching entry is never consulted.
  - Otherwise the message is the generated text unchanged.
  - Every reply except the apology ends with the decoration `" 😊🛋️"`.
- **Ending the conversation** (`should_end`) and **the console loop** (`main`). The history starts
  as one system message. Each exchange appends the user's stripped line and one reply. A goodbye
  word stops the loop before anything is appended. The loop stops right after the third
  exchange, when the history first holds more than five messages.

Files:
- `pystr.dfy` (module `PyStr`) models Python's `str.lower`, `str.strip` and the substring test `in`.
- `app.dfy` (module `App`) holds the knowledge-base lookup, the few-shot examples, reply
  construction and `should_end`.
- `console.dfy` (module `Console`) models `main`'s loop as a method. Console reads arrive as a
  sequence of inputs, each a line or an interrupt. The loop is written for any reply function
  that returns one message per line (`RunConsole`). `main` (`RunBot`) runs it with
  `process_message`, where the language model's outcome for the k-th call is `oracle(k)`.
  The expected history is the recursive function `Transcript`; the lemmas about it state that
  the history only grows and what each exchange holds.

Details of `app.py` that the model keeps:
- **Direction of the substring test.** The lookup tests `question.lower() in faq['question'].lower()`
  (app.py:124). The user's query must therefore be a substring of the entry's question, so an
  empty query matches the first entry.
- **No decoration on the apology.** The reply for a failed call is the apology with the error
  detail and nothing after it (app.py:152).
- **Length test.** The short-reply test measures the stripped text (app.py:138). The reply that
  is kept is the unstripped text (app.py:143, 145).
- **Empty answers.** An FAQ answer that is the empty string is falsy in Python (app.py:140). It
  counts as "not found", and the generated text is kept.

## Model

| member | source | states |
|---|---|---|
| PyStr.LowerChar | app.py:124 | a covered upper-case letter maps to a different character that is not upper-case; every other character is unchanged |
| PyStr.LowerKeepsSpace | app.py:202 | lower-casing a character never changes whether it is whitespace |
| PyStr.Lower | app.py:124 | lower-casing keeps the length and folds each character on its own |
| PyStr.LowerIdempotent | app.py:124 | lower-casing twice is the same as lower-casing once |
| PyStr.Contains | app.py:124 | `needle in haystack` can succeed only when the needle fits in the haystack, and succeeds whenever the haystack starts with the needle |
| PyStr.ContainsIffOccurs | app.py:124 | the scan behind `needle in haystack` succeeds exactly when the needle occurs at some position |
| PyStr.EmptyInEverything | app.py:124 | the empty string is contained in every string |
| PyStr.ContainsItself | app.py:124 | every string contains itself |
| PyStr.LongerNeverContained | app.py:124 | a needle longer than the haystack is never contained in it |
| PyStr.TrimStart | app.py:138 | the result is a suffix of the input; everything dropped is whitespace; the result does not start with whitespace |
| PyStr.TrimEnd | app.py:138 | the result is a prefix of the input; everything dropped is whitespace; the result does not end with whitespace |
| PyStr.Strip | app.py:138 | `strip()` returns a contiguous slice of the input; only whitespace lies outside the slice; the slice neither starts nor ends with whitespace |
| PyStr.StripUnpadded | app.py:200 | a line that neither starts nor ends with whitespace is returned unchanged by `strip()` |
| PyStr.StripIdempotent | app.py:200 | stripping an already stripped line changes nothing |
| PyStr.StripAllSpace | app.py:200 | a line made only of whitespace strips to the empty string |
| App.Matches | app.py:124 | an entry matches exactly when the lower-cased query occurs somewhere in the lower-cased question; a matching query is never longer than the question |
| App.FirstMatchUnique | app.py:123-125 | at most one position is the earliest matching entry |
| App.FindMatchingFaq | app.py:122-126 | None exactly when no entry's lower-cased question contains the lower-cased query; otherwise the answer of an entry that matches with no earlier entry matching |
| App.FirstMatchIsFound | app.py:123-125 | whenever entry i is the earliest match, its answer is returned, never a later matching entry's |
| App.NoFaqsNoAnswer | app.py:126 | an empty knowledge base always yields None |
| App.EmptyQueryMatchesFirst | app.py:131 | the empty query, used for an empty history, returns the first entry's answer of any non-empty knowledge base |
| App.LookupIgnoresQueryCase | app.py:124 | lower-casing the query beforehand does not change the lookup's result |
| App.OwnQuestionMatches | app.py:124 | an entry's own question always matches that entry |
| App.LongQueryNeverMatches | app.py:124 | a query longer than an entry's question never matches it, because the query must fit inside the question (with the length-preserving lower-casing of `PyStr.Lower`) |
| App.LookupOverConcat | app.py:123-126 | searching a + b returns a's result if a has a match, and otherwise b's result |
| App.ToExamples | app.py:83-88 | one example per entry, in order, with input = question and output = answer |
| App.FewShotExamples | app.py:83-88 | the example list has length min(5, number of entries); its i-th example carries the i-th entry's question and answer |
| App.FewShotIgnoresLaterEntries | app.py:87 | entries after the fifth never change the few-shot examples |
| App.LatestMessage | app.py:131 | the empty history gives the empty query; otherwise the query is the content of the last message appended |
| App.ProcessMessage | app.py:129-153 | exactly one assistant message. On failure: the apology prefix followed by the error detail. On success: it ends with the decoration. If the stripped text has length >= 20 it is the text plus the decoration. If it is shorter and the lookup for the latest message returns a non-empty answer, it is that answer plus the decoration. Any other outcome is the non-empty answer of the earliest FAQ matching the latest message, plus the decoration, and only on the short path |
| App.ShortReplyUsesFirstMatch | app.py:138-141 | on the short path, the earliest matching entry's non-empty answer replaces the generated text |
| App.ShortReplyEmptyAnswerKeepsText | app.py:139-143 | on the short path, an empty first-match answer counts as not found; the generated text is kept |
| App.NoMatchKeepsText | app.py:142-143 | when no entry matches, the generated text is kept with the decoration, however short it is |
| App.EmptyHistoryShortReply | app.py:130-141 | with an empty history and a short reply, the first entry's non-empty answer is used |
| App.CaseDifferentQuestionScenario | app.py:129-153 | worked case: the query "KOLIKO TRAJE KURS?" against the entry "Koliko traje kurs?" with a two-character reply gives "30 dana." plus the decoration; a failed call gives the apology with the detail |
| App.ShouldEnd | app.py:156-161 | for a history of odd length (the system message plus whole exchanges), the route is END exactly when at least three exchanges are present |
| App.EndsAfterThirdExchange | app.py:156-161 | for a history of one system message plus n exchanges, `should_end` routes to END exactly when n >= 3 |
| Console.IsGoodbye | app.py:202 | (by definition, the lower-cased input is one of the three words) a goodbye input has length 3 or 9 and carries no surrounding whitespace |
| Console.UnpaddedGoodbye | app.py:200-202 | any input that lower-cases to a goodbye word has length 3 or 9 and is unchanged by `strip()` |
| Console.GoodbyeIgnoresCase | app.py:202 | for every input, lower-casing it first does not change whether it is a goodbye word |
| Console.GoodbyeExamples | app.py:202 | worked cases: "ĆAO", "DOVIĐENJA" and "Cao" are goodbye words; "cao!" and the empty line are not |
| Console.AcceptedLinesAt | app.py:200-210 | every answered line k is a line of text (not an interrupt); the recorded user message is its stripped text; that text is not a goodbye word |
| Console.BotReplies | app.py:213 | (by definition, `process_message` with the k-th model outcome) every reply is exactly one assistant message, whatever the history and the outcome |
| Console.Transcript | app.py:193-218 | the history after n answered lines has 1 + 2n messages and starts with the system message |
| Console.TranscriptGrows | app.py:210-218 | the history is append-only: the transcript after m lines is a prefix of the transcript after more lines |
| Console.TranscriptExchange | app.py:210-218 | message 2k + 1 is the user's line k; message 2k + 2 is the reply to the history up to and including that line |
| Console.BotTranscriptExchange | app.py:210-218 | in the bot's transcript, message 2k + 2 is what `process_message` returns for the history up to the user's line k, with the k-th model outcome |
| Console.TranscriptEndsAfterThree | app.py:221-224 | after n answered lines, `should_end` routes to END exactly when n >= 3 |
| Console.AppendReplies | app.py:217-219 | the returned messages are appended to the history one by one, in order |
| Console.AnswerLine | app.py:209-218 | answering one accepted line extends the accepted lines by that line and the transcript by one user message and its reply |
| Console.RunConsole | app.py:198-224 | the loop keeps the history equal to the transcript of the lines answered so far, starting from the system message. A goodbye word or an interrupt stops it with nothing appended for that line. It stops with the turn limit exactly when three lines were answered. Running out of input stops it once every line was answered |
| Console.RunBot | app.py:185-224 | `main` with the bot's own replies: the history is the bot's transcript of at most three answered lines, of 1 + 2n messages, and the exit reasons are those of the loop |

## Left out

- The hosted language model call (`ChatOpenAI`, `chain.invoke`, app.py:115-119 and 135) is not
  modelled. The code cannot be seen and the call is non-deterministic. Its outcome is a parameter:
  `Generation` in `App.ProcessMessage`, and `oracle(k)` for the k-th call in `Console.RunBot`.
  An exception becomes `Failed(detail)`, where `detail` stands for `str(e)`.
- Prompt template rendering (app.py:91-106) is library formatting. Only the example list it
  consumes is modelled.
- The LangGraph graph and checkpointer (`create_bot`, app.py:164-182) are left out. `main` builds
  the graph but never runs it; it calls `process_message` directly.
- Loading secrets and the environment, and reading `knowledge_base.json` (app.py:14-26), are
  startup I/O. The knowledge base is a parameter of type `seq<Faq>`. The model assumes every
  entry has string `question` and `answer` fields. In the source, other shapes behave as follows:
  - An `answer` of another type raises nothing. It is returned (app.py:125) and tested for
    truthiness (app.py:140), so 0, null or an empty list counts as not found. Any other value is
    formatted with `str()` (app.py:141).
  - A missing `question` key, or a `question` that is not a string, raises when the loop reaches
    that entry (app.py:124). A missing `answer` key raises only when that entry is the first match
    (app.py:125). Both happen inside the `try`, so the reply is the apology (app.py:150-153) and
    the program goes on.
  - A missing key in one of the first five entries is fatal at start-up, where the few-shot
    examples are built (app.py:85-86).
- `print` (app.py:189-190, 203, 206, 219, 223) is console output and is not modelled.
- `input()` is modelled as the sequence of lines it returns. Its end-of-file exception is not
  caught by the source; the model turns it into the exit reason `InputExhausted`.
- Interrupts are modelled only where the source catches them, during `input()`.
- The text of the system prompt (app.py:29-80) is configuration. It is the `systemPrompt`
  parameter of `Console.RunConsole`.
- The `knowledge_base` field of the agent state is left out, because `process_message` reads the
  global knowledge base instead.
- PyStr.Lower: folds only ASCII, Latin-1 and the Serbian Latin capitals Ć, Č, Đ, Š, Ž. Python's
  full Unicode case tables, including mappings that change length, are not modelled. As a
  consequence, `App.Matches` and `App.LongQueryNeverMatches` state that a matching query is never
  longer than the question. That holds only because this `Lower` keeps the length. In Python,
  `'İ'.lower()` is two code points, so the two-character query "i" + U+0307 matches the question
  "İ" at app.py:124.
- The Streamlit front end (ui.py) is not part of this model. That includes its "New Chat" reset.
