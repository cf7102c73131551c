/** The deterministic logic of the bot: the FAQ fallback lookup, the choice of
    few-shot examples, the construction of one reply from the language model's
    output, and the rule that ends a conversation. The language model itself
    is not modelled: its outcome for a call arrives as a `Generation` value. */
module App {
  import opened PyStr

  /** One knowledge-base entry. */
  datatype Faq = Faq(question: string, answer: string)

  /** One few-shot example handed to the prompt template. */
  datatype Example = Example(input: string, output: string)

  datatype Role = System | User | Assistant

  /** One entry of the conversation history. */
  datatype Message = Message(role: Role, content: string)

  /** What one call of the language model did: produced text, or raised an
      exception whose `str(e)` is `detail`. */
  datatype Generation = Generated(content: string) | Failed(detail: string)

  datatype Option<T> = None | Some(value: T)

  /** The two routes `should_end` can choose. */
  datatype Route = End | Process

  /** How many knowledge-base entries become few-shot examples. */
  const ExampleLimit := 5

  /** Generated text whose stripped length is below this is treated as too generic. */
  const ShortReplyThreshold := 20

  /** The conversation ends once the history holds more messages than this. */
  const MaxMessages := 5

  /** The decoration every successful reply ends with: a space, U+1F60A, U+1F6CB, U+FE0F. */
  const Decoration: string := " \U{1F60A}\U{1F6CB}\U{FE0F}"

  /** The text that precedes the exception's detail in the apology reply. */
  const ApologyPrefix: string :=
    "Ups, ne\U{161}to nije u redu. Molim te ponovi pitanje. \U{1F937}\U{200D}\U{2640}\U{FE0F} Detalji: "

  // ---------------------------------------------------------------------------
  // FAQ fallback lookup

  /** The test `question.lower() in faq['question'].lower()`: the query is a
      case-insensitive substring of the entry's question (not the reverse). */
  predicate Matches(query: string, faq: Faq)
    ensures Matches(query, faq) <==> exists i: nat :: OccursAt(Lower(query), Lower(faq.question), i)
    ensures Matches(query, faq) ==> |query| <= |faq.question|
  {
    ContainsIffOccurs(Lower(query), Lower(faq.question));
    Contains(Lower(query), Lower(faq.question))
  }

  /** Entry `i` matches the query and no earlier entry does. */
  ghost predicate FirstMatchAt(query: string, faqs: seq<Faq>, i: int) {
    0 <= i < |faqs| && Matches(query, faqs[i]) &&
    forall j :: 0 <= j < i ==> !Matches(query, faqs[j])
  }

  /** At most one position is the first match. */
  lemma FirstMatchUnique(query: string, faqs: seq<Faq>, i: int, j: int)
    requires FirstMatchAt(query, faqs, i) && FirstMatchAt(query, faqs, j)
    ensures i == j
  {
  }

  /** `find_matching_faq`: the answer of the earliest entry, in list order,
      whose question contains the query; None exactly when no entry does. */
  function FindMatchingFaq(query: string, faqs: seq<Faq>): (r: Option<string>)
    ensures r.None? <==> forall i :: 0 <= i < |faqs| ==> !Matches(query, faqs[i])
    ensures r.Some? ==> exists i :: FirstMatchAt(query, faqs, i) && r.value == faqs[i].answer
  {
    if faqs == [] then None
    else if Matches(query, faqs[0]) then
      assert FirstMatchAt(query, faqs, 0);
      Some(faqs[0].answer)
    else
      var r := FindMatchingFaq(query, faqs[1..]);
      assert forall i :: FirstMatchAt(query, faqs[1..], i) ==> FirstMatchAt(query, faqs, i + 1);
      r
  }

  /** Whenever entry `i` is the first match, its answer is the one returned,
      so a later matching entry is never chosen. */
  lemma FirstMatchIsFound(query: string, faqs: seq<Faq>, i: int)
    requires FirstMatchAt(query, faqs, i)
    ensures FindMatchingFaq(query, faqs) == Some(faqs[i].answer)
  {
    var r := FindMatchingFaq(query, faqs);
    var k :| FirstMatchAt(query, faqs, k) && r.value == faqs[k].answer;
    FirstMatchUnique(query, faqs, i, k);
  }

  /** An empty knowledge base never yields an answer. */
  lemma NoFaqsNoAnswer(query: string)
    ensures FindMatchingFaq(query, []) == None
  {
  }

  /** The empty query (an empty history) matches the first entry of any
      non-empty knowledge base. */
  lemma EmptyQueryMatchesFirst(faqs: seq<Faq>)
    requires faqs != []
    ensures FindMatchingFaq("", faqs) == Some(faqs[0].answer)
  {
    EmptyInEverything(Lower(faqs[0].question));
  }

  /** The lookup ignores case: lower-casing the query first changes nothing. */
  lemma {:induction false} LookupIgnoresQueryCase(query: string, faqs: seq<Faq>)
    ensures FindMatchingFaq(Lower(query), faqs) == FindMatchingFaq(query, faqs)
  {
    LowerIdempotent(query);
    if faqs != [] {
      LookupIgnoresQueryCase(query, faqs[1..]);
    }
  }

  /** Asking an entry's own question, in any case, matches that entry. */
  lemma OwnQuestionMatches(faq: Faq)
    ensures Matches(faq.question, faq)
  {
    ContainsItself(Lower(faq.question));
  }

  /** A query longer than an entry's question never matches it: the query
      must fit inside the question. */
  lemma LongQueryNeverMatches(query: string, faq: Faq)
    requires |query| > |faq.question|
    ensures !Matches(query, faq)
  {
    LongerNeverContained(Lower(query), Lower(faq.question));
  }

  /** Searching a concatenation searches the first part, then the second. */
  lemma {:induction false} LookupOverConcat(query: string, a: seq<Faq>, b: seq<Faq>)
    ensures FindMatchingFaq(query, a + b) ==
            if FindMatchingFaq(query, a).Some? then FindMatchingFaq(query, a)
            else FindMatchingFaq(query, b)
  {
    if a != [] {
      assert (a + b)[0] == a[0];
      assert (a + b)[1..] == a[1..] + b;
      LookupOverConcat(query, a[1..], b);
    } else {
      assert a + b == b;
    }
  }

  // ---------------------------------------------------------------------------
  // Few-shot examples

  /** One example per entry, question as input and answer as output. */
  function ToExamples(faqs: seq<Faq>): (r: seq<Example>)
    ensures |r| == |faqs|
    ensures forall i :: 0 <= i < |faqs| ==> r[i] == Example(faqs[i].question, faqs[i].answer)
  {
    if faqs == [] then []
    else [Example(faqs[0].question, faqs[0].answer)] + ToExamples(faqs[1..])
  }

  /** The few-shot example list: the first entries of the knowledge base, at
      most ExampleLimit of them, in their original order. */
  function FewShotExamples(faqs: seq<Faq>): (r: seq<Example>)
    ensures |r| == if |faqs| < ExampleLimit then |faqs| else ExampleLimit
    ensures forall i :: 0 <= i < |r| ==> r[i].input == faqs[i].question && r[i].output == faqs[i].answer
  {
    ToExamples(faqs[..if |faqs| < ExampleLimit then |faqs| else ExampleLimit])
  }

  /** Entries past the fifth never reach the prompt: appending to a knowledge
      base that already has ExampleLimit entries leaves the examples unchanged. */
  lemma FewShotIgnoresLaterEntries(faqs: seq<Faq>, more: seq<Faq>)
    requires |faqs| >= ExampleLimit
    ensures FewShotExamples(faqs + more) == FewShotExamples(faqs)
  {
    assert (faqs + more)[..ExampleLimit] == faqs[..ExampleLimit];
  }

  // ---------------------------------------------------------------------------
  // Reply construction

  /** `messages[-1].content if messages else ""`. */
  function LatestMessage(history: seq<Message>): (r: string)
    ensures history == [] ==> r == ""
    ensures forall before, m {:trigger before + [m]} :: history == before + [m] ==> r == m.content
  {
    if history == [] then "" else history[|history| - 1].content
  }

  /** The body of `process_message`: exactly one assistant message. A failed
      generation gives the apology with the error detail and no decoration.
      Otherwise the reply is the generated text plus the decoration, except
      that for text whose stripped length is below the threshold a non-empty
      FAQ answer found for the latest message replaces the text. */
  function ProcessMessage(history: seq<Message>, faqs: seq<Faq>, gen: Generation): (r: seq<Message>)
    ensures |r| == 1 && r[0].role == Assistant
    ensures gen.Failed? ==> IsPrefix(ApologyPrefix, r[0].content) &&
                            r[0].content[|ApologyPrefix|..] == gen.detail
    ensures gen.Generated? ==> IsSuffix(Decoration, r[0].content)
    ensures gen.Generated? && |Strip(gen.content)| >= ShortReplyThreshold ==>
              r[0].content == gen.content + Decoration
    ensures gen.Generated? && |Strip(gen.content)| < ShortReplyThreshold &&
            FindMatchingFaq(LatestMessage(history), faqs).Some? &&
            FindMatchingFaq(LatestMessage(history), faqs).value != "" ==>
              r[0].content == FindMatchingFaq(LatestMessage(history), faqs).value + Decoration
    ensures gen.Generated? && r[0].content != gen.content + Decoration ==>
              |Strip(gen.content)| < ShortReplyThreshold &&
              exists i :: FirstMatchAt(LatestMessage(history), faqs, i) &&
                          faqs[i].answer != "" && r[0].content == faqs[i].answer + Decoration
  {
    match gen
    case Failed(detail) =>
      [Message(Assistant, ApologyPrefix + detail)]
    case Generated(text) =>
      var base :=
        if |Strip(text)| < ShortReplyThreshold then
          match FindMatchingFaq(LatestMessage(history), faqs)
          case Some(answer) => if answer != "" then answer else text
          case None => text
        else text;
      var reply := base + Decoration;
      assert reply[|reply| - |Decoration|..] == Decoration;
      [Message(Assistant, reply)]
  }

  /** On the short-reply path, the first matching entry's answer replaces the
      generated text whenever that answer is non-empty. */
  lemma ShortReplyUsesFirstMatch(history: seq<Message>, faqs: seq<Faq>, text: string, i: int)
    requires |Strip(text)| < ShortReplyThreshold
    requires FirstMatchAt(LatestMessage(history), faqs, i) && faqs[i].answer != ""
    ensures ProcessMessage(history, faqs, Generated(text)) == [Message(Assistant, faqs[i].answer + Decoration)]
  {
    FirstMatchIsFound(LatestMessage(history), faqs, i);
  }

  /** On the short-reply path, an empty first-match answer is falsy in Python
      and the generated text is kept. */
  lemma ShortReplyEmptyAnswerKeepsText(history: seq<Message>, faqs: seq<Faq>, text: string, i: int)
    requires |Strip(text)| < ShortReplyThreshold
    requires FirstMatchAt(LatestMessage(history), faqs, i) && faqs[i].answer == ""
    ensures ProcessMessage(history, faqs, Generated(text)) == [Message(Assistant, text + Decoration)]
  {
    FirstMatchIsFound(LatestMessage(history), faqs, i);
  }

  /** Without any matching entry the generated text is kept, however short. */
  lemma NoMatchKeepsText(history: seq<Message>, faqs: seq<Faq>, text: string)
    requires forall i :: 0 <= i < |faqs| ==> !Matches(LatestMessage(history), faqs[i])
    ensures ProcessMessage(history, faqs, Generated(text)) == [Message(Assistant, text + Decoration)]
  {
  }

  /** With an empty history the query is "", so a short reply becomes the
      first entry's answer whenever that answer is non-empty. */
  lemma EmptyHistoryShortReply(faqs: seq<Faq>, text: string)
    requires faqs != [] && faqs[0].answer != ""
    requires |Strip(text)| < ShortReplyThreshold
    ensures ProcessMessage([], faqs, Generated(text)) == [Message(Assistant, faqs[0].answer + Decoration)]
  {
    EmptyQueryMatchesFirst(faqs);
  }

  /** A worked case: a one-entry knowledge base, a question that differs from
      the entry's only in case, and a two-character generated reply. The
      scripted answer replaces the reply; a failed call instead yields the
      apology carrying the error detail. */
  lemma CaseDifferentQuestionScenario()
    ensures var faqs := [Faq("Koliko traje kurs?", "30 dana.")];
            var history := [Message(System, ""), Message(User, "KOLIKO TRAJE KURS?")];
            ProcessMessage(history, faqs, Generated("Ok")) == [Message(Assistant, "30 dana." + Decoration)] &&
            ProcessMessage(history, faqs, Failed("timeout")) == [Message(Assistant, ApologyPrefix + "timeout")]
  {
    var faqs := [Faq("Koliko traje kurs?", "30 dana.")];
    var history := [Message(System, ""), Message(User, "KOLIKO TRAJE KURS?")];
    assert Lower("KOLIKO TRAJE KURS?") == Lower("Koliko traje kurs?");
    OwnQuestionMatches(faqs[0]);
    assert FirstMatchAt(LatestMessage(history), faqs, 0);
    ShortReplyUsesFirstMatch(history, faqs, "Ok", 0);
  }

  // ---------------------------------------------------------------------------
  // Ending the conversation

  /** `should_end`: route to END once the history has more than MaxMessages entries.
      The contract speaks only of odd lengths, the system message plus whole
      exchanges, which is all `main` ever passes; even lengths are left to the body. */
  function ShouldEnd(history: seq<Message>): (r: Route)
    ensures |history| % 2 == 1 ==> (r == End <==> |history| / 2 >= 3)
  {
    if |history| > MaxMessages then End else Process
  }

  /** A history of one system message plus `exchanges` user/assistant pairs
      ends exactly from the third exchange on. */
  lemma EndsAfterThirdExchange(history: seq<Message>, exchanges: nat)
    requires |history| == 1 + 2 * exchanges
    ensures ShouldEnd(history) == End <==> exchanges >= 3
  {
  }
}
