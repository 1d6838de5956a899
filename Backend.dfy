/**
 * The `/generate` endpoint of the Flask backend (backend/app.py): the topic
 * guard of `generate_flashcards` and the loop that turns the language
 * model's reply text into question/answer cards.
 *
 * The chat-completion call is not modelled: its outcome is an argument.
 * Python's whitespace class for `str.strip()` is the parameter `ws`.
 */
module Backend {
  import opened Optional
  import opened Text

  /** One `{"question": ..., "answer": ...}` record of the JSON reply. */
  datatype Card = Card(question: string, answer: string)

  /** One entry of the `messages` list sent to the chat-completion API. */
  datatype ChatMessage = ChatMessage(role: string, content: string)

  /**
   * What the chat-completion call produced: the text of the first choice's
   * message, or an exception whose `str(e)` is `detail`.
   */
  datatype Completion = Completed(content: string) | Raised(detail: string)

  /** The JSON body of a reply: a card list or an error message. */
  datatype Body = FlashcardList(flashcards: seq<Card>) | ErrorMessage(error: string)

  /** An HTTP reply: JSON body and status code. */
  datatype Reply = Reply(body: Body, status: int)

  const CardSeparator: string := "---"
  const LineSeparator: string := "\n"
  const TopicRequired: string := "Topic is required"
  const FailurePrefix: string := "Failed to generate flashcards: "
  const SystemPrompt: string := "You are a helpful assistant that generates educational flashcards."

  /** The user message that asks for five cards about `topic`. */
  function UserPrompt(topic: string): string {
    "Generate 5 flashcards about '" + topic + "'. Each flashcard should be structured as:\n"
    + "Question: <question>\nAnswer: <answer>\nSeparate each flashcard with '---'."
  }

  /** The conversation sent to the model for `topic`. */
  function Prompt(topic: string): seq<ChatMessage> {
    [ChatMessage("system", SystemPrompt), ChatMessage("user", UserPrompt(topic))]
  }

  /** Python's `not topic` for a `topic` that is absent (`None`) or a string. */
  predicate TopicMissing(topic: Option<string>) {
    topic == None || topic == Some("")
  }

  /** The card one `"---"`-separated chunk contributes, if its stripped text has exactly two lines. */
  function Candidate(chunk: string, ws: char -> bool): Option<Card> {
    var parts := Split(Strip(chunk, ws), LineSeparator);
    if |parts| == 2 then Some(Card(parts[0], parts[1])) else None
  }

  /** The cards of `chunks`, in order: the chunks without a card are skipped. */
  function CardsOf(chunks: seq<string>, ws: char -> bool): seq<Card>
    decreases |chunks|
  {
    if chunks == [] then []
    else
      var last := chunks[|chunks| - 1];
      CardsOf(chunks[..|chunks| - 1], ws)
        + match Candidate(last, ws) { case Some(c) => [c] case None => [] }
  }

  /** The indices of the chunks that contribute a card, in increasing order. */
  function KeptIndices(chunks: seq<string>, ws: char -> bool): seq<nat>
    decreases |chunks|
  {
    if chunks == [] then []
    else
      KeptIndices(chunks[..|chunks| - 1], ws)
        + if Candidate(chunks[|chunks| - 1], ws).Some? then [|chunks| - 1] else []
  }

  /** The chunks of the stripped reply text. */
  function Chunks(text: string, ws: char -> bool): seq<string> {
    Split(Strip(text, ws), CardSeparator)
  }

  /** The card list the endpoint returns for the reply text `text`. */
  function Parse(text: string, ws: char -> bool): seq<Card> {
    CardsOf(Chunks(text, ws), ws)
  }

  /**
   * The reply-text parsing loop: strip the text, split it on `"---"`, and
   * append a card for every chunk whose stripped text splits into exactly
   * two lines.
   */
  method ParseFlashcards(text: string, ws: char -> bool) returns (flashcards: seq<Card>)
    ensures flashcards == Parse(text, ws)
  {
    var flashcardsText := Strip(text, ws);
    var chunks := Split(flashcardsText, CardSeparator);
    flashcards := [];
    for i := 0 to |chunks|
      invariant flashcards == CardsOf(chunks[..i], ws)
    {
      var parts := Split(Strip(chunks[i], ws), LineSeparator);
      assert CardsOf(chunks[..i + 1], ws)
        == CardsOf(chunks[..i], ws) + match Candidate(chunks[i], ws) { case Some(c) => [c] case None => [] }
        by { assert chunks[..i + 1][..i] == chunks[..i]; }
      if |parts| == 2 {
        flashcards := flashcards + [Card(parts[0], parts[1])];
      }
    }
    assert chunks[..|chunks|] == chunks;
  }

  /**
   * `generate_flashcards`: reject a missing or empty topic with 400;
   * otherwise ask the model, and answer 200 with the parsed cards, or 500
   * when the call raised. `request` is the conversation sent to the model,
   * `None` when the model was not asked.
   */
  method GenerateFlashcards(topic: Option<string>, completion: Completion, ws: char -> bool)
    returns (reply: Reply, request: Option<seq<ChatMessage>>)
    ensures reply.status == 400 <==> TopicMissing(topic)
    ensures TopicMissing(topic) ==> reply.body == ErrorMessage(TopicRequired) && request == None
    ensures !TopicMissing(topic) ==> request == Some(Prompt(topic.value))
    ensures !TopicMissing(topic) && completion.Completed? ==>
      reply == Reply(FlashcardList(Parse(completion.content, ws)), 200)
    ensures !TopicMissing(topic) && completion.Raised? ==>
      reply == Reply(ErrorMessage(FailurePrefix + completion.detail), 500)
  {
    if topic == None || topic.value == "" {
      return Reply(ErrorMessage(TopicRequired), 400), None;
    }
    request := Some(Prompt(topic.value));
    match completion {
      case Raised(detail) =>
        reply := Reply(ErrorMessage(FailurePrefix + detail), 500);
      case Completed(content) =>
        var flashcards := ParseFlashcards(content, ws);
        reply := Reply(FlashcardList(flashcards), 200);
    }
  }

  /**
   * `CardsOf` is the order-preserving filter of the chunks' candidates:
   * the j-th card comes from the j-th kept chunk, kept indices increase,
   * and a chunk is kept exactly when it yields a candidate.
   */
  lemma {:induction false} CardsAreFilter(chunks: seq<string>, ws: char -> bool)
    ensures var cards, kept := CardsOf(chunks, ws), KeptIndices(chunks, ws);
      && |cards| == |kept|
      && (forall j :: 0 <= j < |kept| ==>
            && kept[j] < |chunks|
            && Candidate(chunks[kept[j]], ws) == Some(cards[j]))
      && (forall j, j' :: 0 <= j < j' < |kept| ==> kept[j] < kept[j'])
      && (forall k :: 0 <= k < |chunks| ==> (k in kept <==> Candidate(chunks[k], ws).Some?))
    decreases |chunks|
  {
    if chunks != [] {
      var n := |chunks|;
      var init := chunks[..n - 1];
      CardsAreFilter(init, ws);
      var cards, kept := CardsOf(chunks, ws), KeptIndices(chunks, ws);
      var cards', kept' := CardsOf(init, ws), KeptIndices(init, ws);
      assert forall k :: 0 <= k < n - 1 ==> init[k] == chunks[k];
      match Candidate(chunks[n - 1], ws) {
        case Some(c) =>
          assert cards == cards' + [c] && kept == kept' + [n - 1];
          assert forall j :: 0 <= j < |kept'| ==> kept[j] == kept'[j] && cards[j] == cards'[j];
        case None =>
          assert cards == cards' && kept == kept';
      }
    }
  }

  /**
   * Every card comes from one chunk of the stripped reply whose stripped
   * text splits into exactly the two lines `[question, answer]`, verbatim;
   * the cards keep the chunks' order; and every chunk that splits into
   * two lines yields a card, while all others are dropped.
   */
  lemma ParseIsFilter(text: string, ws: char -> bool)
    ensures var chunks, cards, kept := Chunks(text, ws), Parse(text, ws), KeptIndices(Chunks(text, ws), ws);
      && |cards| == |kept|
      && (forall j :: 0 <= j < |kept| ==>
            && kept[j] < |chunks|
            && Split(Strip(chunks[kept[j]], ws), LineSeparator) == [cards[j].question, cards[j].answer])
      && (forall j, j' :: 0 <= j < j' < |kept| ==> kept[j] < kept[j'])
      && (forall k :: 0 <= k < |chunks| ==>
            (k in kept <==> |Split(Strip(chunks[k], ws), LineSeparator)| == 2))
  {
    var chunks := Chunks(text, ws);
    CardsAreFilter(chunks, ws);
    var cards, kept := Parse(text, ws), KeptIndices(chunks, ws);
    forall j | 0 <= j < |kept|
      ensures Split(Strip(chunks[kept[j]], ws), LineSeparator) == [cards[j].question, cards[j].answer]
    {
      var parts := Split(Strip(chunks[kept[j]], ws), LineSeparator);
      assert Candidate(chunks[kept[j]], ws) == Some(cards[j]);
      assert parts == [parts[0], parts[1]];
    }
  }

  /** A card taken from a chunk without `"---"` holds neither a line break nor `"---"`. */
  lemma CandidateClean(chunk: string, ws: char -> bool)
    requires !Contains(chunk, CardSeparator)
    ensures Candidate(chunk, ws).Some? ==>
      var c := Candidate(chunk, ws).value;
      && '\n' !in c.question && '\n' !in c.answer
      && !Contains(c.question, CardSeparator) && !Contains(c.answer, CardSeparator)
  {
    var stripped := Strip(chunk, ws);
    var parts := Split(stripped, LineSeparator);
    if |parts| == 2 {
      StripSpec(chunk, ws);
      var a := Lead(chunk, ws);
      SliceAvoids(chunk, a, a + |stripped|, CardSeparator);
      SplitPiecesAvoidSep(stripped, LineSeparator);
      assert !Contains(parts[0], "\n") && !Contains(parts[1], "\n");
      ContainsChar(parts[0], '\n');
      ContainsChar(parts[1], '\n');
      JoinSplit(stripped, LineSeparator);
      assert stripped == parts[0] + "\n" + parts[1];
      assert stripped[..|parts[0]|] == parts[0];
      assert stripped[|parts[0]| + 1..|stripped|] == parts[1];
      SliceAvoids(stripped, 0, |parts[0]|, CardSeparator);
      SliceAvoids(stripped, |parts[0]| + 1, |stripped|, CardSeparator);
      assert Candidate(chunk, ws) == Some(Card(parts[0], parts[1]));
    }
  }

  /** No returned question or answer contains a line break or `"---"`. */
  lemma CardsAreClean(text: string, ws: char -> bool)
    ensures forall c :: c in Parse(text, ws) ==>
      && '\n' !in c.question && '\n' !in c.answer
      && !Contains(c.question, CardSeparator) && !Contains(c.answer, CardSeparator)
  {
    var chunks, cards := Chunks(text, ws), Parse(text, ws);
    CardsAreFilter(chunks, ws);
    SplitPiecesAvoidSep(Strip(text, ws), CardSeparator);
    var kept := KeptIndices(chunks, ws);
    forall c | c in cards
      ensures '\n' !in c.question && '\n' !in c.answer
      ensures !Contains(c.question, CardSeparator) && !Contains(c.answer, CardSeparator)
    {
      var j :| 0 <= j < |cards| && cards[j] == c;
      CandidateClean(chunks[kept[j]], ws);
    }
  }

  /** There are no more cards than chunks. */
  lemma {:induction false} CardsAtMostChunks(chunks: seq<string>, ws: char -> bool)
    ensures |CardsOf(chunks, ws)| <= |chunks|
    decreases |chunks|
  {
    if chunks != [] {
      CardsAtMostChunks(chunks[..|chunks| - 1], ws);
    }
  }

  /** At most one card more than the stripped reply has occurrences of `"---"`. */
  lemma CardCountBound(text: string, ws: char -> bool)
    ensures |Parse(text, ws)| <= Occurrences(Strip(text, ws), CardSeparator) + 1
  {
    CardsAtMostChunks(Chunks(text, ws), ws);
    SplitLength(Strip(text, ws), CardSeparator);
  }

  /** An empty or all-whitespace reply yields no cards. */
  lemma BlankReplyHasNoCards(text: string, ws: char -> bool)
    requires AllIn(text, ws)
    ensures Parse(text, ws) == []
  {
    StripEmptyIff(text, ws);
    assert Chunks(text, ws) == [""];
    assert Strip("", ws) == "";
    assert Split("", LineSeparator) == [""];
    assert Candidate("", ws) == None;
    assert [""][..0] == [];
  }

  /** Whitespace around the whole reply does not change the cards. */
  lemma PaddingIsIgnored(w1: string, text: string, w2: string, ws: char -> bool)
    requires AllIn(w1, ws) && AllIn(w2, ws)
    ensures Parse(w1 + text + w2, ws) == Parse(text, ws)
  {
    StripPadded(w1, text, w2, ws);
  }

  /**
   * A chunk whose stripped text is the lines `lines` (none holding a line
   * break) yields the card `lines[0]`/`lines[1]`, prefixes such as
   * "Question: " included, when there are exactly two lines, and nothing
   * otherwise.
   */
  lemma CandidateOfLines(chunk: string, lines: seq<string>, ws: char -> bool)
    requires |lines| >= 1 && forall k :: 0 <= k < |lines| ==> '\n' !in lines[k]
    requires Strip(chunk, ws) == Join(lines, LineSeparator)
    ensures Candidate(chunk, ws) == if |lines| == 2 then Some(Card(lines[0], lines[1])) else None
  {
    SplitJoin(lines, '\n');
  }

  /**
   * A question and answer separated by a blank line are three lines, so
   * the chunk yields no card.
   */
  lemma BlankLineDropsCard(question: string, answer: string, ws: char -> bool)
    requires '\n' !in question && '\n' !in answer
    requires Strip(question + "\n\n" + answer, ws) == question + "\n\n" + answer
    ensures Candidate(question + "\n\n" + answer, ws) == None
  {
    var lines := [question, "", answer];
    assert lines[1..] == ["", answer] && lines[1..][1..] == [answer];
    assert Join(lines[1..], LineSeparator) == "\n" + answer;
    assert Join(lines, LineSeparator) == question + "\n" + ("\n" + answer);
    assert question + "\n" + ("\n" + answer) == question + "\n\n" + answer;
    CandidateOfLines(question + "\n\n" + answer, [question, "", answer], ws);
  }
}
