/**
 * The React component `App` of the frontend (frontend/src/App.js): its four
 * pieces of state and the two handlers that change them, `handleGenerate`
 * and `handleFlip`.
 *
 * The network request is not modelled: its outcome is an argument of the
 * handler. JavaScript's whitespace class for `String.prototype.trim()` is
 * the parameter `isSpace`.
 */
module Frontend {
  import opened Optional
  import opened Text
  import Backend

  /** A card on screen: the server's question and answer plus which face is shown. */
  datatype Flashcard = Flashcard(question: string, answer: string, flipped: bool)

  /**
   * How the request ended: an ok response with a card list; an ok response
   * whose body has no `flashcards` array (so `.map` throws); a non-ok
   * response with its `error` field, if any; or a thrown failure (no
   * connection, or a body that is not JSON).
   */
  datatype FetchOutcome =
    | OkCards(cards: seq<Backend.Card>)
    | OkMalformed
    | NotOk(errorField: Option<string>)
    | Thrown

  const EmptyTopicMessage: string := "Please enter a topic."
  const DefaultServerError: string := "An error occurred."
  const ConnectionError: string := "Unable to connect to the server."

  /** `!topic.trim()`: the topic is empty once trimmed. */
  predicate IsBlank(topic: string, isSpace: char -> bool) {
    Strip(topic, isSpace) == []
  }

  /** A topic is blank exactly when every character of it is whitespace. */
  lemma BlankIffAllSpace(topic: string, isSpace: char -> bool)
    ensures IsBlank(topic, isSpace) <==> AllIn(topic, isSpace)
  {
    StripEmptyIff(topic, isSpace);
  }

  /** The `.map` that gives every received card `flipped: false`. */
  function WithFlipState(cards: seq<Backend.Card>): seq<Flashcard> {
    seq(|cards|, k requires 0 <= k < |cards| => Flashcard(cards[k].question, cards[k].answer, false))
  }

  /** The question/answer faces of the cards on screen, without their flip state. */
  function Faces(flashcards: seq<Flashcard>): seq<Backend.Card> {
    seq(|flashcards|, k requires 0 <= k < |flashcards| =>
      Backend.Card(flashcards[k].question, flashcards[k].answer))
  }

  /**
   * Received cards are shown in the order received, with their questions
   * and answers unchanged, and none of them flipped.
   */
  lemma ReceivedCardsUnflipped(cards: seq<Backend.Card>)
    ensures Faces(WithFlipState(cards)) == cards
    ensures forall k :: 0 <= k < |WithFlipState(cards)| ==> !WithFlipState(cards)[k].flipped
  {
    var shown := WithFlipState(cards);
    assert |Faces(shown)| == |cards|;
    forall k | 0 <= k < |cards| ensures Faces(shown)[k] == cards[k] {
      assert shown[k] == Flashcard(cards[k].question, cards[k].answer, false);
    }
  }

  /** `data.error || "An error occurred."`: the error field if it is a non-empty string. */
  function ServerErrorMessage(errorField: Option<string>): (message: string)
    ensures message != ""
    ensures message == DefaultServerError || errorField == Some(message)
    ensures errorField.Some? && errorField.value != "" ==> message == errorField.value
  {
    if errorField.Some? && errorField.value != "" then errorField.value else DefaultServerError
  }

  /** The card list after `handleFlip(index)`. */
  function Flip(flashcards: seq<Flashcard>, index: nat): seq<Flashcard>
    requires index < |flashcards|
  {
    flashcards[index := flashcards[index].(flipped := !flashcards[index].flipped)]
  }

  /**
   * Flipping card `index` turns that card over and changes nothing else:
   * the length, the order, every face and every other card's flip state
   * stay as they were.
   */
  lemma FlipTurnsOneCard(flashcards: seq<Flashcard>, index: nat)
    requires index < |flashcards|
    ensures |Flip(flashcards, index)| == |flashcards|
    ensures Flip(flashcards, index)[index].flipped == !flashcards[index].flipped
    ensures forall k :: 0 <= k < |flashcards| && k != index ==> Flip(flashcards, index)[k] == flashcards[k]
    ensures Faces(Flip(flashcards, index)) == Faces(flashcards)
  {
    var flipped := Flip(flashcards, index);
    forall k | 0 <= k < |flashcards| ensures Faces(flipped)[k] == Faces(flashcards)[k] { }
  }

  /** Flipping the same card twice restores the card list. */
  lemma FlipTwiceRestores(flashcards: seq<Flashcard>, index: nat)
    requires index < |flashcards|
    ensures Flip(Flip(flashcards, index), index) == flashcards
  {
    var twice := Flip(Flip(flashcards, index), index);
    assert forall k :: 0 <= k < |flashcards| ==> twice[k] == flashcards[k];
  }

  /** The component's state: the four `useState` hooks of `App`. */
  class App {
    var topic: string
    var flashcards: seq<Flashcard>
    var error: string
    var loading: bool

    /** The initial values of the four hooks. */
    constructor ()
      ensures topic == "" && flashcards == [] && error == "" && !loading
    {
      topic, flashcards, error, loading := "", [], "", false;
    }

    /** The text input's change handler: only the topic changes. */
    method SetTopic(value: string)
      modifies this
      ensures topic == value
      ensures flashcards == old(flashcards) && error == old(error) && loading == old(loading)
    {
      topic := value;
    }

    /**
     * `handleGenerate` up to the `await fetch(...)`: clear the error and the
     * cards and start loading; then either reject a blank topic, or issue
     * the request, whose JSON body carries the topic untrimmed.
     */
    method BeginGenerate(isSpace: char -> bool) returns (request: Option<string>)
      modifies this
      ensures topic == old(topic) && flashcards == []
      ensures request == if IsBlank(topic, isSpace) then None else Some(topic)
      ensures request == None ==> error == EmptyTopicMessage && !loading
      ensures request != None ==> error == "" && loading
    {
      error := "";
      flashcards := [];
      loading := true;
      if IsBlank(topic, isSpace) {
        error := EmptyTopicMessage;
        loading := false;
        return None;
      }
      request := Some(topic);
    }

    /**
     * `handleGenerate` after the request settles: show the cards of an ok
     * response, or the error of a failed one, and stop loading.
     */
    method Settle(outcome: FetchOutcome)
      modifies this
      ensures topic == old(topic) && !loading
      ensures outcome.OkCards? ==> flashcards == WithFlipState(outcome.cards) && error == old(error)
      ensures outcome.NotOk? ==>
        error == ServerErrorMessage(outcome.errorField) && flashcards == old(flashcards)
      ensures outcome.OkMalformed? || outcome.Thrown? ==>
        error == ConnectionError && flashcards == old(flashcards)
    {
      match outcome {
        case OkCards(cards) =>
          var flashcardsWithState := WithFlipState(cards);
          flashcards := flashcardsWithState;
        case NotOk(errorField) =>
          error := ServerErrorMessage(errorField);
        case OkMalformed =>
          error := ConnectionError;
        case Thrown =>
          error := ConnectionError;
      }
      loading := false;
    }

    /**
     * `handleGenerate` as one sequential call. `request` is the topic sent
     * to the server, `None` when no request was made. Whatever happens,
     * loading has stopped and the topic is unchanged; an error is shown
     * exactly when no cards were received, and fresh cards are unflipped.
     */
    method HandleGenerate(outcome: FetchOutcome, isSpace: char -> bool) returns (request: Option<string>)
      modifies this
      ensures topic == old(topic) && !loading
      ensures request == if IsBlank(topic, isSpace) then None else Some(topic)
      ensures request == None ==> error == EmptyTopicMessage && flashcards == []
      ensures request != None && outcome.OkCards? ==>
        flashcards == WithFlipState(outcome.cards) && error == ""
      ensures request != None && outcome.NotOk? ==>
        error == ServerErrorMessage(outcome.errorField) && flashcards == []
      ensures request != None && (outcome.OkMalformed? || outcome.Thrown?) ==>
        error == ConnectionError && flashcards == []
      ensures error == "" <==> request != None && outcome.OkCards?
      ensures flashcards != [] ==> request != None && outcome.OkCards?
      ensures forall k :: 0 <= k < |flashcards| ==> !flashcards[k].flipped
    {
      request := BeginGenerate(isSpace);
      if request != None {
        Settle(outcome);
      }
    }

    /**
     * `handleFlip(index)`, for the index of a rendered card: turn that card
     * over. The topic, error and loading flag are untouched.
     */
    method HandleFlip(index: nat)
      requires index < |flashcards|
      modifies this
      ensures flashcards == Flip(old(flashcards), index)
      ensures topic == old(topic) && error == old(error) && loading == old(loading)
    {
      var updatedFlashcards := flashcards;
      updatedFlashcards := updatedFlashcards[index := updatedFlashcards[index].(flipped := !updatedFlashcards[index].flipped)];
      flashcards := updatedFlashcards;
    }
  }
}
