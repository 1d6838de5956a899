# Flashcard generator: parser, topic guard and client state

This project models the two pieces of logic in the flashcard generator: the
backend endpoint `/generate` and the frontend component `App`.

- **Backend** (`backend/app.py`, module `Backend`). `generate_flashcards`
  turns a missing or empty topic away with `{"error": "Topic is required"}`
  and status 400. Otherwise it sends the model a fixed two-message prompt.
  It strips the reply text, splits it on `"---"`, strips each chunk and
  splits it on `"\n"`. Every chunk with exactly two lines becomes a
  `{question, answer}` card, taken verbatim. `ParseFlashcards` is that loop.
  It is proved equal to the specification function `Parse`, which is the
  order-preserving filter `CardsOf` of the per-chunk `Candidate`s. The
  lemmas state what the cards are, what they cannot contain, how many there
  can be, and which inputs give none.
- **Text** (module `Text`). Models Python's `str.strip()` and
  `str.split(sep)` and JavaScript's `String.prototype.trim()`. The
  whitespace class is a parameter. `Split` cuts at non-overlapping
  occurrences from left to right. `Occurrences` counts the way
  `str.count` does. `Join` is the inverse partner of `Split`.
- **Frontend** (`frontend/src/App.js`, module `Frontend`). The class
  `App` has the component's four state fields: `topic`, `flashcards`,
  `error` and `loading`. `handleGenerate` is split at its `await`:
  `BeginGenerate` is the part before the request and `Settle` is the part
  after the response. `HandleGenerate` runs both in sequence. The request's
  result comes in as a `FetchOutcome`: `OkCards`, `OkMalformed`, `NotOk`
  or `Thrown`. `HandleFlip` turns one card over. The pure partners are
  `WithFlipState` (the `.map` that adds `flipped: false`), `Faces`,
  `ServerErrorMessage` and `Flip`.

Inputs that stand in for the outside world:
- The chat-completion outcome is an argument, `Completion`.
- The fetch outcome is an argument, `FetchOutcome`.
- The whitespace classes are arguments: `ws` for Python, `isSpace` for
  JavaScript.
- `GenerateFlashcards` returns the conversation it would send the model,
  or `None` when it sends nothing.
- `BeginGenerate` and `HandleGenerate` return the topic they would send
  the server, or `None` when they send nothing.

Three behaviours of the code worth noting:
- `handleGenerate` clears the error and the cards and sets `loading`
  before it checks the topic. So a blank topic also empties the card list.
- A non-ok response's `error` field is shown only when it is a non-empty
  string. Otherwise the message is "An error occurred.".
- The backend does not strip the topic, so a whitespace-only topic gets
  through its guard. Only the frontend's `trim()` rejects it.

## Model

| member | source | states |
|---|---|---|
| Text.Strip | backend/app.py:56 | `strip()` never lengthens its input; `StripSpec` states exactly which slice it returns |
| Text.StripSpec | backend/app.py:56 | `strip()` returns a slice of its input with only whitespace outside it; the slice is empty or begins and ends with a non-whitespace character |
| Text.TrimStartSpec | backend/app.py:60 | removing leading whitespace leaves the suffix after a whitespace-only prefix, starting at a non-whitespace character |
| Text.TrimEndSpec | backend/app.py:60 | removing trailing whitespace leaves the prefix before a whitespace-only suffix, ending at a non-whitespace character |
| Text.StripEmptyIff | frontend/src/App.js:15 | a string strips to the empty string exactly when every character of it is whitespace |
| Text.StripIdempotent | backend/app.py:56-60 | stripping an already stripped text changes nothing |
| Text.StripPadded | backend/app.py:56 | whitespace added at either end does not change the stripped text |
| Text.Split | backend/app.py:59 | `split` always returns at least one piece |
| Text.JoinSplit | backend/app.py:59-60 | joining the pieces of a split with the separator gives back the original string |
| Text.SplitLength | backend/app.py:59 | a split has exactly one more piece than the string has non-overlapping occurrences of the separator |
| Text.SplitPiecesAvoidSep | backend/app.py:59-60 | no piece of a split contains the separator |
| Text.SplitJoin | backend/app.py:60 | for the one-character separator `"\n"`, splitting a join of lines without line breaks gives back those lines |
| Backend.ParseFlashcards | backend/app.py:56-62 | the loop's card list equals `Parse` of the reply text |
| Backend.GenerateFlashcards | backend/app.py:39-67 | status 400 with "Topic is required", and no prompt sent, exactly when the topic is missing or empty (a whitespace-only topic passes); otherwise the fixed prompt is sent, and the reply is 200 with `Parse` of the reply text, or 500 with "Failed to generate flashcards: " and the exception text |
| Backend.CardsAreFilter | backend/app.py:58-62 | the j-th card is the candidate of the j-th kept chunk; kept indices increase; a chunk is kept exactly when it yields a candidate |
| Backend.ParseIsFilter | backend/app.py:56-62 | every card comes from a chunk whose stripped text splits into exactly `[question, answer]`, verbatim; cards keep the chunks' order; every two-line chunk gives a card and every other chunk is dropped |
| Backend.CandidateClean | backend/app.py:59-62 | a card built from a chunk without `"---"` has no line break and no `"---"` in its question or answer |
| Backend.CardsAreClean | backend/app.py:58-62 | no returned question or answer contains `"\n"` or `"---"` |
| Backend.CardsAtMostChunks | backend/app.py:58-62 | there are never more cards than chunks |
| Backend.CardCountBound | backend/app.py:56-59 | the number of cards is at most the number of `"---"` occurrences in the stripped reply plus one |
| Backend.BlankReplyHasNoCards | backend/app.py:56-64 | an empty or all-whitespace reply gives the empty card list |
| Backend.PaddingIsIgnored | backend/app.py:56 | leading or trailing whitespace on the whole reply does not change the cards |
| Backend.CandidateOfLines | backend/app.py:60-62 | a chunk whose stripped text is a list of lines gives the card `lines[0]`/`lines[1]`, prefixes such as "Question: " kept, when there are exactly two lines, and no card otherwise |
| Backend.BlankLineDropsCard | backend/app.py:60-61 | a question and an answer separated by a blank line give no card |
| Frontend.BlankIffAllSpace | frontend/src/App.js:15 | `!topic.trim()` holds exactly when every character of the topic is whitespace |
| Frontend.ReceivedCardsUnflipped | frontend/src/App.js:32-35 | the mapped cards have the same questions and answers in the same order as the response, and none is flipped |
| Frontend.ServerErrorMessage | frontend/src/App.js:38 | the shown message is never empty; it is the response's `error` field when that is a non-empty string, and "An error occurred." otherwise |
| Frontend.FlipTurnsOneCard | frontend/src/App.js:48-51 | flipping card i negates its `flipped` and keeps the length, the order, every question and answer, and every other card |
| Frontend.FlipTwiceRestores | frontend/src/App.js:50 | flipping the same card twice gives back the original card list |
| Frontend.App.constructor | frontend/src/App.js:4-7 | initially the topic is empty, there are no cards, no error, and loading is off |
| Frontend.App.SetTopic | frontend/src/App.js:85 | the change handler sets the topic and nothing else |
| Frontend.App.BeginGenerate | frontend/src/App.js:11-28 | the cards are cleared; a blank topic gives "Please enter a topic.", loading off and no request; any other topic is sent untrimmed, with the error cleared and loading on |
| Frontend.App.Settle | frontend/src/App.js:30-44 | an ok card list replaces the cards, mapped to unflipped ones; a non-ok response sets the server's error message; a malformed ok body or a thrown failure sets "Unable to connect to the server."; loading is off on every path |
| Frontend.App.HandleGenerate | frontend/src/App.js:10-45 | the topic is unchanged and loading is off on every path; a blank topic consults no outcome; each outcome gives exactly the cards and error above; an error is shown exactly when no card list arrived; all shown cards are unflipped |
| Frontend.App.HandleFlip | frontend/src/App.js:48-52 | for a rendered index, the cards become `Flip` of the old cards; topic, error and loading are unchanged |

## Left out

- The chat-completion call and its client setup (backend/app.py:19, 51-54). They are a foreign service, and their outcome is the `Completion` argument.
- Flask setup, CORS, the OPTIONS preflight handler, environment loading and `app.run` (backend/app.py:1-31, 70-72). They are HTTP plumbing.
- The text of exceptions on the 500 path (backend/app.py:66-67). It is the opaque `detail` string of `Raised`.
- Topics that are JSON values other than strings or `null`, and request bodies that are not JSON objects. The topic is an `Option<string>`.
- `fetch`, JSON encoding and `response.json()` (frontend/src/App.js:22-30). They are replaced by `FetchOutcome`. An `error` field that is a truthy non-string is not modelled.
- Overlapping `handleGenerate` calls, React's batching of state updates and re-rendering. Only one call's sequential effect is modelled.
- Frontend.App.HandleFlip: the shallow copy means the old card object is changed in place. The model keeps cards as values, so that aliasing is not represented.
- Any extra fields a server card carries through `...card`. A card is only its question and answer.
- All JSX, inline styles and the flip animation (frontend/src/App.js:54-212). They are presentational.
- The exact whitespace sets of Python's `strip` and JavaScript's `trim`. They are the parameters `ws` and `isSpace`.
