# Flashcard study page — a Dafny model

This project models the two pieces of logic in a small flashcard study UI:

- **The card navigator** (`app/page.tsx`): a cursor `(currentIndex, isFlipped)`
  over a fixed, non-empty deck. The flip button toggles the face; the back
  button moves to the previous card with the front side showing and does nothing on the first
  card; the three assessment buttons ("Don't know", "Familiar", "Mastered")
  all advance to the next card with the front side showing, and on the last card raise the
  "Deck completed!" notice and wrap to the first card. Module `Page` states
  these transitions as functions on a `State` value (`Flip`, `Next`, `Back`,
  `Press`, `Run`), and the class `Page.FlashcardApp` holds the two state
  variables as fields; its handlers are proved to perform exactly those
  transitions and to keep the cursor on a card.
- **The code-node renderer** (`app/components/CodeDisplay/CodeDisplay.tsx`):
  for one code node handed over by the markdown parser it resolves a language
  (the first capture of `/language-(\w+)/` in the class name, otherwise the
  display's default language), strips one trailing newline from the text, and
  chooses between plain inline code, a plain `<pre>` fallback with a retry
  button, and the syntax highlighter. Module `CodeRendering` models the
  decision as functions, and the class `CodeRendering.CodeDisplay` models one
  mounted display: its `highlighterFailed` flag, set by the highlighter's
  error callback and cleared by the retry button, and the dependencies its
  memoised renderer table was built from.

`Wrappers` holds the `Option` type used for values that may be undefined.

Points where the model follows details of the code:
- A node is rendered as plain inline code not only when no language is
  resolved but also when the resolved language is the empty string (the
  code tests `!language`).
- The language comes from a regular-expression search of the whole class
  name: the leftmost `language-` followed by at least one word character
  (`[A-Za-z0-9_]`), captured greedily, so `language-c++` resolves to `c` and
  `x language- language-py` to `py`.
- Inline code keeps its text as it is; only the fallback and the highlighter
  receive the text with one final newline removed. `/\n$/` has no multiline
  flag, so `$` is the end of the text and at most one newline goes.

## Model

| member | source | states |
|---|---|---|
| `Page.Flip` | app/page.tsx:58 | flipping toggles the face and keeps the card |
| `Page.Next` | app/page.tsx:60-69 | advancing always ends with the front side showing; the notice is raised exactly when the cursor is on the last card, and then the state is the initial one; otherwise the cursor moves one card on; the cursor stays in the deck |
| `Page.Back` | app/page.tsx:71-76 | retreating from a card other than the first moves one card back, with the front side showing; on the first card the whole state, flip flag included, is unchanged |
| `Page.Press` | app/page.tsx:83-215 | only an assessment button can raise the notice; every button keeps the cursor in a non-empty deck; any button other than flip that moves the cursor leaves the card with the front side showing |
| `Page.AssessmentIsAdvance` | app/page.tsx:178-206 | "Don't know", "Familiar" and "Mastered" are each exactly the advance transition |
| `Page.FlipTwice` | app/page.tsx:58 | flipping twice restores the state |
| `Page.BackUndoesNext` | app/page.tsx:60-76 | retreating after an advance that did not wrap returns to the same card, with the front side showing |
| `Page.NextUndoesBack` | app/page.tsx:60-76 | advancing after a retreat that moved returns to the same card, with the front side showing, without the notice |
| `Page.RunInBounds` | app/page.tsx:35-76 | from any state on a card of a non-empty deck, every sequence of button presses keeps the cursor on a card |
| `Page.Climb` | app/page.tsx:60-63 | k advances that stay short of the last card move k cards on, with the front side showing, without the notice |
| `Page.WrapAtLast` | app/page.tsx:64-68 | one advance on the last card raises the notice once and gives the initial state |
| `Page.FullLap` | app/page.tsx:60-69 | n advances in an n-card deck return to the starting card, with the front side showing, with exactly one completion notice |
| `Page.NextAsWritten` | app/page.tsx:60-69 | the written handler clears the flag at once; before the last card it keeps the index and schedules `currentIndex + 1` computed at click time, without the notice; on the last card it raises the notice and gives the initial state, scheduling nothing |
| `Page.TimerFires` | app/page.tsx:63 | the timer sets the scheduled index and leaves the flip flag as it finds it |
| `Page.AsWrittenAgreesWithoutInterleaving` | app/page.tsx:60-69 | with no click inside the delay, the written handler followed by its timer ends exactly where the atomic `Next` does |
| `Page.FlipDuringDelay` | app/page.tsx:58-63 | a flip inside the delay makes the next card open on its back, whereas `Next` always ends with the front side showing |
| `Page.BackDuringDelay` | app/page.tsx:60-76 | a retreat inside the delay is overwritten by the timer's stale `currentIndex + 1` |
| `Page.Position` | app/page.tsx:112 | the displayed position is one more than the cursor, so at least 1 |
| `Page.FaceLabel` | app/page.tsx:134 | the label reads BACK exactly when flipped and FRONT exactly when not |
| `Page.Face` | app/page.tsx:166 | the shown text is the card's back when flipped and its front otherwise |
| `Page.FlashcardApp.constructor` | app/page.tsx:19-36 | the page starts on the first card, front side showing, over a non-empty deck |
| `Page.FlashcardApp.Mount` | app/page.tsx:19-36 | the page mounts over its four-card deck on the first card with the front side showing |
| `Page.FlashcardApp.HandleFlip` | app/page.tsx:58 | the flip handler performs `Flip`: the face toggles, the card stays |
| `Page.FlashcardApp.HandleNext` | app/page.tsx:60-69 | the next handler performs `Next` on the deck's length, reporting the completion notice, and keeps the cursor on a card |
| `Page.FlashcardApp.HandleBack` | app/page.tsx:71-76 | the back handler performs `Back` and keeps the cursor on a card |
| `Page.FlashcardApp.OnClick` | app/page.tsx:83-215 | each button's click performs that button's `Press` transition |
| `Page.FlashcardApp.CurrentCard` | app/page.tsx:38 | `cards[currentIndex]` is always defined: it is a card of the deck |
| `Page.FlashcardApp.Progress` | app/page.tsx:110-113 | the header shows a position in `1..total` and the deck's size as total |
| `Page.FlashcardApp.Shown` | app/page.tsx:133-166 | the label is BACK exactly when flipped; the text is the current card's back when flipped and its front otherwise |
| `CodeRendering.WordRun` | app/components/CodeDisplay/CodeDisplay.tsx:61 | `\w+` greedily: every character counted is a word character and the next one is not |
| `CodeRendering.FirstMatch` | app/components/CodeDisplay/CodeDisplay.tsx:61 | the result is a position where the pattern matches and no earlier position (from the start point) matches; no result means no position matches |
| `CodeRendering.LanguageCapture` | app/components/CodeDisplay/CodeDisplay.tsx:61 | there is a capture exactly when the pattern matches somewhere, and it is the greedy word capture at the leftmost match |
| `CodeRendering.ResolveLanguage` | app/components/CodeDisplay/CodeDisplay.tsx:61-62 | the language is the first `language-(\w+)` capture of the class name (an undefined class name read as empty), non-empty; with no match it is the default language |
| `CodeRendering.GreedyCaptureUnique` | app/components/CodeDisplay/CodeDisplay.tsx:61 | the greedy `(\w+)` capture at a match position is unique |
| `CodeRendering.CaptureAtFirstMatch` | app/components/CodeDisplay/CodeDisplay.tsx:61 | the capture found is the greedy capture at the leftmost match, so any such capture is the one the search returns |
| `CodeRendering.LeftmostMatchExample` | app/components/CodeDisplay/CodeDisplay.tsx:61 | a `language-` not followed by a word character is skipped and the next match wins |
| `CodeRendering.StripTrailingNewline` | app/components/CodeDisplay/CodeDisplay.tsx:79 | the result is a prefix of the text at most one character shorter, and shorter exactly when the text ends in a newline |
| `CodeRendering.StripAppendedNewline` | app/components/CodeDisplay/CodeDisplay.tsx:114 | stripping `s + "\n"` gives `s` back |
| `CodeRendering.StripWithoutNewline` | app/components/CodeDisplay/CodeDisplay.tsx:79 | text not ending in a newline is unchanged |
| `CodeRendering.StripNotIdempotent` | app/components/CodeDisplay/CodeDisplay.tsx:79 | `"a\n\n"` becomes `"a\n"`, and stripping again gives `"a"`: one newline per strip |
| `CodeRendering.RenderCode` | app/components/CodeDisplay/CodeDisplay.tsx:55-115 | inline nodes and nodes whose language is undefined or empty render as inline code with their text untouched; otherwise a failed highlighter gives the plain fallback and a working one the highlighter with the resolved language, both on the stripped text |
| `CodeRendering.InlineIgnoresFailure` | app/components/CodeDisplay/CodeDisplay.tsx:63-72 | for inline or language-less nodes the failure flag makes no difference: the highlighter is never used |
| `CodeRendering.FallbackMatchesHighlighter` | app/components/CodeDisplay/CodeDisplay.tsx:74-115 | a node gets the fallback when failed exactly when it gets the highlighter when not, and both receive the same text |
| `CodeRendering.FencedJsExample` | app/components/CodeDisplay/CodeDisplay.tsx:61-115 | a `language-js` block with text `const x=1;\n` is highlighted as `js` with `const x=1;`, or shown as that text in the fallback once failed, whatever the default language |
| `CodeRendering.FlagAfterIsUnretriedError` | app/components/CodeDisplay/CodeDisplay.tsx:39-112 | starting false, the failure flag is set after a history of events exactly when some highlighter error has not been followed by a retry |
| `CodeRendering.CodeDisplay.constructor` | app/components/CodeDisplay/CodeDisplay.tsx:35-46 | a new display starts with the flag clear and its table built for its language |
| `CodeRendering.CodeDisplay.Rerender` | app/components/CodeDisplay/CodeDisplay.tsx:42-146 | a render rebuilds the table exactly when the language prop changed, and never touches the flag |
| `CodeRendering.CodeDisplay.OnError` | app/components/CodeDisplay/CodeDisplay.tsx:112 | the error callback sets the flag, and the table is rebuilt exactly when the flag was clear |
| `CodeRendering.CodeDisplay.Retry` | app/components/CodeDisplay/CodeDisplay.tsx:83-86 | the retry button clears the flag and requests a reload |
| `CodeRendering.CodeDisplay.Handle` | app/components/CodeDisplay/CodeDisplay.tsx:83-112 | each event moves the flag by `FlagStep`, the step `FlagAfterIsUnretriedError` is about |
| `CodeRendering.CodeDisplay.Render` | app/components/CodeDisplay/CodeDisplay.tsx:42-146 | rendering through the memoised table equals rendering with the current language and flag: the table is never stale, and the choice depends only on the node and those two |

## Left out

- Page.Next: the 200 ms `setTimeout` before the index changes is taken as one atomic step, so `Next`, `Press`, `FlashcardApp.HandleNext` and `FullLap` describe advances with no click inside the delay. Inside the delay the code as written does three more things, which the atomic model does not: two advances both compute the same stale `currentIndex + 1`; a flip makes the next card open on its back (the flag was cleared at once, the index changes later); and a retreat is undone when the timer sets the stale `currentIndex + 1`. `NextAsWritten`, `TimerFires`, `FlipDuringDelay` and `BackDuringDelay` state the last two for a single interleaved click.
- The blocking `alert`: it appears only as the `completed` result of the advance.
- The progress bar's width (floating-point percentage used only for CSS).
- Markup, styling and animation (motion variants, presence transitions, Tailwind classes, scoped style blocks), and the paragraph renderer, which only wraps its children in markup.
- The delete, edit and settings buttons: they have no handlers.
- The lazily loaded highlighter module and its loading skeleton: asynchronous module loading.
- `window.location.reload()`: a foreign side effect; the retry only reports it as `reload`.
- Markdown parsing: the model's input is one code node as the parser hands it over; the text of a node's children is taken to be a string already.
- Object identity of the memoised table and of the memoised component: only the dependence on `(defaultLanguage, highlighterFailed)` and when the table is rebuilt are modelled.
- app/data/decks.ts and app/layout.tsx are not part of this model (static data and the HTML shell).
- Page.FlashcardApp.constructor: requires a non-empty deck; the page's deck is a four-card literal (`SampleDeck`, mounted by `FlashcardApp.Mount`), so this excludes nothing the page does.

## Findings

| source | as written | input that shows it | evidently intended | confidence | as-written member | corrected member |
|---|---|---|---|---|---|---|
| app/page.tsx:61-63 | the flip flag is cleared at once but the index moves 200 ms later, so a flip inside the delay carries over to the next card | card `i` below the last, front side showing: advance, then flip within 200 ms; the page ends on card `i + 1` with its back showing | line 62's comment, which says the flag is reset before the move: a card change always ends with the front side showing | medium, not executed | `Page.FlipDuringDelay` | `Page.Next` |
