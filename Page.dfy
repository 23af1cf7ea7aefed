/**
 * The flashcard page: a cursor `(currentIndex, isFlipped)` over a fixed deck,
 * moved by a flip button, a back button and three assessment buttons.
 *
 * The transitions are first stated as functions on a `State` value; the class
 * `FlashcardApp` holds the two state variables as fields and its handlers are
 * proved to perform exactly those transitions.
 */
module Page {

  /** One question/answer card of the deck. */
  datatype Card = Card(id: int, front: string, back: string)

  /** The navigator's two state variables. */
  datatype State = State(index: nat, flipped: bool)

  /** The buttons that change the navigator's state. */
  datatype Button = BackButton | FlipButton | DontKnow | Familiar | Mastered

  /** A transition's new state, and whether it raised the "Deck completed!" notice. */
  datatype Step = Step(state: State, completed: bool)

  /** The new state after a sequence of presses, and how many notices they raised. */
  datatype Trace = Trace(final: State, notices: nat)

  /** The state the page starts in. */
  const Initial: State := State(0, false)

  /** The four cards the page is loaded with. */
  const SampleDeck: seq<Card> := [
    Card(1, "Short question?", "Short answer."),
    Card(2,
      "A very long question to test scrolling behavior on the front side of the card. It needs to exceed the available height.",
      "Standard answer."),
    Card(3,
      "Standard question",
      "A very long answer content that should trigger scrolling only when it is displayed. Lorem ipsum dolor sit amet consectetur adipisicing elit. Maxime mollitia, molestiae quas vel sint commodi repudiandae consequuntur voluptatum laborum numquam blanditiis harum quisquam eius sed odit fugiat iusto fuga praesentium optio, eaque rerum! Provident similique accusantium nemo autem. A very long answer content that should trigger scrolling only when it is displayed. Lorem ipsum dolor sit amet consectetur adipisicing elit. Maxime mollitia, molestiae quas vel sint commodi repudiandae consequuntur voluptatum laborum numquam blanditiis harum quisquam eius sed odit fugiat iusto fuga praesentium optio, eaque rerum! Provident similique accusantium nemo autem."),
    Card(4, "Final Card", "Done!")
  ]

  predicate IsAssessment(b: Button) {
    b.DontKnow? || b.Familiar? || b.Mastered?
  }

  // ---------------------------------------------------------------------------
  // Transitions on values

  /** The flip button: toggles the face, never moves. */
  function Flip(s: State): (r: State)
    ensures r.index == s.index && r.flipped == !s.flipped
  {
    State(s.index, !s.flipped)
  }

  /**
   * Advance in a deck of `n` cards: to the next card with the front side
   * showing; from the last card, raise the completion notice and wrap to the
   * first card. The index change is taken as one atomic step with the flag
   * reset; `NextAsWritten` below models the delayed version.
   */
  function Next(n: nat, s: State): (r: Step)
    ensures !r.state.flipped
    ensures r.completed <==> s.index >= n - 1
    ensures r.completed ==> r.state == Initial
    ensures !r.completed ==> r.state.index == s.index + 1
    ensures s.index < n ==> r.state.index < n
  {
    if s.index < n - 1 then Step(State(s.index + 1, false), false)
    else Step(State(0, false), true)
  }

  /** Retreat: to the previous card, front side showing; at the first card nothing changes. */
  function Back(s: State): (r: State)
    ensures s.index > 0 ==> r.index == s.index - 1 && !r.flipped
    ensures s.index == 0 ==> r == s
  {
    if s.index > 0 then State(s.index - 1, false) else s
  }

  /** What pressing a button does: every assessment button is wired to `Next`. */
  function Press(n: nat, s: State, b: Button): (r: Step)
    ensures r.completed ==> IsAssessment(b)
    ensures 1 <= n && s.index < n ==> r.state.index < n
    ensures !b.FlipButton? && r.state.index != s.index ==> !r.state.flipped
  {
    match b
    case BackButton => Step(Back(s), false)
    case FlipButton => Step(Flip(s), false)
    case DontKnow => Next(n, s)
    case Familiar => Next(n, s)
    case Mastered => Next(n, s)
  }

  /** The effect of pressing the buttons `bs` in order, starting from `s`. */
  function Run(n: nat, s: State, bs: seq<Button>): Trace
    decreases |bs|
  {
    if bs == [] then Trace(s, 0)
    else
      var first := Press(n, s, bs[0]);
      var rest := Run(n, first.state, bs[1..]);
      Trace(rest.final, rest.notices + if first.completed then 1 else 0)
  }

  /** `k` presses of the button `b`. */
  function Repeat(b: Button, k: nat): (r: seq<Button>)
    ensures |r| == k && forall i :: 0 <= i < k ==> r[i] == b
  {
    if k == 0 then [] else [b] + Repeat(b, k - 1)
  }

  // ---------------------------------------------------------------------------
  // Display

  /** The position shown in the header, `currentIndex + 1`. */
  function Position(s: State): (p: nat)
    ensures p >= 1 && p - 1 == s.index
  {
    s.index + 1
  }

  /** The label over the card. */
  function FaceLabel(flipped: bool): (l: string)
    ensures l == "BACK" <==> flipped
    ensures l == "FRONT" <==> !flipped
  {
    if flipped then "BACK" else "FRONT"
  }

  /** The text shown on the card. */
  function Face(c: Card, flipped: bool): (t: string)
    ensures flipped ==> t == c.back
    ensures !flipped ==> t == c.front
  {
    if flipped then c.back else c.front
  }

  // ---------------------------------------------------------------------------
  // Properties of the transitions

  /** The three assessment buttons are each exactly the advance transition. */
  lemma AssessmentIsAdvance(n: nat, s: State)
    ensures Press(n, s, DontKnow) == Next(n, s)
    ensures Press(n, s, Familiar) == Next(n, s)
    ensures Press(n, s, Mastered) == Next(n, s)
  {
  }

  /** Flipping twice restores the state. */
  lemma FlipTwice(s: State)
    ensures Flip(Flip(s)) == s
  {
  }

  /** Retreating undoes an advance that did not wrap. */
  lemma BackUndoesNext(n: nat, s: State)
    requires s.index < n - 1
    ensures Back(Next(n, s).state) == State(s.index, false)
  {
  }

  /** Advancing undoes a retreat that moved. */
  lemma NextUndoesBack(n: nat, s: State)
    requires 0 < s.index < n
    ensures Next(n, Back(s)) == Step(State(s.index, false), false)
  {
  }

  /** Along any sequence of presses the cursor stays on a card of the deck. */
  lemma {:induction false} RunInBounds(n: nat, s: State, bs: seq<Button>)
    requires 1 <= n && s.index < n
    ensures Run(n, s, bs).final.index < n
    decreases |bs|
  {
    if bs != [] {
      RunInBounds(n, Press(n, s, bs[0]).state, bs[1..]);
    }
  }

  /** Pressing `xs` and then `ys` is running `xs` and continuing with `ys`. */
  lemma {:induction false} RunAppend(n: nat, s: State, xs: seq<Button>, ys: seq<Button>)
    ensures Run(n, s, xs + ys) ==
      var mid := Run(n, s, xs);
      var tail := Run(n, mid.final, ys);
      Trace(tail.final, mid.notices + tail.notices)
    decreases |xs|
  {
    if xs != [] {
      assert (xs + ys)[0] == xs[0];
      assert (xs + ys)[1..] == xs[1..] + ys;
      RunAppend(n, Press(n, s, xs[0]).state, xs[1..], ys);
    } else {
      assert xs + ys == ys;
    }
  }

  lemma {:induction false} RepeatAppend(b: Button, j: nat, k: nat)
    ensures Repeat(b, j + k) == Repeat(b, j) + Repeat(b, k)
  {
    if j > 0 {
      RepeatAppend(b, j - 1, k);
      assert Repeat(b, j + k) == [b] + Repeat(b, j - 1 + k);
    }
  }

  /**
   * `k` assessments that stay short of the last card move `k` cards forward,
   * front side showing, without the completion notice.
   */
  lemma {:induction false} Climb(n: nat, s: State, b: Button, k: nat)
    requires IsAssessment(b) && 0 < k && s.index + k < n
    ensures Run(n, s, Repeat(b, k)) == Trace(State(s.index + k, false), 0)
    decreases k
  {
    var first := Next(n, s).state;
    assert Repeat(b, k)[1..] == Repeat(b, k - 1);
    if k > 1 {
      Climb(n, first, b, k - 1);
    }
  }

  /** One assessment at the last card wraps to the first with the notice. */
  lemma WrapAtLast(n: nat, s: State, b: Button)
    requires IsAssessment(b) && s.index == n - 1
    ensures Run(n, s, Repeat(b, 1)) == Trace(Initial, 1)
  {
    assert Repeat(b, 1)[1..] == [];
  }

  /** Running from `s` up to the last card, without the notice. */
  lemma ClimbToLast(n: nat, s: State, b: Button)
    requires IsAssessment(b) && s.index < n
    ensures Run(n, s, Repeat(b, n - 1 - s.index)).notices == 0
    ensures Run(n, s, Repeat(b, n - 1 - s.index)).final.index == n - 1
  {
    if n - 1 - s.index > 0 {
      Climb(n, s, b, n - 1 - s.index);
    } else {
      assert Repeat(b, 0) == [];
    }
  }

  /** Running from the first card back up to `i`, front side showing, without the notice. */
  lemma ClimbFromFirst(n: nat, i: nat, b: Button)
    requires IsAssessment(b) && i < n
    ensures Run(n, Initial, Repeat(b, i)) == Trace(State(i, false), 0)
  {
    if i > 0 {
      Climb(n, Initial, b, i);
    } else {
      assert Repeat(b, 0) == [];
    }
  }

  /**
   * The deck wraps: `n` assessments from any card of an `n`-card deck come
   * back to that card, front side showing, and raise the completion notice exactly once.
   */
  lemma {:induction false} FullLap(n: nat, s: State, b: Button)
    requires IsAssessment(b) && s.index < n
    ensures Run(n, s, Repeat(b, n)) == Trace(State(s.index, false), 1)
  {
    var up := n - 1 - s.index;
    var climb, wrap, back := Repeat(b, up), Repeat(b, 1), Repeat(b, s.index);
    ClimbToLast(n, s, b);
    var atLast := Run(n, s, climb).final;
    WrapAtLast(n, atLast, b);
    ClimbFromFirst(n, s.index, b);
    RepeatAppend(b, up, 1);
    RepeatAppend(b, up + 1, s.index);
    RunAppend(n, s, climb, wrap);
    RunAppend(n, s, climb + wrap, back);
  }

  // ---------------------------------------------------------------------------
  // The advance as written, with its delayed index change

  /**
   * The handler's immediate effect and the index its timer will set 200 ms
   * later (`pending`), computed from the index at click time. Wrapping at the
   * last card happens at once and schedules nothing.
   */
  datatype Delayed = Delayed(now: State, pending: nat, scheduled: bool, completed: bool)

  function NextAsWritten(n: nat, s: State): (r: Delayed)
    ensures !r.now.flipped
    ensures r.scheduled <==> s.index < n - 1
    ensures r.scheduled ==> r.now.index == s.index && r.pending == s.index + 1 && !r.completed
    ensures !r.scheduled ==> r.now == Initial && r.completed
  {
    if s.index < n - 1 then Delayed(State(s.index, false), s.index + 1, true, false)
    else Delayed(State(0, false), 0, false, true)
  }

  /** The timer sets the index it was given and leaves the flip flag as it finds it. */
  function TimerFires(s: State, target: nat): (r: State)
    ensures r.index == target && r.flipped == s.flipped
  {
    State(target, s.flipped)
  }

  /** With no click during the delay, the written advance ends where `Next` does. */
  lemma AsWrittenAgreesWithoutInterleaving(n: nat, s: State)
    ensures var d := NextAsWritten(n, s);
      Step(if d.scheduled then TimerFires(d.now, d.pending) else d.now, d.completed) == Next(n, s)
  {
  }

  /**
   * A flip inside the delay survives the card change: the next card opens on
   * its back, against `Next`, which always shows the front side.
   */
  lemma FlipDuringDelay(n: nat, s: State)
    requires s.index < n - 1
    ensures var d := NextAsWritten(n, s);
      d.scheduled && TimerFires(Flip(d.now), d.pending) == State(s.index + 1, true)
    ensures !Next(n, s).state.flipped
  {
  }

  /** A retreat inside the delay is overwritten by the timer's stale `currentIndex + 1`. */
  lemma BackDuringDelay(n: nat, s: State)
    requires 0 < s.index < n - 1
    ensures var d := NextAsWritten(n, s);
      d.scheduled && Back(d.now).index == s.index - 1 &&
      TimerFires(Back(d.now), d.pending) == State(s.index + 1, false)
  {
  }

  // ---------------------------------------------------------------------------
  // The page component

  /** The page's state: the deck and the two state variables the handlers set. */
  class FlashcardApp {
    const cards: seq<Card>
    var currentIndex: nat
    var isFlipped: bool

    /** The deck is non-empty and the cursor is on one of its cards. */
    ghost predicate Valid()
      reads this
    {
      1 <= |cards| && currentIndex < |cards|
    }

    /** The two state variables as a value. */
    function Current(): State
      reads this
    {
      State(currentIndex, isFlipped)
    }

    constructor (deck: seq<Card>)
      requires 1 <= |deck|
      ensures Valid() && cards == deck && Current() == Initial
    {
      cards := deck;
      currentIndex := 0;
      isFlipped := false;
    }

    method HandleFlip()
      requires Valid()
      modifies this
      ensures Valid() && Current() == Flip(old(Current()))
      ensures currentIndex == old(currentIndex) && isFlipped == !old(isFlipped)
    {
      isFlipped := !isFlipped;
    }

    /** Advance; `completed` reports the "Deck completed!" notice. */
    method HandleNext() returns (completed: bool)
      requires Valid()
      modifies this
      ensures Valid() && Step(Current(), completed) == Next(|cards|, old(Current()))
    {
      var totalCards := |cards|;
      if currentIndex < totalCards - 1 {
        isFlipped := false;
        currentIndex := currentIndex + 1;
        completed := false;
      } else {
        completed := true;
        isFlipped := false;
        currentIndex := 0;
      }
    }

    method HandleBack()
      requires Valid()
      modifies this
      ensures Valid() && Current() == Back(old(Current()))
    {
      if currentIndex > 0 {
        isFlipped := false;
        currentIndex := currentIndex - 1;
      }
    }

    /** The buttons' wiring. */
    method OnClick(b: Button) returns (completed: bool)
      requires Valid()
      modifies this
      ensures Valid() && Step(Current(), completed) == Press(|cards|, old(Current()), b)
    {
      match b
      case BackButton =>
        HandleBack();
        completed := false;
      case FlipButton =>
        HandleFlip();
        completed := false;
      case DontKnow =>
        completed := HandleNext();
      case Familiar =>
        completed := HandleNext();
      case Mastered =>
        completed := HandleNext();
    }

    /** Mounting the page over its built-in deck. */
    static method Mount() returns (app: FlashcardApp)
      ensures fresh(app) && app.Valid() && app.cards == SampleDeck && app.Current() == Initial
      ensures |app.cards| == 4
    {
      app := new FlashcardApp(SampleDeck);
    }

    /** The card under the cursor, always defined. */
    function CurrentCard(): (c: Card)
      reads this
      requires Valid()
      ensures c in cards && c == cards[currentIndex]
    {
      cards[currentIndex]
    }

    /** The header's `position | total`: the position lies in `1..total`. */
    function Progress(): (p: (nat, nat))
      reads this
      requires Valid()
      ensures 1 <= p.0 <= p.1 && p.1 == |cards|
      ensures p.0 == Position(Current())
    {
      (Position(Current()), |cards|)
    }

    /** The face label and the text shown: the back exactly when flipped. */
    function Shown(): (v: (string, string))
      reads this
      requires Valid()
      ensures v.0 == "BACK" <==> isFlipped
      ensures isFlipped ==> v.1 == CurrentCard().back
      ensures !isFlipped ==> v.1 == CurrentCard().front
    {
      (FaceLabel(isFlipped), Face(CurrentCard(), isFlipped))
    }
  }
}
