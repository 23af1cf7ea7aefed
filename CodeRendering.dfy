/**
 * The `code` renderer of the markdown display: for one code node handed over
 * by the markdown parser it resolves a language from the node's class name,
 * strips one trailing newline from the text, and picks one of three
 * renderings, depending on a per-instance "highlighter failed" flag.
 */
module CodeRendering {
  import opened Wrappers

  /** One code node: the parser's `inline` flag, its `className` and its text. */
  datatype CodeNode = CodeNode(inline: bool, className: Option<string>, children: string)

  /** The three renderings of a code node. */
  datatype Rendering =
    | InlineCode(text: string)                  // plain inline `<code>`
    | PlainFallback(text: string)               // plain `<pre>` with the retry button
    | Highlighted(language: string, text: string)  // the syntax highlighter

  /** The dependencies the memoised renderer table is built from. */
  datatype Deps = Deps(defaultLanguage: Option<string>, highlighterFailed: bool)

  // ---------------------------------------------------------------------------
  // Language resolution: the first capture of /language-(\w+)/

  const Prefix: string := "language-"

  /** A word character of a regular expression without the unicode flag. */
  predicate IsWordChar(c: char) {
    'a' <= c <= 'z' || 'A' <= c <= 'Z' || '0' <= c <= '9' || c == '_'
  }

  /** The pattern matches at position `p`: the prefix, then at least one word character. */
  predicate MatchesAt(s: string, p: nat) {
    p + |Prefix| < |s| && s[p..p + |Prefix|] == Prefix && IsWordChar(s[p + |Prefix|])
  }

  /** `c` is what the greedy group `(\w+)` captures when the match starts at `p`. */
  ghost predicate IsGreedyCapture(s: string, p: nat, c: string) {
    var start := p + |Prefix|;
    1 <= |c| && start + |c| <= |s| && s[start..start + |c|] == c &&
    (forall i :: 0 <= i < |c| ==> IsWordChar(c[i])) &&
    (start + |c| == |s| || !IsWordChar(s[start + |c|]))
  }

  /** The length of the longest prefix of `s` made of word characters. */
  function WordRun(s: string): (n: nat)
    ensures n <= |s|
    ensures forall i :: 0 <= i < n ==> IsWordChar(s[i])
    ensures n == |s| || !IsWordChar(s[n])
  {
    if s != [] && IsWordChar(s[0]) then 1 + WordRun(s[1..]) else 0
  }

  /** The leftmost position at or after `from` where the pattern matches. */
  function FirstMatch(s: string, from: nat): (r: Option<nat>)
    ensures r.Some? ==> from <= r.value && MatchesAt(s, r.value)
    ensures forall q: nat :: from <= q && (r.None? || q < r.value) ==> !MatchesAt(s, q)
    decreases |s| - from
  {
    if from + |Prefix| >= |s| then None
    else if MatchesAt(s, from) then Some(from)
    else FirstMatch(s, from + 1)
  }

  /** The first capture of the pattern in `s`, if the pattern matches at all. */
  function LanguageCapture(s: string): (r: Option<string>)
    ensures r.None? <==> forall p: nat :: !MatchesAt(s, p)
    ensures r.Some? ==> exists p: nat ::
      MatchesAt(s, p) && (forall q: nat :: q < p ==> !MatchesAt(s, q)) && IsGreedyCapture(s, p, r.value)
  {
    match FirstMatch(s, 0)
    case None => None
    case Some(p) =>
      var start := p + |Prefix|;
      var c := s[start..start + WordRun(s[start..])];
      assert IsGreedyCapture(s, p, c);
      Some(c)
  }

  /** The language of a code node: its class name's capture, otherwise the default. */
  function ResolveLanguage(className: Option<string>, defaultLanguage: Option<string>): (r: Option<string>)
    ensures (forall p: nat :: !MatchesAt(className.GetOr(""), p)) ==> r == defaultLanguage
    ensures (exists p: nat :: MatchesAt(className.GetOr(""), p)) ==>
      r.Some? && r.value != [] && exists p: nat ::
        MatchesAt(className.GetOr(""), p) &&
        (forall q: nat :: q < p ==> !MatchesAt(className.GetOr(""), q)) &&
        IsGreedyCapture(className.GetOr(""), p, r.value)
  {
    match LanguageCapture(className.GetOr(""))
    case Some(c) => Some(c)
    case None => defaultLanguage
  }

  /** A language that is neither undefined nor empty (a truthy string). */
  predicate Usable(language: Option<string>) {
    language.Some? && language.value != []
  }

  // ---------------------------------------------------------------------------
  // The trailing-newline strip: `replace(/\n$/, '')`

  /** Removes one final newline, if there is one. */
  function StripTrailingNewline(s: string): (r: string)
    ensures |s| - 1 <= |r| <= |s|
    ensures r == s[..|r|]
    ensures |r| < |s| <==> |s| > 0 && s[|s| - 1] == '\n'
  {
    if |s| > 0 && s[|s| - 1] == '\n' then s[..|s| - 1] else s
  }

  lemma StripAppendedNewline(s: string)
    ensures StripTrailingNewline(s + "\n") == s
  {
    assert (s + "\n")[..|s|] == s;
  }

  lemma StripWithoutNewline(s: string)
    requires s == [] || s[|s| - 1] != '\n'
    ensures StripTrailingNewline(s) == s
  {
  }

  /** Only one newline goes: the strip is not idempotent. */
  lemma StripNotIdempotent()
    ensures StripTrailingNewline("a\n\n") == "a\n"
    ensures StripTrailingNewline(StripTrailingNewline("a\n\n")) == "a"
  {
    assert "a\n\n"[..2] == "a\n";
    assert "a\n"[..1] == "a";
  }

  // ---------------------------------------------------------------------------
  // The render decision

  /** How the `code` renderer built with `deps` renders `node`. */
  function RenderCode(deps: Deps, node: CodeNode): (r: Rendering)
    ensures r.InlineCode? <==>
      node.inline || !Usable(ResolveLanguage(node.className, deps.defaultLanguage))
    ensures r.InlineCode? ==> r.text == node.children
    ensures r.PlainFallback? <==>
      !node.inline && Usable(ResolveLanguage(node.className, deps.defaultLanguage)) && deps.highlighterFailed
    ensures r.Highlighted? ==>
      r.language != [] && Some(r.language) == ResolveLanguage(node.className, deps.defaultLanguage)
    ensures !r.InlineCode? ==> r.text == StripTrailingNewline(node.children)
  {
    var language := ResolveLanguage(node.className, deps.defaultLanguage);
    if node.inline || !Usable(language) then InlineCode(node.children)
    else if deps.highlighterFailed then PlainFallback(StripTrailingNewline(node.children))
    else Highlighted(language.value, StripTrailingNewline(node.children))
  }

  /** Inline nodes and nodes without a language never reach the highlighter, failed or not. */
  lemma InlineIgnoresFailure(language: Option<string>, node: CodeNode)
    requires node.inline || !Usable(ResolveLanguage(node.className, language))
    ensures RenderCode(Deps(language, true), node) == RenderCode(Deps(language, false), node)
    ensures RenderCode(Deps(language, true), node) == InlineCode(node.children)
  {
  }

  /** The fallback shows exactly the text the highlighter would have been given. */
  lemma FallbackMatchesHighlighter(language: Option<string>, node: CodeNode)
    ensures RenderCode(Deps(language, true), node).PlainFallback? <==>
            RenderCode(Deps(language, false), node).Highlighted?
    ensures RenderCode(Deps(language, true), node).PlainFallback? ==>
            RenderCode(Deps(language, true), node).text == RenderCode(Deps(language, false), node).text
  {
  }

  /** A fenced block tagged `js`: highlighted as `js`, or shown plain once the highlighter failed. */
  lemma FencedJsExample(language: Option<string>)
    ensures RenderCode(Deps(language, false), CodeNode(false, Some("language-js"), "const x=1;\n"))
            == Highlighted("js", "const x=1;")
    ensures RenderCode(Deps(language, true), CodeNode(false, Some("language-js"), "const x=1;\n"))
            == PlainFallback("const x=1;")
  {
    var s := "language-js";
    assert MatchesAt(s, 0);
    assert s[9..][..2] == "js";
    assert "const x=1;\n"[..10] == "const x=1;";
  }

  /** A match starts with the prefix's `l` and continues with a word character after it. */
  lemma MatchShape(s: string, p: nat)
    requires MatchesAt(s, p)
    ensures s[p] == 'l' && IsWordChar(s[p + |Prefix|])
  {
    assert s[p..p + |Prefix|][0] == s[p];
  }

  /** The greedy capture at a position is unique. */
  lemma GreedyCaptureUnique(s: string, p: nat, c: string, d: string)
    requires IsGreedyCapture(s, p, c) && IsGreedyCapture(s, p, d)
    ensures c == d
  {
    var start := p + |Prefix|;
    assert forall i :: 0 <= i < |c| ==> s[start + i] == c[i];
    assert forall i :: 0 <= i < |d| ==> s[start + i] == d[i];
  }

  /** The capture is the greedy capture at the leftmost match, whichever way it is found. */
  lemma CaptureAtFirstMatch(s: string, p: nat, c: string)
    requires MatchesAt(s, p) && (forall q: nat :: q < p ==> !MatchesAt(s, q))
    requires IsGreedyCapture(s, p, c)
    ensures LanguageCapture(s) == Some(c)
  {
    var r := LanguageCapture(s);
    var p' :| MatchesAt(s, p') && (forall q: nat :: q < p' ==> !MatchesAt(s, q)) && IsGreedyCapture(s, p', r.value);
    assert p' == p;
    GreedyCaptureUnique(s, p, c, r.value);
  }

  /** The leftmost match wins, even past an earlier prefix not followed by a word character. */
  lemma LeftmostMatchExample()
    ensures ResolveLanguage(Some("x language- language-py"), None) == Some("py")
  {
    var s := "x language- language-py";
    forall q: nat | q < 12 ensures !MatchesAt(s, q) {
      if MatchesAt(s, q) {
        MatchShape(s, q);
        assert false;
      }
    }
    assert s[12..21] == Prefix;
    assert s[21..23] == "py";
    CaptureAtFirstMatch(s, 12, "py");
  }

  // ---------------------------------------------------------------------------
  // The per-instance failure flag

  /** What can happen to one mounted display between renders. */
  datatype Event = HighlightError | RetryClick | LanguageProp(language: Option<string>)

  /** The failure flag after one event. */
  function FlagStep(failed: bool, e: Event): bool {
    match e
    case HighlightError => true
    case RetryClick => false
    case LanguageProp(_) => failed
  }

  /** The failure flag after the events `es`, starting from a freshly mounted display. */
  function FlagAfter(es: seq<Event>): bool
    decreases |es|
  {
    if es == [] then false else FlagStep(FlagAfter(es[..|es| - 1]), es[|es| - 1])
  }

  /** Some highlighter error in `es` is followed by no retry. */
  ghost predicate UnretriedError(es: seq<Event>) {
    exists i :: 0 <= i < |es| && es[i].HighlightError? &&
      forall j :: i < j < |es| ==> !es[j].RetryClick?
  }

  /**
   * The flag starts false, becomes true only through the highlighter's error
   * callback and false only through the retry button: it is set exactly when
   * some error has not been followed by a retry.
   */
  lemma {:induction false} FlagAfterIsUnretriedError(es: seq<Event>)
    ensures FlagAfter(es) <==> UnretriedError(es)
    decreases |es|
  {
    if es != [] {
      var n := |es| - 1;
      var init := es[..n];
      FlagAfterIsUnretriedError(init);
      match es[n]
      case HighlightError =>
        assert es[n].HighlightError?;
      case RetryClick =>
        if UnretriedError(es) {
          var i :| 0 <= i < |es| && es[i].HighlightError? &&
            forall j :: i < j < |es| ==> !es[j].RetryClick?;
          assert false;
        }
      case LanguageProp(_) =>
        if UnretriedError(init) {
          var i :| 0 <= i < |init| && init[i].HighlightError? &&
            forall j :: i < j < |init| ==> !init[j].RetryClick?;
          assert es[i].HighlightError?;
          assert forall j :: i < j < |es| ==> !es[j].RetryClick?;
        }
        if UnretriedError(es) {
          var i :| 0 <= i < |es| && es[i].HighlightError? &&
            forall j :: i < j < |es| ==> !es[j].RetryClick?;
          assert init[i].HighlightError?;
          assert forall j :: i < j < |init| ==> !init[j].RetryClick?;
        }
    }
  }

  /**
   * One mounted display: the `language` prop, the `highlighterFailed` state,
   * and the dependencies its memoised renderer table was last built from.
   */
  class CodeDisplay {
    var defaultLanguage: Option<string>
    var highlighterFailed: bool
    var memo: Deps

    /** The memoised table is never stale. */
    ghost predicate Valid()
      reads this
    {
      memo == Deps(defaultLanguage, highlighterFailed)
    }

    constructor (language: Option<string>)
      ensures Valid() && defaultLanguage == language && !highlighterFailed
    {
      defaultLanguage := language;
      highlighterFailed := false;
      memo := Deps(language, false);
    }

    /**
     * A render with the `language` prop: the table is rebuilt exactly when a
     * dependency changed, and the failure flag is left alone.
     */
    method Rerender(language: Option<string>) returns (rebuilt: bool)
      requires Valid()
      modifies this
      ensures Valid() && defaultLanguage == language && highlighterFailed == old(highlighterFailed)
      ensures rebuilt <==> language != old(defaultLanguage)
    {
      var deps := Deps(language, highlighterFailed);
      rebuilt := deps != memo;
      defaultLanguage := language;
      if rebuilt {
        memo := deps;
      }
    }

    /** The highlighter's error callback, followed by the render it triggers. */
    method OnError() returns (rebuilt: bool)
      requires Valid()
      modifies this
      ensures Valid() && highlighterFailed && defaultLanguage == old(defaultLanguage)
      ensures rebuilt <==> !old(highlighterFailed)
    {
      rebuilt := !highlighterFailed;
      highlighterFailed := true;
      if rebuilt {
        memo := Deps(defaultLanguage, true);
      }
    }

    /**
     * The retry button: clears the flag, then asks the host page to reload
     * (`reload`), which the model leaves to the caller.
     */
    method Retry() returns (reload: bool)
      requires Valid()
      modifies this
      ensures Valid() && !highlighterFailed && defaultLanguage == old(defaultLanguage)
      ensures reload
    {
      highlighterFailed := false;
      memo := Deps(defaultLanguage, false);
      reload := true;
    }

    /** One event, dispatched to the handler it reaches. */
    method Handle(e: Event)
      requires Valid()
      modifies this
      ensures Valid() && highlighterFailed == FlagStep(old(highlighterFailed), e)
      ensures e.LanguageProp? ==> defaultLanguage == e.language
      ensures !e.LanguageProp? ==> defaultLanguage == old(defaultLanguage)
    {
      match e
      case HighlightError =>
        var _ := OnError();
      case RetryClick =>
        var _ := Retry();
      case LanguageProp(language) =>
        var _ := Rerender(language);
    }

    /** Renders one code node through the memoised table, as a fresh table would. */
    function Render(node: CodeNode): (r: Rendering)
      reads this
      requires Valid()
      ensures r == RenderCode(Deps(defaultLanguage, highlighterFailed), node)
    {
      RenderCode(memo, node)
    }
  }
}
