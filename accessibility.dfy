/** The page-level accessibility checks of the visual suite, over element records
    instead of a live document: images without `alt`, visible inputs without an
    accessible name, skipped heading levels, and links and buttons without
    discernible text. Each check is a count that the suite expects to be zero. */
module Accessibility {
  import opened Wrappers
  import JsBuiltins

  // ---------------------------------------------------------------------------
  // Heading nesting
  // ---------------------------------------------------------------------------

  /** The level of an `h1` ... `h6` element, `parseInt` of its tag name's digit. */
  type HeadingLevel = l: int | 1 <= l <= 6 witness 1

  /** A heading at `level` right after one at `previous` skips at least one level. */
  predicate Skips(previous: int, level: int) {
    level > previous + 1
  }

  /** The heading at position `i` skips a level after the one before it. */
  predicate SkipsAt(levels: seq<HeadingLevel>, i: int) {
    1 <= i < |levels| && Skips(levels[i - 1], levels[i])
  }

  /** How many headings go more than one level deeper than the heading before them. */
  function SkippedLevels(levels: seq<HeadingLevel>): nat
    decreases |levels|
  {
    if |levels| < 2 then 0
    else
      SkippedLevels(levels[..|levels| - 1])
      + if Skips(levels[|levels| - 2], levels[|levels| - 1]) then 1 else 0
  }

  /** The positions of the headings that skip a level. */
  ghost function SkipPositions(levels: seq<HeadingLevel>): set<int> {
    set i | 0 <= i < |levels| && SkipsAt(levels, i)
  }

  /** The heading check walks the headings in document order, remembering the
      previous level (0 before the first heading, so the first is never counted). */
  method HeadingLevelIssues(levels: seq<HeadingLevel>) returns (issues: nat)
    ensures issues == SkippedLevels(levels)
  {
    var previousLevel: int := 0;
    issues := 0;
    for k := 0 to |levels|
      invariant issues == SkippedLevels(levels[..k])
      invariant previousLevel == if k == 0 then 0 else levels[k - 1]
    {
      var level := levels[k];
      if previousLevel > 0 && Skips(previousLevel, level) {
        issues := issues + 1;
      }
      assert levels[..k + 1][..k] == levels[..k];
      previousLevel := level;
    }
    assert levels[..|levels|] == levels;
  }

  /** The count is the number of positions, other than the first, whose heading is
      more than one level below its predecessor. */
  lemma {:induction false} SkippedLevelsCountsPositions(levels: seq<HeadingLevel>)
    ensures SkippedLevels(levels) == |SkipPositions(levels)|
    decreases |levels|
  {
    if |levels| >= 2 {
      var n := |levels|;
      var prefix := levels[..n - 1];
      SkippedLevelsCountsPositions(prefix);
      assert SkipPositions(prefix) == SkipPositions(levels) - {n - 1};
      if Skips(levels[n - 2], levels[n - 1]) {
        assert SkipPositions(levels) == SkipPositions(prefix) + {n - 1};
      } else {
        assert SkipPositions(levels) == SkipPositions(prefix);
      }
    } else {
      assert SkipPositions(levels) == {};
    }
  }

  /** At most every heading but the first is counted. */
  lemma {:induction false} SkippedLevelsBound(levels: seq<HeadingLevel>)
    ensures SkippedLevels(levels) <= if |levels| == 0 then 0 else |levels| - 1
    decreases |levels|
  {
    if |levels| >= 2 {
      SkippedLevelsBound(levels[..|levels| - 1]);
    }
  }

  /** The check passes exactly when every heading goes at most one level deeper
      than the one before it; going back up, or staying, is always allowed, and
      the first heading may have any level. */
  lemma {:induction false} NoSkippedLevelsIff(levels: seq<HeadingLevel>)
    ensures SkippedLevels(levels) == 0 <==>
              forall i :: !SkipsAt(levels, i)
    decreases |levels|
  {
    if |levels| >= 2 {
      var prefix := levels[..|levels| - 1];
      NoSkippedLevelsIff(prefix);
      var n := |levels|;
      forall i
        ensures SkipsAt(levels, i) <==>
                  SkipsAt(prefix, i) || (i == n - 1 && Skips(levels[n - 2], levels[n - 1]))
      {
      }
      if forall i :: !SkipsAt(levels, i) {
        assert !SkipsAt(levels, n - 1);
        assert forall i :: !SkipsAt(prefix, i);
      }
    }
  }

  // ---------------------------------------------------------------------------
  // Images and form inputs
  // ---------------------------------------------------------------------------

  datatype Image = Image(hasAlt: bool)

  /** The filter's length counts the images without `alt`. */
  lemma MissingAltCount(images: seq<Image>)
    ensures |JsBuiltins.Filter(images, (img: Image) => !img.hasAlt)|
            == |set i | 0 <= i < |images| && !images[i].hasAlt|
  {
    var missing := (img: Image) => !img.hasAlt;
    JsBuiltins.FilterLength(images, missing);
    assert JsBuiltins.Matching(images, missing) == set i | 0 <= i < |images| && !images[i].hasAlt;
  }

  /** Images with no `alt` attribute at all. */
  function ImagesWithoutAlt(images: seq<Image>): (n: nat)
    ensures n == |set i | 0 <= i < |images| && !images[i].hasAlt|
    ensures n <= |images|
    ensures n == 0 <==> forall img :: img in images ==> img.hasAlt
  {
    MissingAltCount(images);
    |JsBuiltins.Filter(images, (img: Image) => !img.hasAlt)|
  }

  /** An `<input>`: whether its `type` attribute is `hidden`, its `id` ("" when it
      has none) and whether it carries `aria-label` / `aria-labelledby`. */
  datatype Input = Input(typeIsHidden: bool, id: string, hasAriaLabel: bool, hasAriaLabelledBy: bool)

  /** A `label[for="<id>"]` exists for an input that has an id. */
  predicate HasLabel(input: Input, labelFors: seq<string>) {
    input.id != "" && input.id in labelFors
  }

  predicate HasAccessibleName(input: Input, labelFors: seq<string>) {
    HasLabel(input, labelFors) || input.hasAriaLabel || input.hasAriaLabelledBy
  }

  /** The length of the two filters counts the visible inputs without a name. */
  lemma UnlabelledCount(inputs: seq<Input>, labelFors: seq<string>)
    ensures |JsBuiltins.Filter(JsBuiltins.Filter(inputs, (x: Input) => !x.typeIsHidden),
                               (x: Input) => !HasAccessibleName(x, labelFors))|
            == |set i | 0 <= i < |inputs| && !inputs[i].typeIsHidden
                                          && !HasAccessibleName(inputs[i], labelFors)|
  {
    var isVisible := (x: Input) => !x.typeIsHidden;
    var isUnnamed := (x: Input) => !HasAccessibleName(x, labelFors);
    var unnamedVisible := (x: Input) => !x.typeIsHidden && !HasAccessibleName(x, labelFors);
    JsBuiltins.FilterTwice(inputs, isVisible, isUnnamed, unnamedVisible);
    JsBuiltins.FilterLength(inputs, unnamedVisible);
    assert JsBuiltins.Matching(inputs, unnamedVisible)
        == set i | 0 <= i < |inputs| && !inputs[i].typeIsHidden
                                     && !HasAccessibleName(inputs[i], labelFors);
  }

  /** Non-hidden inputs with neither a label nor an ARIA name; `labelFors` lists the
      `for` attributes of the page's labels. */
  function InputsWithoutLabels(inputs: seq<Input>, labelFors: seq<string>): (n: nat)
    ensures n == |set i | 0 <= i < |inputs| && !inputs[i].typeIsHidden
                                          && !HasAccessibleName(inputs[i], labelFors)|
    ensures n <= |inputs|
    ensures n == 0 <==>
              forall x :: x in inputs && !x.typeIsHidden ==> HasAccessibleName(x, labelFors)
  {
    var visible := JsBuiltins.Filter(inputs, (x: Input) => !x.typeIsHidden);
    UnlabelledCount(inputs, labelFors);
    |JsBuiltins.Filter(visible, (x: Input) => !HasAccessibleName(x, labelFors))|
  }

  // ---------------------------------------------------------------------------
  // Links and buttons
  // ---------------------------------------------------------------------------

  /** A link or button: its `textContent` and its `aria-label` attribute. */
  datatype Element = Element(textContent: string, ariaLabel: Option<string>)

  /** `!text && !ariaLabel`: the trimmed text is empty and the label absent or empty. */
  predicate LacksText(e: Element) {
    JsBuiltins.Trim(e.textContent) == "" && (e.ariaLabel.None? || e.ariaLabel.value == "")
  }

  /** The text has a character that is not white space. */
  ghost predicate HasVisibleText(s: string) {
    exists i :: 0 <= i < |s| && !JsBuiltins.IsWhitespace(s[i])
  }

  /** An element lacks text exactly when its text is all white space and it has no
      non-empty `aria-label`. */
  lemma LacksTextIff(e: Element)
    ensures LacksText(e) <==>
              !HasVisibleText(e.textContent) && (e.ariaLabel.None? || e.ariaLabel.value == "")
  {
  }

  /** The filter's length counts the elements that lack text. */
  lemma MissingTextCount(elements: seq<Element>)
    ensures |JsBuiltins.Filter(elements, LacksText)|
            == |set i | 0 <= i < |elements| && LacksText(elements[i])|
  {
    JsBuiltins.FilterLength(elements, LacksText);
    assert JsBuiltins.Matching(elements, LacksText)
        == set i | 0 <= i < |elements| && LacksText(elements[i]);
  }

  /** The links (or the buttons) of a page that have no discernible text; the same
      test serves both checks. */
  function WithoutDiscernibleText(elements: seq<Element>): (n: nat)
    ensures n == |set i | 0 <= i < |elements| && LacksText(elements[i])|
    ensures n <= |elements|
    ensures n == 0 <==>
              forall e :: e in elements ==>
                HasVisibleText(e.textContent) || (e.ariaLabel.Some? && e.ariaLabel.value != "")
  {
    var missing := JsBuiltins.Filter(elements, LacksText);
    MissingTextCount(elements);
    forall e | e in elements
      ensures LacksText(e) <==>
                !HasVisibleText(e.textContent) && (e.ariaLabel.None? || e.ariaLabel.value == "")
    {
      LacksTextIff(e);
    }
    |missing|
  }
}
