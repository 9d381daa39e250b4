/** `GeminiNewsScraper.find_textarea`: the first usable input control, searched
    selector by selector over a fixed fallback list. */
module Locator {
  import opened Wrappers

  /** A page element as the locator sees it: an identity and the two flags it tests. */
  datatype Element = Element(handle: nat, displayed: bool, enabled: bool)

  /** What `find_elements` returned for each CSS selector on the current page;
      a selector missing from the map is one whose lookup raised. */
  type Page = map<string, seq<Element>>

  /** The input-control selectors, in the order they are tried. */
  const TextareaSelectors: seq<string> := [
    "textarea",
    "[contenteditable='true']",
    "input[type='text']",
    "[data-testid*='input']",
    "[placeholder*='message']",
    "[placeholder*='질문']",
    ".input-area textarea",
    "#prompt-textarea"
  ]

  /** An element the locator accepts: shown and enabled. */
  predicate Qualifies(e: Element)
  {
    e.displayed && e.enabled
  }

  /** The elements a selector yields; a lookup that raised yields none. */
  function Matches(page: Page, selector: string): (elements: seq<Element>)
  {
    if selector in page then page[selector] else []
  }

  /** Element `j` of selector `i`'s matches exists and qualifies. */
  predicate QualifyingAt(selectors: seq<string>, page: Page, i: int, j: int)
  {
    0 <= i < |selectors| && 0 <= j < |Matches(page, selectors[i])| &&
    Qualifies(Matches(page, selectors[i])[j])
  }

  /** The first qualifying element of a list. */
  function FirstIn(elements: seq<Element>): (first: Option<Element>)
  {
    if elements == [] then None
    else if Qualifies(elements[0]) then Some(elements[0])
    else FirstIn(elements[1..])
  }

  /** The first qualifying element, selector by selector and, within a selector,
      in the order the page lists them. */
  function FirstMatch(selectors: seq<string>, page: Page): (first: Option<Element>)
  {
    if selectors == [] then None
    else
      match FirstIn(Matches(page, selectors[0]))
      case Some(e) => Some(e)
      case None => FirstMatch(selectors[1..], page)
  }

  /** `FirstIn` finds a qualifying element exactly when the list has one, and
      it is the earliest. */
  lemma {:induction false} FirstInSpec(elements: seq<Element>)
    ensures FirstIn(elements).None? <==> forall j :: 0 <= j < |elements| ==> !Qualifies(elements[j])
    ensures FirstIn(elements).Some? ==>
      exists j :: (0 <= j < |elements| && elements[j] == FirstIn(elements).value &&
        Qualifies(elements[j]) && forall j' :: 0 <= j' < j ==> !Qualifies(elements[j']))
  {
    if elements != [] && !Qualifies(elements[0]) {
      FirstInSpec(elements[1..]);
      assert forall j :: 0 < j < |elements| ==> elements[j] == elements[1..][j - 1];
      if FirstIn(elements).Some? {
        var j :| 0 <= j < |elements[1..]| && elements[1..][j] == FirstIn(elements).value &&
          Qualifies(elements[1..][j]) && forall j' :: 0 <= j' < j ==> !Qualifies(elements[1..][j']);
        assert elements[j + 1] == elements[1..][j];
      }
    }
  }

  /** Nothing is found exactly when no selector yields a shown and enabled element. */
  lemma {:induction false} FirstMatchNone(selectors: seq<string>, page: Page)
    ensures FirstMatch(selectors, page).None? <==>
      forall i, j :: !QualifyingAt(selectors, page, i, j)
  {
    if selectors != [] {
      FirstInSpec(Matches(page, selectors[0]));
      FirstMatchNone(selectors[1..], page);
      if FirstIn(Matches(page, selectors[0])).None? {
        forall i, j | QualifyingAt(selectors, page, i, j)
          ensures QualifyingAt(selectors[1..], page, i - 1, j)
        {
          assert i != 0;
        }
        forall i, j | QualifyingAt(selectors[1..], page, i, j)
          ensures QualifyingAt(selectors, page, i + 1, j)
        {
        }
      } else {
        var j :| 0 <= j < |Matches(page, selectors[0])| && Qualifies(Matches(page, selectors[0])[j]);
        assert QualifyingAt(selectors, page, 0, j);
      }
    }
  }

  /** What is found is a qualifying element, and no qualifying element comes
      before it: not under an earlier selector, nor earlier under its own. */
  lemma {:induction false} FirstMatchIsFirst(selectors: seq<string>, page: Page)
    requires FirstMatch(selectors, page).Some?
    ensures exists i, j :: (QualifyingAt(selectors, page, i, j) &&
      Matches(page, selectors[i])[j] == FirstMatch(selectors, page).value &&
      forall i', j' :: QualifyingAt(selectors, page, i', j') ==> i < i' || (i == i' && j <= j'))
  {
    var first := Matches(page, selectors[0]);
    FirstInSpec(first);
    if FirstIn(first).Some? {
      var j :| 0 <= j < |first| && first[j] == FirstIn(first).value && Qualifies(first[j]) &&
        forall j' :: 0 <= j' < j ==> !Qualifies(first[j']);
      assert QualifyingAt(selectors, page, 0, j);
    } else {
      FirstMatchIsFirst(selectors[1..], page);
      var i, j :| QualifyingAt(selectors[1..], page, i, j) &&
        Matches(page, selectors[1..][i])[j] == FirstMatch(selectors[1..], page).value &&
        (forall i', j' :: QualifyingAt(selectors[1..], page, i', j') ==> i < i' || (i == i' && j <= j'));
      assert QualifyingAt(selectors, page, i + 1, j);
      forall i', j' | QualifyingAt(selectors, page, i', j') ensures i + 1 < i' || (i + 1 == i' && j <= j') {
        assert i' != 0;
        assert QualifyingAt(selectors[1..], page, i' - 1, j');
      }
    }
  }

  /** The method itself: the nested loop over selectors and their elements
      that returns the first shown and enabled element, or `None`. */
  method FindTextarea(page: Page) returns (found: Option<Element>)
    ensures found == FirstMatch(TextareaSelectors, page)
    ensures found.Some? ==> Qualifies(found.value)
    ensures found.None? <==> forall i, j :: !QualifyingAt(TextareaSelectors, page, i, j)
  {
    var selectors := TextareaSelectors;
    for i := 0 to |selectors|
      invariant FirstMatch(selectors, page) == FirstMatch(selectors[i..], page)
    {
      assert selectors[i..][1..] == selectors[i + 1..];
      if selectors[i] in page {
        var elements := page[selectors[i]];
        for j := 0 to |elements|
          invariant FirstIn(elements) == FirstIn(elements[j..])
        {
          assert elements[j..][1..] == elements[j + 1..];
          if Qualifies(elements[j]) {
            assert QualifyingAt(selectors, page, i, j);
            return Some(elements[j]);
          }
        }
        assert elements[|elements|..] == [];
      }
    }
    assert selectors[|selectors|..] == [];
    found := None;
    FirstMatchNone(TextareaSelectors, page);
  }
}
