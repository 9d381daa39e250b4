/** `GeminiNewsScraper.get_response_text`: picking the reply out of the text of
    the whole rendered page. */
module Extraction {
  import opened Wrappers
  import opened Text

  /** What is returned when reading the page body raised. */
  const ExtractionFailed: string := "응답 추출 실패"

  /** A line that switches collection on: it contains one of the four keywords. */
  predicate IsTrigger(line: string)
  {
    Contains(line, "뉴스") || Contains(line, "News") || Contains(line, "오늘") || Contains(line, "주요")
  }

  /** A trigger line is never blank: each keyword starts with a non-whitespace character. */
  lemma TriggerNotBlank(line: string)
    requires IsTrigger(line)
    ensures Strip(line) != []
  {
    var keyword :=
      if Contains(line, "뉴스") then "뉴스"
      else if Contains(line, "News") then "News"
      else if Contains(line, "오늘") then "오늘"
      else "주요";
    ContainsChar(line, keyword, 0);
    var i :| 0 <= i < |line| && line[i] == keyword[0];
    NotBlankAt(line, i);
  }

  /** The loop's state after some lines: the `collecting` flag and the lines kept so far. */
  datatype ScanState = ScanState(collecting: bool, kept: seq<string>)

  /** One turn of the loop: a trigger line sets the flag, and while it is set
      every non-blank line is kept stripped. */
  function Step(st: ScanState, line: string): (next: ScanState)
  {
    var collecting := st.collecting || IsTrigger(line);
    ScanState(collecting, if collecting && Strip(line) != [] then st.kept + [Strip(line)] else st.kept)
  }

  /** The loop's state after all of `lines`, from a cleared flag and no kept lines. */
  function Scan(lines: seq<string>): (st: ScanState)
  {
    if lines == [] then ScanState(false, [])
    else Step(Scan(lines[..|lines| - 1]), lines[|lines| - 1])
  }

  /** The index of the first trigger line, or `|lines|` when there is none. */
  function FirstTrigger(lines: seq<string>): (k: nat)
    ensures k <= |lines|
    ensures forall j :: 0 <= j < k ==> !IsTrigger(lines[j])
    ensures k < |lines| ==> IsTrigger(lines[k])
  {
    if lines == [] then 0
    else if IsTrigger(lines[0]) then 0
    else 1 + FirstTrigger(lines[1..])
  }

  /** Appending a line moves the first trigger only when there was none before. */
  lemma {:induction false} FirstTriggerAppend(init: seq<string>, last: string)
    ensures FirstTrigger(init + [last]) ==
      if FirstTrigger(init) < |init| then FirstTrigger(init)
      else if IsTrigger(last) then |init| else |init| + 1
  {
    if init == [] {
      assert init + [last] == [last];
    } else {
      assert (init + [last])[0] == init[0];
      assert (init + [last])[1..] == init[1..] + [last];
      FirstTriggerAppend(init[1..], last);
    }
  }

  /** A line as it is kept: not empty, and left as it is by stripping. */
  predicate Clean(line: string)
  {
    line != [] && Strip(line) == line
  }

  /** A line that is not blank strips to a clean line. */
  lemma StripClean(line: string)
    ensures Strip(line) != [] ==> Clean(Strip(line))
  {
    StripIdempotent(line);
  }

  /** The non-blank lines of `lines`, stripped, in their original order. */
  function NonBlankStripped(lines: seq<string>): (r: seq<string>)
    ensures |r| <= |lines|
    ensures forall k :: 0 <= k < |r| ==> Clean(r[k])
  {
    if lines == [] then []
    else
      var line := lines[|lines| - 1];
      StripClean(line);
      NonBlankStripped(lines[..|lines| - 1]) + (if Strip(line) != [] then [Strip(line)] else [])
  }

  /** A kept line holds no character that its source lines lack. */
  lemma {:induction false} NonBlankStrippedFree(lines: seq<string>, c: char)
    requires forall k :: 0 <= k < |lines| ==> c !in lines[k]
    ensures forall k :: 0 <= k < |NonBlankStripped(lines)| ==> c !in NonBlankStripped(lines)[k]
  {
    if lines != [] {
      NonBlankStrippedFree(lines[..|lines| - 1], c);
    }
  }

  /** One non-blank line is enough for something to be kept. */
  lemma {:induction false} NonBlankStrippedNonEmpty(lines: seq<string>, k: int)
    requires 0 <= k < |lines| && Strip(lines[k]) != []
    ensures NonBlankStripped(lines) != []
  {
    if k < |lines| - 1 {
      NonBlankStrippedNonEmpty(lines[..|lines| - 1], k);
    }
  }

  /** The loop's state, described without the loop: the flag is set exactly
      when some line triggers, and the kept lines are the stripped non-blank
      lines from the first trigger line to the end. */
  lemma {:induction false} ScanCollects(lines: seq<string>)
    ensures Scan(lines).collecting <==> FirstTrigger(lines) < |lines|
    ensures Scan(lines).kept == NonBlankStripped(lines[FirstTrigger(lines)..])
  {
    if lines != [] {
      var init, last := lines[..|lines| - 1], lines[|lines| - 1];
      assert lines == init + [last];
      ScanCollects(init);
      if FirstTrigger(init) < |init| {
        CollectsAfterTrigger(init, last);
      } else if IsTrigger(last) {
        CollectsFromTrigger(init, last);
      } else {
        NotYetCollecting(init, last);
      }
    } else {
      assert lines[FirstTrigger(lines)..] == [];
    }
  }

  /** The statement of `ScanCollects` for one list of lines. */
  predicate ScanMatches(lines: seq<string>)
  {
    (Scan(lines).collecting <==> FirstTrigger(lines) < |lines|) &&
    Scan(lines).kept == NonBlankStripped(lines[FirstTrigger(lines)..])
  }

  /** One more line is one more step of the loop. */
  lemma ScanSnoc(init: seq<string>, last: string)
    ensures Scan(init + [last]) == Step(Scan(init), last)
  {
    assert (init + [last])[..|init|] == init;
  }

  /** One more line adds its stripped form at the end, unless it is blank. */
  lemma NonBlankStrippedSnoc(init: seq<string>, last: string)
    ensures NonBlankStripped(init + [last]) ==
      NonBlankStripped(init) + (if Strip(last) != [] then [Strip(last)] else [])
  {
    assert (init + [last])[..|init|] == init;
  }

  /** A suffix of a sequence with one more element is the old suffix with that element. */
  lemma SliceSnoc<T>(s: seq<T>, x: T, k: nat)
    requires k <= |s|
    ensures (s + [x])[k..] == s[k..] + [x]
  {
  }

  /** A line after the first trigger line is collected when it is not blank. */
  lemma CollectsAfterTrigger(init: seq<string>, last: string)
    requires FirstTrigger(init) < |init| && ScanMatches(init)
    ensures ScanMatches(init + [last])
  {
    var k := FirstTrigger(init);
    FirstTriggerAppend(init, last);
    ScanSnoc(init, last);
    SliceSnoc(init, last, k);
    NonBlankStrippedSnoc(init[k..], last);
  }

  /** The first trigger line switches collection on and is itself collected. */
  lemma CollectsFromTrigger(init: seq<string>, last: string)
    requires FirstTrigger(init) == |init| && IsTrigger(last) && ScanMatches(init)
    ensures ScanMatches(init + [last])
  {
    FirstTriggerAppend(init, last);
    ScanSnoc(init, last);
    assert init[|init|..] == [];
    assert (init + [last])[|init|..] == [] + [last];
    NonBlankStrippedSnoc([], last);
    TriggerNotBlank(last);
  }

  /** Before any trigger line, nothing is collected. */
  lemma NotYetCollecting(init: seq<string>, last: string)
    requires FirstTrigger(init) == |init| && !IsTrigger(last) && ScanMatches(init)
    ensures ScanMatches(init + [last])
  {
    FirstTriggerAppend(init, last);
    ScanSnoc(init, last);
    assert init[|init|..] == [];
    assert (init + [last])[|init| + 1..] == [];
  }

  /** Once collection is on, it stays on for the rest of the lines. */
  lemma CollectingNeverResets(lines: seq<string>, i: nat, j: nat)
    requires i <= j <= |lines|
    requires Scan(lines[..i]).collecting
    ensures Scan(lines[..j]).collecting
  {
    ScanCollects(lines[..i]);
    ScanCollects(lines[..j]);
    var k := FirstTrigger(lines[..i]);
    assert lines[..i][k] == lines[..j][k];
  }

  /** The text `get_response_text` returns, given the page body's text, or
      `None` when reading the body raised. */
  function ResponseText(body: Option<string>): (r: string)
  {
    match body
    case None => ExtractionFailed
    case Some(text) =>
      var kept := Scan(Split(text, '\n')).kept;
      if kept != [] then Join(kept, '\n') else text
  }

  /** The method itself: a single pass over the lines with a one-way flag. */
  method GetResponseText(body: Option<string>) returns (text: string)
    ensures text == ResponseText(body)
  {
    if body.None? {
      return ExtractionFailed;
    }
    var bodyText := body.value;
    var lines := Split(bodyText, '\n');
    var responseLines: seq<string> := [];
    var collecting := false;
    for i := 0 to |lines|
      invariant ScanState(collecting, responseLines) == Scan(lines[..i])
    {
      if IsTrigger(lines[i]) {
        collecting := true;
      }
      if collecting && Strip(lines[i]) != [] {
        responseLines := responseLines + [Strip(lines[i])];
      }
      assert lines[..i + 1][..i] == lines[..i];
    }
    assert lines[..|lines|] == lines;
    if responseLines != [] {
      text := Join(responseLines, '\n');
    } else {
      text := bodyText;
    }
  }

  /** When some line of the body triggers, the result is the stripped non-blank
      lines from the first trigger line on, in order, joined by newlines; that
      list is never empty, and splitting the result gives it back. */
  lemma ExtractsFromFirstTrigger(text: string)
    requires FirstTrigger(Split(text, '\n')) < |Split(text, '\n')|
    ensures var lines := Split(text, '\n');
      var kept := NonBlankStripped(lines[FirstTrigger(lines)..]);
      kept != [] &&
      ResponseText(Some(text)) == Join(kept, '\n') &&
      Split(ResponseText(Some(text)), '\n') == kept
  {
    var lines := Split(text, '\n');
    var k := FirstTrigger(lines);
    var kept := NonBlankStripped(lines[k..]);
    assert Scan(lines).kept == kept by {
      ScanCollects(lines);
    }
    assert kept != [] by {
      TriggerNotBlank(lines[k]);
      assert lines[k..][0] == lines[k];
      NonBlankStrippedNonEmpty(lines[k..], 0);
    }
    assert ResponseText(Some(text)) == Join(kept, '\n');
    assert Split(Join(kept, '\n'), '\n') == kept by {
      NonBlankStrippedFree(lines[k..], '\n');
      SplitJoin(kept, '\n');
    }
  }

  /** When no line of the body triggers, the body text comes back verbatim. */
  lemma NoTriggerVerbatim(text: string)
    requires forall k :: 0 <= k < |Split(text, '\n')| ==> !IsTrigger(Split(text, '\n')[k])
    ensures ResponseText(Some(text)) == text
  {
    var lines := Split(text, '\n');
    ScanCollects(lines);
    assert lines[|lines|..] == [];
  }

  /** Something is collected exactly when some line of the body triggers. */
  lemma CollectedIffTriggered(text: string)
    ensures Scan(Split(text, '\n')).kept != [] <==>
      exists k :: 0 <= k < |Split(text, '\n')| && IsTrigger(Split(text, '\n')[k])
  {
    var lines := Split(text, '\n');
    ScanCollects(lines);
    var k := FirstTrigger(lines);
    if k < |lines| {
      TriggerNotBlank(lines[k]);
      assert lines[k..][0] == lines[k];
      NonBlankStrippedNonEmpty(lines[k..], 0);
    } else {
      assert lines[k..] == [];
    }
  }

  /** Every collected line is non-empty, carries no surrounding whitespace and
      holds no newline. */
  lemma CollectedLinesClean(text: string)
    ensures forall x :: x in Scan(Split(text, '\n')).kept ==> Clean(x) && '\n' !in x
  {
    var lines := Split(text, '\n');
    ScanCollects(lines);
    var kept := NonBlankStripped(lines[FirstTrigger(lines)..]);
    NonBlankStrippedFree(lines[FirstTrigger(lines)..], '\n');
    assert forall x :: x in kept ==> exists k :: 0 <= k < |kept| && kept[k] == x;
  }

  /** The result is empty exactly when the page body was read and was empty. */
  lemma ResponseTextEmpty(body: Option<string>)
    ensures ResponseText(body) == [] <==> body == Some([])
  {
    if body.Some? {
      var kept := Scan(Split(body.value, '\n')).kept;
      CollectedLinesClean(body.value);
      if kept != [] {
        assert kept[0] in kept;
        JoinNonEmpty(kept, '\n');
      }
    }
  }
}
