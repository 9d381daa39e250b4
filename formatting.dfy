/** `TelegramNewsBot.format_response_to_markdown`: turning a saved record into
    the Markdown message sent to the chat. */
module Formatting {
  import opened Wrappers
  import opened Text
  import Records

  /** The message for a missing record or one without a response. */
  const NoDataMessage: string := "❌ 응답 데이터를 가져올 수 없습니다."
  /** Longest message sent untouched. */
  const MaxLength: nat := 4000
  /** How much of a longer message is kept before the omission note. */
  const KeptLength: nat := 3950
  /** The note that ends a shortened message. */
  const OmissionSuffix: string := "\n\n... (내용이 길어 일부 생략됨)"
  /** A category line is promoted to a heading only when shorter than this. */
  const HeadingLimit: nat := 50
  const NewsIcon: string := "📰"
  const NewsTitle: string := "오늘의 주요 뉴스"
  const GeneralIcon: string := "🤖"
  const GeneralTitle: string := "Gemini AI 응답"
  /** Exact lines that are page chrome rather than reply text. */
  const Boilerplate: seq<string> := ["오늘의 주요 뉴스 알려줘", "Gemini는", "새 창에서 열기"]

  /** The outcome of the formatter: a message, or the `KeyError` raised when
      the record lacks the `timestamp` or the `prompt` key. */
  datatype Formatted = Message(markdown: string) | MissingKey(key: string)

  /** A line naming a news category. */
  predicate HasCategory(line: string)
  {
    Contains(line, "정치") || Contains(line, "경제") || Contains(line, "사회") ||
    Contains(line, "국제") || Contains(line, "재난") || Contains(line, "안전")
  }

  /** A category line short enough, and with a colon, to become a heading. */
  predicate IsHeading(line: string)
  {
    HasCategory(line) && ':' in line && |line| < HeadingLimit
  }

  /** What one response line becomes, after stripping: nothing for a blank line
      or a boilerplate line without a category, a bold heading for a short
      category line with a colon, and the stripped line otherwise. */
  function FormatLine(line: string): (out: Option<string>)
  {
    var stripped := Strip(line);
    if stripped == [] then None
    else if HasCategory(stripped) then
      Some(if ':' in stripped && |stripped| < HeadingLimit then "\n**" + stripped + "**" else stripped)
    else if stripped in Boilerplate then None
    else Some(stripped)
  }

  /** The defined results of `f` on `lines`, in the order of the lines. */
  function FilterMap(lines: seq<string>, f: string -> Option<string>): (kept: seq<string>)
  {
    if lines == [] then []
    else
      var last := f(lines[|lines| - 1]);
      FilterMap(lines[..|lines| - 1], f) + (if last.Some? then [last.value] else [])
  }

  /** The formatted lines of a response, in the order of the input lines. */
  function FormatLines(lines: seq<string>): (formatted: seq<string>)
  {
    FilterMap(lines, FormatLine)
  }

  /** The header: icon and title by topic, the echoed prompt, the formatted time. */
  function Header(prompt: string, time: string): (header: string)
  {
    var isNews := Records.IsNewsPrompt(prompt);
    var icon := if isNews then NewsIcon else GeneralIcon;
    var title := if isNews then NewsTitle else GeneralTitle;
    icon + " **" + title + "**\n" + "❓ *질문: " + prompt + "*\n" + "🕐 " + time + "\n\n"
  }

  /** The length budget of the chat channel: a message within it is kept as
      it is; a longer one keeps its first 3950 characters and gets the
      omission note, so it never exceeds the budget. */
  function Truncate(s: string): (r: string)
    ensures |r| <= MaxLength
    ensures |s| <= MaxLength ==> r == s
    ensures |s| > MaxLength ==>
      |r| == KeptLength + |OmissionSuffix| && r[..KeptLength] == s[..KeptLength] && r[KeptLength..] == OmissionSuffix
  {
    if |s| > MaxLength then s[..KeptLength] + OmissionSuffix else s
  }

  /** The message for a record with the given prompt, response and formatted time. */
  function Markdown(prompt: string, response: string, time: string): (message: string)
  {
    Truncate(Header(prompt, time) + Join(FormatLines(Split(response, '\n')), '\n'))
  }

  /** The formatter on a record given as the dictionary it travels as, with
      `formatTime` standing for `fromisoformat(...).strftime('%Y-%m-%d %H:%M')`. */
  function Format(data: Option<map<string, string>>, formatTime: string -> string): (result: Formatted)
  {
    if data.None? || "response" !in data.value then Message(NoDataMessage)
    else if "timestamp" !in data.value then MissingKey("timestamp")
    else if "prompt" !in data.value then MissingKey("prompt")
    else Message(Markdown(data.value["prompt"], data.value["response"], formatTime(data.value["timestamp"])))
  }

  /** The method itself: the header built up piece by piece, then the response
      line by line, then the length cut. */
  method FormatResponseToMarkdown(data: Option<map<string, string>>, formatTime: string -> string)
    returns (result: Formatted)
    ensures result == Format(data, formatTime)
    ensures result.Message? ==> |result.markdown| <= MaxLength
  {
    if data.None? || "response" !in data.value {
      return Message(NoDataMessage);
    }
    var record := data.value;
    var response := record["response"];
    if "timestamp" !in record {
      return MissingKey("timestamp");
    }
    var timestamp := record["timestamp"];
    if "prompt" !in record {
      return MissingKey("prompt");
    }
    var prompt := record["prompt"];

    var isNews := Records.IsNewsPrompt(prompt);
    var icon := if isNews then NewsIcon else GeneralIcon;
    var title := if isNews then NewsTitle else GeneralTitle;
    var markdown := icon + " **" + title + "**\n";
    markdown := markdown + "❓ *질문: " + prompt + "*\n";
    markdown := markdown + "🕐 " + formatTime(timestamp) + "\n\n";
    assert markdown == Header(prompt, formatTime(timestamp));

    var lines := Split(response, '\n');
    var formattedLines: seq<string> := [];
    for i := 0 to |lines|
      invariant formattedLines == FormatLines(lines[..i])
    {
      FormatLinesStep(lines, i);
      var line := Strip(lines[i]);
      if line == [] {
        continue;
      }
      if HasCategory(line) {
        if ':' in line && |line| < HeadingLimit {
          formattedLines := formattedLines + ["\n**" + line + "**"];
        } else {
          formattedLines := formattedLines + [line];
        }
      } else if line in Boilerplate {
        continue;
      } else {
        formattedLines := formattedLines + [line];
      }
    }
    assert lines[..|lines|] == lines;

    markdown := markdown + Join(formattedLines, '\n');
    if |markdown| > MaxLength {
      markdown := markdown[..KeptLength] + OmissionSuffix;
    }
    return Message(markdown);
  }

  /** The dictionary `save_to_json` hands to the bot. */
  function ToDict(r: Records.Record): (dict: map<string, string>)
  {
    map["timestamp" := r.timestamp, "prompt" := r.prompt, "response" := r.response, "source" := r.source]
  }

  /** A record produced by the pipeline always formats: it reaches the
      Markdown path with its own prompt, response and time. */
  lemma RecordFormats(r: Records.Record, formatTime: string -> string)
    ensures Format(Some(ToDict(r)), formatTime) == Message(Markdown(r.prompt, r.response, formatTime(r.timestamp)))
  {
    var d := ToDict(r);
    assert "response" in d && "timestamp" in d && "prompt" in d;
    assert d["prompt"] == r.prompt && d["response"] == r.response && d["timestamp"] == r.timestamp;
  }

  /** No record, or one without a response, gives the fixed error message;
      with a response but no time stamp or no prompt, the lookup raises. */
  lemma MissingDataCases(data: Option<map<string, string>>, formatTime: string -> string)
    ensures data.None? ==> Format(data, formatTime) == Message(NoDataMessage)
    ensures data.Some? && "response" !in data.value ==> Format(data, formatTime) == Message(NoDataMessage)
    ensures data.Some? && "response" in data.value && "timestamp" !in data.value ==>
      Format(data, formatTime) == MissingKey("timestamp")
    ensures Format(data, formatTime).MissingKey? ==> data.Some? && "response" in data.value
  {
  }

  /** The icon and title follow the topic, in both directions: the news pair
      exactly when the prompt contains the news keyword, the general pair
      exactly when it does not. */
  lemma HeaderFollowsTopic(prompt: string, time: string)
    ensures NewsIcon + " **" + NewsTitle + "**\n" <= Header(prompt, time) <==> Records.IsNewsPrompt(prompt)
    ensures GeneralIcon + " **" + GeneralTitle + "**\n" <= Header(prompt, time) <==> !Records.IsNewsPrompt(prompt)
  {
    var h := Header(prompt, time);
    assert h[0] == if Records.IsNewsPrompt(prompt) then NewsIcon[0] else GeneralIcon[0];
    assert (NewsIcon + " **" + NewsTitle + "**\n")[0] == NewsIcon[0];
    assert (GeneralIcon + " **" + GeneralTitle + "**\n")[0] == GeneralIcon[0];
  }

  /** A header that fits in the kept part survives the length cut. */
  lemma HeaderSurvivesTruncation(prompt: string, response: string, time: string)
    requires |Header(prompt, time)| <= KeptLength
    ensures Header(prompt, time) <= Markdown(prompt, response, time)
  {
  }

  /** One more line adds its formatted form, if any, at the end. */
  lemma FormatLinesStep(lines: seq<string>, i: nat)
    requires i < |lines|
    ensures FormatLines(lines[..i + 1]) ==
      FormatLines(lines[..i]) + (if FormatLine(lines[i]).Some? then [FormatLine(lines[i]).value] else [])
  {
    assert lines[..i + 1][..i] == lines[..i];
  }

  /** Filtering works element by element: two concatenated parts give the
      concatenation of their results. */
  lemma {:induction false} FilterMapAppend(a: seq<string>, b: seq<string>, f: string -> Option<string>)
    ensures FilterMap(a + b, f) == FilterMap(a, f) + FilterMap(b, f)
  {
    if b == [] {
      assert a + b == a;
    } else {
      FilterMapAppend(a, b[..|b| - 1], f);
      assert (a + b)[..|a + b| - 1] == a + b[..|b| - 1];
      assert (a + b)[|a + b| - 1] == b[|b| - 1];
    }
  }

  /** Formatting works line by line: the lines of two concatenated parts
      format to the concatenation of their formatted lines. */
  lemma FormatLinesAppend(a: seq<string>, b: seq<string>)
    ensures FormatLines(a + b) == FormatLines(a) + FormatLines(b)
  {
    FilterMapAppend(a, b, FormatLine);
  }

  /** At most one output line per input line. */
  lemma {:induction false} FilterMapShorter(lines: seq<string>, f: string -> Option<string>)
    ensures |FilterMap(lines, f)| <= |lines|
  {
    if lines != [] {
      FilterMapShorter(lines[..|lines| - 1], f);
    }
  }

  /** Blank lines and boilerplate lines without a category are exactly the
      ones dropped. */
  lemma DroppedLines(line: string)
    ensures FormatLine(line).None? <==>
      Strip(line) == [] || (!HasCategory(Strip(line)) && Strip(line) in Boilerplate)
  {
  }

  /** A kept line is either a bold heading made of a short category line with
      a colon, or the stripped line itself; a heading is recognisable by its
      leading newline, which no stripped line has. */
  lemma KeptLineShape(line: string)
    requires FormatLine(line).Some?
    ensures var out := FormatLine(line).value;
      out != [] &&
      (out[0] == '\n' <==> IsHeading(Strip(line))) &&
      (IsHeading(Strip(line)) ==> out == "\n**" + Strip(line) + "**") &&
      (!IsHeading(Strip(line)) ==> out == Strip(line))
  {
    if IsHeading(Strip(line)) {
      HeadingShape(line);
      BoldStartsWithNewline(Strip(line));
    } else {
      PlainShape(line);
    }
  }

  /** A heading line becomes the bold form. */
  lemma HeadingShape(line: string)
    requires IsHeading(Strip(line))
    ensures FormatLine(line) == Some("\n**" + Strip(line) + "**")
  {
    assert Strip(line) != [];
  }

  /** The bold form starts with a newline. */
  lemma BoldStartsWithNewline(stripped: string)
    ensures ("\n**" + stripped + "**")[0] == '\n'
  {
  }

  /** A kept line that is not a heading is the stripped line, which starts
      with no newline. */
  lemma PlainShape(line: string)
    requires FormatLine(line).Some? && !IsHeading(Strip(line))
    ensures FormatLine(line) == Some(Strip(line))
    ensures Strip(line)[0] != '\n'
  {
    assert IsSpace('\n');
  }

  /** A body made only of blank lines and boilerplate lines formats to nothing. */
  lemma {:induction false} OnlyBoilerplate(lines: seq<string>)
    requires forall k :: 0 <= k < |lines| ==> Strip(lines[k]) == [] || Strip(lines[k]) in Boilerplate
    ensures FilterMap(lines, FormatLine) == []
  {
    if lines != [] {
      OnlyBoilerplate(lines[..|lines| - 1]);
      var s := Strip(lines[|lines| - 1]);
      if s != [] {
        assert s in Boilerplate;
        assert !HasCategory(s) by {
          if HasCategory(s) {
            CategoryNotInBoilerplate(s);
          }
        }
      }
    }
  }

  /** Every category keyword starts with one of these characters. */
  const CategoryInitials: string := "정경사국재안"

  /** A line naming a category holds one of the category initials. */
  lemma CategoryInitial(line: string)
    requires HasCategory(line)
    ensures exists i :: 0 <= i < |line| && line[i] in CategoryInitials
  {
    var w :=
      if Contains(line, "정치") then "정치" else if Contains(line, "경제") then "경제"
      else if Contains(line, "사회") then "사회" else if Contains(line, "국제") then "국제"
      else if Contains(line, "재난") then "재난" else "안전";
    ContainsChar(line, w, 0);
  }

  /** None of the boilerplate lines names a category. */
  lemma CategoryNotInBoilerplate(s: string)
    requires s in Boilerplate
    ensures !HasCategory(s)
  {
    assert forall i :: 0 <= i < |s| ==> s[i] !in CategoryInitials;
    if HasCategory(s) {
      CategoryInitial(s);
    }
  }
}
