/** `GeminiNewsScraper.save_to_json` (the record and its file name) and
    `GeminiNewsScraper.run`, the pipeline that ends in a record or in nothing. */
module Records {
  import opened Wrappers
  import opened Text
  import Locator
  import Extraction

  /** The word that makes a prompt a news request. */
  const NewsKeyword: string := "뉴스"
  /** The prompt `run` and `save_to_json` use when given none, and the one `/news` sends. */
  const DefaultPrompt: string := "오늘의 주요 뉴스 알려줘"
  /** The constant `source` field of every record. */
  const SourceLabel: string := "Gemini AI"
  const NewsPrefix: string := "gemini_news"
  const ResponsePrefix: string := "gemini_response"

  /** One exchange as written to its JSON file. */
  datatype Record = Record(timestamp: string, prompt: string, response: string, source: string)

  /** What `save_to_json` returns: the file name and the record. */
  datatype Saved = Saved(filename: string, record: Record)

  /** Topic classification: a prompt is a news request when it contains the news keyword. */
  predicate IsNewsPrompt(prompt: string)
  {
    Contains(prompt, NewsKeyword)
  }

  /** The file name prefix chosen by topic. */
  function FilePrefix(prompt: string): (prefix: string)
  {
    if IsNewsPrompt(prompt) then NewsPrefix else ResponsePrefix
  }

  /** `save_to_json` without the file write: the record keeps the prompt and the
      response as given and is labelled with the constant source; the file name
      is the caller's, or else the topic prefix, `_`, the compact time stamp and
      `.json`. `compactTime` stands for `strftime("%Y%m%d_%H%M%S")` and
      `isoTime` for `isoformat()` of the clock at the two calls. */
  function SaveToJson(responseText: string, prompt: string, filename: Option<string>,
                      compactTime: string, isoTime: string): (saved: Saved)
    ensures saved.record.prompt == prompt && saved.record.response == responseText
    ensures saved.record.source == SourceLabel && saved.record.timestamp == isoTime
    ensures filename.Some? ==> saved.filename == filename.value
    ensures filename.None? ==> |saved.filename| > 5 && saved.filename[|saved.filename| - 5..] == ".json"
  {
    var name := if filename.Some? then filename.value else FilePrefix(prompt) + "_" + compactTime + ".json";
    Saved(name, Record(isoTime, prompt, responseText, SourceLabel))
  }

  /** A generated file name tells the topic apart, in both directions: it
      starts with `gemini_news_` exactly when the prompt contains the news
      keyword, and with `gemini_response_` otherwise; the time stamp follows. */
  lemma FileNameShowsTopic(responseText: string, prompt: string, compactTime: string, isoTime: string)
    ensures var name := SaveToJson(responseText, prompt, None, compactTime, isoTime).filename;
      (NewsPrefix + "_" <= name <==> IsNewsPrompt(prompt)) &&
      (ResponsePrefix + "_" <= name <==> !IsNewsPrompt(prompt)) &&
      name[|FilePrefix(prompt)| + 1..|name| - 5] == compactTime
  {
    var name := SaveToJson(responseText, prompt, None, compactTime, isoTime).filename;
    assert name == FilePrefix(prompt) + "_" + compactTime + ".json";
    if IsNewsPrompt(prompt) {
      assert name[..|ResponsePrefix + "_"|][7] != (ResponsePrefix + "_")[7];
    } else {
      assert name[..|NewsPrefix + "_"|][7] != (NewsPrefix + "_")[7];
    }
  }

  /** The two example prompts: the default one is classified as news, a
      general question is not. */
  lemma ClassifiesExamplePrompts()
    ensures FilePrefix(DefaultPrompt) == NewsPrefix
    ensures FilePrefix("AI에 대해 설명해줘") == ResponsePrefix
  {
    assert DefaultPrompt[7..9] == NewsKeyword;
    ContainsAt(DefaultPrompt, NewsKeyword, 7);
    var general := "AI에 대해 설명해줘";
    assert NewsKeyword[0] == '뉴' && '뉴' !in general;
    NotContainsInitial(general, NewsKeyword);
  }

  /** `run` after the browser is up: find the input control, and with none
      give up; otherwise, after the prompt is typed, sent and waited for,
      extract the reply from `body` (the page text, or `None` if reading it
      raised) and save it unless it is empty. */
  method Run(page: Locator.Page, body: Option<string>, prompt: string,
             compactTime: string, isoTime: string) returns (result: Option<Saved>)
    ensures result.None? <==>
      Locator.FirstMatch(Locator.TextareaSelectors, page).None? || body == Some([])
    ensures result.Some? ==>
      result.value == SaveToJson(Extraction.ResponseText(body), prompt, None, compactTime, isoTime)
  {
    var textarea := Locator.FindTextarea(page);
    if textarea.None? {
      return None;
    }
    var responseText := Extraction.GetResponseText(body);
    Extraction.ResponseTextEmpty(body);
    if responseText != [] {
      result := Some(SaveToJson(responseText, prompt, None, compactTime, isoTime));
    } else {
      result := None;
    }
  }
}
