# GemTeleBot text core in Dafny

GemTeleBot is a Telegram bot. It drives a headless browser to the Gemini
web chat, types a prompt, waits, reads the whole page's text and relays the
reply to the chat as Markdown. This project models the parts of
`gemini_telegrambot.py` that decide anything. The browser, Telegram and the
file system become parameters or are left out.

- **Reply extraction** (`GeminiNewsScraper.get_response_text`), module
  `Extraction`. The page text is split into lines. A one-way `collecting` flag
  turns on at the first line containing `뉴스`, `News`, `오늘` or `주요`. From that
  line on, every non-blank line is kept, stripped, and the kept lines are
  joined with newlines. If nothing was kept, the page text comes back
  unchanged. If reading the body raised, the result is the fixed text
  `응답 추출 실패`. The method `GetResponseText` is a loop proved equal to a
  state-machine function `Scan`. `ScanCollects` then ties that function to an
  independent definition: the stripped non-blank lines from the first
  trigger line to the end.
- **Input-control search** (`GeminiNewsScraper.find_textarea`), module
  `Locator`. The page is a map from each CSS selector to the elements
  `find_elements` returned. A selector whose lookup raised is absent from the
  map. The nested loop returns the first element that is displayed and
  enabled, taking the eight selectors in order and each selector's elements
  in order.
- **Records** (`save_to_json`, `run`), module `Records`. The file name prefix
  is `gemini_news` when the prompt contains `뉴스`, else `gemini_response`. The
  record stores the prompt and the response unchanged, with source
  `Gemini AI`. `Run` gives no record when no input control is found or when
  the extracted text is empty.
- **Markdown formatting** (`TelegramNewsBot.format_response_to_markdown`),
  module `Formatting`. The icon and title depend on the topic. The header
  echoes the prompt and the formatted time. Response lines are processed one
  at a time: blank lines are dropped, short category lines with a colon
  become bold headings, and exact boilerplate lines are dropped. A result
  over 4000 characters keeps its first 3950 characters plus a 21-character
  omission note.
- **Handler decisions**, module `Relay`. Free-text routing on the lowered
  message, the blank-prompt check of `/msg`, and the plain-text fallback
  that removes `**`, `*` and `_`.

The module `Text` models the Python string built-ins these use:
`str.strip` (with Python's whitespace set), `split`/`join` on one
character, `in` on strings, `lower` and `replace(pat, "")`. It proves the
split/join round trips. Lengths count code points, as Python's `len` does.

## Model

| member | source | states |
|---|---|---|
| Extraction.GetResponseText | gemini_telegrambot.py:114-139 | The loop's result equals `ResponseText(body)`. That is the fixed failure text when reading the body raised. Otherwise it is the kept lines joined by newlines, or the body text when no line was kept |
| Extraction.ScanCollects | gemini_telegrambot.py:121-127 | After the loop, `collecting` is set exactly when some line contains a trigger keyword. The kept list is exactly the stripped non-blank lines from the first trigger line to the end, in order |
| Extraction.CollectingNeverResets | gemini_telegrambot.py:121-124 | Once `collecting` is on after some prefix of the lines, it is on after every longer prefix |
| Extraction.ExtractsFromFirstTrigger | gemini_telegrambot.py:122-132 | If some line triggers, the result is the joined stripped non-blank lines from the first trigger line on. That list is non-empty, and splitting the result on newlines gives it back |
| Extraction.NoTriggerVerbatim | gemini_telegrambot.py:129-135 | If no line contains a trigger keyword, the result is the body text exactly |
| Extraction.CollectedIffTriggered | gemini_telegrambot.py:123-129 | Some line is collected exactly when some line contains a trigger keyword |
| Extraction.CollectedLinesClean | gemini_telegrambot.py:126-127 | Every collected line is non-empty, has no leading or trailing whitespace and contains no newline |
| Extraction.TriggerNotBlank | gemini_telegrambot.py:123-127 | A line containing a trigger keyword is never blank, so it is always collected |
| Extraction.ResponseTextEmpty | gemini_telegrambot.py:129-139 | The extracted text is empty exactly when the body was read and was empty |
| Extraction.FirstTrigger | gemini_telegrambot.py:122-124 | The index it returns is the first line containing a trigger keyword, or the line count when no line does |
| Extraction.NonBlankStripped | gemini_telegrambot.py:126-127 | Each line it keeps is non-empty and already stripped, and it keeps no more lines than it was given |
| Locator.FindTextarea | gemini_telegrambot.py:55-79 | The nested loop returns `FirstMatch` over the eight selectors. A returned element is displayed and enabled. It returns none exactly when no selector yields such an element |
| Locator.FirstMatchNone | gemini_telegrambot.py:68-79 | The search finds nothing exactly when no element under any selector is both displayed and enabled |
| Locator.FirstMatchIsFirst | gemini_telegrambot.py:68-75 | A found element qualifies. No qualifying element comes before it, neither under an earlier selector nor earlier under its own selector |
| Locator.FirstInSpec | gemini_telegrambot.py:72-75 | Within one selector's elements, the first qualifying one is returned, and none is returned exactly when none qualifies |
| Records.SaveToJson | gemini_telegrambot.py:141-154 | The record keeps the prompt and the response unchanged, with the ISO time stamp and source `Gemini AI`. A given file name is used as is. A generated one ends in `.json` |
| Records.FileNameShowsTopic | gemini_telegrambot.py:143-147 | A generated name starts with `gemini_news_` exactly when the prompt contains `뉴스`, and with `gemini_response_` exactly when it does not. The compact time stamp follows the prefix |
| Records.ClassifiesExamplePrompts | gemini_telegrambot.py:141-147 | The default prompt `오늘의 주요 뉴스 알려줘` gets the news prefix, and `AI에 대해 설명해줘` gets the response prefix |
| Records.Run | gemini_telegrambot.py:176-200 | `run` returns no record exactly when the input search finds nothing or the page body is empty. Otherwise it returns the saved record of the extracted text, including the failure text when reading the body raised |
| Formatting.FormatResponseToMarkdown | gemini_telegrambot.py:214-262 | The loop's result equals `Format(data, formatTime)`, and every message it returns is at most 4000 characters long |
| Formatting.Truncate | gemini_telegrambot.py:258-260 | The output is never longer than 4000 characters. Input of at most 4000 characters is returned untouched. Longer input keeps its first 3950 characters followed by the 21-character omission note |
| Formatting.MissingDataCases | gemini_telegrambot.py:216-221 | No record, or one without `response`, gives the fixed error message. A record with `response` but without `timestamp` raises a key error, and a key error happens only when `response` is present |
| Formatting.RecordFormats | gemini_telegrambot.py:216-231 | A record built by `save_to_json` always reaches the Markdown path, using its own prompt, response and time stamp |
| Formatting.HeaderFollowsTopic | gemini_telegrambot.py:223-229 | The header starts with 📰 and `오늘의 주요 뉴스` exactly when the prompt contains `뉴스`, and with 🤖 and `Gemini AI 응답` exactly when it does not |
| Formatting.HeaderSurvivesTruncation | gemini_telegrambot.py:228-260 | A header that fits in 3950 characters is a prefix of the final message, whether or not the message was cut |
| Formatting.FormatLinesAppend | gemini_telegrambot.py:234-256 | Lines are formatted one at a time and in order. The formatted lines of two concatenated parts are the concatenation of each part's formatted lines |
| Formatting.FilterMapShorter | gemini_telegrambot.py:237-253 | Each response line yields at most one formatted line |
| Formatting.DroppedLines | gemini_telegrambot.py:237-250 | A line is dropped exactly when it is blank after stripping, or when it has no category keyword and equals one of the three boilerplate strings |
| Formatting.KeptLineShape | gemini_telegrambot.py:242-253 | A kept line is non-empty. It is `"\n**" + line + "**"` exactly when the stripped line has a category keyword, a `:` and fewer than 50 characters, and otherwise it is the stripped line itself. A heading is the only kind of kept line that starts with a newline |
| Formatting.OnlyBoilerplate | gemini_telegrambot.py:248-250 | A response made only of blank and boilerplate lines formats to no lines |
| Formatting.CategoryNotInBoilerplate | gemini_telegrambot.py:243-250 | No boilerplate string contains a category keyword, so the boilerplate test is never overridden by the category test |
| Relay.NewsInAnyCase | gemini_telegrambot.py:392-396 | A message containing `news` in any mix of upper and lower case goes to the news path |
| Relay.KoreanKeywordRoutes | gemini_telegrambot.py:392-396 | A message containing `뉴스` or `오늘` goes to the news path, because lowering leaves them unchanged |
| Relay.LongestKeywordRedundant | gemini_telegrambot.py:395-407 | A message gets help exactly when its lowered text contains none of `뉴스`, `news` and `오늘`, so the keyword `오늘의` never changes the decision |
| Relay.MsgHelpIffBlank | gemini_telegrambot.py:333-345 | `/msg` answers with help, and does not run the scraper, exactly when every argument is blank (including when there are none). Otherwise the scraper gets the arguments joined by spaces, which are not blank |
| Relay.PlainTextDropsMarkup | gemini_telegrambot.py:313 | The plain-text fallback keeps every character other than `*` and `_`, in order, and so contains no `*` and no `_` |
| Text.StripIsTrimmedMiddle | gemini_telegrambot.py:126-127 | `r` is the stripped line exactly when `r` is a contiguous part of the line with only whitespace before and after it and none at its own ends. |
| Text.SplitJoin | gemini_telegrambot.py:118-130 | Splitting newline-joined, newline-free lines on newlines gives back those lines |
| Text.JoinSplit | gemini_telegrambot.py:118-130 | Joining the pieces of a split on newlines gives back the original text |
| Text.LowerContains | gemini_telegrambot.py:392-395 | If a word occurs in the message, its lowered form occurs in the lowered message |

## Left out

- Browser setup and navigation (`setup_driver`, `access_gemini`, lines 32-53) and the fixed waits (lines 48, 188) are not modelled. They only drive Selenium.
- Submitting the prompt (`textarea.clear`, `send_keys` and `send_message`, lines 81-112, 183-185) is not modelled. It is keystrokes and clicks with no result the code inspects.
- Element lookup is not modelled. Each selector's matches are an input.
- Locator.FindTextarea: when `is_displayed()` or `is_enabled()` raises, the source skips the rest of that selector's elements; this is not modelled, and every element's flags are taken as readable.
- `run`'s exception handler, which turns any failure of setup, navigation or saving into `(None, None)`, is not modelled. Neither is `driver.quit()` (lines 202-207).
- Writing the JSON file (`open` and `json.dump`, lines 156-163) is not modelled, and neither are its I/O errors. The record and its file name are modelled; reading the file back is not.
- The clock (`datetime.now`, `strftime`, `isoformat`) is replaced by time-stamp strings passed in. The header's time formatting (line 231) is a function parameter.
- Formatting.Format: `formatTime` is total, so the `ValueError` that `fromisoformat` raises on a malformed time stamp is not modelled.
- Text.Lower: it lowers ASCII letters only, not the full Unicode lowering of `str.lower`. The routing keywords are ASCII or caseless Hangul.
- Telegram I/O is not modelled: `reply_text`, `delete`, `edit_text`, the loading and failure messages, the welcome text of `start_command`, `run_bot` and polling (lines 264-424). Only the pure decisions inside the handlers are modelled.
- Environment variables and logging in `main` (lines 426-444) are not modelled.
- Logging is not modelled anywhere: the `logger` calls inside the modelled functions (for example lines 74, 131, 134, 138, 159-162 and 168-203) write messages only and change no result.
- `test_gspread.py` is not part of this model. It only authenticates to Google Sheets and logs whether that worked.
- `gemini_telegrambot.py` has no `/setting` command, no per-user language or region settings and no spreadsheet logging, so none of these is modelled.
