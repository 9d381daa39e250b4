/** The pure decisions inside `TelegramNewsBot`'s chat handlers: routing free
    text, the blank `/msg` check, and the plain-text fallback. */
module Relay {
  import opened Text

  /** What `handle_message` does with a free-text message. */
  datatype Action = FetchNews | ShowHelp

  /** The routing keyword test on the lowered message. */
  predicate IsNewsRequest(lowered: string)
  {
    Contains(lowered, "뉴스") || Contains(lowered, "news") || Contains(lowered, "오늘") || Contains(lowered, "오늘의")
  }

  /** `handle_message`: lower the text, then go to the news path when a
      keyword occurs, and answer with help otherwise. */
  function Route(text: string): (action: Action)
  {
    if IsNewsRequest(Lower(text)) then FetchNews else ShowHelp
  }

  /** "news" in any mix of upper and lower case sends a message to the news path. */
  lemma NewsInAnyCase(text: string, word: string)
    requires Contains(text, word) && Lower(word) == "news"
    ensures Route(text) == FetchNews
  {
    LowerContains(text, word);
  }

  /** The Korean keywords have no case: a message holding one goes to the news path. */
  lemma KoreanKeywordRoutes(text: string)
    requires Contains(text, "뉴스") || Contains(text, "오늘")
    ensures Route(text) == FetchNews
  {
    if Contains(text, "뉴스") {
      LowerContains(text, "뉴스");
      assert Lower("뉴스") == "뉴스";
    } else {
      LowerContains(text, "오늘");
      assert Lower("오늘") == "오늘";
    }
  }

  /** The keyword "오늘의" never changes the decision: every message holding it
      also holds "오늘". Help is given exactly when none of the other three
      keywords occurs in the lowered text. */
  lemma LongestKeywordRedundant(text: string)
    ensures Route(text) == ShowHelp <==>
      !Contains(Lower(text), "뉴스") && !Contains(Lower(text), "news") && !Contains(Lower(text), "오늘")
  {
  }

  /** What `/msg` does with its arguments. */
  datatype MsgStep = ReplyHelp | RunScraper(prompt: string)

  /** `msg_command`: join the arguments with spaces; a blank prompt gets the
      usage help and the scraper is not run. */
  function MsgDecision(args: seq<string>): (step: MsgStep)
  {
    var prompt := Join(args, ' ');
    if Strip(prompt) == [] then ReplyHelp else RunScraper(prompt)
  }

  /** Help is given exactly when every argument is blank (so also for no
      arguments); otherwise the scraper runs on the joined arguments, which
      are not blank. */
  lemma MsgHelpIffBlank(args: seq<string>)
    ensures MsgDecision(args) == ReplyHelp <==> forall k :: 0 <= k < |args| ==> AllSpace(args[k])
    ensures MsgDecision(args).RunScraper? ==>
      MsgDecision(args).prompt == Join(args, ' ') && !AllSpace(MsgDecision(args).prompt)
  {
    JoinBlank(args, ' ');
  }

  /** The plain-text fallback: remove `**`, then `*`, then `_`. */
  function PlainText(markdown: string): (plain: string)
  {
    RemoveAll(RemoveAll(RemoveAll(markdown, "**"), "*"), "_")
  }

  /** The fallback keeps every character other than `*` and `_`, in order,
      and so leaves no markup character behind. */
  lemma PlainTextDropsMarkup(markdown: string)
    ensures PlainText(markdown) == DropChar(DropChar(markdown, '*'), '_')
    ensures '*' !in PlainText(markdown) && '_' !in PlainText(markdown)
  {
    var once := RemoveAll(markdown, "**");
    RemoveAllChar(once, '*');
    RemoveDoubledThenDrop(markdown, '*');
    RemoveAllChar(DropChar(markdown, '*'), '_');
  }
}
