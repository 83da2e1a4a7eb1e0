/**
 * The small text rules of the HTTP handlers: how a conversation's title follows the
 * assistant's replies (the same rule in handleSendMessage and backgroundSendMessage),
 * and how handlePublish composes the issue body and the issue title.
 */
module Compose {
  import opened Wrappers
  import opened Text
  import Claude

  /** Longest message, in bytes, used as a title before it is cut. */
  const TitleLimit := 60

  function HasSuffix(s: string, suffix: string): bool {
    |suffix| <= |s| && s[|s| - |suffix|..] == suffix
  }

  /** A message used as a rough title: its first 60 bytes, marked with "..." when cut. */
  function RoughTitle(message: string): (t: string)
    ensures |t| <= TitleLimit + 3
    ensures |message| <= TitleLimit ==> t == message
    ensures |message| > TitleLimit ==> |t| == TitleLimit + 3 && HasPrefix(message, t[..TitleLimit]) && HasSuffix(t, "...")
  {
    if |message| > TitleLimit then message[..TitleLimit] + "..." else message
  }

  /**
   * The title a reply sets, or None when it leaves the title as it is: a generated
   * title always wins; without one, a conversation that has no title yet takes the
   * reply's message as a rough title.
   */
  function NextTitle(current: string, resp: Claude.Response): (r: Option<string>)
    ensures resp.generatedTitle != "" ==> r == Some(resp.generatedTitle)
    ensures r.None? <==> resp.generatedTitle == "" && (current != "" || resp.message == "")
    ensures r.Some? && resp.generatedTitle == "" ==> current == "" && r.value == RoughTitle(resp.message)
  {
    if current == "" then
      if resp.generatedTitle != "" then Some(resp.generatedTitle)
      else if resp.message != "" then Some(RoughTitle(resp.message))
      else None
    else if resp.generatedTitle != "" then Some(resp.generatedTitle)
    else None
  }

  /** The stored title after a reply. */
  function TitleAfter(current: string, resp: Claude.Response): string {
    match NextTitle(current, resp)
    case None => current
    case Some(t) => t
  }

  /** A title, once set, is only ever replaced by a generated one. */
  lemma TitleKept(current: string, resp: Claude.Response)
    requires current != "" && resp.generatedTitle == ""
    ensures TitleAfter(current, resp) == current
  {
  }

  /** After a reply with a message or a generated title, the conversation has a title. */
  lemma TitleSet(current: string, resp: Claude.Response)
    requires resp.message != "" || resp.generatedTitle != ""
    ensures TitleAfter(current, resp) != ""
  {
    if current == "" && resp.generatedTitle == "" {
      assert |RoughTitle(resp.message)| > 0;
    }
  }

  /** Applying the same reply twice sets the same title as applying it once. */
  lemma TitleAfterIdempotent(current: string, resp: Claude.Response)
    ensures TitleAfter(TitleAfter(current, resp), resp) == TitleAfter(current, resp)
  {
    var once := TitleAfter(current, resp);
    if resp.generatedTitle == "" && current == "" && resp.message != "" {
      assert once == RoughTitle(resp.message);
      assert |once| > 0;
    }
  }

  const WhyHeading := "## Why\n\n"
  const PromptHeading := "\n\n## Prompt\n\n"
  const CopyOpen := "\n\n<details>\n<summary>Copy prompt</summary>\n\n```\n"
  const CopyClose := "\n```\n\n</details>"

  /** The collapsible block that repeats the prompt in a fenced code block. */
  function CopyBlock(prompt: string): string {
    CopyOpen + prompt + CopyClose
  }

  /**
   * The issue body: the motivation and the prompt under their own headings (only the
   * prompt when there is no motivation), then the copy block.
   */
  function IssueBody(motivation: string, prompt: string): string {
    if motivation != "" then WhyHeading + motivation + PromptHeading + prompt + CopyBlock(prompt)
    else prompt + CopyBlock(prompt)
  }

  /** The body opens with the motivation's heading, or else with the prompt itself. */
  lemma IssueBodyStart(motivation: string, prompt: string)
    ensures motivation != "" ==> HasPrefix(IssueBody(motivation, prompt), WhyHeading + motivation + PromptHeading)
    ensures motivation == "" ==> HasPrefix(IssueBody(motivation, prompt), prompt)
  {
    var body := IssueBody(motivation, prompt);
    if motivation != "" {
      var head := WhyHeading + motivation + PromptHeading;
      assert body == head + (prompt + CopyBlock(prompt));
      assert body[..|head|] == head;
    } else {
      assert body[..|prompt|] == prompt;
    }
  }

  /** The body ends with the prompt followed by its copy block. */
  lemma IssueBodyEnd(motivation: string, prompt: string)
    ensures HasSuffix(IssueBody(motivation, prompt), prompt + CopyBlock(prompt))
  {
    var body, tail := IssueBody(motivation, prompt), prompt + CopyBlock(prompt);
    if motivation != "" {
      var head := WhyHeading + motivation + PromptHeading;
      assert body == head + tail;
      assert body[|body| - |tail|..] == tail;
    } else {
      assert body == tail;
    }
  }

  /**
   * For a prompt that does not open with '#', the "Why" heading at the top of the body
   * shows exactly that there was a motivation.
   */
  lemma IssueBodyHeading(motivation: string, prompt: string)
    requires prompt != "" && prompt[0] != '#'
    ensures HasPrefix(IssueBody(motivation, prompt), WhyHeading) <==> motivation != ""
  {
    IssueBodyStart(motivation, prompt);
    var body := IssueBody(motivation, prompt);
    if motivation != "" {
      var head := WhyHeading + motivation + PromptHeading;
      assert body[..|WhyHeading|] == head[..|WhyHeading|];
    } else {
      assert body[0] == prompt[0];
    }
  }

  /**
   * The title published with the issue, and whether it is also stored: the generated
   * title when there is one (and it is stored), else the conversation's title, else
   * "Prompt Request".
   */
  function PublishTitle(prTitle: string, generatedTitle: string): (r: (string, bool))
    ensures r.0 != ""
    ensures r.1 <==> generatedTitle != ""
    ensures generatedTitle != "" ==> r.0 == generatedTitle
    ensures generatedTitle == "" && prTitle != "" ==> r.0 == prTitle
    ensures generatedTitle == "" && prTitle == "" ==> r.0 == "Prompt Request"
  {
    if generatedTitle != "" then (generatedTitle, true)
    else if prTitle == "" then ("Prompt Request", false)
    else (prTitle, false)
  }

  const IssueTitlePrefix := "Prompt Request: "

  function IssueTitle(title: string): (t: string)
    ensures HasPrefix(t, IssueTitlePrefix) && TrimPrefix(t, IssueTitlePrefix) == title
  {
    IssueTitlePrefix + title
  }

  /** Every published issue title says more than the bare prefix. */
  lemma PublishedIssueTitle(prTitle: string, generatedTitle: string)
    ensures |IssueTitle(PublishTitle(prTitle, generatedTitle).0)| > |IssueTitlePrefix|
  {
  }
}
