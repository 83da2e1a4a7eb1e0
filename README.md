# prompter, the decision logic

prompter is a local web application. A user opens a *prompt request* against a GitHub
repository and talks about it with the Claude CLI, which runs inside a local clone of that
repository. When Claude has produced a prompt, the user publishes it as a GitHub issue.

This project models the logic that sits beneath the HTTP, SQL and subprocess layers:

- **Reading Claude's replies.** The CLI prints a JSON envelope. Its reply is found by a
  chain of fallbacks: the `structured_output` object, then the `result` string, then the
  whole text decoded directly. Three variants exist (`Claude.ParseResponse`,
  `Normalize.ParseRawResponse`, `Queries.ExtractGeneratedContent`), each with its own
  edge rules. The questions a reply asks are numbered, and the legacy single `question`
  is read when there are none (`Normalize`). Text is parsed as JSON by a codec `Codec`,
  which is a parameter. The predicate `Json.Lawful` states what is assumed of the codec:
  - reparsing a serialised value gives it back;
  - serialised texts are never empty;
  - an object's text starts with `{`.

  Decoding a struct follows Go's lax rules:
  - a missing field or a null gives the zero value;
  - field names match case-insensitively (ASCII);
  - the last matching member wins;
  - a wrong type makes the decode fail.
- **The conversation page.** Messages are interleaved with revision markers
  (`Timeline`). The newest reply offers its questions. Its prompt-ready flag is hidden once
  that reply has been published.
- **Provisioning and auto-send.** These form a state machine over per-request statuses
  (`Server.Server`): cloning, pulling, ready, error, processing and responded. Its steps
  are `Handlers.HandleCreate`, `AsyncEnsureCloned`, `HandleRepoStatus`,
  `BackgroundSendStart`/`BackgroundSendLocked`, `HandleRetry` and the gate in
  `HandleSendMessage`. The status moves from ready to processing by one atomic
  compare-and-swap. That swap is what keeps two polls from starting two sends. A goroutine
  a handler starts is returned as a `Handlers.Job` value, for a later step to run.
- **The store** (`Queries.Store`): repositories, prompt requests, messages and revisions
  are kept in memory. Ids are assigned in insertion order. Delete is soft.
- **Small rules**:
  - the answers of the question form joined into one message (`Forms`);
  - the 60-byte rough title, and a generated title always winning (`Compose`);
  - the issue body and the issue title (`Compose`);
  - the repository URL pattern, the local path and the clone-or-pull choice (`Repo`);
  - the `owner/repo` form, and the issue number read from gh's output (`GitHub`);
  - the claude command line and the environment stripped of `CLAUDECODE` (`Claude`).

Go strings are byte strings: a Dafny `char` stands for one byte. Go's `int64` ids and
issue numbers are unbounded integers, except where `strconv.Atoi` checks the 64-bit
range.

Some things are outside the program's own logic, and they become parameters:
- whether the repository is on disk, and whether `.git` exists;
- what git reported;
- what the claude CLI printed or the error it gave (`Handlers.SendOutcome`);
- what gh printed or its error;
- the new session id;
- the cache directory.

Models (`models.dfy`) and Wrappers (`wrappers.dfy`) hold the shared record shapes and
the `Option`/`Result` types.

Where the sources disagree:
- **Reply shape.** `claude.Response` declares a single `Question`, but
  internal/server/handlers.go reads `Questions` items with `Header` and `MultiSelect`. The
  model uses the handlers' shape, under the JSON keys `questions`, `header` and
  `multi_select`. The older shape is modelled separately (`Normalize.LegacyQuestion`).
- **Revision anchor.** `models.Revision` and the schema have no `after_message_id`, but
  the handlers and `CreateRevision` use one. A revision here carries an `Option<int>`
  anchor.

## Model

| member | source | states |
|---|---|---|
| Text.TrimPrefix | internal/github/github.go:71 | with the prefix present, prefix + result is the input; otherwise the input is returned unchanged |
| Text.TrimSpace | internal/github/github.go:35 | the result is no longer than the input, and neither starts nor ends with white space |
| Text.TrimSpaceInfix | internal/github/github.go:35 | the result is a contiguous slice of the input with only white space outside it |
| Text.TrimSpaceIdempotent | internal/server/handlers.go:807 | trimming twice is trimming once |
| Text.TrimNewline | internal/github/github.go:35 | gh's `url\n` output trims to the URL |
| Text.Split | internal/github/github.go:75 | strings.Split gives at least one piece, and no piece holds the separator |
| Text.JoinSplit | internal/github/github.go:75 | joining the pieces with the separator gives the text back |
| Text.SplitConcat | internal/github/github.go:75 | splitting around a separator splits each side |
| Text.SplitLastPiece | internal/github/github.go:75-79 | the last piece is what follows the last separator |
| Text.SplitWithoutSep | internal/github/github.go:75 | a text without the separator is one piece |
| Text.JoinConcat | internal/server/handlers.go:822 | joining two non-empty lists joins their joins with the separator |
| Text.Join | internal/server/handlers.go:822 | no parts join to "", one part joins to itself |
| Text.Decimal | internal/server/handlers.go:798 | the decimal form of a number is non-empty and all digits |
| Text.DecimalValue | internal/server/handlers.go:798 | the decimal form reads back as the number |
| Text.DecimalInjective | internal/server/handlers.go:798 | different numbers have different decimal forms |
| Text.Atoi | internal/github/github.go:79 | strconv.Atoi succeeds only within the int64 range, on a non-empty text starting with a sign or digit; the empty text fails |
| Text.AtoiDecimal | internal/github/github.go:79 | the decimal form of any number up to the int64 maximum reads back as that number |
| Text.DigitPrefix | internal/github/github.go:79 | the longest leading run of digits: a prefix of the text, followed by no digit |
| Text.DigitPrefixOfDigits | internal/github/github.go:79 | a text of digits is its own digit prefix |
| Text.DigitPrefixJunk | internal/github/github.go:79 | the digit prefix stops at the first character that is no digit |
| Text.AtoiError | internal/github/github.go:79-86 | the text of strconv.Atoi's error: `strconv.Atoi: parsing "<s>": ` + `AtoiReason`; its cases are stated by the three lemmas below |
| Text.AtoiReason | internal/github/github.go:79-86 | "value out of range" once the digits after the sign overflow 64 unsigned bits, or when all are digits and the value does not fit; "invalid syntax" otherwise |
| Text.AtoiSyntaxError | internal/github/github.go:79-86 | a text starting with neither a digit nor a sign is refused with "invalid syntax" |
| Text.DigitsOutOfRange | internal/github/github.go:79-86 | digits whose value exceeds the int64 maximum are refused with "value out of range" |
| Text.AtoiOutOfRange | internal/github/github.go:79-86 | the decimal form of a number beyond the int64 maximum is refused with "value out of range" |
| Text.OverflowBeforeJunk | internal/github/github.go:79-86 | digits that overflow 64 unsigned bits give "value out of range" even when a character that is no digit follows |
| Json.SkipJsonSpace | internal/server/handlers.go:855 | what remains after the leading JSON white space does not start with white space |
| Json.FieldIsLastMatch | internal/server/handlers.go:851-854 | a field is absent iff no member's key matches it case-insensitively; otherwise it is the last matching member |
| Json.FieldAt | internal/server/handlers.go:851-854 | a field matched by exactly one member is that member's value |
| Json.FieldAbsent | internal/server/handlers.go:851-854 | a field no member matches is absent |
| Json.DecodeInt | internal/github/github.go:13 | a decoded Go int lies within the 64-bit range |
| Json.Field | internal/claude/claude.go:164-179 | the member json.Unmarshal fills a field from: the last whose key matches case-insensitively; stated by `FieldIsLastMatch` |
| Json.DecodeString | internal/claude/claude.go:89 | an absent or null string field is ""; otherwise only a JSON string decodes, to its text |
| Json.DecodeBool | internal/claude/claude.go:91 | an absent or null bool field is false; otherwise only a JSON boolean decodes, to its value |
| Json.DecodeList | internal/claude/claude.go:99 | an absent or null slice field is empty; otherwise only an array decodes, one item per element, each decoded |
| Json.DecodePointer | internal/claude/claude.go:161-166 | an absent or null pointer field is nil; anything else must decode, and then is never nil |
| Json.DecodeAll | internal/server/handlers.go:747-758 | a JSON array decodes iff every element does, element by element in order |
| Json.EncodeAll | internal/server/handlers.go:747-758 | encoding a list encodes each element in place |
| Json.DecodeAllEncoded | internal/server/handlers.go:747-758 | decoding an encoded list gives it back when its elements round-trip |
| Claude.MessageOnly | internal/claude/claude.go:152 | the reply made of a bare text has that message, no questions and no prompt |
| Claude.DecodeOption | internal/claude/claude.go:102-105 | null decodes to the empty option; only null or an object decodes |
| Claude.DecodeQuestion | internal/server/handlers.go:364-378 | null decodes to the empty question; only null or an object decodes |
| Claude.DecodeResponse | internal/claude/claude.go:88-95 | null decodes to the empty reply; only null or an object decodes |
| Claude.DecodeEnvelope | internal/claude/claude.go:160-163 | null decodes to an envelope with neither structured output nor result; only null or an object decodes |
| Claude.OptionRoundTrip | internal/claude/claude.go:102-105 | an encoded option decodes back to itself |
| Claude.QuestionRoundTrip | internal/server/handlers.go:364-378 | an encoded question decodes back to itself |
| Claude.OptionsRoundTrip | internal/server/handlers.go:371-376 | a question's encoded options decode back to them, in order |
| Claude.ReplyFieldsRoundTrip | internal/claude/claude.go:88-95 | message, questions and prompt flag of an encoded reply decode back |
| Claude.QuestionsRoundTrip | internal/server/handlers.go:364 | the questions of an encoded reply decode back in order |
| Claude.GeneratedFieldsRoundTrip | internal/claude/claude.go:92-94 | generated title, motivation and prompt of an encoded reply decode back |
| Claude.ResponseRoundTrip | internal/claude/claude.go:88-95 | an encoded reply decodes back to itself |
| Claude.ParseResponse | internal/claude/claude.go:157-183 | a non-null structured output wins; else a non-empty result is decoded, and one that does not decode becomes a message-only reply; else, with no result, the direct decode is taken even with an empty message; failure only when that direct decode fails |
| Claude.SendMessageResult | internal/claude/claude.go:149-154 | the raw output is returned unchanged; a parse failure gives the reply whose message is the raw output, so parsing never fails the call |
| Claude.ParseStructuredOutput | internal/claude/claude.go:164-166 | a reply serialised under `structured_output` parses back to itself |
| Claude.ParseResultText | internal/claude/claude.go:168-174 | a reply serialised into the `result` string parses back to itself |
| Claude.WithoutAppend | internal/claude/claude.go:188-192 | filtering a concatenation filters each part |
| Claude.WithoutMembers | internal/claude/claude.go:188-192 | an entry survives iff it was there and does not start with the prefix |
| Claude.EnvWithout | internal/claude/claude.go:185-194 | the loop keeps the environment's order and removes exactly the entries starting with key + "=" |
| Claude.KeepsLongerName | internal/claude/claude.go:186-189 | "CLAUDECODE_X=1" survives the removal of CLAUDECODE |
| Claude.Without | internal/claude/claude.go:185-194 | no kept entry starts with the prefix, and none is added; `WithoutMembers` gives the exact set |
| Claude.ChildEnv | internal/claude/claude.go:130 | the environment a started process sees: its Env, or the parent's whole environment when Env is nil (empty) |
| Claude.ChildLacksMarker | internal/claude/claude.go:130 | when some entry survives the removal, the child sees no CLAUDECODE entry |
| Claude.OnlyMarkerInherited | internal/claude/claude.go:185-194 | when every entry is a CLAUDECODE entry, envWithout returns nil and the child inherits CLAUDECODE with the rest of the environment |
| Claude.SendMessageCommand | internal/claude/claude.go:111-130 | `claude` runs in the repository directory, its Env being the environment without the CLAUDECODE entries (what the child then sees is `ChildEnv`); the 14 arguments start "-p", then "--resume" or "--session-id" with the session, then the fixed flags, and end with the user's message |
| Normalize.DecodeLegacyQuestion | internal/server/handlers.go:767-773 | only null or an object decodes as the legacy question |
| Normalize.DecodeLegacyOutput | internal/server/handlers.go:766-774 | only null or an object decodes as the legacy structured output |
| Normalize.DecodeLegacyEnvelope | internal/server/handlers.go:765-775 | only null or an object decodes as the legacy envelope |
| Normalize.ParseRawResponse | internal/server/handlers.go:849-873 | a non-null structured output wins; else a non-empty result that decodes; else the direct decode, accepted iff it succeeds with a non-empty message |
| Normalize.ExtractLegacyQuestion | internal/server/handlers.go:763-789 | at most one question, with an empty header, single choice and index 0 |
| Normalize.Numbered | internal/server/handlers.go:747-758 | one item per question, in order, with the same header, text, flag and options, and index i |
| Normalize.ExtractQuestionsFromRaw | internal/server/handlers.go:734-760 | an unreadable payload gives no questions and false; the prompt flag is the primary decode's; no questions means the legacy one; otherwise N numbered items that give back the N questions |
| Normalize.StructuredEnvelope | internal/server/handlers.go:851-857 | a reply placed as `structured_output` is read back as that envelope |
| Normalize.ResultEnvelope | internal/server/handlers.go:851-859 | a reply serialised into `result` is read back as that envelope |
| Normalize.StructuredAndResultAgree | internal/server/handlers.go:855-864 | a reply as `structured_output` and the same reply serialised into `result` both parse to the reply |
| Normalize.QuestionsRoundTrip | internal/server/handlers.go:734-760 | a stored reply with questions gives back its prompt flag and its questions numbered in order |
| Normalize.LegacyQuestionRoundTrip | internal/server/handlers.go:765-775 | an encoded legacy question decodes back to itself |
| Normalize.LegacyObjectAsResponse | internal/server/handlers.go:740-742 | an old-shape reply reads as a reply with its message and no questions |
| Normalize.LegacyQuestionRecovered | internal/server/handlers.go:740-744 | an old-shape reply under `structured_output` offers its single question at index 0 with an empty header |
| Normalize.LegacyQuestionLostInResultText | internal/server/handlers.go:776-781 | an old-shape reply inside the `result` string still parses, but its question is not offered |
| Normalize.ParsersAgree | internal/claude/claude.go:157-183 | outside the undecodable-result case, the handlers' parser and the CLI's parser give the same reply |
| Normalize.EmptyMessageDirectDecode | internal/server/handlers.go:869 | a direct reply with an empty message is accepted by the CLI's parser but rejected by the handlers' one |
| Normalize.UndecodableResultText | internal/claude/claude.go:168-172 | an undecodable `result` becomes a message-only reply for the CLI's parser and nothing for the handlers' one |
| Timeline.AnchoredTo | internal/server/handlers.go:707-709 | the revisions filed under a message are revisions anchored to it |
| Timeline.Unanchored | internal/server/handlers.go:710-711 | the orphans are revisions with no anchor |
| Timeline.Markers | internal/server/handlers.go:719-721 | one marker per revision, in order |
| Timeline.FileRevisions | internal/server/handlers.go:704-713 | the loop files each message's anchored revisions in input order, and collects the unanchored ones in order |
| Timeline.AppendMarkers | internal/server/handlers.go:719-727 | the loop appends one marker per revision, in order |
| Timeline.BuildTimeline | internal/server/handlers.go:703-729 | the timeline built is `TimelineOf`: each message followed by its anchored revisions, then the orphans |
| Timeline.MessagesOfAppend | internal/server/handlers.go:715-727 | the messages of a concatenation are the messages of each part |
| Timeline.MessagesOfMarkers | internal/server/handlers.go:719-727 | markers carry no message |
| Timeline.MessagesOfInterleave | internal/server/handlers.go:716-723 | the interleaved part holds exactly the messages, in order |
| Timeline.MessagesOfStep | internal/server/handlers.go:716-723 | a message with its markers adds just that message |
| Timeline.TimelineMessages | internal/server/handlers.go:703-729 | every message appears exactly once, in input order |
| Timeline.InterleaveAppend | internal/server/handlers.go:716-723 | interleaving a concatenation interleaves each part |
| Timeline.TimelineAround | internal/server/handlers.go:716-727 | the timeline splits around any message into before, the message with its revisions, and after |
| Timeline.MessageThenItsRevisions | internal/server/handlers.go:716-723 | each message is followed immediately by the revisions anchored to it, in their input order, after exactly the earlier messages |
| Timeline.DanglingAnchorDropped | internal/server/handlers.go:707-723 | a revision anchored to no listed message does not appear |
| Timeline.NotInInterleave | internal/server/handlers.go:716-723 | such a revision is in no message's group |
| Timeline.AnchoredInAdd | internal/server/handlers.go:718-722 | the revisions anchored to a set grow by those of a new id |
| Timeline.InterleaveLength | internal/server/handlers.go:716-723 | with distinct ids, the interleaved part has one item per message plus one per matched anchored revision |
| Timeline.EmptyIdsAnchorNothing | internal/server/handlers.go:718 | no message ids match no revisions |
| Timeline.TimelineLength | internal/server/handlers.go:703-729 | the length is messages + matched anchored revisions + unanchored revisions |
| Timeline.Example | internal/server/handlers.go:703-729 | [m1,m2,m3] with a revision after m2 and an unanchored one gives [m1,m2,rev,m3,unanchored] |
| Timeline.ExampleInterleave | internal/server/handlers.go:716-723 | the interleaved part of that example |
| Timeline.ExampleRevisions | internal/server/handlers.go:704-713 | the filing of that example's revisions |
| Timeline.AnchoredToSnoc | internal/server/handlers.go:707-709 | filing one more revision appends it to its message's group only |
| Timeline.ExampleMarkers | internal/server/handlers.go:719-726 | markers of the example's groups |
| Forms.QKeyInjective | internal/server/handlers.go:798 | different question numbers have different `q_i` keys |
| Forms.QKeysCount | internal/server/handlers.go:797-805 | n question numbers give n distinct keys |
| Forms.QuestionsBound | internal/server/handlers.go:797-805 | a form cannot hold more consecutive questions than it has keys, so the loop ends |
| Forms.FirstGap | internal/server/handlers.go:797-805 | the scan finds the first question number with no key, all before it present |
| Forms.QuestionCount | internal/server/handlers.go:797-805 | the number of questions read: q_n is missing and all before it present |
| Forms.KeptAnswers | internal/server/handlers.go:821-824 | at most one answer per question |
| Forms.KeptHeaders | internal/server/handlers.go:821-824 | one header per kept answer |
| Forms.Lines | internal/server/handlers.go:837-844 | one line per kept answer |
| Forms.AnswerParts | internal/server/handlers.go:810-819 | the loop builds `Parts`: non-empty choices kept, `__other__` replaced by "Other: " + text unless the text is blank |
| Forms.CollectAnswers | internal/server/handlers.go:797-825 | the loop stops at the first missing question and keeps the joined parts and headers of the questions with parts |
| Forms.PrefixLines | internal/server/handlers.go:837-844 | the loop prefixes each answer with its header, or with "Q{k}: " counting kept answers from 1 |
| Forms.AssembleQuestionAnswers | internal/server/handlers.go:793-846 | the method computes `Assembled`: "" for no answers, the bare answer for one, the prefixed lines joined by "\n" for several |
| Forms.PartsMembers | internal/server/handlers.go:810-819 | a part is a non-empty, non-other choice, or "Other: " + non-blank text when other was chosen |
| Forms.Parts | internal/server/handlers.go:810-819 | the parts of one answer, in order; which choices are kept is stated by `PartsMembers` and `OtherChoiceText` |
| Forms.QuestionParts | internal/server/handlers.go:802-819 | the parts of question i, with the trimmed q_i_other text standing in for "__other__" |
| Forms.Assembled | internal/server/handlers.go:793-846 | the text assembleQuestionAnswers builds; `AssembleQuestionAnswers` computes it, and its cases are stated by `NoQuestions`, `SingleAnswerIsBare`, `StopsAtGap` and `TwoLines` |
| Forms.SmallKeys | internal/server/handlers.go:798-807 | the key names q_0, q_1, q_2, q_0_header, q_0_other |
| Forms.PostedSingleAnswer | internal/server/handlers.go:793-834 | the form a one-question page posts with "yes" chosen assembles to exactly "yes" |
| Forms.PartsOfOne | internal/server/handlers.go:811-818 | a single plain choice is its own part; an empty one gives none |
| Forms.OneChoice | internal/server/handlers.go:810-819 | a question with one plain choice and no other text answers that choice |
| Forms.NoQuestions | internal/server/handlers.go:827-829 | no q_0 gives "" |
| Forms.SingleAnswerIsBare | internal/server/handlers.go:832-834 | a single answer is returned without prefix |
| Forms.StopsAtGap | internal/server/handlers.go:802-805 | a q_2 after a missing q_1 is ignored |
| Forms.TwoLines | internal/server/handlers.go:837-845 | two answers give two prefixed lines joined by "\n" |
| Forms.NumbersCountKeptAnswers | internal/server/handlers.go:838-843 | with q_0 blank, answers to q_1 and q_2 are numbered Q1 and Q2 |
| Forms.FirstLine | internal/server/handlers.go:842 | the first headerless line is prefixed "Q1: " |
| Forms.HeaderPrefix | internal/server/handlers.go:839-843 | a header prefixes its answer; a headerless one falls back to its number |
| Forms.OtherChoiceText | internal/server/handlers.go:812-817 | `__other__` becomes "Other: x", is dropped when the text is blank, and keeps its place among the choices |
| Compose.RoughTitle | internal/server/handlers.go:345-348 | a message of at most 60 bytes is the title; a longer one is cut to its first 60 bytes plus "..." |
| Compose.NextTitle | internal/server/handlers.go:340-354 | a generated title always wins; otherwise a title is set only when none was stored and the message is non-empty, and it is the rough title |
| Compose.TitleKept | internal/server/handlers.go:651-667 | a stored title stays when nothing was generated |
| Compose.TitleAfter | internal/server/handlers.go:340-354 | the title after a reply; stated by `TitleKept`, `TitleSet` and `TitleAfterIdempotent` |
| Compose.TitleSet | internal/server/handlers.go:341-350 | a reply with a message or a generated title leaves a non-empty title |
| Compose.TitleAfterIdempotent | internal/server/handlers.go:340-354 | applying the rule twice with the same reply changes nothing more |
| Compose.IssueBodyStart | internal/server/handlers.go:411-416 | with a motivation the body opens with the Why section and the Prompt heading; without, with the prompt |
| Compose.IssueBody | internal/server/handlers.go:409-416 | the issue body; stated by `IssueBodyStart`, `IssueBodyEnd` and `IssueBodyHeading` |
| Compose.IssueBodyEnd | internal/server/handlers.go:410-416 | the body ends with the prompt and its copyable block |
| Compose.IssueBodyHeading | internal/server/handlers.go:412-416 | for a prompt not starting with '#', the body opens with "## Why" iff there is a motivation |
| Compose.PublishTitle | internal/server/handlers.go:418-424 | the generated title if any (and then it is stored), else the stored one, else "Prompt Request"; never empty |
| Compose.IssueTitle | internal/server/handlers.go:426 | the issue title is "Prompt Request: " followed by the title |
| Compose.PublishedIssueTitle | internal/server/handlers.go:418-426 | the issue title always has text after its prefix |
| GitHub.ToGHRepo | internal/github/github.go:69-72 | one leading "github.com/" is stripped; other text is unchanged |
| GitHub.ToGHRepoOnce | internal/github/github.go:71 | only the one leading host is stripped |
| GitHub.DecodeIssue | internal/github/github.go:12-15 | null decodes to issue 0 with an empty URL |
| GitHub.ExtractIssueNumber | internal/github/github.go:74-89 | an integer last "/" piece is the number; otherwise only a JSON issue with a positive number succeeds; an error is `extracting issue number from "<url>": ` + Atoi's own error for the last piece (`Text.AtoiError`) |
| GitHub.NumberFromURL | internal/github/github.go:75-79 | a URL ending in "/n" gives n |
| GitHub.TrailingSlashIsError | internal/github/github.go:79-86 | a URL ending in "/" is an error |
| GitHub.WordPieceError | internal/github/github.go:79-86 | a last piece starting with neither a digit nor a sign, in a text that is no JSON object, gives the wrapped "invalid syntax" error |
| GitHub.HugePieceError | internal/github/github.go:79-86 | a last piece of digits beyond the int64 maximum gives the wrapped "value out of range" error |
| GitHub.IssueRoundTrip | internal/github/github.go:12-15 | an encoded issue decodes back to itself |
| GitHub.NumberFromJson | internal/github/github.go:80-85 | JSON output gives its number when positive and an error otherwise |
| GitHub.IssueFromOutput | internal/github/github.go:34-43 | the trimmed output is the URL, and the issue exists iff its number can be read from that URL |
| GitHub.IssueFromLine | internal/github/github.go:34-43 | gh's usual "URL\n" output gives that URL and its number |
| Repo.ValidateURL | internal/repo/repo.go:14-21 | the URL is accepted iff it is "github.com/" + owner + "/" + name, both non-empty over [A-Za-z0-9_.-] |
| Repo.ValidateAccepts | internal/repo/repo.go:14 | every owner/name pair over the allowed characters is accepted |
| Repo.ValidateShape | internal/repo/repo.go:14 | an accepted URL has exactly two valid segments after the host |
| Repo.RejectsScheme | internal/repo/repo.go:14 | a scheme prefix is rejected |
| Repo.RejectsExtraSegment | internal/repo/repo.go:14 | a third segment, or a trailing slash, is rejected |
| Repo.RejectsEmptySegment | internal/repo/repo.go:14 | an empty owner or name segment is rejected |
| Repo.AcceptsDotNames | internal/repo/repo.go:14 | "." and ".." are accepted as owner or name |
| Repo.ResolvePlain | internal/repo/repo.go:28 | path elements with no dots pass through filepath.Join's cleaning unchanged |
| Repo.ResolveDotDot | internal/repo/repo.go:28 | ".." removes the element before it |
| Repo.CleanDirElements | internal/repo/repo.go:28 | a clean absolute directory is rebuilt from its elements |
| Repo.SplitFour | internal/repo/repo.go:28 | four slash-free pieces joined by "/" split back into them |
| Repo.JoinFour | internal/repo/repo.go:28 | joining four pieces puts "/" between them |
| Repo.CleanUnder | internal/repo/repo.go:28 | appending plain elements to a clean directory is already clean |
| Repo.CleanRooted | internal/repo/repo.go:28 | cleaning an absolute path resolves its elements under the root |
| Repo.Clean | internal/repo/repo.go:28 | filepath.Clean never returns the empty text, and keeps a rooted path rooted |
| Repo.RepoTailText | internal/repo/repo.go:28 | the joined tail is "repos/" + the URL |
| Repo.RepoTailElements | internal/repo/repo.go:28 | the tail has the elements repos, github.com, owner, name |
| Repo.LocalPathOfRepo | internal/repo/repo.go:23-29 | for a clean cache directory and ordinary names the local path is cache + "/repos/" + URL |
| Repo.LocalPath | internal/repo/repo.go:23-29 | the local path is never empty, and absolute under an absolute cache directory; `LocalPathOfRepo` gives its text |
| Repo.DotDotLeavesRepos | internal/repo/repo.go:14-29 | the accepted URL "github.com/../.." maps to the cache directory itself |
| Repo.DotDotResolve | internal/repo/repo.go:28 | the elements repos, github.com, .., .. cancel out |
| Repo.CloneURL | internal/repo/repo.go:49 | the clone URL is "https://" + URL + ".git" |
| Repo.EnsureCloned | internal/repo/repo.go:31-42 | the local path is returned; it pulls in that directory iff `.git` exists, and otherwise clones the clone URL into it |
| Repo.GitError | internal/repo/repo.go:55-57 | a failed clone or pull is reported with its own prefix, the pull naming the directory to delete |
| Server.Name | internal/server/server.go:24-27 | the stored text is empty iff no status is set |
| Server.NameInjective | internal/server/server.go:24-27 | different statuses are stored as different texts |
| Server.Server.constructor | internal/server/server.go:29-38 | a new server holds no statuses and no locks |
| Server.Server.GetRepoStatus | internal/server/server.go:182-189 | the stored entry, or the zero entry (empty status) when none is stored |
| Server.Server.SetRepoStatus | internal/server/server.go:178-180 | the request's entry is replaced; other requests and the lock registries are unchanged |
| Server.Server.CompareAndSwap | internal/server/handlers.go:549-550 | the swap happens iff an entry is stored that equals the expected one in both status and error |
| Server.Server.DeleteStatus | internal/server/handlers.go:561 | the entry is removed, so the next read gives the zero entry |
| Server.Server.LockSession | internal/server/server.go:171-176 | a lock is made and registered on first use of a session, and the same lock is returned afterwards; nothing is removed |
| Server.Server.LockRepo | internal/server/server.go:191-196 | the same discipline in a separate registry keyed by repository URL |
| Server.SameSessionSameLock | internal/server/server.go:171-176 | two calls for one session get one lock, whatever other sessions and repositories do in between |
| Server.SecondSwapFails | internal/server/handlers.go:549-551 | a swap that succeeded does not succeed again for the same expected entry |
| Queries.DecodeGenerated | internal/db/queries.go:196-200 | null decodes to empty generated fields; only null or an object decodes |
| Queries.DecodeGeneratedEnvelope | internal/db/queries.go:210-213 | null decodes to an envelope with neither part; only null or an object decodes |
| Queries.Content | internal/db/queries.go:202-207 | content exists iff the generated prompt is non-empty, with title and motivation from the same object |
| Queries.ExtractGeneratedContent | internal/db/queries.go:195-235 | extracted content always has a non-empty prompt |
| Queries.FirstWithPromptIsFirst | internal/db/queries.go:214-232 | the first candidate with a prompt is chosen; none when no candidate has one |
| Queries.ExtractIsFirstWithPrompt | internal/db/queries.go:214-232 | extraction tries structured output, then the result string, then the direct decode, taking the first with a prompt |
| Queries.FirstWithPromptAppend | internal/db/queries.go:214-232 | an earlier candidate with a prompt shadows the later ones |
| Queries.GeneratedRoundTrip | internal/db/queries.go:196-200 | encoded generated fields decode back |
| Queries.ResponseAgreesOnGenerated | internal/db/queries.go:196-200 | this decoder reads the same generated fields as the reply decoder |
| Queries.StructuredContent | internal/db/queries.go:214-217 | a prompt under `structured_output` is found |
| Queries.EmptyStructuredPromptFallsThrough | internal/db/queries.go:215-224 | an empty prompt in structured output does not stop the search; the result string's prompt is found |
| Queries.DirectContent | internal/db/queries.go:228-232 | a bare object with a prompt is found by the direct decode |
| Queries.NoPromptNoContent | internal/db/queries.go:202-207 | without a prompt nothing is found |
| Queries.Select | internal/db/queries.go:174-176 | a filter keeps only matching elements of its input |
| Queries.SelectMembers | internal/db/queries.go:174-176 | an element is kept iff it is in the input and matches |
| Queries.SelectAppend | internal/db/queries.go:174-176 | filtering a concatenation filters each part |
| Queries.RawRowsMembers | internal/db/queries.go:173-177 | the rows scanned are exactly the raw responses of the request's assistant messages that have one |
| Queries.RawRows | internal/db/queries.go:173-177 | the raw responses the query scans, newest first; stated by `RawRowsMembers` and `RawRowsAppend` |
| Queries.RawRowsAppend | internal/db/queries.go:173-177 | newer messages' rows come first |
| Queries.LatestGenerated | internal/db/queries.go:183-192 | with no hit the error is "no generated prompt found" |
| Queries.LatestGeneratedIsFirst | internal/db/queries.go:183-192 | an error iff no row yields content; otherwise the content of the first (newest) row that yields some |
| Queries.NewestReplyWins | internal/db/queries.go:172-193 | a newest reply carrying a prompt is the one published |
| Queries.ReplyWithoutPrompt | internal/db/queries.go:172-193 | a newest reply without a prompt leaves the choice unchanged |
| Queries.FindRepository | internal/db/queries.go:55-67 | the position of a repository with the URL, or none when no repository has it |
| Queries.FindUnique | internal/db/queries.go:55-67 | a URL held once is found at its position |
| Queries.Store.constructor | internal/db/queries.go:16-18 | a new store is empty |
| Queries.Store.RepositoryByUrl | internal/db/queries.go:55-67 | a stored repository with the URL, or an error iff none has it |
| Queries.Store.UpsertRepository | internal/db/queries.go:43-53 | a new URL is appended under the next id; a known URL keeps its id and takes the new local path; the result is what a lookup gives |
| Queries.Store.GetPromptRequest | internal/db/queries.go:83-101 | found iff the id is stored; it carries that id |
| Queries.Store.CreatePromptRequest | internal/db/queries.go:71-81 | for a stored repository, a draft with no title and no issue is appended under the next id and read back; otherwise nothing changes |
| Queries.Store.UpdatePromptRequestTitle | internal/db/queries.go:136-142 | only that request's title changes; an unknown id changes nothing |
| Queries.Store.UpdatePromptRequestStatus | internal/db/queries.go:144-150 | only that request's status changes; an unknown id changes nothing |
| Queries.Store.UpdatePromptRequestIssue | internal/db/queries.go:152-158 | the issue number and URL are stored and the status is forced to published |
| Queries.Store.DeletePromptRequest | internal/db/queries.go:160-162 | delete is soft: the row stays with status deleted and is no longer listed |
| Queries.Store.ListedAreNotDeleted | internal/db/queries.go:103-134 | no listed request is deleted |
| Queries.Store.ListPromptRequests | internal/db/queries.go:103-134 | one entry per undeleted row, in order, with its id, status, title and repository URL, an empty local path (the query selects none), and its message and revision counts |
| Queries.Store.ListedRow | internal/db/queries.go:103-134 | a listed request is a stored, undeleted row |
| Queries.Store.ListedAt | internal/db/queries.go:103-134 | a listed request has the id and status of an undeleted row |
| Queries.Store.RowInStore | internal/db/queries.go:71-81 | a row sits at the position its id names |
| Queries.Store.NotDeletedIsListed | internal/db/queries.go:103-134 | every undeleted request is listed |
| Queries.Store.CreateMessage | internal/db/queries.go:239-249 | for a stored request, the message is appended under the next id and becomes the request's newest; otherwise nothing changes |
| Queries.Store.ListMessages | internal/db/queries.go:264-285 | exactly the request's messages |
| Queries.Store.GetLastMessage | internal/db/queries.go:333-345 | an error iff the request has no messages; otherwise its newest |
| Queries.Store.CreateRevision | internal/db/queries.go:289-308 | for a stored request, the revision with its anchor is appended under the next id; otherwise nothing changes |
| Queries.Store.ListRevisions | internal/db/queries.go:310-331 | exactly the request's revisions |
| Queries.Store.GetLatestGeneratedContent | internal/db/queries.go:172-193 | the loop over the rows, newest first, returns `LatestGenerated` of them |
| Handlers.RepoURL | internal/server/handlers.go:86 | the route's org and repo name give "github.com/org/repo" |
| Handlers.LaunchStatus | internal/server/handlers.go:111-117 | pulling iff the repository is on disk, cloning otherwise |
| Handlers.HandleCreate | internal/server/handlers.go:83-123 | a draft is created for the repository at its local path, the status says pull or clone, and a clone job is returned; the repository is upserted (appended for a new URL, its local path replaced in place for a known one, the others untouched) and exactly one request row is appended |
| Handlers.AsyncEnsureCloned | internal/server/handlers.go:493-505 | with the repository's lock registered (the only key the lock registry gains, earlier locks kept), git's failure sets error with git's message, and success sets ready |
| Handlers.HandleRetry | internal/server/handlers.go:672-700 | the pull or clone is relaunched, and the status shown is the one set |
| Handlers.Recovered | internal/server/handlers.go:530-542 | a stored status is kept; with none, ready iff the repository is on disk, else cloning |
| Handlers.HandleRepoStatus | internal/server/handlers.go:514-594 | with no entry and nothing on disk a clone is launched; with no entry and the repository on disk ready is stored, and with no pending message it is shown and nothing starts; a pending message on a ready repository shows processing, and a send starts exactly when the swap from a clean ready entry succeeds; the new map is the recovered entry (when none was stored) replaced by processing only on a successful swap, so a failed swap leaves the entry as it was; responded drops the entry and delivers the assistant's reply; every other case shows the recovered status and starts nothing; other requests are untouched |
| Handlers.TidyReadyIsClean | internal/server/handlers.go:549-550 | every ready entry the handlers store has an empty error, so the swap expects the right entry |
| Handlers.Apology | internal/server/handlers.go:642 | the apology is "Sorry, I encountered an error: " + the error |
| Handlers.Resume | internal/server/handlers.go:631-637 | resume iff some assistant message has a smaller id than the pending one |
| Handlers.NoReplyNoResume | internal/server/handlers.go:631-637 | with only user messages the session is new |
| Handlers.ReplyThenResume | internal/server/handlers.go:631-637 | after an assistant reply, every later message resumes |
| Handlers.RetitledEffect | internal/server/handlers.go:654-667 | the title rule changes one request's title and nothing else, to `TitleAfter` of the title read |
| Handlers.ApplyTitle | internal/server/handlers.go:340-354 | the stored requests become `Retitled`; nothing else changes |
| Handlers.BackgroundSendStart | internal/server/handlers.go:598-615 | an unknown request sets error with the load failure; no pending user message sets ready; otherwise the request is returned with its session's lock registered, the only key the session registry gains |
| Handlers.BackgroundSendLocked | internal/server/handlers.go:617-669 | answered meanwhile: nothing runs, ready; otherwise the CLI runs on the pending message with the resume rule, and the apology (then responded) or the reply with its raw output and the title rule (then responded) is saved |
| Handlers.SaveReply | internal/server/handlers.go:639-669 | the apology or the reply is appended, the title rule applied after a reply, and the status set to responded |
| Handlers.HandleSendMessage | internal/server/handlers.go:236-383 | the submission is `Submitted(form)`, the "message" field or else the assembled answers; an empty submission is refused and an unknown request not found; while work is under way the message is only queued; otherwise the CLI runs, resuming iff messages exist, and the user message then the apology or reply are saved; the session registry gains at most the request's session |
| Handlers.SendLoaded | internal/server/handlers.go:267-288 | the gate: the message is only queued iff the status is neither empty nor ready |
| Handlers.Submitted | internal/server/handlers.go:251-255 | the text a send submits: the "message" field, or else the assembled answers of the question form |
| Handlers.SendNow | internal/server/handlers.go:290-383 | under the session lock the user message is saved and the CLI call made, resuming iff the request had messages |
| Handlers.SaveAnswer | internal/server/handlers.go:311-383 | the apology or the reply is saved after the user's message, the reply's questions numbered and its prompt flag returned |
| Handlers.ShownStatus | internal/server/handlers.go:185-195 | the page shows the stored status, or ready when none is stored and the repository is on disk |
| Handlers.PendingQuestions | internal/server/handlers.go:206-213 | no messages, or a newest message from the user, offer no questions |
| Handlers.HandleShow | internal/server/handlers.go:155-225 | an unknown request is not found; otherwise the page has the request, the shown status, the timeline holding every message once, the newest reply's questions, and its prompt flag unless already published |
| Handlers.LaterReplyNotPublished | internal/server/handlers.go:215-221 | a reply saved after the publication offers its prompt again |
| Handlers.Anchor | internal/server/handlers.go:449-452 | the revision is anchored to the newest message iff there is one |
| Handlers.RecordPublication | internal/server/handlers.go:448-460 | the revision is appended anchored to the newest message and the request marked published; the page then treats the newest reply as published |
| Handlers.HandlePublish | internal/server/handlers.go:385-471 | unknown request: not found; no generated prompt: refused with the message; otherwise the gh call is made and its outcome recorded as `Publication` says: the whole new request sequence is the old one with only this request's row replaced (the generated title, then `IssueRecorded`), the revision appended only on success, nothing changing on the messages |
| Handlers.PublishContent | internal/server/handlers.go:409-446 | the body and title are composed, a generated title stored whatever gh does, and the outcome recorded as `Publication` says, with every other request row unchanged |
| Handlers.PublishIssue | internal/server/handlers.go:428-446 | a recorded issue is edited, else one is created under "Prompt Request: " + title; the new request sequence replaces only this row, by `IssueRecorded`; a gh failure keeps the row and records no revision, and reports gh's error |
| Handlers.IssueRecorded | internal/server/handlers.go:428-446 | after gh failed the row is unchanged; after success it is published with its title and session kept, an edit changes nothing else, and a created issue's number and URL are stored |
| Handlers.RecordIssue | internal/server/handlers.go:443-460 | a created issue's number and URL are stored, then the publication is recorded |
| Handlers.TwoPollsOneSend | internal/server/handlers.go:544-555 | two polls of a ready request with a pending message start exactly one send |
| Handlers.QueuedMessageIsSent | internal/server/handlers.go:267-288 | a message queued during the clone is sent by the poll after the clone succeeds |
| Handlers.QueueWhileCloning | internal/server/handlers.go:267-288 | while cloning a sent message is only saved and stays pending |
| Handlers.CloneThenPoll | internal/server/handlers.go:493-555 | a successful clone, then a poll, starts the background send |
| Handlers.ReplyWhileWaiting | internal/server/handlers.go:617-622 | a reply saved while the background send waits for the lock stops it: nothing runs and the status is ready |
| Handlers.PublishThenShow | internal/server/handlers.go:215-221 | after a successful publish the page no longer offers to publish the same reply |

## Left out

- HTTP plumbing is not modelled: path and form parsing, templates, rendering of pages and fragments, redirects, HX headers and the inline scripts. A handler's view is reduced to the data its template is given.
- An id that fails to parse in a route (404 before any work) and a form that fails to parse (400) are not modelled; ids arrive as integers and forms as maps.
- Goroutines and `sync.Mutex` blocking are not modelled. A `go` statement becomes a returned `Job`, and the compare-and-swap is one atomic step. The locks are kept only as registries. Interleavings appear only as the scenarios `Handlers.ReplyWhileWaiting` and `Handlers.TwoPollsOneSend`.
- Store errors from SQL are not modelled. The in-memory store fails only for a missing request or repository, so the handlers' 500 paths for `ListMessages`, `ListRevisions` and `UpsertRepository` cannot arise, and `CreatePromptRequest` always finds its repository.
- Handlers.HandleCreate: `repo.LocalPath`'s error path is not taken, because the cache directory is a parameter (internal/paths/paths.go is not part of this model).
- Handlers.BackgroundSendLocked: the failure of `ListMessages` (error "Failed to list messages") and of saving the reply (error "Failed to save response") cannot happen in the store modelled, so they have no case.
- The claude subprocess itself (timeout, SIGTERM and wait delay, mapping of its errors to texts) is not modelled; its outcome is a parameter, `Handlers.SendOutcome`.
- The JSON schema and the system prompt passed to claude are constants of the source; here they are parameters of `Claude.SendMessageCommand`.
- git clone and pull, `os.Stat`, `os.MkdirAll` and `repo.IsCloned` are not modelled; their results are parameters (`hasGitDir`, `cloned`, `gitFailure`).
- gh commands (`CreateIssue`, `EditIssue`, `CheckAuth`) are not run. Only how `CreateIssue` reads gh's output is modelled (`GitHub.IssueFromOutput`); for an edit only success or failure with an error text matters.
- JSON text syntax is not modelled: text is read and written by the `Codec` parameter, constrained by `Json.Lawful`.
- JSON floating-point numbers are not given a value: a float in an int field fails to decode, as in Go, but is otherwise opaque.
- Json.Field: a JSON object with duplicate keys is decoded from its last matching member only; Go decodes each occurrence in turn into the same field, so an earlier occurrence's failure, or the merge of nested objects, is not reproduced.
- Text.TrimSpace: ASCII white space only; Go's strings.TrimSpace also trims Unicode white space.
- Json.KeyMatches: ASCII case folding only; Go's encoding/json also folds some non-ASCII letters.
- The `%q` quoting in the error messages of `extractIssueNumber` (both the URL and, inside Atoi's error, the last piece) and `ValidateURL` is written as plain double quotes around the text, without Go's escaping.
- Ordering by time is modelled as insertion order. This covers the `created_at` order of messages, the `published_at` order of revisions, and the `ORDER BY updated_at` of `ListPromptRequests`. Ties of the second-resolution timestamps are not modelled, and neither are the timestamps themselves or their parsing.
- Queries.Store.ListPromptRequests: returns the undeleted requests in id order rather than newest `updated_at` first.
- Queries.Store.GetLatestGeneratedContent: a row that fails to scan cannot arise in the store modelled, so skipping one is not modelled.
- `ListRepositories`, `GetMessage`, the dashboard and repository pages, and server start-up (`New`, `parsePages`, `Listen`, `Serve`, `Addr`) are not modelled.
- The new session id (a random UUID) is a parameter of `Handlers.HandleCreate`.
- Go's 64-bit ids and issue numbers are unbounded integers; only `strconv.Atoi` and the JSON int decode check the 64-bit range.
- cmd/prompter/main.go and internal/db/db.go (the schema) are not part of this model.
