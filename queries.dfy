/**
 * internal/db/queries.go over an in-memory store: the four tables become sequences
 * whose row ids are their positions plus one (AUTOINCREMENT keys of tables that are
 * never shrunk), and the foreign-key checks SQLite enforces become explicit error
 * paths. It also holds extractGeneratedContent, the third decoder of stored replies,
 * and the newest-first scan of GetLatestGeneratedContent.
 */
module Queries {
  import opened Wrappers
  import opened Json
  import opened Models
  import Claude

  // ---------------------------------------------------------------------------
  // Generated content

  /** The generated parts of a reply, as extractGeneratedContent decodes them. */
  datatype Generated = Generated(title: string, motivation: string, prompt: string)

  datatype GeneratedContent = GeneratedContent(title: string, motivation: string, prompt: string)

  /** The envelope with only the fields extractGeneratedContent reads. */
  datatype GeneratedEnvelope = GeneratedEnvelope(structuredOutput: Option<Generated>, result: string)

  function DecodeGenerated(j: Json): (r: Option<Generated>)
    ensures j.JNull? ==> r == Some(Generated("", "", ""))
    ensures r.Some? ==> j.JNull? || j.JObject?
  {
    match Members(j)
    case None => None
    case Some(ms) =>
      var title := DecodeString(Field(ms, "generated_title"));
      var motivation := DecodeString(Field(ms, "generated_motivation"));
      var prompt := DecodeString(Field(ms, "generated_prompt"));
      if title.Some? && motivation.Some? && prompt.Some? then
        Some(Generated(title.value, motivation.value, prompt.value))
      else None
  }

  function DecodeGeneratedEnvelope(j: Json): (r: Option<GeneratedEnvelope>)
    ensures j.JNull? ==> r == Some(GeneratedEnvelope(None, ""))
    ensures r.Some? ==> j.JNull? || j.JObject?
  {
    match Members(j)
    case None => None
    case Some(ms) =>
      var so := DecodePointer(Field(ms, "structured_output"), DecodeGenerated);
      var result := DecodeString(Field(ms, "result"));
      if so.Some? && result.Some? then Some(GeneratedEnvelope(so.value, result.value)) else None
  }

  function GeneratedFromText(c: Codec, text: string): Option<Generated> {
    match c.parse(text)
    case None => None
    case Some(j) => DecodeGenerated(j)
  }

  function GeneratedEnvelopeFromText(c: Codec, text: string): Option<GeneratedEnvelope> {
    match c.parse(text)
    case None => None
    case Some(j) => DecodeGeneratedEnvelope(j)
  }

  /** The `extract` closure: content only from a decoded object with a non-empty prompt. */
  function Content(g: Option<Generated>): (r: Option<GeneratedContent>)
    ensures r.Some? <==> g.Some? && g.value.prompt != ""
    ensures r.Some? ==> r.value == GeneratedContent(g.value.title, g.value.motivation, g.value.prompt)
  {
    if g.Some? && g.value.prompt != "" then
      Some(GeneratedContent(g.value.title, g.value.motivation, g.value.prompt))
    else None
  }

  /**
   * extractGeneratedContent; None stands for nil. Tried in order: the structured
   * output, the result text, the whole text decoded directly. A candidate whose prompt
   * is empty does not end the search.
   */
  function ExtractGeneratedContent(c: Codec, raw: string): (r: Option<GeneratedContent>)
    ensures r.Some? ==> r.value.prompt != ""
  {
    var env := GeneratedEnvelopeFromText(c, raw);
    if env.Some? && Content(env.value.structuredOutput).Some? then Content(env.value.structuredOutput)
    else if env.Some? && env.value.result != "" && Content(GeneratedFromText(c, env.value.result)).Some? then
      Content(GeneratedFromText(c, env.value.result))
    else Content(GeneratedFromText(c, raw))
  }

  /** The decoded objects extractGeneratedContent considers, in the order it tries them. */
  function Candidates(c: Codec, raw: string): seq<Generated> {
    var env := GeneratedEnvelopeFromText(c, raw);
    var fromStructured := if env.Some? && env.value.structuredOutput.Some? then [env.value.structuredOutput.value] else [];
    var fromResult :=
      if env.Some? && env.value.result != "" && GeneratedFromText(c, env.value.result).Some? then
        [GeneratedFromText(c, env.value.result).value]
      else [];
    var direct := if GeneratedFromText(c, raw).Some? then [GeneratedFromText(c, raw).value] else [];
    fromStructured + fromResult + direct
  }

  /** The content of the first candidate whose prompt is not empty. */
  function FirstWithPrompt(gs: seq<Generated>): Option<GeneratedContent> {
    if gs == [] then None
    else if gs[0].prompt != "" then Content(Some(gs[0]))
    else FirstWithPrompt(gs[1..])
  }

  /** FirstWithPrompt finds nothing exactly when every prompt is empty, and else the first hit. */
  lemma {:induction false} FirstWithPromptIsFirst(gs: seq<Generated>)
    ensures var r := FirstWithPrompt(gs);
      && (r.None? <==> forall i | 0 <= i < |gs| :: gs[i].prompt == "")
      && (r.Some? ==> exists i | 0 <= i < |gs| ::
           (&& Content(Some(gs[i])) == r
            && forall k | 0 <= k < i :: gs[k].prompt == ""))
  {
    if gs != [] && gs[0].prompt == "" {
      var rest := FirstWithPrompt(gs[1..]);
      FirstWithPromptIsFirst(gs[1..]);
      assert forall i | 1 <= i < |gs| :: gs[i] == gs[1..][i - 1];
      if rest.Some? {
        var i :| 0 <= i < |gs[1..]| && Content(Some(gs[1..][i])) == rest && forall k | 0 <= k < i :: gs[1..][k].prompt == "";
        assert Content(Some(gs[i + 1])) == rest;
      }
    }
  }

  /**
   * Title, motivation and prompt always come from one and the same decoded object:
   * the first candidate, in the search order, whose prompt is not empty.
   */
  lemma ExtractIsFirstWithPrompt(c: Codec, raw: string)
    ensures ExtractGeneratedContent(c, raw) == FirstWithPrompt(Candidates(c, raw))
  {
    var env := GeneratedEnvelopeFromText(c, raw);
    var a := if env.Some? && env.value.structuredOutput.Some? then [env.value.structuredOutput.value] else [];
    var b :=
      if env.Some? && env.value.result != "" && GeneratedFromText(c, env.value.result).Some? then
        [GeneratedFromText(c, env.value.result).value]
      else [];
    var d := if GeneratedFromText(c, raw).Some? then [GeneratedFromText(c, raw).value] else [];
    assert Candidates(c, raw) == a + b + d;
    FirstWithPromptAppend(a, b + d);
    FirstWithPromptAppend(b, d);
    assert a + b + d == a + (b + d);
  }

  lemma FirstWithPromptAppend(a: seq<Generated>, b: seq<Generated>)
    requires |a| <= 1
    ensures FirstWithPrompt(a + b) == if FirstWithPrompt(a).Some? then FirstWithPrompt(a) else FirstWithPrompt(b)
  {
    if a != [] {
      assert (a + b)[0] == a[0];
      assert (a + b)[1..] == b;
      assert a[1..] == [];
      if a[0].prompt == "" {
        assert FirstWithPrompt(a) == FirstWithPrompt(a[1..]) == None;
        assert FirstWithPrompt(a + b) == FirstWithPrompt((a + b)[1..]);
      }
    } else {
      assert a + b == b;
    }
  }

  function EncodeGenerated(g: Generated): Json {
    JObject([
      ("generated_title", JString(g.title)),
      ("generated_motivation", JString(g.motivation)),
      ("generated_prompt", JString(g.prompt))])
  }

  lemma GeneratedRoundTrip(g: Generated)
    ensures DecodeGenerated(EncodeGenerated(g)) == Some(g)
  {
    var ms := EncodeGenerated(g).members;
    FieldAt(ms, 0, "generated_title");
    FieldAt(ms, 1, "generated_motivation");
    FieldAt(ms, 2, "generated_prompt");
  }

  /** A reply that decodes as a full Claude.Response yields the same generated fields. */
  lemma ResponseAgreesOnGenerated(j: Json)
    requires Claude.DecodeResponse(j).Some?
    ensures var resp := Claude.DecodeResponse(j).value;
      DecodeGenerated(j) == Some(Generated(resp.generatedTitle, resp.generatedMotivation, resp.generatedPrompt))
  {
  }

  /** Structured output with a prompt is taken as it is. */
  lemma StructuredContent(c: Codec, g: Generated)
    requires Lawful(c) && g.prompt != ""
    ensures ExtractGeneratedContent(c, c.serialize(JObject([("structured_output", EncodeGenerated(g))])))
      == Some(GeneratedContent(g.title, g.motivation, g.prompt))
  {
    var ms := [("structured_output", EncodeGenerated(g))];
    FieldAt(ms, 0, "structured_output");
    FieldAbsent(ms, "result");
    GeneratedRoundTrip(g);
  }

  /**
   * Structured output whose prompt is empty does not stop the search: the object
   * serialised into the result text is used.
   */
  lemma EmptyStructuredPromptFallsThrough(c: Codec, empty: Generated, g: Generated)
    requires Lawful(c) && empty.prompt == "" && g.prompt != ""
    ensures var text := c.serialize(EncodeGenerated(g));
      ExtractGeneratedContent(c, c.serialize(JObject([("structured_output", EncodeGenerated(empty)), ("result", JString(text))])))
        == Some(GeneratedContent(g.title, g.motivation, g.prompt))
  {
    var text := c.serialize(EncodeGenerated(g));
    var ms := [("structured_output", EncodeGenerated(empty)), ("result", JString(text))];
    FieldAt(ms, 0, "structured_output");
    FieldAt(ms, 1, "result");
    GeneratedRoundTrip(empty);
    GeneratedRoundTrip(g);
    assert text != "";
  }

  /** Generated fields at the top level are found by the direct decode. */
  lemma DirectContent(c: Codec, g: Generated)
    requires Lawful(c) && g.prompt != ""
    ensures ExtractGeneratedContent(c, c.serialize(EncodeGenerated(g))) == Some(GeneratedContent(g.title, g.motivation, g.prompt))
  {
    var ms := EncodeGenerated(g).members;
    FieldAbsent(ms, "structured_output");
    FieldAbsent(ms, "result");
    GeneratedRoundTrip(g);
  }

  /** A reply whose prompt is empty yields nothing, wherever it is placed. */
  lemma NoPromptNoContent(c: Codec, g: Generated)
    requires Lawful(c) && g.prompt == ""
    ensures ExtractGeneratedContent(c, c.serialize(EncodeGenerated(g))).None?
    ensures ExtractGeneratedContent(c, c.serialize(JObject([("structured_output", EncodeGenerated(g))]))).None?
  {
    GeneratedRoundTrip(g);
    var ms := EncodeGenerated(g).members;
    FieldAbsent(ms, "structured_output");
    FieldAbsent(ms, "result");
    var ems := [("structured_output", EncodeGenerated(g))];
    FieldAt(ems, 0, "structured_output");
    FieldAbsent(ems, "result");
    FieldAbsent(ems, "generated_title");
    FieldAbsent(ems, "generated_motivation");
    FieldAbsent(ems, "generated_prompt");
  }

  // ---------------------------------------------------------------------------
  // Rows

  /** A prompt_requests row. */
  datatype PromptRequestRow = PromptRequestRow(
    id: int,
    repositoryId: int,
    title: string,
    status: PromptStatus,
    sessionId: string,
    issueNumber: Option<int>,
    issueUrl: Option<string>)

  /** The rows of `xs` that satisfy `p`, in order. */
  function Select<T>(xs: seq<T>, p: T -> bool): (r: seq<T>)
    ensures |r| <= |xs|
    ensures forall i | 0 <= i < |r| :: p(r[i]) && r[i] in xs
  {
    if xs == [] then []
    else if p(xs[|xs| - 1]) then Select(xs[..|xs| - 1], p) + [xs[|xs| - 1]]
    else Select(xs[..|xs| - 1], p)
  }

  lemma {:induction false} SelectMembers<T>(xs: seq<T>, p: T -> bool, x: T)
    ensures x in Select(xs, p) <==> x in xs && p(x)
  {
    if xs != [] {
      var init := xs[..|xs| - 1];
      SelectMembers(init, p, x);
      assert xs == init + [xs[|xs| - 1]];
    }
  }

  lemma {:induction false} SelectAppend<T>(a: seq<T>, b: seq<T>, p: T -> bool)
    ensures Select(a + b, p) == Select(a, p) + Select(b, p)
  {
    if b != [] {
      var init := b[..|b| - 1];
      assert (a + b)[..|a + b| - 1] == a + init;
      SelectAppend(a, init, p);
    } else {
      assert a + b == a;
    }
  }

  /**
   * The raw responses GetLatestGeneratedContent reads, newest first: those of the
   * request's assistant messages that have one.
   */
  function RawRows(msgs: seq<Message>, prId: int): seq<string> {
    if msgs == [] then []
    else
      var m := msgs[|msgs| - 1];
      var rest := RawRows(msgs[..|msgs| - 1], prId);
      if m.promptRequestId == prId && m.role == Assistant && m.rawResponse.Some? then [m.rawResponse.value] + rest
      else rest
  }

  /** Only assistant messages of the request with a raw response contribute a row. */
  lemma {:induction false} RawRowsMembers(msgs: seq<Message>, prId: int, raw: string)
    ensures raw in RawRows(msgs, prId) <==>
      exists i | 0 <= i < |msgs| ::
        msgs[i].promptRequestId == prId && msgs[i].role == Assistant && msgs[i].rawResponse == Some(raw)
  {
    if msgs != [] {
      var n := |msgs| - 1;
      var init := msgs[..n];
      RawRowsMembers(init, prId, raw);
      assert forall i | 0 <= i < n :: init[i] == msgs[i];
      if raw in RawRows(msgs, prId) && raw !in RawRows(init, prId) {
        assert msgs[n].rawResponse == Some(raw);
      }
      if raw !in RawRows(msgs, prId) {
        forall i | 0 <= i < |msgs|
          ensures !(msgs[i].promptRequestId == prId && msgs[i].role == Assistant && msgs[i].rawResponse == Some(raw))
        {
          if i < n {
            assert msgs[i] == init[i];
          }
        }
      }
    }
  }

  /** Later messages come first. */
  lemma {:induction false} RawRowsAppend(a: seq<Message>, b: seq<Message>, prId: int)
    ensures RawRows(a + b, prId) == RawRows(b, prId) + RawRows(a, prId)
  {
    if b == [] {
      assert a + b == a;
    } else {
      var init := b[..|b| - 1];
      assert (a + b)[..|a + b| - 1] == a + init;
      RawRowsAppend(a, init, prId);
    }
  }

  /** The content of the newest row that yields some, or the scan's error. */
  function LatestGenerated(c: Codec, rows: seq<string>): (r: Result<GeneratedContent, string>)
    ensures r.Err? ==> r.error == "no generated prompt found"
  {
    if rows == [] then Err("no generated prompt found")
    else
      match ExtractGeneratedContent(c, rows[0])
      case Some(gc) => Ok(gc)
      case None => LatestGenerated(c, rows[1..])
  }

  /**
   * The scan fails exactly when no row yields content, and otherwise gives the content
   * of the first row, newest first, that yields some.
   */
  lemma {:induction false} LatestGeneratedIsFirst(c: Codec, rows: seq<string>)
    ensures var r := LatestGenerated(c, rows);
      && (r.Err? <==> forall i | 0 <= i < |rows| :: ExtractGeneratedContent(c, rows[i]).None?)
      && (r.Ok? ==> exists i | 0 <= i < |rows| ::
            (&& ExtractGeneratedContent(c, rows[i]) == Some(r.value)
             && forall k | 0 <= k < i :: ExtractGeneratedContent(c, rows[k]).None?))
  {
    if rows != [] && ExtractGeneratedContent(c, rows[0]).None? {
      var tail := rows[1..];
      LatestGeneratedIsFirst(c, tail);
      var rest := LatestGenerated(c, tail);
      assert forall i | 1 <= i < |rows| :: rows[i] == tail[i - 1];
      if rest.Ok? {
        var i :| 0 <= i < |tail| && ExtractGeneratedContent(c, tail[i]) == Some(rest.value)
          && forall k | 0 <= k < i :: ExtractGeneratedContent(c, tail[k]).None?;
        assert ExtractGeneratedContent(c, rows[i + 1]) == Some(rest.value);
      }
    }
  }

  /** A newly saved reply with a generated prompt is what publishing picks up next. */
  lemma NewestReplyWins(c: Codec, msgs: seq<Message>, m: Message)
    requires m.role == Assistant && m.rawResponse.Some?
    requires ExtractGeneratedContent(c, m.rawResponse.value).Some?
    ensures LatestGenerated(c, RawRows(msgs + [m], m.promptRequestId))
      == Ok(ExtractGeneratedContent(c, m.rawResponse.value).value)
  {
    RawRowsAppend(msgs, [m], m.promptRequestId);
    assert RawRows([m], m.promptRequestId) == [m.rawResponse.value];
  }

  /** A reply without a generated prompt leaves the latest content as it was. */
  lemma ReplyWithoutPrompt(c: Codec, msgs: seq<Message>, m: Message, prId: int)
    requires m.rawResponse.None? || ExtractGeneratedContent(c, m.rawResponse.value).None?
    ensures LatestGenerated(c, RawRows(msgs + [m], prId)) == LatestGenerated(c, RawRows(msgs, prId))
  {
    RawRowsAppend(msgs, [m], prId);
    var rows := RawRows(msgs, prId);
    if RawRows([m], prId) != [] {
      assert RawRows([m], prId) == [m.rawResponse.value];
      assert ([m.rawResponse.value] + rows)[1..] == rows;
    } else {
      assert [] + rows == rows;
    }
  }

  // ---------------------------------------------------------------------------
  // The store

  /** The prompt request of `row` joined with the repository columns a query selects. */
  function Joined(row: PromptRequestRow, repoUrl: string, repoLocalPath: string, messageCount: int, revisionCount: int): PromptRequest {
    PromptRequest(row.id, row.repositoryId, row.title, row.status, row.sessionId,
      row.issueNumber, row.issueUrl, repoUrl, repoLocalPath, messageCount, revisionCount)
  }

  /** The position of the repository with this URL. */
  function FindRepository(repos: seq<Repository>, url: string): (r: Option<nat>)
    ensures r.Some? ==> r.value < |repos| && repos[r.value].url == url
    ensures r.None? ==> forall i | 0 <= i < |repos| :: repos[i].url != url
  {
    if repos == [] then None
    else if repos[|repos| - 1].url == url then Some(|repos| - 1)
    else FindRepository(repos[..|repos| - 1], url)
  }

  /** The filter of the listed requests: those not deleted. */
  predicate NotDeleted(row: PromptRequestRow) {
    row.status != Deleted
  }

  /** The filter of a request's messages. */
  function MessageOf(prId: int): Message -> bool {
    (m: Message) => m.promptRequestId == prId
  }

  /** The filter of a request's revisions. */
  function RevisionOf(prId: int): Revision -> bool {
    (v: Revision) => v.promptRequestId == prId
  }

  class Store {
    var repositories: seq<Repository>
    var promptRequests: seq<PromptRequestRow>
    var messages: seq<Message>
    var revisions: seq<Revision>

    /** Ids are positions plus one, URLs are unique, and every reference resolves. */
    ghost predicate Valid()
      reads this
    {
      && (forall i | 0 <= i < |repositories| :: repositories[i].id == i + 1)
      && (forall i, j | 0 <= i < j < |repositories| :: repositories[i].url != repositories[j].url)
      && (forall i | 0 <= i < |promptRequests| ::
            promptRequests[i].id == i + 1 && 1 <= promptRequests[i].repositoryId <= |repositories|)
      && (forall i | 0 <= i < |messages| ::
            messages[i].id == i + 1 && 1 <= messages[i].promptRequestId <= |promptRequests|)
      && (forall i | 0 <= i < |revisions| ::
            revisions[i].id == i + 1 && 1 <= revisions[i].promptRequestId <= |promptRequests|)
    }

    constructor ()
      ensures Valid()
      ensures repositories == [] && promptRequests == [] && messages == [] && revisions == []
    {
      repositories, promptRequests, messages, revisions := [], [], [], [];
    }

    /** GetRepositoryByURL */
    function RepositoryByUrl(url: string): (r: Result<Repository, string>)
      reads this
      ensures r.Ok? ==> r.value in repositories && r.value.url == url
      ensures r.Err? <==> forall i | 0 <= i < |repositories| :: repositories[i].url != url
    {
      match FindRepository(repositories, url)
      case Some(i) => Ok(repositories[i])
      case None => Err("getting repository: sql: no rows in result set")
    }

    /** UpsertRepository: a new URL is added; a known one gets the new local path. */
    method UpsertRepository(url: string, localPath: string) returns (r: Repository)
      requires Valid()
      modifies this
      ensures Valid()
      ensures r.url == url && r.localPath == localPath && RepositoryByUrl(url) == Ok(r)
      ensures FindRepository(old(repositories), url).None? ==>
        r.id == |old(repositories)| + 1 && repositories == old(repositories) + [r]
      ensures FindRepository(old(repositories), url).Some? ==>
        var i := FindRepository(old(repositories), url).value;
        r.id == i + 1 && repositories == old(repositories)[i := r]
      ensures promptRequests == old(promptRequests) && messages == old(messages) && revisions == old(revisions)
    {
      match FindRepository(repositories, url)
      case Some(i) =>
        r := Repository(i + 1, url, localPath);
        repositories := repositories[i := r];
        assert forall k | 0 <= k < |repositories| && k != i :: repositories[k].url != url;
        assert FindRepository(repositories, url) == Some(i) by {
          FindUnique(repositories, url, i);
        }
      case None =>
        r := Repository(|repositories| + 1, url, localPath);
        repositories := repositories + [r];
        assert FindRepository(repositories, url) == Some(|repositories| - 1);
    }

    /** GetPromptRequest: the row joined with its repository; the counts stay zero. */
    function GetPromptRequest(id: int): (r: Result<PromptRequest, string>)
      requires Valid()
      reads this
      ensures r.Ok? <==> 1 <= id <= |promptRequests|
      ensures r.Ok? ==> r.value.id == id && r.value.messageCount == 0 && r.value.revisionCount == 0
    {
      if 1 <= id <= |promptRequests| then
        var row := promptRequests[id - 1];
        var repo := repositories[row.repositoryId - 1];
        Ok(Joined(row, repo.url, repo.localPath, 0, 0))
      else Err("getting prompt request: sql: no rows in result set")
    }

    /** CreatePromptRequest: a draft without title or issue, for an existing repository. */
    method CreatePromptRequest(repoId: int, sessionId: string) returns (r: Result<PromptRequest, string>)
      requires Valid()
      modifies this
      ensures Valid()
      ensures r.Ok? <==> 1 <= repoId <= |old(repositories)|
      ensures r.Ok? ==>
        && promptRequests == old(promptRequests) + [PromptRequestRow(|old(promptRequests)| + 1, repoId, "", Draft, sessionId, None, None)]
        && r == GetPromptRequest(|promptRequests|)
      ensures r.Err? ==> promptRequests == old(promptRequests)
      ensures repositories == old(repositories) && messages == old(messages) && revisions == old(revisions)
    {
      if 1 <= repoId <= |repositories| {
        var row := PromptRequestRow(|promptRequests| + 1, repoId, "", Draft, sessionId, None, None);
        promptRequests := promptRequests + [row];
        r := GetPromptRequest(row.id);
      } else {
        r := Err("creating prompt request: FOREIGN KEY constraint failed");
      }
    }

    /**
     * ListPromptRequests: every request that is not deleted, with its repository's URL
     * and its message and revision counts. The query selects no local path, so that
     * field stays empty.
     */
    function ListPromptRequests(): (r: seq<PromptRequest>)
      requires Valid()
      reads this
      ensures var visible := Select(promptRequests, NotDeleted);
        |r| == |visible| &&
        forall i | 0 <= i < |r| ::
          && r[i].id == visible[i].id && r[i].status == visible[i].status && r[i].title == visible[i].title
          && r[i].repoUrl == repositories[visible[i].repositoryId - 1].url && r[i].repoLocalPath == ""
          && r[i].messageCount == |ListMessages(r[i].id)| && r[i].revisionCount == |ListRevisions(r[i].id)|
    {
      var visible := Select(promptRequests, NotDeleted);
      seq(|visible|, i requires 0 <= i < |visible| && 1 <= visible[i].repositoryId <= |repositories| reads this =>
        Joined(visible[i], repositories[visible[i].repositoryId - 1].url, "",
          |ListMessages(visible[i].id)|, |ListRevisions(visible[i].id)|))
    }

    method UpdatePromptRequestTitle(id: int, title: string)
      requires Valid()
      modifies this
      ensures Valid()
      ensures 1 <= id <= |old(promptRequests)| ==>
        promptRequests == old(promptRequests)[id - 1 := old(promptRequests)[id - 1].(title := title)]
      ensures !(1 <= id <= |old(promptRequests)|) ==> promptRequests == old(promptRequests)
      ensures repositories == old(repositories) && messages == old(messages) && revisions == old(revisions)
    {
      if 1 <= id <= |promptRequests| {
        promptRequests := promptRequests[id - 1 := promptRequests[id - 1].(title := title)];
      }
    }

    method UpdatePromptRequestStatus(id: int, status: PromptStatus)
      requires Valid()
      modifies this
      ensures Valid()
      ensures 1 <= id <= |old(promptRequests)| ==>
        promptRequests == old(promptRequests)[id - 1 := old(promptRequests)[id - 1].(status := status)]
      ensures !(1 <= id <= |old(promptRequests)|) ==> promptRequests == old(promptRequests)
      ensures repositories == old(repositories) && messages == old(messages) && revisions == old(revisions)
    {
      if 1 <= id <= |promptRequests| {
        promptRequests := promptRequests[id - 1 := promptRequests[id - 1].(status := status)];
      }
    }

    /** UpdatePromptRequestIssue: records the issue and marks the request published. */
    method UpdatePromptRequestIssue(id: int, issueNumber: int, issueUrl: string)
      requires Valid()
      modifies this
      ensures Valid()
      ensures 1 <= id <= |old(promptRequests)| ==>
        promptRequests == old(promptRequests)[id - 1 :=
          old(promptRequests)[id - 1].(issueNumber := Some(issueNumber), issueUrl := Some(issueUrl), status := Published)]
      ensures !(1 <= id <= |old(promptRequests)|) ==> promptRequests == old(promptRequests)
      ensures repositories == old(repositories) && messages == old(messages) && revisions == old(revisions)
    {
      if 1 <= id <= |promptRequests| {
        promptRequests := promptRequests[id - 1 :=
          promptRequests[id - 1].(issueNumber := Some(issueNumber), issueUrl := Some(issueUrl), status := Published)];
      }
    }

    /**
     * DeletePromptRequest: a soft delete. The row, its messages and its revisions stay
     * and can still be fetched; the request no longer appears in the list.
     */
    method DeletePromptRequest(id: int)
      requires Valid()
      modifies this
      ensures Valid()
      ensures 1 <= id <= |old(promptRequests)| ==>
        promptRequests == old(promptRequests)[id - 1 := old(promptRequests)[id - 1].(status := Deleted)]
      ensures !(1 <= id <= |old(promptRequests)|) ==> promptRequests == old(promptRequests)
      ensures |promptRequests| == |old(promptRequests)|
      ensures 1 <= id <= |promptRequests| ==> GetPromptRequest(id).Ok? && GetPromptRequest(id).value.status == Deleted
      ensures forall p | p in ListPromptRequests() :: p.id != id
      ensures repositories == old(repositories) && messages == old(messages) && revisions == old(revisions)
    {
      UpdatePromptRequestStatus(id, Deleted);
      ListedAreNotDeleted();
    }

    /** Every listed request is one of the store's requests, and none is deleted. */
    lemma ListedAreNotDeleted()
      requires Valid()
      ensures forall p | p in ListPromptRequests() ::
        1 <= p.id <= |promptRequests| && p.status != Deleted && promptRequests[p.id - 1].status != Deleted
    {
      forall p | p in ListPromptRequests()
        ensures 1 <= p.id <= |promptRequests| && p.status != Deleted && promptRequests[p.id - 1].status != Deleted
      {
        ListedRow(p);
      }
    }

    /** A listed request, read back from the store. */
    lemma ListedRow(p: PromptRequest)
      requires Valid() && p in ListPromptRequests()
      ensures 1 <= p.id <= |promptRequests| && p.status != Deleted && promptRequests[p.id - 1].status != Deleted
    {
      var row := ListedAt(p);
      RowInStore(row);
    }

    /** A listed request is made from a row that is not deleted. */
    lemma ListedAt(p: PromptRequest) returns (row: PromptRequestRow)
      requires Valid() && p in ListPromptRequests()
      ensures row in promptRequests && row.status != Deleted
      ensures p.id == row.id && p.status == row.status
    {
      var all := ListPromptRequests();
      var i :| 0 <= i < |all| && all[i] == p;
      var visible := Select(promptRequests, NotDeleted);
      row := visible[i];
    }

    /** A row of the store sits at the position its id names. */
    lemma RowInStore(row: PromptRequestRow)
      requires Valid() && row in promptRequests
      ensures 1 <= row.id <= |promptRequests| && promptRequests[row.id - 1] == row
    {
      var k :| 0 <= k < |promptRequests| && promptRequests[k] == row;
    }

    /** A request that is not deleted is listed. */
    lemma NotDeletedIsListed(id: int)
      requires Valid() && 1 <= id <= |promptRequests| && promptRequests[id - 1].status != Deleted
      ensures exists p | p in ListPromptRequests() :: p.id == id
    {
      var visible := Select(promptRequests, NotDeleted);
      SelectMembers(promptRequests, NotDeleted, promptRequests[id - 1]);
      var i :| 0 <= i < |visible| && visible[i] == promptRequests[id - 1];
      var all := ListPromptRequests();
      assert all[i].id == id && all[i] in all;
    }

    /** CreateMessage: appended with the next id, for an existing prompt request. */
    method CreateMessage(prId: int, role: Role, content: string, rawResponse: Option<string>)
      returns (r: Result<Message, string>)
      requires Valid()
      modifies this
      ensures Valid()
      ensures r.Ok? <==> 1 <= prId <= |old(promptRequests)|
      ensures r.Ok? ==>
        && r.value == Message(|old(messages)| + 1, prId, role, content, rawResponse)
        && messages == old(messages) + [r.value]
      ensures r.Ok? ==> ListMessages(prId) == old(ListMessages(prId)) + [r.value]
      ensures r.Err? ==> messages == old(messages)
      ensures repositories == old(repositories) && promptRequests == old(promptRequests) && revisions == old(revisions)
    {
      if 1 <= prId <= |promptRequests| {
        var m := Message(|messages| + 1, prId, role, content, rawResponse);
        SelectAppend(messages, [m], MessageOf(prId));
        messages := messages + [m];
        r := Ok(m);
      } else {
        r := Err("creating message: FOREIGN KEY constraint failed");
      }
    }

    /** ListMessages: the request's messages, oldest first. */
    function ListMessages(prId: int): (r: seq<Message>)
      reads this
      ensures forall m :: m in r <==> m in messages && m.promptRequestId == prId
    {
      var ms := Select(messages, MessageOf(prId));
      assert forall m :: m in ms <==> m in messages && m.promptRequestId == prId by {
        forall m ensures m in ms <==> m in messages && m.promptRequestId == prId {
          SelectMembers(messages, MessageOf(prId), m);
        }
      }
      ms
    }

    /** GetLastMessage: the request's newest message, or an error when it has none. */
    function GetLastMessage(prId: int): (r: Result<Message, string>)
      reads this
      ensures r.Ok? <==> ListMessages(prId) != []
      ensures r.Ok? ==> r.value == ListMessages(prId)[|ListMessages(prId)| - 1]
    {
      var ms := ListMessages(prId);
      if ms == [] then Err("getting last message: sql: no rows in result set") else Ok(ms[|ms| - 1])
    }

    /** CreateRevision: appended with the next id, for an existing prompt request. */
    method CreateRevision(prId: int, content: string, afterMessageId: Option<int>)
      returns (r: Result<Revision, string>)
      requires Valid()
      modifies this
      ensures Valid()
      ensures r.Ok? <==> 1 <= prId <= |old(promptRequests)|
      ensures r.Ok? ==>
        && r.value == Revision(|old(revisions)| + 1, prId, content, afterMessageId)
        && revisions == old(revisions) + [r.value]
      ensures r.Ok? ==> ListRevisions(prId) == old(ListRevisions(prId)) + [r.value]
      ensures r.Err? ==> revisions == old(revisions)
      ensures repositories == old(repositories) && promptRequests == old(promptRequests) && messages == old(messages)
    {
      if 1 <= prId <= |promptRequests| {
        var rev := Revision(|revisions| + 1, prId, content, afterMessageId);
        SelectAppend(revisions, [rev], RevisionOf(prId));
        revisions := revisions + [rev];
        r := Ok(rev);
      } else {
        r := Err("creating revision: FOREIGN KEY constraint failed");
      }
    }

    /** ListRevisions: the request's revisions, oldest first. */
    function ListRevisions(prId: int): (r: seq<Revision>)
      reads this
      ensures forall v :: v in r <==> v in revisions && v.promptRequestId == prId
    {
      var vs := Select(revisions, RevisionOf(prId));
      assert forall v :: v in vs <==> v in revisions && v.promptRequestId == prId by {
        forall v ensures v in vs <==> v in revisions && v.promptRequestId == prId {
          SelectMembers(revisions, RevisionOf(prId), v);
        }
      }
      vs
    }

    /**
     * GetLatestGeneratedContent: scans the request's assistant replies newest first
     * and returns the content of the first one that has a generated prompt.
     */
    method GetLatestGeneratedContent(c: Codec, prId: int) returns (r: Result<GeneratedContent, string>)
      ensures r == LatestGenerated(c, RawRows(messages, prId))
    {
      var rows := RawRows(messages, prId);
      var i := 0;
      while i < |rows|
        invariant 0 <= i <= |rows|
        invariant LatestGenerated(c, rows) == LatestGenerated(c, rows[i..])
      {
        var gc := ExtractGeneratedContent(c, rows[i]);
        if gc.Some? {
          return Ok(gc.value);
        }
        assert rows[i..][1..] == rows[i + 1..];
        i := i + 1;
      }
      return Err("no generated prompt found");
    }
  }

  /** With unique URLs, the search finds the one position holding the URL. */
  lemma FindUnique(repos: seq<Repository>, url: string, i: nat)
    requires i < |repos| && repos[i].url == url
    requires forall k | 0 <= k < |repos| && k != i :: repos[k].url != url
    ensures FindRepository(repos, url) == Some(i)
  {
  }
}
