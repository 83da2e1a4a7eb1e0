/**
 * The HTTP handlers of internal/server/handlers.go that change state, and the
 * goroutines they start. A handler is a method over the store and the server's
 * in-memory state; what it learns from outside (whether the repository is on disk,
 * what git, claude or gh did) is a parameter, and a goroutine it starts is returned as
 * a `Job` for a later step to run. Rendering is reduced to the data the page or the
 * fragment is given.
 */
module Handlers {
  import opened Wrappers
  import opened Json
  import opened Models
  import opened Server
  import Claude
  import Normalize
  import Forms
  import Queries
  import Compose
  import Repo
  import GitHub
  import Timeline

  /** A goroutine a handler starts: asyncEnsureCloned or backgroundSendMessage. */
  datatype Job = EnsureClonedJob(prId: int, repoURL: string) | SendPendingJob(prId: int)

  /** The repository URL a route's org and repo name stand for. */
  function RepoURL(org: string, name: string): (u: string)
    ensures Text.HasPrefix(u, Repo.Host) && Text.TrimPrefix(u, Repo.Host) == org + "/" + name
  {
    Repo.Host + (org + "/" + name)
  }

  /**
   * The statuses the handlers store: none is the empty status, and only an error
   * carries a message.
   */
  ghost predicate Tidy(srv: Server)
    reads srv
  {
    forall id | id in srv.repoStatus ::
      srv.repoStatus[id].status != Unset && (srv.repoStatus[id].status != Error ==> srv.repoStatus[id].error == "")
  }

  /** The status a repository starts in when a clone or pull is launched. */
  function LaunchStatus(cloned: bool): (s: Status)
    ensures s == Pulling <==> cloned
    ensures s == Cloning <==> !cloned
  {
    if cloned then Pulling else Cloning
  }

  /**
   * handleCreate: the repository is recorded with its local path, a draft request is
   * made for it, its status says whether a pull or a clone is launched, and that work
   * is returned as a job. The request's repository exists, so creating it cannot fail.
   */
  method HandleCreate(srv: Server, store: Queries.Store, cacheDir: string, org: string, name: string,
                      cloned: bool, sessionId: string)
    returns (prId: int, job: Job)
    requires store.Valid()
    modifies srv, store
    ensures store.Valid()
    ensures var url := RepoURL(org, name);
      var found := Queries.FindRepository(old(store.repositories), url);
      var repo := Repository(if found.Some? then found.value + 1 else |old(store.repositories)| + 1,
                            url, Repo.LocalPath(cacheDir, url));
      && store.repositories == (if found.Some? then old(store.repositories)[found.value := repo] else old(store.repositories) + [repo])
      && store.promptRequests == old(store.promptRequests) + [Queries.PromptRequestRow(prId, repo.id, "", Draft, sessionId, None, None)]
    ensures prId == |old(store.promptRequests)| + 1 == |store.promptRequests|
    ensures var pr := store.GetPromptRequest(prId);
      && pr.Ok? && pr.value.title == "" && pr.value.status == Draft && pr.value.sessionId == sessionId
      && pr.value.issueNumber.None? && pr.value.repoUrl == RepoURL(org, name)
      && pr.value.repoLocalPath == Repo.LocalPath(cacheDir, RepoURL(org, name))
    ensures srv.repoStatus == old(srv.repoStatus)[prId := Entry(LaunchStatus(cloned), "")]
    ensures old(Tidy(srv)) ==> Tidy(srv)
    ensures srv.sessionMu == old(srv.sessionMu) && srv.repoMu == old(srv.repoMu)
    ensures job == EnsureClonedJob(prId, RepoURL(org, name))
    ensures store.messages == old(store.messages) && store.revisions == old(store.revisions)
  {
    var url := RepoURL(org, name);
    ghost var found := Queries.FindRepository(store.repositories, url);
    ghost var repos := store.repositories;
    var repo := store.UpsertRepository(url, Repo.LocalPath(cacheDir, url));
    assert repo == Repository(if found.Some? then found.value + 1 else |repos| + 1, url, Repo.LocalPath(cacheDir, url));
    assert 1 <= repo.id <= |store.repositories| && store.repositories[repo.id - 1] == repo by {
      var i :| 0 <= i < |store.repositories| && store.repositories[i] == repo;
    }
    ghost var upserted := store.repositories;
    var pr := store.CreatePromptRequest(repo.id, sessionId);
    assert store.repositories == upserted;
    prId := pr.value.id;
    srv.SetRepoStatus(prId, LaunchStatus(cloned), "");
    job := EnsureClonedJob(prId, url);
  }

  /**
   * asyncEnsureCloned: with the repository's lock registered (and held), clones or
   * pulls; a failure leaves the request in error with git's message, success leaves
   * it ready.
   */
  method AsyncEnsureCloned(srv: Server, cacheDir: string, prId: int, repoURL: string,
                           hasGitDir: bool, gitFailure: Option<string>)
    modifies srv
    ensures gitFailure.None? ==> srv.repoStatus == old(srv.repoStatus)[prId := Entry(Ready, "")]
    ensures gitFailure.Some? ==>
      var step := Repo.EnsureCloned(cacheDir, repoURL, hasGitDir).1;
      srv.repoStatus == old(srv.repoStatus)[prId := Entry(Error, Repo.GitError(step, gitFailure.value))]
    ensures old(Tidy(srv)) ==> Tidy(srv)
    ensures srv.repoMu.Keys == old(srv.repoMu).Keys + {repoURL} && srv.sessionMu == old(srv.sessionMu)
    ensures forall u | u in old(srv.repoMu) :: srv.repoMu[u] == old(srv.repoMu)[u]
  {
    var mu := srv.LockRepo(repoURL);
    var step := Repo.EnsureCloned(cacheDir, repoURL, hasGitDir).1;
    match gitFailure
    case Some(cause) =>
      srv.SetRepoStatus(prId, Error, Repo.GitError(step, cause));
    case None =>
      srv.SetRepoStatus(prId, Ready, "");
  }

  /** handleRetry: relaunches the clone or pull and shows the status it set. */
  method HandleRetry(srv: Server, prId: int, repoURL: string, cloned: bool) returns (shown: Status, job: Job)
    modifies srv
    ensures srv.repoStatus == old(srv.repoStatus)[prId := Entry(LaunchStatus(cloned), "")]
    ensures shown == LaunchStatus(cloned) && job == EnsureClonedJob(prId, repoURL)
    ensures old(Tidy(srv)) ==> Tidy(srv)
    ensures srv.sessionMu == old(srv.sessionMu) && srv.repoMu == old(srv.repoMu)
  {
    srv.SetRepoStatus(prId, LaunchStatus(cloned), "");
    job := EnsureClonedJob(prId, repoURL);
    shown := srv.GetRepoStatus(prId).status;
  }

  /** The conversation's newest message is the user's, still unanswered. */
  predicate PendingUserMessage(store: Queries.Store, prId: int)
    reads store
  {
    var last := store.GetLastMessage(prId);
    last.Ok? && last.value.role == User
  }

  /**
   * The entry a poll goes on with: the stored one, or, when there is none (after a
   * restart), ready if the repository is on disk and cloning otherwise.
   */
  function Recovered(e: Entry, cloned: bool): (r: Entry)
    ensures e.status != Unset ==> r == e
    ensures e.status == Unset ==> r.status != Unset && r.error == ""
    ensures e.status == Unset ==> (r.status == Ready <==> cloned)
  {
    if e.status != Unset then e
    else if cloned then Entry(Ready, "")
    else Entry(Cloning, "")
  }

  /** What a status poll renders: the status fragment, or the delivered reply. */
  datatype PollView =
    | StatusFragment(entry: Entry)
    | Delivered(message: Message, questions: seq<Normalize.QuestionData>, promptReady: bool)

  /** The questions and the prompt-ready flag a stored reply carries. */
  function ReplyQuestions(c: Codec, m: Message): (seq<Normalize.QuestionData>, bool) {
    match m.rawResponse
    case None => ([], false)
    case Some(raw) => Normalize.ExtractQuestionsFromRaw(c, raw)
  }

  /**
   * handleRepoStatus. No entry: recovery as `Recovered` says, launching a clone when
   * the repository is not on disk. Ready with a pending user message: a
   * compare-and-swap from ready to processing, and a background send only when it
   * succeeds. Responded: the entry is dropped and the newest reply is delivered when
   * it is the assistant's. Every other case shows the status.
   */
  method HandleRepoStatus(srv: Server, store: Queries.Store, c: Codec, prId: int, repoURL: string, cloned: bool)
    returns (view: PollView, job: Option<Job>)
    modifies srv
    ensures srv.sessionMu == old(srv.sessionMu) && srv.repoMu == old(srv.repoMu)
    ensures forall id | id != prId :: id in srv.repoStatus <==> id in old(srv.repoStatus)
    ensures forall id | id != prId && id in srv.repoStatus :: srv.repoStatus[id] == old(srv.repoStatus)[id]
    ensures old(Tidy(srv)) ==> Tidy(srv)
    // no entry and nothing on disk: a clone is launched
    ensures old(srv.GetRepoStatus(prId)).status == Unset && !cloned ==>
      && srv.GetRepoStatus(prId) == Entry(Cloning, "") && prId in srv.repoStatus
      && view == StatusFragment(Entry(Cloning, "")) && job == Some(EnsureClonedJob(prId, repoURL))
    // a pending message on a ready repository is shown as processing ...
    ensures var e := Recovered(old(srv.GetRepoStatus(prId)), cloned);
      e.status == Ready && PendingUserMessage(store, prId) ==> view == StatusFragment(Entry(Processing, ""))
    // ... and sent in the background exactly when the swap from a clean ready entry succeeds
    ensures job.Some? && job.value.SendPendingJob? <==>
      Recovered(old(srv.GetRepoStatus(prId)), cloned) == Entry(Ready, "") && PendingUserMessage(store, prId)
    ensures job.Some? && job.value.SendPendingJob? ==> job.value.prId == prId && srv.GetRepoStatus(prId) == Entry(Processing, "") && prId in srv.repoStatus
    // a reply is delivered once: the entry is dropped
    ensures old(srv.GetRepoStatus(prId)).status == Responded ==> prId !in srv.repoStatus
    ensures old(srv.GetRepoStatus(prId)).status == Responded ==>
      var last := store.GetLastMessage(prId);
      if last.Ok? && last.value.role == Assistant then
        view == Delivered(last.value, ReplyQuestions(c, last.value).0, ReplyQuestions(c, last.value).1)
      else view == StatusFragment(Entry(Responded, old(srv.GetRepoStatus(prId)).error))
    // no entry and the repository on disk: ready is stored, and with nothing to send it is only shown
    ensures old(srv.GetRepoStatus(prId)).status == Unset && cloned ==>
      && prId in srv.repoStatus
      && (PendingUserMessage(store, prId) ||
          (srv.GetRepoStatus(prId) == Entry(Ready, "") && job.None? && view == StatusFragment(Entry(Ready, ""))))
    // the new map: the recovered entry is stored when there was none, then replaced by
    // processing only when the swap succeeds; a failed swap leaves it as it was
    ensures var e := Recovered(old(srv.GetRepoStatus(prId)), cloned);
      var recorded := if old(srv.GetRepoStatus(prId)).status == Unset then old(srv.repoStatus)[prId := e] else old(srv.repoStatus);
      e.status != Responded ==>
        srv.repoStatus == if job.Some? && job.value.SendPendingJob? then recorded[prId := Entry(Processing, "")] else recorded
    // everything else is only shown, and starts nothing
    ensures var e := Recovered(old(srv.GetRepoStatus(prId)), cloned);
      e.status != Responded && !(e.status == Ready && PendingUserMessage(store, prId)) ==>
        && view == StatusFragment(e)
        && (job.None? || (old(srv.GetRepoStatus(prId)).status == Unset && !cloned))
    ensures var e := Recovered(old(srv.GetRepoStatus(prId)), cloned);
      e.status == Ready && PendingUserMessage(store, prId) && e != Entry(Ready, "") ==> job.None?
    ensures view.Delivered? ==> old(srv.GetRepoStatus(prId)).status == Responded
  {
    var entry := srv.GetRepoStatus(prId);
    job := None;
    if entry.status == Unset {
      if cloned {
        srv.SetRepoStatus(prId, Ready, "");
        entry := Entry(Ready, "");
      } else {
        srv.SetRepoStatus(prId, Cloning, "");
        job := Some(EnsureClonedJob(prId, repoURL));
        entry := Entry(Cloning, "");
      }
    }
    if entry.status == Ready {
      var last := store.GetLastMessage(prId);
      if last.Ok? && last.value.role == User {
        var swapped := srv.CompareAndSwap(prId, Entry(Ready, ""), Entry(Processing, ""));
        if swapped {
          job := Some(SendPendingJob(prId));
        }
        entry := Entry(Processing, "");
      }
    }
    if entry.status == Responded {
      srv.DeleteStatus(prId);
      var last := store.GetLastMessage(prId);
      if last.Ok? && last.value.role == Assistant {
        var qs := ReplyQuestions(c, last.value);
        view := Delivered(last.value, qs.0, qs.1);
        return;
      }
    }
    view := StatusFragment(entry);
  }

  /** In a request whose statuses are tidy, a ready entry is always the clean one. */
  lemma TidyReadyIsClean(srv: Server, prId: int, cloned: bool)
    requires Tidy(srv)
    ensures Recovered(srv.GetRepoStatus(prId), cloned).status == Ready ==>
      Recovered(srv.GetRepoStatus(prId), cloned) == Entry(Ready, "")
  {
  }

  /**
   * A call of claude.SendMessage: the session, the repository directory the CLI runs
   * in, the message, and whether the session is resumed. The command line it runs is
   * `Claude.SendMessageCommand`.
   */
  datatype SendCall = SendCall(sessionId: string, repoDir: string, message: string, resume: bool)

  /**
   * What claude.SendMessage returned: its error, or the parsed reply with the raw
   * output (how the reply is parsed from the output is `Claude.SendMessageResult`).
   */
  datatype SendOutcome = SendFailed(err: string) | Sent(resp: Claude.Response, rawJSON: string)

  /** The assistant message saved when the CLI fails, so that the user sees the error. */
  function Apology(err: string): (m: string)
    ensures Text.HasPrefix(m, "Sorry, I encountered an error: ")
    ensures Text.TrimPrefix(m, "Sorry, I encountered an error: ") == err
  {
    "Sorry, I encountered an error: " + err
  }

  /** Some message older than `id` is a reply of the assistant. */
  predicate AnsweredBefore(msgs: seq<Message>, id: int) {
    exists i | 0 <= i < |msgs| :: msgs[i].id < id && msgs[i].role == Assistant
  }

  /**
   * The resume rule of backgroundSendMessage: the session is resumed when the
   * assistant has replied before the pending message.
   */
  method Resume(msgs: seq<Message>, lastId: int) returns (resume: bool)
    ensures resume <==> AnsweredBefore(msgs, lastId)
  {
    resume := false;
    var i := 0;
    while i < |msgs|
      invariant 0 <= i <= |msgs|
      invariant !AnsweredBefore(msgs[..i], lastId)
    {
      if msgs[i].id < lastId && msgs[i].role == Assistant {
        resume := true;
        return;
      }
      assert msgs[..i + 1] == msgs[..i] + [msgs[i]];
      i := i + 1;
    }
    assert msgs[..i] == msgs;
  }

  /** A first message, or one after the user's own messages only, starts a new session. */
  lemma {:induction false} NoReplyNoResume(msgs: seq<Message>, id: int)
    requires forall i | 0 <= i < |msgs| :: msgs[i].role == User
    ensures !AnsweredBefore(msgs, id)
  {
  }

  /** Once the assistant has replied, every later message resumes the session. */
  lemma ReplyThenResume(msgs: seq<Message>, reply: Message, later: seq<Message>, id: int)
    requires reply.role == Assistant && reply.id < id
    ensures AnsweredBefore(msgs + [reply] + later, id)
  {
    assert (msgs + [reply] + later)[|msgs|] == reply;
  }

  /**
   * The stored requests after the title rule: request `prId`'s title replaced by
   * `NextTitle` of `current` when there is one; every other request, and every other
   * field, as before.
   */
  function Retitled(prs: seq<Queries.PromptRequestRow>, prId: int, current: string, resp: Claude.Response)
    : seq<Queries.PromptRequestRow>
  {
    match Compose.NextTitle(current, resp)
    case Some(t) => if 1 <= prId <= |prs| then prs[prId - 1 := prs[prId - 1].(title := t)] else prs
    case None => prs
  }

  /**
   * The title rule touches one request's title: every other request and every other
   * field are as before, and when the handler's snapshot is the stored title the new
   * title is `TitleAfter` of it.
   */
  lemma RetitledEffect(prs: seq<Queries.PromptRequestRow>, prId: int, current: string, resp: Claude.Response)
    ensures var r := Retitled(prs, prId, current, resp);
      |r| == |prs| &&
      (forall i | 0 <= i < |prs| && i != prId - 1 :: r[i] == prs[i]) &&
      (1 <= prId <= |prs| ==> r[prId - 1] == prs[prId - 1].(title := r[prId - 1].title)) &&
      (1 <= prId <= |prs| && prs[prId - 1].title == current ==>
        r[prId - 1].title == Compose.TitleAfter(current, resp))
  {
  }

  /**
   * The title rule after a reply: the request's title becomes `NextTitle` of the title
   * the handler read earlier, or is left as stored.
   */
  method ApplyTitle(store: Queries.Store, prId: int, current: string, resp: Claude.Response)
    requires store.Valid()
    modifies store
    ensures store.Valid()
    ensures store.promptRequests == Retitled(old(store.promptRequests), prId, current, resp)
    ensures store.repositories == old(store.repositories) && store.messages == old(store.messages)
    ensures store.revisions == old(store.revisions)
  {
    match Compose.NextTitle(current, resp)
    case Some(t) =>
      store.UpdatePromptRequestTitle(prId, t);
    case None =>
  }

  /**
   * The first half of backgroundSendMessage, up to and including taking the session's
   * lock: the request must load, and its newest message must be the user's; otherwise
   * the status says why and None is returned. What happens between this step and the
   * next (other handlers running while the lock is awaited) is up to the caller.
   */
  method BackgroundSendStart(srv: Server, store: Queries.Store, prId: int)
    returns (pr: Option<PromptRequest>)
    requires store.Valid()
    modifies srv
    ensures store.GetPromptRequest(prId).Err? ==>
      && pr.None?
      && srv.repoStatus == old(srv.repoStatus)[prId :=
           Entry(Error, "Failed to load prompt request: " + store.GetPromptRequest(prId).error)]
    ensures store.GetPromptRequest(prId).Ok? && !PendingUserMessage(store, prId) ==>
      pr.None? && srv.repoStatus == old(srv.repoStatus)[prId := Entry(Ready, "")]
    ensures store.GetPromptRequest(prId).Ok? && PendingUserMessage(store, prId) ==>
      && pr == Some(store.GetPromptRequest(prId).value) && srv.repoStatus == old(srv.repoStatus)
      && pr.value.sessionId in srv.sessionMu
    ensures pr.Some? ==> pr.value.id == prId
    ensures old(Tidy(srv)) ==> Tidy(srv)
    ensures srv.repoMu == old(srv.repoMu)
    ensures pr.None? ==> srv.sessionMu == old(srv.sessionMu)
    ensures pr.Some? ==> srv.sessionMu.Keys == old(srv.sessionMu).Keys + {pr.value.sessionId}
    ensures forall k | k in old(srv.sessionMu) :: k in srv.sessionMu && srv.sessionMu[k] == old(srv.sessionMu)[k]
  {
    var loaded := store.GetPromptRequest(prId);
    if loaded.Err? {
      srv.SetRepoStatus(prId, Error, "Failed to load prompt request: " + loaded.error);
      return None;
    }
    if !PendingUserMessage(store, prId) {
      srv.SetRepoStatus(prId, Ready, "");
      return None;
    }
    var mu := srv.LockSession(loaded.value.sessionId);
    pr := Some(loaded.value);
  }

  /**
   * The second half of backgroundSendMessage, with the session's lock held: the
   * pending message is checked again (a reply may have been saved meanwhile), the CLI
   * is run with the resume rule, and its reply or the apology is saved. The title rule
   * uses the request as it was read in the first half. Returns the call of SendMessage made, if any.
   */
  method BackgroundSendLocked(srv: Server, store: Queries.Store,
                              pr: PromptRequest, run: SendOutcome)
    returns (cmd: Option<SendCall>)
    requires store.Valid()
    modifies srv, store
    ensures store.Valid()
    ensures srv.sessionMu == old(srv.sessionMu) && srv.repoMu == old(srv.repoMu)
    ensures old(Tidy(srv)) ==> Tidy(srv)
    ensures store.repositories == old(store.repositories) && store.revisions == old(store.revisions)
    // answered meanwhile: nothing is run, and the repository is ready again
    ensures !old(PendingUserMessage(store, pr.id)) ==>
      && cmd.None? && srv.repoStatus == old(srv.repoStatus)[pr.id := Entry(Ready, "")]
      && store.messages == old(store.messages) && store.promptRequests == old(store.promptRequests)
    // still pending: the CLI is run on the pending message in the request's directory
    ensures old(PendingUserMessage(store, pr.id)) ==>
      var last := old(store.GetLastMessage(pr.id)).value;
      cmd == Some(SendCall(pr.sessionId, pr.repoLocalPath, last.content, AnsweredBefore(old(store.ListMessages(pr.id)), last.id)))
    // the CLI failed: the apology is saved, and the poll will deliver it
    ensures old(PendingUserMessage(store, pr.id)) && run.SendFailed? ==>
      && store.messages == old(store.messages) + [Message(|old(store.messages)| + 1, pr.id, Assistant, Apology(run.err), None)]
      && srv.repoStatus == old(srv.repoStatus)[pr.id := Entry(Responded, "")]
      && store.promptRequests == old(store.promptRequests)
    // the CLI printed a reply: it is saved with the raw output, the title rule applied
    ensures old(PendingUserMessage(store, pr.id)) && run.Sent? ==>
      var resp := run.resp;
      && store.messages == old(store.messages) + [Message(|old(store.messages)| + 1, pr.id, Assistant, resp.message, Some(run.rawJSON))]
      && srv.repoStatus == old(srv.repoStatus)[pr.id := Entry(Responded, "")]
      && store.promptRequests == Retitled(old(store.promptRequests), pr.id, pr.title, resp)
  {
    var last := store.GetLastMessage(pr.id);
    if last.Err? || last.value.role != User {
      srv.SetRepoStatus(pr.id, Ready, "");
      return None;
    }
    assert last.value in store.messages && last.value.promptRequestId == pr.id;
    var existing := store.ListMessages(pr.id);
    var resume := Resume(existing, last.value.id);
    cmd := Some(SendCall(pr.sessionId, pr.repoLocalPath, last.value.content, resume));
    SaveReply(srv, store, pr, run);
  }

  /** The end of backgroundSendMessage: the CLI's outcome saved, and the status set. */
  method SaveReply(srv: Server, store: Queries.Store, pr: PromptRequest, run: SendOutcome)
    requires store.Valid() && 1 <= pr.id <= |store.promptRequests|
    modifies srv, store
    ensures store.Valid()
    ensures srv.sessionMu == old(srv.sessionMu) && srv.repoMu == old(srv.repoMu)
    ensures srv.repoStatus == old(srv.repoStatus)[pr.id := Entry(Responded, "")]
    ensures store.repositories == old(store.repositories) && store.revisions == old(store.revisions)
    ensures run.SendFailed? ==>
      && store.messages == old(store.messages) + [Message(|old(store.messages)| + 1, pr.id, Assistant, Apology(run.err), None)]
      && store.promptRequests == old(store.promptRequests)
    ensures run.Sent? ==>
      var resp := run.resp;
      && store.messages == old(store.messages) + [Message(|old(store.messages)| + 1, pr.id, Assistant, resp.message, Some(run.rawJSON))]
      && store.promptRequests == Retitled(old(store.promptRequests), pr.id, pr.title, resp)
  {
    match run
    case SendFailed(err) =>
      var _ := store.CreateMessage(pr.id, Assistant, Apology(err), None);
      srv.SetRepoStatus(pr.id, Responded, "");
    case Sent(resp, raw) =>
      var saved := store.CreateMessage(pr.id, Assistant, resp.message, Some(raw));
      ApplyTitle(store, pr.id, pr.title, resp);
      srv.SetRepoStatus(pr.id, Responded, "");
  }

  /** The text a send submits: the "message" field, or else the answers to the question form. */
  function Submitted(form: Forms.Form): string {
    if Forms.FormValue(form, "message") != "" then Forms.FormValue(form, "message") else Forms.Assembled(form)
  }

  /** The CLI may be run straight away: no clone, pull or background send is under way. */
  predicate SendsNow(e: Entry) {
    e.status == Unset || e.status == Ready
  }

  /** What handleSendMessage answers with. */
  datatype SendResult =
    | BadRequest(reason: string)
    | NotFound
    | Queued(user: Message)
    | Apologized(user: Message, apology: string)
    | Answered(user: Message, reply: Message, questions: seq<Normalize.QuestionData>, promptReady: bool)

  /**
   * handleSendMessage. An empty submission is refused and an unknown request is not
   * found. While background work is under way the message is only saved, for the
   * background send to pick up. Otherwise the CLI is run under the session's lock, and
   * its reply (or the apology) is saved and returned with the reply's questions.
   */
  method HandleSendMessage(srv: Server, store: Queries.Store,
                           prId: int, form: Forms.Form, run: SendOutcome)
    returns (r: SendResult, cmd: Option<SendCall>)
    requires store.Valid()
    modifies srv, store
    ensures store.Valid()
    ensures srv.repoStatus == old(srv.repoStatus) && srv.repoMu == old(srv.repoMu)
    ensures store.repositories == old(store.repositories) && store.revisions == old(store.revisions)
    ensures Submitted(form) == "" ==>
      && r == BadRequest("Message is required") && cmd.None? && store.messages == old(store.messages)
      && store.promptRequests == old(store.promptRequests) && srv.sessionMu == old(srv.sessionMu)
    ensures Submitted(form) != "" && old(store.GetPromptRequest(prId)).Err? ==>
      && r == NotFound && cmd.None? && store.messages == old(store.messages)
      && store.promptRequests == old(store.promptRequests) && srv.sessionMu == old(srv.sessionMu)
    ensures r.Queued? || r.Apologized? || r.Answered? ==>
      && Submitted(form) != "" && old(store.GetPromptRequest(prId)).Ok?
      && r.user == Message(|old(store.messages)| + 1, prId, User, Submitted(form), None)
    ensures r.Queued? <==>
      Submitted(form) != "" && old(store.GetPromptRequest(prId)).Ok? && !SendsNow(old(srv.GetRepoStatus(prId)))
    ensures r.Queued? ==>
      && cmd.None? && store.messages == old(store.messages) + [r.user]
      && store.promptRequests == old(store.promptRequests) && srv.sessionMu == old(srv.sessionMu)
      && PendingUserMessage(store, prId)
    ensures cmd.Some? <==> r.Apologized? || r.Answered?
    ensures cmd.Some? ==>
      var pr := old(store.GetPromptRequest(prId)).value;
      && cmd.value == SendCall(pr.sessionId, pr.repoLocalPath, Submitted(form), old(store.ListMessages(prId)) != [])
      && srv.sessionMu.Keys == old(srv.sessionMu).Keys + {pr.sessionId}
    ensures forall k | k in old(srv.sessionMu) :: k in srv.sessionMu && srv.sessionMu[k] == old(srv.sessionMu)[k]
    ensures cmd.Some? ==>
      Answer(store, old(store.messages), old(store.promptRequests), old(store.GetPromptRequest(prId)).value, r, run)
  {
    var message := Forms.FormValue(form, "message");
    if message == "" {
      message := Forms.AssembleQuestionAnswers(form);
    }
    if message == "" {
      return BadRequest("Message is required"), None;
    }
    var loaded := store.GetPromptRequest(prId);
    if loaded.Err? {
      return NotFound, None;
    }
    r, cmd := SendLoaded(srv, store, loaded.value, message, run);
  }

  /** The gate of handleSendMessage, for a loaded request and a non-empty message. */
  method SendLoaded(srv: Server, store: Queries.Store,
                    pr: PromptRequest, message: string, run: SendOutcome)
    returns (r: SendResult, cmd: Option<SendCall>)
    requires store.Valid() && 1 <= pr.id <= |store.promptRequests|
    modifies srv, store
    ensures store.Valid()
    ensures srv.repoStatus == old(srv.repoStatus) && srv.repoMu == old(srv.repoMu)
    ensures store.repositories == old(store.repositories) && store.revisions == old(store.revisions)
    ensures r.Queued? || r.Apologized? || r.Answered?
    ensures r.user == Message(|old(store.messages)| + 1, pr.id, User, message, None)
    ensures r.Queued? <==> !SendsNow(old(srv.GetRepoStatus(pr.id)))
    ensures r.Queued? ==>
      && cmd.None? && store.messages == old(store.messages) + [r.user]
      && store.promptRequests == old(store.promptRequests) && srv.sessionMu == old(srv.sessionMu)
      && PendingUserMessage(store, pr.id)
    ensures cmd.Some? <==> r.Apologized? || r.Answered?
    ensures cmd.Some? ==>
      && cmd.value == SendCall(pr.sessionId, pr.repoLocalPath, message, old(store.ListMessages(pr.id)) != [])
      && srv.sessionMu.Keys == old(srv.sessionMu).Keys + {pr.sessionId}
    ensures forall k | k in old(srv.sessionMu) :: k in srv.sessionMu && srv.sessionMu[k] == old(srv.sessionMu)[k]
    ensures cmd.Some? ==> Answer(store, old(store.messages), old(store.promptRequests), pr, r, run)
  {
    if !SendsNow(srv.GetRepoStatus(pr.id)) {
      var user := store.CreateMessage(pr.id, User, message, None);
      return Queued(user.value), None;
    }
    r, cmd := SendNow(srv, store, pr, message, run);
  }

  /** The part of handleSendMessage that runs the CLI, under the session's lock. */
  method SendNow(srv: Server, store: Queries.Store,
                 pr: PromptRequest, message: string, run: SendOutcome)
    returns (r: SendResult, cmd: Option<SendCall>)
    requires store.Valid() && 1 <= pr.id <= |store.promptRequests|
    modifies srv, store
    ensures store.Valid()
    ensures srv.repoStatus == old(srv.repoStatus) && srv.repoMu == old(srv.repoMu)
    ensures store.repositories == old(store.repositories) && store.revisions == old(store.revisions)
    ensures srv.sessionMu.Keys == old(srv.sessionMu).Keys + {pr.sessionId}
    ensures forall k | k in old(srv.sessionMu) :: srv.sessionMu[k] == old(srv.sessionMu)[k]
    ensures r.Apologized? || r.Answered?
    ensures r.user == Message(|old(store.messages)| + 1, pr.id, User, message, None)
    ensures cmd == Some(SendCall(pr.sessionId, pr.repoLocalPath, message, old(store.ListMessages(pr.id)) != []))
    ensures Answer(store, old(store.messages), old(store.promptRequests), pr, r, run)
  {
    var mu := srv.LockSession(pr.sessionId);
    var resume := store.ListMessages(pr.id) != [];
    ghost var before := store.messages;
    var user := store.CreateMessage(pr.id, User, message, None);
    cmd := Some(SendCall(pr.sessionId, pr.repoLocalPath, message, resume));
    r := SaveAnswer(store, pr, before, user.value, run);
  }

  /**
   * How a run of the CLI ends a send, against the messages and requests before the
   * user's message was saved: the apology, or the reply with its numbered questions and
   * the title rule, each saved after the user's message.
   */
  ghost predicate Answer(store: Queries.Store, msgs: seq<Message>, prs: seq<Queries.PromptRequestRow>,
                         pr: PromptRequest, r: SendResult, run: SendOutcome)
    reads store
  {
    && (r.Apologized? <==> run.SendFailed?)
    && (r.Apologized? ==>
          && r.apology == Apology(run.err)
          && store.messages == msgs + [r.user, Message(|msgs| + 2, pr.id, Assistant, r.apology, None)]
          && store.promptRequests == prs)
    && (r.Answered? ==>
          && run.Sent?
          && var resp := run.resp;
          && r.reply == Message(|msgs| + 2, pr.id, Assistant, resp.message, Some(run.rawJSON))
          && store.messages == msgs + [r.user, r.reply]
          && r.questions == Normalize.Numbered(resp.questions) && r.promptReady == resp.promptReady
          && store.promptRequests == Retitled(prs, pr.id, pr.title, resp))
  }

  /** The end of handleSendMessage: the CLI's outcome saved after the user's message. */
  method SaveAnswer(store: Queries.Store, pr: PromptRequest, ghost before: seq<Message>,
                    user: Message, run: SendOutcome)
    returns (r: SendResult)
    requires store.Valid() && 1 <= pr.id <= |store.promptRequests|
    requires store.messages == before + [user]
    modifies store
    ensures store.Valid()
    ensures store.repositories == old(store.repositories) && store.revisions == old(store.revisions)
    ensures (r.Apologized? || r.Answered?) && r.user == user
    ensures Answer(store, before, old(store.promptRequests), pr, r, run)
  {
    match run
    case SendFailed(err) =>
      var saved := store.CreateMessage(pr.id, Assistant, Apology(err), None);
      assert store.messages == before + [user, saved.value];
      r := Apologized(user, Apology(err));
    case Sent(resp, raw) =>
      var reply := store.CreateMessage(pr.id, Assistant, resp.message, Some(raw));
      assert store.messages == before + [user, reply.value];
      ApplyTitle(store, pr.id, pr.title, resp);
      r := Answered(user, reply.value, Normalize.Numbered(resp.questions), resp.promptReady);
  }

  /** What the conversation page is given. */
  datatype Page = Page(
    pr: PromptRequest,
    repoStatus: Status,
    timeline: seq<Timeline.TimelineItem>,
    lastQuestions: seq<Normalize.QuestionData>,
    promptReady: bool,
    revisions: seq<Revision>)

  /** The status the page shows: none means ready when the repository is on disk. */
  function ShownStatus(e: Entry, cloned: bool): (s: Status)
    ensures s == Unset <==> e.status == Unset && !cloned
    ensures e.status != Unset ==> s == e.status
  {
    if e.status == Unset && cloned then Ready else e.status
  }

  /** The questions and flag of the newest message, when it is an assistant's reply. */
  function PendingQuestions(c: Codec, msgs: seq<Message>): (r: (seq<Normalize.QuestionData>, bool))
    ensures msgs == [] || msgs[|msgs| - 1].role == User ==> r == ([], false)
  {
    if msgs != [] && msgs[|msgs| - 1].role == Assistant then ReplyQuestions(c, msgs[|msgs| - 1]) else ([], false)
  }

  /** The newest message is at or before the anchor of the newest revision. */
  predicate AlreadyPublished(msgs: seq<Message>, revs: seq<Revision>) {
    && msgs != [] && revs != [] && revs[|revs| - 1].afterMessageId.Some?
    && msgs[|msgs| - 1].id <= revs[|revs| - 1].afterMessageId.value
  }

  /**
   * handleShow: the request, the status for the polling element, the timeline of
   * messages and revision markers, and the newest reply's questions; its prompt-ready
   * flag is dropped once that reply has been published.
   */
  method HandleShow(srv: Server, store: Queries.Store, c: Codec, prId: int, cloned: bool)
    returns (r: Option<Page>)
    requires store.Valid()
    ensures r.None? <==> store.GetPromptRequest(prId).Err?
    ensures r.Some? ==>
      var msgs, revs := store.ListMessages(prId), store.ListRevisions(prId);
      && r.value.pr == store.GetPromptRequest(prId).value
      && r.value.repoStatus == ShownStatus(srv.GetRepoStatus(prId), cloned)
      && r.value.timeline == Timeline.TimelineOf(msgs, revs)
      && Timeline.MessagesOf(r.value.timeline) == msgs
      && r.value.revisions == revs
      && r.value.lastQuestions == PendingQuestions(c, msgs).0
      && (r.value.promptReady <==> PendingQuestions(c, msgs).1 && !AlreadyPublished(msgs, revs))
  {
    var loaded := store.GetPromptRequest(prId);
    if loaded.Err? {
      return None;
    }
    var messages := store.ListMessages(prId);
    var revisions := store.ListRevisions(prId);
    var status := srv.GetRepoStatus(prId).status;
    if status == Unset && cloned {
      status := Ready;
    }
    var timeline := Timeline.BuildTimeline(messages, revisions);
    Timeline.TimelineMessages(messages, revisions);
    var questions, promptReady := [], false;
    if |messages| > 0 {
      var last := messages[|messages| - 1];
      if last.role == Assistant && last.rawResponse.Some? {
        var extracted := Normalize.ExtractQuestionsFromRaw(c, last.rawResponse.value);
        questions, promptReady := extracted.0, extracted.1;
      }
      if promptReady && |revisions| > 0 {
        var latest := revisions[|revisions| - 1];
        if latest.afterMessageId.Some? && last.id <= latest.afterMessageId.value {
          promptReady := false;
        }
      }
    }
    r := Some(Page(loaded.value, status, timeline, questions, promptReady, revisions));
  }

  /** A reply saved after the publication shows its prompt-ready flag again. */
  lemma LaterReplyNotPublished(msgs: seq<Message>, revs: seq<Revision>, reply: Message)
    requires AlreadyPublished(msgs, revs) && revs[|revs| - 1].afterMessageId.value == msgs[|msgs| - 1].id
    requires reply.id > msgs[|msgs| - 1].id
    ensures !AlreadyPublished(msgs + [reply], revs)
  {
    assert (msgs + [reply])[|msgs|] == reply;
  }


  /** The gh call handlePublish makes. */
  datatype GhCall =
    | EditIssue(repoURL: string, number: int, body: string)
    | CreateIssue(repoURL: string, title: string, body: string)

  datatype PublishResult = PublishNotFound | NoPrompt(message: string) | IssueFailed(message: string) | IssuePublished

  const NoPromptMessage := "No generated prompt found. Continue the conversation until the AI generates a prompt."

  /** The message id a new revision is anchored to: the request's newest message, if any. */
  function Anchor(msgs: seq<Message>): (a: Option<int>)
    ensures a.Some? <==> msgs != []
    ensures a.Some? ==> a.value == msgs[|msgs| - 1].id
  {
    if msgs == [] then None else Some(msgs[|msgs| - 1].id)
  }

  /**
   * The end of handlePublish: a revision holding the body, anchored to the newest
   * message, and the request marked published. Afterwards the page treats the newest
   * reply as published.
   */
  method RecordPublication(store: Queries.Store, prId: int, body: string)
    requires store.Valid() && 1 <= prId <= |store.promptRequests|
    modifies store
    ensures store.Valid()
    ensures store.revisions == old(store.revisions) + [Revision(|old(store.revisions)| + 1, prId, body, Anchor(old(store.ListMessages(prId))))]
    ensures store.ListRevisions(prId) == old(store.ListRevisions(prId)) + [store.revisions[|store.revisions| - 1]]
    ensures store.promptRequests == old(store.promptRequests)[prId - 1 := old(store.promptRequests)[prId - 1].(status := Published)]
    ensures store.repositories == old(store.repositories) && store.messages == old(store.messages)
    ensures store.ListMessages(prId) != [] ==> AlreadyPublished(store.ListMessages(prId), store.ListRevisions(prId))
  {
    var after: Option<int> := None;
    var last := store.GetLastMessage(prId);
    if last.Ok? {
      after := Some(last.value.id);
    }
    var rev := store.CreateRevision(prId, body, after);
    store.UpdatePromptRequestStatus(prId, Published);
  }

  /**
   * handlePublish. An unknown request is not found, and one without a generated prompt
   * is refused, with nothing changed. Otherwise the content is published as
   * `Publication` says. `gh` is what github.CreateIssue returned (the issue read from
   * gh's output by `GitHub.IssueFromOutput`, or an error); for an edit only whether
   * EditIssue failed, and with what error, matters.
   */
  method HandlePublish(store: Queries.Store, c: Codec, prId: int, gh: Result<GitHub.Issue, string>)
    returns (r: PublishResult, call: Option<GhCall>)
    requires store.Valid()
    modifies store
    ensures store.Valid()
    ensures store.repositories == old(store.repositories) && store.messages == old(store.messages)
    ensures old(store.GetPromptRequest(prId)).Err? ==>
      && r == PublishNotFound && call.None?
      && store.promptRequests == old(store.promptRequests) && store.revisions == old(store.revisions)
    ensures old(store.GetPromptRequest(prId)).Ok? && Queries.LatestGenerated(c, Queries.RawRows(old(store.messages), prId)).Err? ==>
      && r == NoPrompt(NoPromptMessage) && call.None?
      && store.promptRequests == old(store.promptRequests) && store.revisions == old(store.revisions)
    ensures call.Some? <==>
      old(store.GetPromptRequest(prId)).Ok? && Queries.LatestGenerated(c, Queries.RawRows(old(store.messages), prId)).Ok?
    ensures call.Some? ==>
      Publication(store, old(store.promptRequests), old(store.revisions), old(store.ListMessages(prId)),
        old(store.GetPromptRequest(prId)).value,
        Queries.LatestGenerated(c, Queries.RawRows(old(store.messages), prId)).value, gh, r, call.value)
    ensures r.IssuePublished? && store.ListMessages(prId) != [] ==>
      AlreadyPublished(store.ListMessages(prId), store.ListRevisions(prId))
  {
    var loaded := store.GetPromptRequest(prId);
    if loaded.Err? {
      return PublishNotFound, None;
    }
    var content := store.GetLatestGeneratedContent(c, prId);
    if content.Err? {
      return NoPrompt(NoPromptMessage), None;
    }
    var gcall;
    r, gcall := PublishContent(store, loaded.value, content.value, gh);
    call := Some(gcall);
  }

  /**
   * What publishing generated content does, against the store before it: the gh call
   * made (an edit of the recorded issue, or a new issue under the chosen title), a
   * generated title stored whatever gh does, and on success the new issue recorded and
   * the publication too; on failure no revision, and gh's error in the message.
   */
  ghost predicate Publication(store: Queries.Store, prs: seq<Queries.PromptRequestRow>, revs: seq<Revision>,
                              msgs: seq<Message>, pr: PromptRequest, gc: Queries.GeneratedContent,
                              gh: Result<GitHub.Issue, string>, r: PublishResult, call: GhCall)
    reads store
  {
    var body := Compose.IssueBody(gc.motivation, gc.prompt);
    && 1 <= pr.id <= |prs| == |store.promptRequests|
    && call == (if pr.issueNumber.Some? then EditIssue(pr.repoUrl, pr.issueNumber.value, body)
                else CreateIssue(pr.repoUrl, Compose.IssueTitle(Compose.PublishTitle(pr.title, gc.title).0), body))
    && (r.IssuePublished? || r.IssueFailed?)
    && (r.IssuePublished? <==> gh.Ok?)
    && (var titled := if gc.title != "" then prs[pr.id - 1].(title := gc.title) else prs[pr.id - 1];
        store.promptRequests == prs[pr.id - 1 := IssueRecorded(titled, pr, gh)])
    && (r.IssuePublished? ==> store.revisions == revs + [Revision(|revs| + 1, pr.id, body, Anchor(msgs))])
    && (r.IssueFailed? ==> store.revisions == revs)
    && (r.IssueFailed? ==>
          r.message == (if call.EditIssue? then "Failed to update GitHub issue: " else "Failed to create GitHub issue: ") + gh.error)
  }

  /**
   * A request's row after the gh call: unchanged when gh failed; otherwise published,
   * and, for a newly created issue, with that issue's number and URL.
   */
  function IssueRecorded(row: Queries.PromptRequestRow, pr: PromptRequest, gh: Result<GitHub.Issue, string>): (r: Queries.PromptRequestRow)
    ensures gh.Err? ==> r == row
    ensures gh.Ok? ==> r.status == Published && r.title == row.title && r.sessionId == row.sessionId
    ensures gh.Ok? && pr.issueNumber.Some? ==> r == row.(status := Published)
    ensures gh.Ok? && pr.issueNumber.None? ==> r.issueNumber == Some(gh.value.number) && r.issueUrl == Some(gh.value.url)
  {
    if gh.Err? then row
    else if pr.issueNumber.None? then row.(issueNumber := Some(gh.value.number), issueUrl := Some(gh.value.url), status := Published)
    else row.(status := Published)
  }

  /** The part of handlePublish after the generated content is found. */
  method PublishContent(store: Queries.Store, pr: PromptRequest, gc: Queries.GeneratedContent, gh: Result<GitHub.Issue, string>)
    returns (r: PublishResult, call: GhCall)
    requires store.Valid() && 1 <= pr.id <= |store.promptRequests|
    modifies store
    ensures store.Valid()
    ensures store.repositories == old(store.repositories) && store.messages == old(store.messages)
    ensures Publication(store, old(store.promptRequests), old(store.revisions), old(store.ListMessages(pr.id)), pr, gc, gh, r, call)
    ensures r.IssuePublished? && store.ListMessages(pr.id) != [] ==>
      AlreadyPublished(store.ListMessages(pr.id), store.ListRevisions(pr.id))
  {
    var body := Compose.IssueBody(gc.motivation, gc.prompt);
    var (title, keep) := Compose.PublishTitle(pr.title, gc.title);
    if keep {
      store.UpdatePromptRequestTitle(pr.id, title);
    }
    assert store.ListMessages(pr.id) == old(store.ListMessages(pr.id));
    r, call := PublishIssue(store, pr, title, body, gh);
  }

  /** The gh call of handlePublish and what its outcome records. */
  method PublishIssue(store: Queries.Store, pr: PromptRequest, title: string, body: string, gh: Result<GitHub.Issue, string>)
    returns (r: PublishResult, call: GhCall)
    requires store.Valid() && 1 <= pr.id <= |store.promptRequests|
    modifies store
    ensures store.Valid()
    ensures store.repositories == old(store.repositories) && store.messages == old(store.messages)
    ensures call == (if pr.issueNumber.Some? then EditIssue(pr.repoUrl, pr.issueNumber.value, body)
                     else CreateIssue(pr.repoUrl, Compose.IssueTitle(title), body))
    ensures (r.IssuePublished? || r.IssueFailed?) && (r.IssuePublished? <==> gh.Ok?)
    ensures store.promptRequests == old(store.promptRequests)[pr.id - 1 := IssueRecorded(old(store.promptRequests)[pr.id - 1], pr, gh)]
    ensures r.IssuePublished? ==>
      store.revisions == old(store.revisions) + [Revision(|old(store.revisions)| + 1, pr.id, body, Anchor(old(store.ListMessages(pr.id))))]
    ensures r.IssueFailed? ==> store.revisions == old(store.revisions)
    ensures r.IssueFailed? ==>
      r.message == (if call.EditIssue? then "Failed to update GitHub issue: " else "Failed to create GitHub issue: ") + gh.error
    ensures r.IssuePublished? && store.ListMessages(pr.id) != [] ==>
      AlreadyPublished(store.ListMessages(pr.id), store.ListRevisions(pr.id))
  {
    if pr.issueNumber.Some? {
      call := EditIssue(pr.repoUrl, pr.issueNumber.value, body);
      if gh.Err? {
        return IssueFailed("Failed to update GitHub issue: " + gh.error), call;
      }
      RecordIssue(store, pr.id, body, None);
    } else {
      call := CreateIssue(pr.repoUrl, Compose.IssueTitle(title), body);
      if gh.Err? {
        return IssueFailed("Failed to create GitHub issue: " + gh.error), call;
      }
      RecordIssue(store, pr.id, body, Some(gh.value));
    }
    r := IssuePublished;
  }

  /** After gh succeeded: a newly created issue is stored, then the publication is recorded. */
  method RecordIssue(store: Queries.Store, prId: int, body: string, created: Option<GitHub.Issue>)
    requires store.Valid() && 1 <= prId <= |store.promptRequests|
    modifies store
    ensures store.Valid()
    ensures store.repositories == old(store.repositories) && store.messages == old(store.messages)
    ensures store.revisions == old(store.revisions) + [Revision(|old(store.revisions)| + 1, prId, body, Anchor(old(store.ListMessages(prId))))]
    ensures var row := old(store.promptRequests)[prId - 1];
      store.promptRequests == old(store.promptRequests)[prId - 1 :=
        if created.Some? then row.(issueNumber := Some(created.value.number), issueUrl := Some(created.value.url), status := Published)
        else row.(status := Published)]
    ensures store.ListMessages(prId) != [] ==> AlreadyPublished(store.ListMessages(prId), store.ListRevisions(prId))
  {
    if created.Some? {
      store.UpdatePromptRequestIssue(prId, created.value.number, created.value.url);
    }
    assert store.ListMessages(prId) == old(store.ListMessages(prId));
    RecordPublication(store, prId, body);
  }

  /**
   * Two polls of a ready request with a pending message start one background send:
   * the first swaps the status to processing, the second only shows it.
   */
  method TwoPollsOneSend(srv: Server, store: Queries.Store, c: Codec, prId: int, repoURL: string, cloned: bool)
    returns (first: Option<Job>, second: Option<Job>, shown: PollView)
    requires Tidy(srv) && Recovered(srv.GetRepoStatus(prId), cloned).status == Ready
    requires PendingUserMessage(store, prId)
    modifies srv
    ensures first == Some(SendPendingJob(prId)) && second.None?
    ensures shown == StatusFragment(Entry(Processing, ""))
    ensures srv.GetRepoStatus(prId) == Entry(Processing, "")
  {
    TidyReadyIsClean(srv, prId, cloned);
    var _, job1 := HandleRepoStatus(srv, store, c, prId, repoURL, cloned);
    var view2, job2 := HandleRepoStatus(srv, store, c, prId, repoURL, cloned);
    first, second, shown := job1, job2, view2;
  }

  /**
   * A message sent while the repository is still being cloned is kept, and the poll
   * after a successful clone starts the background send that answers it.
   */
  method QueuedMessageIsSent(srv: Server, store: Queries.Store, c: Codec,
                             cacheDir: string, prId: int, form: Forms.Form, repoURL: string, hasGitDir: bool)
    returns (r: SendResult, job: Option<Job>)
    requires store.Valid() && Tidy(srv)
    requires Submitted(form) != "" && store.GetPromptRequest(prId).Ok?
    requires srv.GetRepoStatus(prId).status == Cloning
    modifies srv, store
    ensures r.Queued? && r.user.content == Submitted(form)
    ensures job == Some(SendPendingJob(prId))
    ensures srv.GetRepoStatus(prId) == Entry(Processing, "")
  {
    r := QueueWhileCloning(srv, store, prId, form);
    job := CloneThenPoll(srv, store, c, cacheDir, prId, repoURL, hasGitDir);
  }

  /** While the clone runs, a sent message is only saved. */
  method QueueWhileCloning(srv: Server, store: Queries.Store, prId: int, form: Forms.Form)
    returns (r: SendResult)
    requires store.Valid() && Tidy(srv)
    requires Submitted(form) != "" && store.GetPromptRequest(prId).Ok?
    requires srv.GetRepoStatus(prId).status == Cloning
    modifies srv, store
    ensures store.Valid() && Tidy(srv) && PendingUserMessage(store, prId)
    ensures r.Queued? && r.user.content == Submitted(form)
  {
    var cmd;
    r, cmd := HandleSendMessage(srv, store, prId, form, SendFailed(""));
  }

  /** A successful clone followed by a poll starts the background send of a pending message. */
  method CloneThenPoll(srv: Server, store: Queries.Store, c: Codec,
                       cacheDir: string, prId: int, repoURL: string, hasGitDir: bool)
    returns (job: Option<Job>)
    requires Tidy(srv) && PendingUserMessage(store, prId)
    modifies srv
    ensures job == Some(SendPendingJob(prId))
    ensures srv.GetRepoStatus(prId) == Entry(Processing, "")
  {
    AsyncEnsureCloned(srv, cacheDir, prId, repoURL, hasGitDir, None);
    var view;
    view, job := HandleRepoStatus(srv, store, c, prId, repoURL, true);
  }

  /**
   * The re-check of the background send: when a reply is saved for the pending message
   * while the background send waits for the session's lock, the background send runs
   * nothing, saves nothing and leaves the repository ready.
   */
  method ReplyWhileWaiting(srv: Server, store: Queries.Store,
                           prId: int, reply: string, run: SendOutcome)
    returns (cmd: Option<SendCall>)
    requires store.Valid()
    requires store.GetPromptRequest(prId).Ok? && PendingUserMessage(store, prId)
    modifies srv, store
    ensures cmd.None? && srv.GetRepoStatus(prId) == Entry(Ready, "")
    ensures |store.messages| == |old(store.messages)| + 1
  {
    var pr := BackgroundSendStart(srv, store, prId);
    var saved := store.CreateMessage(prId, Assistant, reply, None);
    cmd := BackgroundSendLocked(srv, store, pr.value, run);
  }

  /** Once a request is published, its page no longer offers to publish the same reply. */
  method PublishThenShow(srv: Server, store: Queries.Store, c: Codec, prId: int, gh: Result<GitHub.Issue, string>, cloned: bool)
    returns (r: PublishResult, page: Option<Page>)
    requires store.Valid()
    modifies store
    ensures r.IssuePublished? ==> page.Some? && !page.value.promptReady
  {
    var call;
    r, call := HandlePublish(store, c, prId, gh);
    page := HandleShow(srv, store, c, prId, cloned);
  }
}
