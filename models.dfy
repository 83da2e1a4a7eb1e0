/** The stored entities (internal/models/models.go), as values. Timestamps are left out. */
module Models {
  import opened Wrappers

  datatype Role = User | Assistant

  /** A conversation message; `rawResponse` is the undecoded subprocess output, if kept. */
  datatype Message = Message(
    id: int,
    promptRequestId: int,
    role: Role,
    content: string,
    rawResponse: Option<string>)

  /**
   * A published snapshot of the generated content, anchored to the last message that
   * existed when it was published; `None` is a revision published before anchors existed.
   */
  datatype Revision = Revision(
    id: int,
    promptRequestId: int,
    content: string,
    afterMessageId: Option<int>)

  datatype PromptStatus = Draft | Published | Deleted

  datatype Repository = Repository(id: int, url: string, localPath: string)

  /**
   * A prompt request together with the fields the queries join in: the repository's
   * URL and local path, and (only when listing) the message and revision counts.
   */
  datatype PromptRequest = PromptRequest(
    id: int,
    repositoryId: int,
    title: string,
    status: PromptStatus,
    sessionId: string,
    issueNumber: Option<int>,
    issueUrl: Option<string>,
    repoUrl: string,
    repoLocalPath: string,
    messageCount: int,
    revisionCount: int)
}
