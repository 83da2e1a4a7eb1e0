/**
 * The assistant's reply format and the parts of internal/claude/claude.go that do not
 * run the subprocess: the decoding of its output (parseResponse and the fallback in
 * SendMessage), the command line it is started with, and envWithout.
 *
 * `Response` has the shape the HTTP handlers read (a list of questions, each with a
 * header and a multi-select flag); the single-question shape of older replies is the
 * legacy shape of the Normalize module.
 */
module Claude {
  import opened Wrappers
  import opened Json
  import opened Text

  datatype QuestionOption = QuestionOption(labelText: string, description: string)

  datatype Question = Question(
    header: string,
    text: string,
    multiSelect: bool,
    options: seq<QuestionOption>)

  datatype Response = Response(
    message: string,
    questions: seq<Question>,
    promptReady: bool,
    generatedTitle: string,
    generatedMotivation: string,
    generatedPrompt: string)

  /** The CLI's JSON output: the schema-conforming reply, or the reply as text. */
  datatype Envelope = Envelope(structuredOutput: Option<Response>, result: string)

  /** A reply that carries only a message. */
  function MessageOnly(message: string): (r: Response)
    ensures r.message == message && r.questions == [] && !r.promptReady
  {
    Response(message, [], false, "", "", "")
  }

  function DecodeOption(j: Json): (r: Option<QuestionOption>)
    ensures j.JNull? ==> r == Some(QuestionOption("", ""))
    ensures r.Some? ==> j.JNull? || j.JObject?
  {
    match Members(j)
    case None => None
    case Some(ms) =>
      var labelText, description := DecodeString(Field(ms, "label")), DecodeString(Field(ms, "description"));
      if labelText.Some? && description.Some? then Some(QuestionOption(labelText.value, description.value))
      else None
  }

  function DecodeQuestion(j: Json): (r: Option<Question>)
    ensures j.JNull? ==> r == Some(Question("", "", false, []))
    ensures r.Some? ==> j.JNull? || j.JObject?
  {
    match Members(j)
    case None => None
    case Some(ms) =>
      var header, text := DecodeString(Field(ms, "header")), DecodeString(Field(ms, "text"));
      var multi, options := DecodeBool(Field(ms, "multi_select")), DecodeList(Field(ms, "options"), DecodeOption);
      if header.Some? && text.Some? && multi.Some? && options.Some? then
        Some(Question(header.value, text.value, multi.value, options.value))
      else None
  }

  function DecodeResponse(j: Json): (r: Option<Response>)
    ensures j.JNull? ==> r == Some(MessageOnly(""))
    ensures r.Some? ==> j.JNull? || j.JObject?
  {
    match Members(j)
    case None => None
    case Some(ms) =>
      var message, questions := DecodeString(Field(ms, "message")), DecodeList(Field(ms, "questions"), DecodeQuestion);
      var ready := DecodeBool(Field(ms, "prompt_ready"));
      var title, motivation := DecodeString(Field(ms, "generated_title")), DecodeString(Field(ms, "generated_motivation"));
      var prompt := DecodeString(Field(ms, "generated_prompt"));
      if message.Some? && questions.Some? && ready.Some? && title.Some? && motivation.Some? && prompt.Some? then
        Some(Response(message.value, questions.value, ready.value, title.value, motivation.value, prompt.value))
      else None
  }

  function DecodeEnvelope(j: Json): (r: Option<Envelope>)
    ensures j.JNull? ==> r == Some(Envelope(None, ""))
    ensures r.Some? ==> j.JNull? || j.JObject?
  {
    match Members(j)
    case None => None
    case Some(ms) =>
      var so, result := DecodePointer(Field(ms, "structured_output"), DecodeResponse), DecodeString(Field(ms, "result"));
      if so.Some? && result.Some? then Some(Envelope(so.value, result.value)) else None
  }

  /** json.Unmarshal of a text into a Response; None is its error. */
  function ResponseFromText(c: Codec, text: string): Option<Response> {
    match c.parse(text)
    case None => None
    case Some(j) => DecodeResponse(j)
  }

  /** json.Unmarshal of a text into the envelope; None is its error. */
  function EnvelopeFromText(c: Codec, text: string): Option<Envelope> {
    match c.parse(text)
    case None => None
    case Some(j) => DecodeEnvelope(j)
  }

  function EncodeOption(o: QuestionOption): Json {
    JObject([("label", JString(o.labelText)), ("description", JString(o.description))])
  }

  function EncodeQuestion(q: Question): Json {
    JObject([
      ("header", JString(q.header)),
      ("text", JString(q.text)),
      ("multi_select", JBool(q.multiSelect)),
      ("options", JArray(EncodeAll(q.options, EncodeOption)))])
  }

  function EncodeResponse(r: Response): Json {
    JObject([
      ("message", JString(r.message)),
      ("questions", JArray(EncodeAll(r.questions, EncodeQuestion))),
      ("prompt_ready", JBool(r.promptReady)),
      ("generated_title", JString(r.generatedTitle)),
      ("generated_motivation", JString(r.generatedMotivation)),
      ("generated_prompt", JString(r.generatedPrompt))])
  }

  lemma OptionRoundTrip(o: QuestionOption)
    ensures DecodeOption(EncodeOption(o)) == Some(o)
  {
    var ms := EncodeOption(o).members;
    FieldAt(ms, 0, "label");
    FieldAt(ms, 1, "description");
  }

  lemma QuestionRoundTrip(q: Question)
    ensures DecodeQuestion(EncodeQuestion(q)) == Some(q)
  {
    var ms := EncodeQuestion(q).members;
    FieldAt(ms, 0, "header");
    FieldAt(ms, 1, "text");
    FieldAt(ms, 2, "multi_select");
    OptionsRoundTrip(q);
  }

  lemma OptionsRoundTrip(q: Question)
    ensures DecodeList(Field(EncodeQuestion(q).members, "options"), DecodeOption) == Some(q.options)
  {
    FieldAt(EncodeQuestion(q).members, 3, "options");
    forall o ensures DecodeOption(EncodeOption(o)) == Some(o) {
      OptionRoundTrip(o);
    }
    DecodeAllEncoded(q.options, EncodeOption, DecodeOption);
  }

  lemma ReplyFieldsRoundTrip(r: Response)
    ensures var ms := EncodeResponse(r).members;
      && DecodeString(Field(ms, "message")) == Some(r.message)
      && DecodeList(Field(ms, "questions"), DecodeQuestion) == Some(r.questions)
      && DecodeBool(Field(ms, "prompt_ready")) == Some(r.promptReady)
  {
    var ms := EncodeResponse(r).members;
    FieldAt(ms, 0, "message");
    FieldAt(ms, 2, "prompt_ready");
    QuestionsRoundTrip(r);
  }

  lemma QuestionsRoundTrip(r: Response)
    ensures DecodeList(Field(EncodeResponse(r).members, "questions"), DecodeQuestion) == Some(r.questions)
  {
    FieldAt(EncodeResponse(r).members, 1, "questions");
    forall q ensures DecodeQuestion(EncodeQuestion(q)) == Some(q) {
      QuestionRoundTrip(q);
    }
    DecodeAllEncoded(r.questions, EncodeQuestion, DecodeQuestion);
  }

  lemma GeneratedFieldsRoundTrip(r: Response)
    ensures var ms := EncodeResponse(r).members;
      && DecodeString(Field(ms, "generated_title")) == Some(r.generatedTitle)
      && DecodeString(Field(ms, "generated_motivation")) == Some(r.generatedMotivation)
      && DecodeString(Field(ms, "generated_prompt")) == Some(r.generatedPrompt)
  {
    var ms := EncodeResponse(r).members;
    FieldAt(ms, 3, "generated_title");
    FieldAt(ms, 4, "generated_motivation");
    FieldAt(ms, 5, "generated_prompt");
  }

  /** Decoding an encoded reply gives it back. */
  lemma ResponseRoundTrip(r: Response)
    ensures DecodeResponse(EncodeResponse(r)) == Some(r)
  {
    ReplyFieldsRoundTrip(r);
    GeneratedFieldsRoundTrip(r);
  }

  /**
   * claude.parseResponse; None is its error. The first success among: a non-null
   * `structured_output`; a non-empty `result` text, decoded if it can be and taken as
   * the bare message otherwise; the output decoded directly, whatever its message.
   */
  function ParseResponse(c: Codec, output: string): (r: Option<Response>)
    ensures var env := EnvelopeFromText(c, output);
      env.Some? && env.value.structuredOutput.Some? ==> r == env.value.structuredOutput
    ensures var env := EnvelopeFromText(c, output);
      (&& env.Some? && env.value.structuredOutput.None? && env.value.result != ""
       && ResponseFromText(c, env.value.result).Some?) ==> r == ResponseFromText(c, env.value.result)
    ensures var env := EnvelopeFromText(c, output);
      (&& env.Some? && env.value.structuredOutput.None? && env.value.result != ""
       && ResponseFromText(c, env.value.result).None?) ==> r == Some(MessageOnly(env.value.result))
    ensures var env := EnvelopeFromText(c, output);
      (env.None? || (env.value.structuredOutput.None? && env.value.result == "")) ==> r == ResponseFromText(c, output)
    ensures r.None? ==> ResponseFromText(c, output).None?
  {
    var env := EnvelopeFromText(c, output);
    if env.Some? && env.value.structuredOutput.Some? then env.value.structuredOutput
    else if env.Some? && env.value.result != "" then
      match ResponseFromText(c, env.value.result)
      case Some(resp) => Some(resp)
      case None => Some(MessageOnly(env.value.result))
    else ResponseFromText(c, output)
  }

  /**
   * What SendMessage returns once the subprocess has produced `output`: the parsed
   * reply, or the whole output as the message when parsing fails; and the output
   * itself, unchanged. It never reports an error.
   */
  function SendMessageResult(c: Codec, output: string): (r: (Response, string))
    ensures r.1 == output
    ensures ParseResponse(c, output).Some? ==> r.0 == ParseResponse(c, output).value
    ensures ParseResponse(c, output).None? ==> r.0 == MessageOnly(output)
  {
    match ParseResponse(c, output)
    case Some(resp) => (resp, output)
    case None => (MessageOnly(output), output)
  }

  /** A reply placed in the `structured_output` envelope parses back to itself. */
  lemma ParseStructuredOutput(c: Codec, resp: Response)
    requires Lawful(c)
    ensures ParseResponse(c, c.serialize(JObject([("structured_output", EncodeResponse(resp))]))) == Some(resp)
  {
    var ms := [("structured_output", EncodeResponse(resp))];
    var output := c.serialize(JObject(ms));
    FieldAt(ms, 0, "structured_output");
    ResponseRoundTrip(resp);
    assert Field(ms, "result").None?;
    assert EnvelopeFromText(c, output) == Some(Envelope(Some(resp), ""));
  }

  /** A reply serialised into the `result` text parses back to itself. */
  lemma ParseResultText(c: Codec, resp: Response)
    requires Lawful(c)
    ensures ParseResponse(c, c.serialize(JObject([("result", JString(c.serialize(EncodeResponse(resp))))]))) == Some(resp)
  {
    var text := c.serialize(EncodeResponse(resp));
    var ms := [("result", JString(text))];
    var output := c.serialize(JObject(ms));
    FieldAt(ms, 0, "result");
    assert Field(ms, "structured_output").None?;
    assert EnvelopeFromText(c, output) == Some(Envelope(None, text));
    ResponseRoundTrip(resp);
    assert ResponseFromText(c, text) == Some(resp);
    assert text != "";
  }

  /** The process's command: program, arguments, working directory and environment. */
  datatype Command = Command(name: string, args: seq<string>, dir: string, env: seq<string>)

  /** The environment without the entries that start with `prefix`, in order. */
  function Without(environ: seq<string>, prefix: string): (r: seq<string>)
    ensures |r| <= |environ|
    ensures forall i | 0 <= i < |r| :: !HasPrefix(r[i], prefix)
  {
    if environ == [] then []
    else
      var last := environ[|environ| - 1];
      Without(environ[..|environ| - 1], prefix) + (if HasPrefix(last, prefix) then [] else [last])
  }

  /** Removing entries keeps the rest in their order: it distributes over concatenation. */
  lemma {:induction false} WithoutAppend(a: seq<string>, b: seq<string>, prefix: string)
    ensures Without(a + b, prefix) == Without(a, prefix) + Without(b, prefix)
  {
    if b != [] {
      var b' := b[..|b| - 1];
      assert (a + b)[..|a + b| - 1] == a + b';
      WithoutAppend(a, b', prefix);
    } else {
      assert a + b == a;
    }
  }

  /** Exactly the entries that do not start with `prefix` remain. */
  lemma {:induction false} WithoutMembers(environ: seq<string>, prefix: string, e: string)
    ensures e in Without(environ, prefix) <==> e in environ && !HasPrefix(e, prefix)
  {
    if environ != [] {
      var init := environ[..|environ| - 1];
      WithoutMembers(init, prefix, e);
      assert environ == init + [environ[|environ| - 1]];
    }
  }

  /** envWithout over the process environment `environ` (os.Environ). */
  method EnvWithout(environ: seq<string>, key: string) returns (env: seq<string>)
    ensures env == Without(environ, key + "=")
    ensures forall e :: e in env <==> e in environ && !HasPrefix(e, key + "=")
  {
    var prefix := key + "=";
    env := [];
    for i := 0 to |environ|
      invariant env == Without(environ[..i], prefix)
    {
      assert environ[..i + 1][..i] == environ[..i];
      if !HasPrefix(environ[i], prefix) {
        env := env + [environ[i]];
      }
    }
    assert environ[..|environ|] == environ;
    forall e ensures e in env <==> e in environ && !HasPrefix(e, prefix) {
      WithoutMembers(environ, prefix, e);
    }
  }

  /**
   * The environment a started process sees: os/exec gives a command whose Env is nil
   * the parent's whole environment, and envWithout returns nil when no entry survives.
   */
  function ChildEnv(env: seq<string>, environ: seq<string>): seq<string> {
    if env == [] then environ else env
  }

  /**
   * When some entry of the environment survives the removal, the child sees no
   * CLAUDECODE entry.
   */
  lemma ChildLacksMarker(environ: seq<string>, kept: string)
    requires kept in environ && !HasPrefix(kept, "CLAUDECODE=")
    ensures forall e | e in ChildEnv(Without(environ, "CLAUDECODE="), environ) :: !HasPrefix(e, "CLAUDECODE=")
  {
    WithoutMembers(environ, "CLAUDECODE=", kept);
    forall e | e in Without(environ, "CLAUDECODE=") ensures !HasPrefix(e, "CLAUDECODE=") {
      WithoutMembers(environ, "CLAUDECODE=", e);
    }
  }

  /**
   * When every entry is a CLAUDECODE entry, none survives, the command's Env is nil,
   * and the child inherits the parent's environment, CLAUDECODE included.
   */
  lemma OnlyMarkerInherited(environ: seq<string>)
    requires environ != [] && forall e | e in environ :: HasPrefix(e, "CLAUDECODE=")
    ensures Without(environ, "CLAUDECODE=") == []
    ensures ChildEnv(Without(environ, "CLAUDECODE="), environ) == environ
    ensures exists e | e in ChildEnv(Without(environ, "CLAUDECODE="), environ) :: HasPrefix(e, "CLAUDECODE=")
  {
    var w := Without(environ, "CLAUDECODE=");
    if w != [] {
      WithoutMembers(environ, "CLAUDECODE=", w[0]);
      assert false;
    }
    assert environ[0] in environ;
  }

  /** Removing CLAUDECODE does not remove a variable whose name merely starts with it. */
  lemma KeepsLongerName(environ: seq<string>)
    requires "CLAUDECODE_X=1" in environ
    ensures "CLAUDECODE_X=1" in Without(environ, "CLAUDECODE=")
  {
    WithoutMembers(environ, "CLAUDECODE=", "CLAUDECODE_X=1");
    assert "CLAUDECODE_X=1"[10] != "CLAUDECODE="[10];
  }

  /**
   * The command SendMessage starts: `claude` in the repository directory, with the
   * environment minus CLAUDECODE as its Env (what the child then sees is `ChildEnv`)
   * and the arguments appended as the source does. The JSON schema and the system
   * prompt are parameters here.
   */
  method SendMessageCommand(
    sessionId: string, repoDir: string, userMessage: string, resume: bool,
    environ: seq<string>, jsonSchema: string, systemPrompt: string)
    returns (cmd: Command)
    ensures cmd.name == "claude" && cmd.dir == repoDir
    ensures cmd.env == Without(environ, "CLAUDECODE=")
    ensures |cmd.args| == 14 && cmd.args[0] == "-p"
    ensures cmd.args[1] == (if resume then "--resume" else "--session-id") && cmd.args[2] == sessionId
    ensures cmd.args[3..] == [
      "--output-format", "json", "--json-schema", jsonSchema, "--system-prompt", systemPrompt,
      "--allowedTools", "Read,Glob,Grep", "--permission-mode", "bypassPermissions", userMessage]
    ensures cmd.args[|cmd.args| - 1] == userMessage
  {
    var args := ["-p"];
    if resume {
      args := args + ["--resume", sessionId];
    } else {
      args := args + ["--session-id", sessionId];
    }
    args := args + [
      "--output-format", "json",
      "--json-schema", jsonSchema,
      "--system-prompt", systemPrompt,
      "--allowedTools", "Read,Glob,Grep",
      "--permission-mode", "bypassPermissions",
      userMessage];
    var env := EnvWithout(environ, "CLAUDECODE");
    assert "CLAUDECODE" + "=" == "CLAUDECODE=";
    cmd := Command("claude", args, repoDir, env);
  }
}
