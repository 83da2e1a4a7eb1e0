/**
 * How the HTTP handlers recover a reply from the raw output stored with an assistant
 * message (parseRawResponse, extractQuestionsFromRaw and extractLegacyQuestion in
 * internal/server/handlers.go), including replies in the older single-question shape.
 */
module Normalize {
  import opened Wrappers
  import opened Json
  import opened Claude

  /** A question as the page shows it, numbered by its position in the reply. */
  datatype QuestionData = QuestionData(
    header: string,
    text: string,
    multiSelect: bool,
    options: seq<QuestionOption>,
    index: int)

  /** The older reply shape: at most one question, without header or multi-select flag. */
  datatype LegacyQuestion = LegacyQuestion(text: string, options: seq<QuestionOption>)

  datatype LegacyOutput = LegacyOutput(question: Option<LegacyQuestion>)

  datatype LegacyEnvelope = LegacyEnvelope(structuredOutput: Option<LegacyOutput>)

  function DecodeLegacyQuestion(j: Json): (r: Option<LegacyQuestion>)
    ensures r.Some? ==> j.JNull? || j.JObject?
  {
    match Members(j)
    case None => None
    case Some(ms) =>
      var text, options := DecodeString(Field(ms, "text")), DecodeList(Field(ms, "options"), DecodeOption);
      if text.Some? && options.Some? then Some(LegacyQuestion(text.value, options.value)) else None
  }

  function DecodeLegacyOutput(j: Json): (r: Option<LegacyOutput>)
    ensures r.Some? ==> j.JNull? || j.JObject?
  {
    match Members(j)
    case None => None
    case Some(ms) =>
      match DecodePointer(Field(ms, "question"), DecodeLegacyQuestion)
      case None => None
      case Some(q) => Some(LegacyOutput(q))
  }

  function DecodeLegacyEnvelope(j: Json): (r: Option<LegacyEnvelope>)
    ensures r.Some? ==> j.JNull? || j.JObject?
  {
    match Members(j)
    case None => None
    case Some(ms) =>
      match DecodePointer(Field(ms, "structured_output"), DecodeLegacyOutput)
      case None => None
      case Some(so) => Some(LegacyEnvelope(so))
  }

  function EncodeLegacyQuestion(q: LegacyQuestion): Json {
    JObject([("text", JString(q.text)), ("options", JArray(EncodeAll(q.options, EncodeOption)))])
  }

  /**
   * parseRawResponse; None stands for nil. The first success among: a non-null
   * `structured_output`; a non-empty `result` text that decodes; the raw text decoded
   * directly, but only when its message is not empty.
   */
  function ParseRawResponse(c: Codec, raw: string): (r: Option<Response>)
    ensures var env := EnvelopeFromText(c, raw);
      env.Some? && env.value.structuredOutput.Some? ==> r == env.value.structuredOutput
    ensures var env := EnvelopeFromText(c, raw);
      (&& env.Some? && env.value.structuredOutput.None? && env.value.result != ""
       && ResponseFromText(c, env.value.result).Some?) ==> r == ResponseFromText(c, env.value.result)
    ensures var env := EnvelopeFromText(c, raw);
      (&& !(env.Some? && env.value.structuredOutput.Some?)
       && !(env.Some? && env.value.result != "" && ResponseFromText(c, env.value.result).Some?))
      ==> (r.Some? <==> ResponseFromText(c, raw).Some? && ResponseFromText(c, raw).value.message != "")
          && (r.Some? ==> r == ResponseFromText(c, raw))
  {
    var env := EnvelopeFromText(c, raw);
    if env.Some? && env.value.structuredOutput.Some? then env.value.structuredOutput
    else if env.Some? && env.value.result != "" && ResponseFromText(c, env.value.result).Some? then
      ResponseFromText(c, env.value.result)
    else
      var direct := ResponseFromText(c, raw);
      if direct.Some? && direct.value.message != "" then direct else None
  }

  /**
   * extractLegacyQuestion: the single question of `structured_output`, numbered 0, with
   * no header and single choice; nothing when the text does not decode in that shape or
   * carries no such question.
   */
  function ExtractLegacyQuestion(c: Codec, raw: string): (r: seq<QuestionData>)
    ensures |r| <= 1
    ensures r != [] ==> r[0].header == "" && !r[0].multiSelect && r[0].index == 0
  {
    match c.parse(raw)
    case None => []
    case Some(j) =>
      match DecodeLegacyEnvelope(j)
      case None => []
      case Some(env) =>
        if env.structuredOutput.None? || env.structuredOutput.value.question.None? then []
        else
          var q := env.structuredOutput.value.question.value;
          [QuestionData("", q.text, false, q.options, 0)]
  }

  /** The questions of a reply, numbered from 0 in order. */
  function Numbered(qs: seq<Question>): (r: seq<QuestionData>)
    ensures |r| == |qs|
    ensures forall i | 0 <= i < |qs| ::
      (&& r[i].header == qs[i].header && r[i].text == qs[i].text
       && r[i].multiSelect == qs[i].multiSelect && r[i].options == qs[i].options && r[i].index == i)
  {
    seq(|qs|, i requires 0 <= i < |qs| =>
      QuestionData(qs[i].header, qs[i].text, qs[i].multiSelect, qs[i].options, i))
  }

  /** A numbered question without its number. */
  function Unnumbered(qd: QuestionData): Question {
    Question(qd.header, qd.text, qd.multiSelect, qd.options)
  }

  /**
   * extractQuestionsFromRaw: the pending questions and the prompt-ready flag. The list
   * of questions is used when it is not empty; otherwise the legacy single question is
   * looked for. The flag always comes from the reply itself.
   */
  function ExtractQuestionsFromRaw(c: Codec, raw: string): (r: (seq<QuestionData>, bool))
    ensures ParseRawResponse(c, raw).None? ==> r == ([], false)
    ensures ParseRawResponse(c, raw).Some? ==> r.1 == ParseRawResponse(c, raw).value.promptReady
    ensures var resp := ParseRawResponse(c, raw);
      resp.Some? && resp.value.questions == [] ==> r.0 == ExtractLegacyQuestion(c, raw)
    ensures var resp := ParseRawResponse(c, raw);
      resp.Some? && resp.value.questions != [] ==>
        (&& |r.0| == |resp.value.questions|
         && forall i | 0 <= i < |r.0| :: r.0[i].index == i && Unnumbered(r.0[i]) == resp.value.questions[i])
  {
    match ParseRawResponse(c, raw)
    case None => ([], false)
    case Some(resp) =>
      if resp.questions == [] then (ExtractLegacyQuestion(c, raw), resp.promptReady)
      else (Numbered(resp.questions), resp.promptReady)
  }

  /** The CLI output that carries `resp` as its structured output. */
  function StructuredText(c: Codec, resp: Response): string {
    c.serialize(JObject([("structured_output", EncodeResponse(resp))]))
  }

  /** The CLI output that carries `resp` serialised as its result text. */
  function ResultText(c: Codec, resp: Response): string {
    c.serialize(JObject([("result", JString(c.serialize(EncodeResponse(resp))))]))
  }

  lemma StructuredEnvelope(c: Codec, resp: Response)
    requires Lawful(c)
    ensures EnvelopeFromText(c, StructuredText(c, resp)) == Some(Envelope(Some(resp), ""))
  {
    var ms := [("structured_output", EncodeResponse(resp))];
    FieldAt(ms, 0, "structured_output");
    FieldAbsent(ms, "result");
    ResponseRoundTrip(resp);
  }

  lemma ResultEnvelope(c: Codec, resp: Response)
    requires Lawful(c)
    ensures EnvelopeFromText(c, ResultText(c, resp)) == Some(Envelope(None, c.serialize(EncodeResponse(resp))))
  {
    var ms := [("result", JString(c.serialize(EncodeResponse(resp))))];
    FieldAt(ms, 0, "result");
    FieldAbsent(ms, "structured_output");
  }

  /**
   * A reply decodes the same whether it arrives as the structured output or serialised
   * into the result text.
   */
  lemma StructuredAndResultAgree(c: Codec, resp: Response)
    requires Lawful(c)
    ensures ParseRawResponse(c, StructuredText(c, resp)) == Some(resp)
    ensures ParseRawResponse(c, ResultText(c, resp)) == Some(resp)
  {
    StructuredEnvelope(c, resp);
    ResultEnvelope(c, resp);
    ResponseRoundTrip(resp);
    assert c.serialize(EncodeResponse(resp)) != "";
  }

  /** The questions of a stored reply come back numbered, in order and unchanged. */
  lemma QuestionsRoundTrip(c: Codec, resp: Response)
    requires Lawful(c) && resp.questions != []
    ensures var (qs, ready) := ExtractQuestionsFromRaw(c, StructuredText(c, resp));
      && ready == resp.promptReady
      && |qs| == |resp.questions|
      && forall i | 0 <= i < |qs| :: qs[i].index == i && Unnumbered(qs[i]) == resp.questions[i]
  {
    StructuredAndResultAgree(c, resp);
  }

  /** A reply in the older shape: a message and one question. */
  function LegacyObject(message: string, q: LegacyQuestion): Json {
    JObject([("message", JString(message)), ("question", EncodeLegacyQuestion(q))])
  }

  lemma LegacyQuestionRoundTrip(q: LegacyQuestion)
    ensures DecodeLegacyQuestion(EncodeLegacyQuestion(q)) == Some(q)
  {
    var ms := EncodeLegacyQuestion(q).members;
    FieldAt(ms, 0, "text");
    FieldAt(ms, 1, "options");
    forall o ensures DecodeOption(EncodeOption(o)) == Some(o) {
      OptionRoundTrip(o);
    }
    DecodeAllEncoded(q.options, EncodeOption, DecodeOption);
  }

  /** The older shape read as a current reply: a message with no questions. */
  lemma LegacyObjectAsResponse(message: string, q: LegacyQuestion)
    ensures DecodeResponse(LegacyObject(message, q)) == Some(MessageOnly(message))
  {
    var ms := LegacyObject(message, q).members;
    FieldAt(ms, 0, "message");
    FieldAbsent(ms, "questions");
    FieldAbsent(ms, "prompt_ready");
    FieldAbsent(ms, "generated_title");
    FieldAbsent(ms, "generated_motivation");
    FieldAbsent(ms, "generated_prompt");
  }

  /**
   * A stored reply in the older shape still shows its question: as the only question,
   * numbered 0, with no header, single choice, and prompt-ready false.
   */
  lemma LegacyQuestionRecovered(c: Codec, message: string, q: LegacyQuestion)
    requires Lawful(c)
    ensures ExtractQuestionsFromRaw(c, c.serialize(JObject([("structured_output", LegacyObject(message, q))])))
      == ([QuestionData("", q.text, false, q.options, 0)], false)
  {
    var raw := c.serialize(JObject([("structured_output", LegacyObject(message, q))]));
    var ms := [("structured_output", LegacyObject(message, q))];
    FieldAt(ms, 0, "structured_output");
    FieldAbsent(ms, "result");
    LegacyObjectAsResponse(message, q);
    assert ParseRawResponse(c, raw) == Some(MessageOnly(message));
    var inner := LegacyObject(message, q).members;
    FieldAt(inner, 1, "question");
    LegacyQuestionRoundTrip(q);
  }

  /**
   * The older shape is only looked for in `structured_output`: the same reply
   * serialised into the result text shows its message but loses its question.
   */
  lemma LegacyQuestionLostInResultText(c: Codec, message: string, q: LegacyQuestion)
    requires Lawful(c)
    ensures var raw := c.serialize(JObject([("result", JString(c.serialize(LegacyObject(message, q))))]));
      && ParseRawResponse(c, raw) == Some(MessageOnly(message))
      && ExtractQuestionsFromRaw(c, raw) == ([], false)
  {
    var text := c.serialize(LegacyObject(message, q));
    var ms := [("result", JString(text))];
    FieldAt(ms, 0, "result");
    FieldAbsent(ms, "structured_output");
    LegacyObjectAsResponse(message, q);
    assert text != "";
  }

  /**
   * parseRawResponse and claude.parseResponse agree wherever parseRawResponse finds a
   * reply, except when the result text is not empty and does not decode.
   */
  lemma ParsersAgree(c: Codec, raw: string)
    requires ParseRawResponse(c, raw).Some?
    requires var env := EnvelopeFromText(c, raw);
      !(env.Some? && env.value.structuredOutput.None? && env.value.result != ""
        && ResponseFromText(c, env.value.result).None?)
    ensures ParseResponse(c, raw) == ParseRawResponse(c, raw)
  {
  }

  /**
   * Where they differ: a reply with an empty message read directly is accepted by
   * claude.parseResponse and ignored by parseRawResponse.
   */
  lemma EmptyMessageDirectDecode(c: Codec)
    requires Lawful(c)
    ensures var raw := c.serialize(EncodeResponse(MessageOnly("")));
      && ParseResponse(c, raw) == Some(MessageOnly(""))
      && ParseRawResponse(c, raw) == None
  {
    var ms := EncodeResponse(MessageOnly("")).members;
    FieldAbsent(ms, "structured_output");
    FieldAbsent(ms, "result");
    ResponseRoundTrip(MessageOnly(""));
  }

  /**
   * Where they differ: a result text that is not JSON becomes the message for
   * claude.parseResponse, while parseRawResponse goes on to the direct decode.
   */
  lemma UndecodableResultText(c: Codec, text: string)
    requires Lawful(c) && text != "" && c.parse(text).None?
    ensures var raw := c.serialize(JObject([("result", JString(text))]));
      && ParseResponse(c, raw) == Some(MessageOnly(text))
      && ParseRawResponse(c, raw) == None
  {
    var ms := [("result", JString(text))];
    FieldAt(ms, 0, "result");
    FieldAbsent(ms, "structured_output");
    FieldAbsent(ms, "message");
    FieldAbsent(ms, "questions");
    FieldAbsent(ms, "prompt_ready");
    FieldAbsent(ms, "generated_title");
    FieldAbsent(ms, "generated_motivation");
    FieldAbsent(ms, "generated_prompt");
  }
}
