/**
 * The question form's chat round: when a question may be sent, and which
 * entry the answer adds to the conversation. The answer is read from the
 * backend's JSON body with JavaScript's `||` / `&&` fallbacks.
 */
module ChatAnswer {
  import opened Wrappers
  import opened JsStrings

  /** A parsed JSON value. */
  datatype Json =
    | Null
    | Bool(b: bool)
    | Num(n: real)
    | Str(s: string)
    | Arr(items: seq<Json>)
    | Obj(fields: map<string, Json>)

  /** JavaScript truthiness; `None` is `undefined`. */
  predicate Truthy(v: Option<Json>) {
    match v
    case None => false
    case Some(j) =>
      match j
      case Null => false
      case Bool(b) => b
      case Num(n) => n != 0.0
      case Str(s) => s != ""
      case Arr(_) => true
      case Obj(_) => true
  }

  /** `v.key` on a value that is not `null`: an object's own field, `undefined` for anything else. */
  function Field(v: Json, key: string): Option<Json>
    requires !v.Null?
  {
    if v.Obj? && key in v.fields then Some(v.fields[key]) else None
  }

  /** The value at a path of object keys, `undefined` as soon as a step is not an object holding the key. */
  function Lookup(v: Json, path: seq<string>): Option<Json>
    decreases |path|
  {
    if path == [] then Some(v)
    else if v.Obj? && path[0] in v.fields then Lookup(v.fields[path[0]], path[1..])
    else None
  }

  // ---------------------------------------------------------------- sending

  /**
   * The guard at the top of `handleQuestionSubmit`: nothing is sent for a
   * blank question or while the backend address is unknown (`null` or "");
   * otherwise the trimmed question is sent.
   */
  function QuestionToSend(question: string, apiUrl: Option<string>): (r: Option<string>)
    ensures r.Some? <==> !AllSpace(question) && apiUrl.Some? && apiUrl.value != ""
    ensures r.Some? ==> r.value == Trim(question)
    ensures r.Some? ==> r.value != "" && !IsSpace(r.value[0]) && !IsSpace(r.value[|r.value| - 1])
  {
    var q := Trim(question);
    assert q == [] <==> AllSpace(question) by { TrimEmptyIff(question); }
    if q == "" || apiUrl.None? || apiUrl.value == "" then None else Some(q)
  }

  /** A question with no surrounding white space is sent as typed. */
  lemma TrimmedQuestionSentAsTyped(question: string, apiUrl: string)
    requires question != "" && !IsSpace(question[0]) && !IsSpace(question[|question| - 1])
    requires apiUrl != ""
    ensures QuestionToSend(question, Some(apiUrl)) == Some(question)
  {
    TrimUnchanged(question);
  }

  // ---------------------------------------------------------------- the answer

  const NoAnswer: string := "Yanıt alınamadı."
  const ErrorMessage: string := "Bir hata oluştu."

  /** `data.reply && data.reply.message && data.reply.message.content`: the first falsy step, or the content. */
  function ReplyContent(data: Json): Option<Json>
    requires !data.Null?
  {
    var reply := Field(data, "reply");
    if !Truthy(reply) then reply
    else
      var message := Field(reply.value, "message");
      if !Truthy(message) then message
      else Field(message.value, "content")
  }

  /**
   * `responseText`; `None` when `data` is `null`, where reading
   * `data.response` throws and the handler's catch branch takes over.
   */
  function ResponseText(data: Json): (r: Option<Json>)
    ensures r.None? <==> data.Null?
    ensures r.Some? ==> Truthy(r)
  {
    if data.Null? then None
    else
      var response := Field(data, "response");
      if Truthy(response) then response
      else
        var content := ReplyContent(data);
        if Truthy(content) then content else Some(Str(NoAnswer))
  }

  /** The first truthy candidate, or `fallback`: a chain `c0 || c1 || ... || fallback`. */
  function FirstTruthy(candidates: seq<Option<Json>>, fallback: Json): Json
    decreases |candidates|
  {
    if candidates == [] then fallback
    else if Truthy(candidates[0]) then candidates[0].value
    else FirstTruthy(candidates[1..], fallback)
  }

  /** The `&&` chain agrees with a plain path lookup wherever either is truthy. */
  lemma ReplyContentIsLookup(data: Json)
    requires !data.Null?
    ensures Truthy(ReplyContent(data)) <==> Truthy(Lookup(data, ["reply", "message", "content"]))
    ensures Truthy(ReplyContent(data)) ==> ReplyContent(data) == Lookup(data, ["reply", "message", "content"])
  {
    var path := ["reply", "message", "content"];
    assert path[0] == "reply" && path[1..] == ["message", "content"];
    assert path[1..][1..] == ["content"] && ["content"][1..] == [];
  }

  /**
   * The answer shown is the first truthy one of `data.response` and
   * `data.reply.message.content`, else the fixed no-answer text.
   */
  lemma AnswerIsFirstTruthy(data: Json)
    requires !data.Null?
    ensures ResponseText(data) ==
              Some(FirstTruthy([Field(data, "response"), Lookup(data, ["reply", "message", "content"])], Str(NoAnswer)))
  {
    ReplyContentIsLookup(data);
    var cands := [Field(data, "response"), Lookup(data, ["reply", "message", "content"])];
    var fallback := Str(NoAnswer);
    assert cands[1..] == [cands[1]] && cands[1..][1..] == [];
    assert FirstTruthy(cands[1..], fallback) == if Truthy(cands[1]) then cands[1].value else fallback;
    assert FirstTruthy(cands, fallback) ==
             if Truthy(cands[0]) then cands[0].value else FirstTruthy(cands[1..], fallback);
  }

  /** A non-empty string `response` is shown verbatim, whatever `reply` holds. */
  lemma StringResponseWins(fields: map<string, Json>, s: string)
    requires "response" in fields && fields["response"] == Str(s) && s != ""
    ensures ResponseText(Obj(fields)) == Some(Str(s))
  {
  }

  /** Without a usable `response` or `reply.message.content` the fixed no-answer text is shown. */
  lemma NothingUsableFallsBack(data: Json)
    requires !data.Null?
    requires !Truthy(Field(data, "response"))
    requires !Truthy(Lookup(data, ["reply", "message", "content"]))
    ensures ResponseText(data) == Some(Str(NoAnswer))
  {
    ReplyContentIsLookup(data);
  }

  // ---------------------------------------------------------------- the entry added

  datatype EntryKind = Question | Answer | Error

  /** A `ChatMessage`: its `type` and `text`. */
  datatype Entry = Entry(kind: EntryKind, text: Json)

  /** What the request produced: a failure (network or a body that is not JSON), or the parsed body. */
  datatype ChatReply = Failed | Received(data: Json)

  /** The entry the handler adds once the request has settled. */
  function ReplyEntry(reply: ChatReply): (e: Entry)
    ensures e.kind == Error <==> reply.Failed? || reply.data.Null?
    ensures e.kind == Error ==> e.text == Str(ErrorMessage)
    ensures e.kind == Answer ==> Truthy(Some(e.text)) && reply.Received? && ResponseText(reply.data) == Some(e.text)
    ensures e.kind != Question
  {
    match reply
    case Failed => Entry(Error, Str(ErrorMessage))
    case Received(data) =>
      match ResponseText(data)
      case None => Entry(Error, Str(ErrorMessage))
      case Some(text) => Entry(Answer, text)
  }
}
