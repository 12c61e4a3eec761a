/**
 * The response handling of the backend's roadmap generator
 * (`get_llm_enhancement` and `generate_learning_roadmap` in backend/main.py).
 * The model's reply is a JSON value, classified into one of four outcomes;
 * the value that goes back to the caller is again JSON: either an array of
 * strings or an object with the single key "error".
 */
module Backend {
  import opened Wrappers
  import opened Text

  /** A JSON value as `json.loads` returns it (numbers kept to integers). */
  datatype Json =
    | JNull
    | JBool(b: bool)
    | JNumber(n: int)
    | JString(s: string)
    | JArray(elems: seq<Json>)
    | JObject(fields: map<string, Json>)

  /** What `json.loads` made of the reply's text: a value, or a decode error. */
  datatype ParseOutcome = Parsed(value: Json) | Malformed

  /** The outcome of the HTTP request to the model service. */
  datatype LlmCall = Answered(parsed: ParseOutcome) | RequestFailed

  /** The two shapes `get_llm_enhancement` returns: a list of strings or `{"error": e}`. */
  datatype Reply = Items(items: seq<string>) | ErrorReply(error: Json)

  const UnexpectedFormat := "Unexpected response format from the AI. Please try again later."
  const ParseFailure := "Failed to parse the AI response. Please try again later."
  const ConnectFailure := "Failed to connect to the AI service. Please try again later."
  const MissingKey := "OpenRouter API Key not found. Please set OPENROUTER_API_KEY environment variable."

  /** `isinstance(v, list) and all(isinstance(item, str) for item in v)` */
  predicate IsStringArray(v: Json) {
    v.JArray? && forall i :: 0 <= i < |v.elems| ==> v.elems[i].JString?
  }

  /** `isinstance(v, dict) and "error" in v` */
  predicate HasErrorKey(v: Json) {
    v.JObject? && "error" in v.fields
  }

  /** The strings of a JSON array whose elements are all strings. */
  function Strings(elems: seq<Json>): (r: seq<string>)
    requires forall i :: 0 <= i < |elems| ==> elems[i].JString?
    ensures |r| == |elems|
    ensures forall i :: 0 <= i < |elems| ==> elems[i] == JString(r[i])
  {
    if elems == [] then [] else [elems[0].s] + Strings(elems[1..])
  }

  /** A list of strings as a JSON array. */
  function Encode(items: seq<string>): (r: seq<Json>)
    ensures |r| == |items|
    ensures forall i :: 0 <= i < |items| ==> r[i] == JString(items[i])
  {
    if items == [] then [] else [JString(items[0])] + Encode(items[1..])
  }

  /** Reading the strings back out of their encoding gives the same list. */
  lemma {:induction false} StringsOfEncode(items: seq<string>)
    ensures Strings(Encode(items)) == items
  {
    var e := Encode(items);
    assert forall i :: 0 <= i < |items| ==> e[i].JString?;
    var r := Strings(e);
    assert forall i :: 0 <= i < |items| ==> JString(r[i]) == JString(items[i]);
  }

  /** Encoding the strings of an all-strings array gives the same array. */
  lemma EncodeOfStrings(elems: seq<Json>)
    requires forall i :: 0 <= i < |elems| ==> elems[i].JString?
    ensures Encode(Strings(elems)) == elems
  {
  }

  /** A reply as the JSON value the caller receives. */
  function ToJson(reply: Reply): (v: Json)
    ensures reply.Items? ==> IsStringArray(v) && |v.elems| == |reply.items|
    ensures reply.ErrorReply? ==> HasErrorKey(v) && v.fields.Keys == {"error"}
  {
    match reply
    case Items(items) => JArray(Encode(items))
    case ErrorReply(e) => JObject(map["error" := e])
  }

  /** The error object `{"error": message}` for one of the fixed messages. */
  function Fixed(message: string): Reply {
    ErrorReply(JString(message))
  }

  /**
   * The classification of a parsed reply: an all-strings array is passed
   * on, an object with an "error" key keeps only that value, anything else
   * is an unexpected format, and text that does not parse is a parse failure.
   */
  function Classify(p: ParseOutcome): (r: Reply)
    ensures p.Malformed? ==> r == Fixed(ParseFailure)
    ensures p.Parsed? && IsStringArray(p.value) ==> r.Items? && ToJson(r) == p.value
    ensures p.Parsed? && HasErrorKey(p.value) ==> r == ErrorReply(p.value.fields["error"])
    ensures r.Items? <==> p.Parsed? && IsStringArray(p.value)
    ensures p.Parsed? && !IsStringArray(p.value) && !HasErrorKey(p.value) ==> r == Fixed(UnexpectedFormat)
  {
    match p
    case Malformed => Fixed(ParseFailure)
    case Parsed(v) =>
      if IsStringArray(v) then
        EncodeOfStrings(v.elems);
        Items(Strings(v.elems))
      else if HasErrorKey(v) then ErrorReply(v.fields["error"])
      else Fixed(UnexpectedFormat)
  }

  /** An all-strings array comes back exactly as it was, the empty array included. */
  lemma StringArrayUnchanged(v: Json)
    requires IsStringArray(v)
    ensures ToJson(Classify(Parsed(v))) == v
    ensures v == JArray([]) ==> Classify(Parsed(v)) == Items([])
  {
  }

  /** An object with an "error" key comes back with that key alone and its value. */
  lemma ErrorKeyKept(fields: map<string, Json>)
    requires "error" in fields
    ensures ToJson(Classify(Parsed(JObject(fields)))) == JObject(map["error" := fields["error"]])
  {
  }

  /**
   * Whatever the model answers, what the caller receives is an all-strings
   * array or an object whose only key is "error"; and reading that again
   * classifies it the same way.
   */
  lemma ClassifyStable(p: ParseOutcome)
    ensures var v := ToJson(Classify(p));
      IsStringArray(v) || (HasErrorKey(v) && v.fields.Keys == {"error"})
    ensures Classify(Parsed(ToJson(Classify(p)))) == Classify(p)
  {
    var r := Classify(p);
    match r
    case Items(items) =>
      StringsOfEncode(items);
    case ErrorReply(e) =>
  }

  /** The text added to the prompt when there is an existing roadmap. */
  const ExistingIntro := "\n        Take into account the existing roadmap provided below, but focus on topics not already covered and identify gaps to be filled.\n        Existing roadmap:\n        "

  /** The prompt: the base prompt, followed by the existing roadmap only when that is non-empty. */
  function SelectPrompt(basePrompt: string, existing: string): (prompt: string)
    ensures existing == "" ==> prompt == basePrompt
    ensures existing != "" ==>
      && |prompt| == |basePrompt| + |ExistingIntro| + |existing|
      && StartsWith(prompt, basePrompt)
      && prompt[|prompt| - |existing|..] == existing
      && prompt[|basePrompt|..|basePrompt| + |ExistingIntro|] == ExistingIntro
  {
    if existing != "" then
      var prompt := basePrompt + ExistingIntro + existing;
      assert prompt[..|basePrompt|] == basePrompt;
      prompt
    else basePrompt
  }

  /** `not key`: no key at all, or an empty one. */
  predicate MissingApiKey(apiKey: Option<string>) {
    apiKey.None? || apiKey.value == ""
  }

  /** What one request yields: a failed request is the connection error. */
  function Respond(call: LlmCall): (r: Reply)
    ensures call.RequestFailed? ==> r == Fixed(ConnectFailure)
    ensures call.Answered? ==> r == Classify(call.parsed)
  {
    match call
    case RequestFailed => Fixed(ConnectFailure)
    case Answered(parsed) => Classify(parsed)
  }

  /**
   * `get_llm_enhancement`: a missing key raises the `ValueError` (a
   * `Failure` here), otherwise the model (`llm`, applied to the prompt) is
   * asked and its reply classified.
   */
  function GetLlmEnhancement(apiKey: Option<string>, basePrompt: string, existing: string,
                             llm: string -> LlmCall): (r: Result<Reply, string>)
    ensures MissingApiKey(apiKey) <==> r.Failure?
    ensures r.Failure? ==> r.error == MissingKey
    ensures r.Success? ==> r.value == Respond(llm(SelectPrompt(basePrompt, existing)))
  {
    if MissingApiKey(apiKey) then Failure(MissingKey)
    else Success(Respond(llm(SelectPrompt(basePrompt, existing))))
  }

  /** Python truthiness of a reply: an empty list is false, a one-key dict is true. */
  predicate Truthy(reply: Reply) {
    reply.Items? ==> reply.items != []
  }

  /**
   * `generate_learning_roadmap`: a missing key raises; otherwise the
   * enhancement is asked for with no existing roadmap, a falsy result
   * becomes `[]` and any other result is returned as it is.
   */
  function GenerateLearningRoadmap(apiKey: Option<string>, basePrompt: string,
                                   llm: string -> LlmCall): (r: Result<Reply, string>)
    ensures MissingApiKey(apiKey) <==> r == Failure(MissingKey)
  {
    if MissingApiKey(apiKey) then Failure(MissingKey)
    else
      match GetLlmEnhancement(apiKey, basePrompt, "", llm)
      case Failure(e) => Failure(e)
      case Success(enhancements) =>
        if !Truthy(enhancements) then Success(Items([])) else Success(enhancements)
  }

  /**
   * The falsy guard changes nothing: the result is the classified reply to
   * the base prompt itself, error objects and the empty list included.
   */
  lemma GenerateIsEnhancementOfBasePrompt(apiKey: Option<string>, basePrompt: string, llm: string -> LlmCall)
    requires !MissingApiKey(apiKey)
    ensures GenerateLearningRoadmap(apiKey, basePrompt, llm) == Success(Respond(llm(basePrompt)))
    ensures GenerateLearningRoadmap(apiKey, basePrompt, llm) == GetLlmEnhancement(apiKey, basePrompt, "", llm)
  {
    var reply := Respond(llm(basePrompt));
    if !Truthy(reply) {
      assert reply == Items([]);
    }
  }

  /** Every error object is truthy, so it is passed on and never turned into `[]`. */
  lemma ErrorsPassedOn(apiKey: Option<string>, basePrompt: string, llm: string -> LlmCall)
    requires !MissingApiKey(apiKey)
    requires Respond(llm(basePrompt)).ErrorReply?
    ensures GenerateLearningRoadmap(apiKey, basePrompt, llm).Success?
    ensures GenerateLearningRoadmap(apiKey, basePrompt, llm).value.ErrorReply?
  {
  }
}
