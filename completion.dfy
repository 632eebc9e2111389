/** The calls to the chat-completions endpoint, with the HTTP exchange
    given as a parameter: `streamCompletion` and `requestFullResponse`
    (LogicTaskCompareMain.kt), `createCompletion` (CompareFormatsMain.kt),
    `requestWithTemperature` (TemperatureCompareMain.kt) and `sendRequest`
    (Main.kt). What each one prints or returns is decided by the body it
    posts, the outcome of the exchange and the content extractors. */
module Completion {
  import opened Text
  import opened ContentScan
  import opened EventStream
  import opened Request

  /** A non-streaming exchange as the programs see it */
  datatype Exchange =
    | CallFailed                             // `execute()` or reading the body threw
    | HttpError(code: int, json: string)     // `!response.isSuccessful`
    | Success(body: Option<string>)          // `response.body?.string()`

  /** A streaming exchange: the lines `readLine` returns, when there is a body */
  datatype StreamExchange =
    | StreamCallFailed
    | StreamHttpError(code: int)
    | StreamSuccess(lines: Option<seq<string>>)

  /** What a streaming call shows: the chunks printed in order, whether the
      closing `println()` ran, and whether an error went to standard error */
  datatype StreamReport = StreamReport(printed: seq<string>, newline: bool, error: bool)

  /** The response text the non-streaming calls hand to the extractor */
  function ResponseJson(body: Option<string>): string {
    match body
    case Some(json) => json
    case None => ""
  }

  /** `streamCompletion` and `createCompletion` after the request is built:
      an HTTP error or a thrown exception is reported, a missing body ends
      silently, and a body goes through the read loop, whose exception (a
      throwing extractor) is caught after the chunks already printed. */
  function StreamOutcome(x: StreamExchange): StreamReport {
    match x
    case StreamCallFailed => StreamReport([], false, true)
    case StreamHttpError(_) => StreamReport([], false, true)
    case StreamSuccess(None) => StreamReport([], false, false)
    case StreamSuccess(Some(lines)) =>
      var d := Decode(lines);
      StreamReport(d.printed, d.end != Aborted, d.end == Aborted)
  }

  /** `streamCompletion(client, apiKey, messages)` */
  method StreamCompletion(ms: seq<Message>, x: StreamExchange) returns (body: string, report: StreamReport)
    ensures body == BuildBody(ms, true)
    ensures report == StreamOutcome(x)
  {
    body := BuildBody(ms, true);
    match x {
      case StreamCallFailed =>
        report := StreamReport([], false, true);
      case StreamHttpError(_) =>
        report := StreamReport([], false, true);
      case StreamSuccess(None) =>
        report := StreamReport([], false, false);
      case StreamSuccess(Some(lines)) =>
        var printed, end := ReadEvents(lines);
        report := StreamReport(printed, end != Aborted, end == Aborted);
    }
  }

  /** `createCompletion(client, apiKey, messages, maxTokens, stop)`: the same
      loop behind a body with the optional fields, and a result that is
      null on every path */
  method CreateCompletion(ms: seq<Message>, maxTokens: Option<int>, stop: Option<seq<string>>,
                          x: StreamExchange)
    returns (body: string, report: StreamReport, result: Option<string>)
    ensures body == CompletionBody(ms, maxTokens, stop)
    ensures report == StreamOutcome(x)
    ensures result == None
  {
    body := CompletionBody(ms, maxTokens, stop);
    result := None;
    match x {
      case StreamCallFailed =>
        report := StreamReport([], false, true);
      case StreamHttpError(_) =>
        report := StreamReport([], false, true);
      case StreamSuccess(None) =>
        report := StreamReport([], false, false);
      case StreamSuccess(Some(lines)) =>
        var printed, end := ReadEvents(lines);
        report := StreamReport(printed, end != Aborted, end == Aborted);
    }
  }

  /** A failing line aborts the stream after the chunks before it. */
  lemma AbortKeepsPrinted(a: seq<string>, line: string, b: seq<string>)
    requires Decode(a).end == Exhausted && Classify(line) == Fail
    ensures StreamOutcome(StreamSuccess(Some(a + [line] + b))) ==
      StreamReport(Decode(a).printed, false, true)
  {
    DecodeAppend(a, [line] + b);
    assert a + [line] + b == a + ([line] + b);
    DecodeUnfold([line] + b);
  }

  /** `requestFullResponse` and `requestWithTemperature` after the request
      is built: null on an HTTP error or a thrown exception (including one
      from the extractor), otherwise whatever `extractContent` returns */
  function FullResponse(x: Exchange): Option<string> {
    match x
    case CallFailed => None
    case HttpError(_, _) => None
    case Success(body) =>
      match Content(ResponseJson(body))
      case Threw => None
      case Returned(c) => c
  }

  /** `requestFullResponse(client, apiKey, messages)` */
  method RequestFullResponse(ms: seq<Message>, x: Exchange) returns (body: string, result: Option<string>)
    ensures body == BuildBody(ms, false)
    ensures result == FullResponse(x)
  {
    body := BuildBody(ms, false);
    match x {
      case CallFailed =>
        result := None;
      case HttpError(_, _) =>
        result := None;
      case Success(b) =>
        var c := ExtractContent(ResponseJson(b));
        result := if c.Threw? then None else c.value;
    }
  }

  /** `requestWithTemperature(client, apiKey, userMessage, temperature, system)` */
  method RequestWithTemperature(userMessage: string, temperature: string, system: Option<string>, x: Exchange)
    returns (body: string, result: Option<string>)
    ensures body == BuildBodyWithTemperature(ChooseMessages(system, userMessage), temperature)
    ensures result == FullResponse(x)
  {
    var messages := ChooseMessages(system, userMessage);
    body := BuildBodyWithTemperature(messages, temperature);
    match x {
      case CallFailed =>
        result := None;
      case HttpError(_, _) =>
        result := None;
      case Success(b) =>
        var c := ExtractContent(ResponseJson(b));
        result := if c.Threw? then None else c.value;
    }
  }

  /** A successful exchange yields a value exactly when the key is present
      and its value does not run off the end of the text; a missing body
      yields null. */
  lemma FullResponseIff(json: string)
    ensures FullResponse(Success(Some(json))) != None <==>
      IndexOf(json, ContentKey) >= 0 && Locate(json) != Overrun
    ensures FullResponse(Success(None)) == None
  {
    AbsentIffNoKey(json);
    AbsentIffNoKey("");
  }

  /** What `sendRequest` in Main.kt shows */
  datatype SendOutcome =
    | Answer(content: string)   // `println(content)`
    | NoContent(json: string)   // the extraction-failed message, with the response
    | HttpFailed(code: int)     // the HTTP status message
    | Failed                    // the exception message

  function SendOutcomeOf(x: Exchange): SendOutcome {
    match x
    case CallFailed => Failed
    case HttpError(code, _) => HttpFailed(code)
    case Success(body) =>
      var json := ResponseJson(body);
      match Content(json)
      case Threw => Failed
      case Returned(None) => NoContent(json)
      case Returned(Some(c)) => Answer(c)
  }

  /** `sendRequest(apiKey, prompt)` */
  method SendRequest(prompt: string, x: Exchange) returns (body: string, outcome: SendOutcome)
    ensures body == SendRequestBody(prompt)
    ensures outcome == SendOutcomeOf(x)
  {
    body := SendRequestBody(prompt);
    match x {
      case CallFailed =>
        outcome := Failed;
      case HttpError(code, _) =>
        outcome := HttpFailed(code);
      case Success(b) =>
        var json := ResponseJson(b);
        var c := ExtractContent(json);
        if c.Threw? {
          outcome := Failed;
        } else if c.value.Some? {
          outcome := Answer(c.value.value);
        } else {
          outcome := NoContent(json);
        }
    }
  }

  /** A successful exchange prints an answer exactly when the key is
      present, and the error message instead exactly when it is absent;
      the extractor throws (and the exception is reported) exactly when the
      text ends in a backslash that opens a pair. */
  lemma SendOutcomeIff(json: string)
    ensures SendOutcomeOf(Success(Some(json))).NoContent? <==> IndexOf(json, ContentKey) == -1
    ensures SendOutcomeOf(Success(Some(json))).Failed? <==> Locate(json) == Overrun
    ensures SendOutcomeOf(Success(Some(json))).Answer? <==> Locate(json).Raw?
  {
    AbsentIffNoKey(json);
  }
}
