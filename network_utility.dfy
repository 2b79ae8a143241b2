/** The request side of `NetworkUtility` (NetworkUtility.cs): the `ErrorData`
    and `Response` records, the routing of the `Get`, `Post` and `Put`
    overloads to `ProcessRequest`, and the way `ProcessRequest` assembles a
    request and reports its outcome on the console. The transfer itself, JSON
    (de)serialisation and the clock are parameters. */
module NetworkUtility {
  import opened Wrappers
  import opened Text
  import DebugLog

  // ---------------------------------------------------------------------------
  // ErrorData

  /** An error reported by a server: a type and a message, never `null`. */
  datatype ErrorData = ErrorData(errorType: string, message: string)

  /** The constructor `ErrorData(type, message)`: a `null` argument becomes
      the empty string. */
  function NewErrorData(errorType: Option<string>, message: Option<string>): (e: ErrorData)
    ensures errorType.Some? ==> e.errorType == errorType.value
    ensures errorType.None? ==> e.errorType == ""
    ensures message.Some? ==> e.message == message.value
    ensures message.None? ==> e.message == ""
  {
    ErrorData(if errorType.None? then "" else errorType.value,
              if message.None? then "" else message.value)
  }

  /** `IsNull`: the error has no type, or only white space as its type. */
  predicate IsNull(e: ErrorData) {
    IsBlank(e.errorType)
  }

  /** `ErrorData.Empty`, which is `new ErrorData()`: both arguments `null`. */
  function EmptyError(): (e: ErrorData)
    ensures e == NewErrorData(None, None)
    ensures IsNull(e) && e.message == ""
  {
    NewErrorData(None, None)
  }

  /** Only a blank type makes an error `IsNull`; the message never matters. */
  lemma IsNullOnlyByType(t: Option<string>, m1: Option<string>, m2: Option<string>)
    ensures IsNull(NewErrorData(t, m1)) <==> IsNullOrWhiteSpace(t)
    ensures IsNull(NewErrorData(t, m1)) == IsNull(NewErrorData(t, m2))
  {
  }

  /** `ToString`. */
  function ErrorText(e: ErrorData): string {
    "Error: " + e.errorType + " - " + e.message
  }

  /** The text of an error starts with `Error: `, then holds the type, ` - `
      and the message, so the type and the message can be read back given
      the length of the type. */
  lemma ErrorTextParts(e: ErrorData)
    ensures |ErrorText(e)| == 10 + |e.errorType| + |e.message|
    ensures ErrorText(e)[..7] == "Error: "
    ensures ErrorText(e)[7..7 + |e.errorType|] == e.errorType
    ensures ErrorText(e)[7 + |e.errorType|..10 + |e.errorType|] == " - "
    ensures ErrorText(e)[10 + |e.errorType|..] == e.message
  {
  }

  /** Two errors with types of the same length have the same text only when
      they are the same error. */
  lemma ErrorTextInjective(e1: ErrorData, e2: ErrorData)
    requires |e1.errorType| == |e2.errorType|
    ensures ErrorText(e1) == ErrorText(e2) <==> e1 == e2
  {
    if ErrorText(e1) == ErrorText(e2) {
      ErrorTextParts(e1);
      ErrorTextParts(e2);
    }
  }

  // ---------------------------------------------------------------------------
  // Response

  /** How a `UnityWebRequest` ended. */
  datatype RequestResult = InProgress | Success | ConnectionError | ProtocolError | DataProcessingError

  /** What a sent request holds when its `Response` is built: the text of
      its download handler and its result. */
  datatype Reply = Reply(text: string, result: RequestResult)

  /** The body of a response and whether the request succeeded. */
  datatype Response = Response(json: string, success: bool)

  /** The skipped response: successful, with an empty body. */
  const Skipped: Response := Response("", true)

  /** The constructor `Response(request, skip)`. A skipped response never
      reads the request; otherwise a `null` request (`None`) throws
      (`None` result) and a real one gives its text and whether it
      succeeded. */
  function NewResponse(request: Option<Reply>, skip: bool): (r: Option<Response>)
    ensures skip ==> r == Some(Skipped)
    ensures !skip ==> (r.Some? <==> request.Some?)
    ensures !skip && r.Some? ==> r.value.json == request.value.text
    ensures !skip && r.Some? ==> (r.value.success <==> request.value.result == Success)
  {
    if skip then Some(Skipped)
    else if request.None? then None
    else Some(Response(request.value.text, request.value.result == Success))
  }

  /** Skipping makes the request irrelevant, even a `null` one. */
  lemma SkipIgnoresRequest(a: Option<Reply>, b: Option<Reply>)
    ensures NewResponse(a, true) == NewResponse(b, true) == NewResponse(None, true)
    ensures NewResponse(None, true).value.success && NewResponse(None, true).value.json == ""
  {
  }

  /** The message of the exception `Convert` raises and catches for a blank
      body. */
  const BlankJsonMessage: string := "Failed to deserialize JSON. Reason - Is Null or WhiteSpace"

  /** The deserialisation `Convert<T>(standart)` attempts: a blank body throws
      the blank-body exception (with the given stack trace and source)
      without consulting either deserialiser; otherwise Json.NET
      (`standard`) or `JsonUtility` reads the body. `Threw` means that
      `default` is returned and the exception logged. */
  function Converted<T>(json: string, standard: bool,
                        jsonNet: string -> Outcome<T, DebugLog.ExceptionInfo>,
                        jsonUtility: string -> Outcome<T, DebugLog.ExceptionInfo>,
                        stackTrace: string, source: string): (r: Outcome<T, DebugLog.ExceptionInfo>)
    ensures IsBlank(json) ==> r == Threw(DebugLog.ExceptionInfo(BlankJsonMessage, stackTrace, source))
    ensures !IsBlank(json) && standard ==> r == jsonNet(json)
    ensures !IsBlank(json) && !standard ==> r == jsonUtility(json)
  {
    if IsBlank(json) then Threw(DebugLog.ExceptionInfo(BlankJsonMessage, stackTrace, source))
    else if standard then jsonNet(json)
    else jsonUtility(json)
  }

  /** A blank body converts to `default` whatever the deserialisers would
      do, and the error line logged for it names the blank-body reason. */
  lemma BlankConvertIsDefault<T>(json: string, standard: bool,
                                 n1: string -> Outcome<T, DebugLog.ExceptionInfo>,
                                 u1: string -> Outcome<T, DebugLog.ExceptionInfo>,
                                 n2: string -> Outcome<T, DebugLog.ExceptionInfo>,
                                 u2: string -> Outcome<T, DebugLog.ExceptionInfo>,
                                 stackTrace: string, source: string)
    requires IsBlank(json)
    ensures Converted(json, standard, n1, u1, stackTrace, source).Threw?
    ensures Converted(json, standard, n1, u1, stackTrace, source)
         == Converted(json, !standard, n2, u2, stackTrace, source)
    ensures DebugLog.Output(true, DebugLog.ExceptionCall(Some(Converted(json, standard, n1, u1, stackTrace, source).error)))
         == [DebugLog.Entry(DebugLog.ErrorChannel,
               DebugLog.Line(DebugLog.Exception, BlankJsonMessage + " @ " + stackTrace + " @ " + source))]
  {
  }

  /** The error a blank body stands for. */
  const UnknownRequestError: ErrorData := ErrorData("Request", "Unknown request error")

  /** The `Error` getter: a blank body gives the unknown request error;
      otherwise Json.NET reads the body (which may give `null`, `None`).
      `Threw` means that `null` is returned and the exception logged. */
  function ErrorOf(json: string, jsonNet: string -> Outcome<Option<ErrorData>, DebugLog.ExceptionInfo>): (r: Outcome<Option<ErrorData>, DebugLog.ExceptionInfo>)
    ensures IsBlank(json) ==> r == Returned(Some(UnknownRequestError))
    ensures !IsBlank(json) ==> r == jsonNet(json)
  {
    if IsBlank(json) then Returned(Some(UnknownRequestError)) else jsonNet(json)
  }

  /** The error of a response with a blank body is a real error, not an
      `IsNull` one, and it is the same whatever the deserialiser. */
  lemma BlankBodyErrorIsNotNull(json: string,
                                n1: string -> Outcome<Option<ErrorData>, DebugLog.ExceptionInfo>,
                                n2: string -> Outcome<Option<ErrorData>, DebugLog.ExceptionInfo>)
    requires IsBlank(json)
    ensures ErrorOf(json, n1) == ErrorOf(json, n2)
    ensures ErrorOf(json, n1).Returned? && ErrorOf(json, n1).value.Some?
    ensures ErrorOf(json, n1).value.value == UnknownRequestError
    ensures !IsNull(ErrorOf(json, n1).value.value)
  {
    UnknownRequestErrorShape();
  }

  /** The unknown request error has a type. */
  lemma UnknownRequestErrorShape()
    ensures !IsNull(UnknownRequestError)
  {
    assert !IsWhiteSpace(UnknownRequestError.errorType[0]);
  }

  /** A skipped response has an empty body, so converting it gives `default`
      and its error is the unknown request error. */
  lemma SkippedResponseIsBlank()
    ensures IsBlank(Skipped.json)
    ensures forall n | true :: ErrorOf(Skipped.json, n) == Returned(Some(UnknownRequestError))
  {
  }

  /** `Convert`: the converted value (`None` is `default`), logging the
      exception when the conversion throws. */
  method Convert<T>(console: DebugLog.Console, response: Response, standard: bool,
                    jsonNet: string -> Outcome<T, DebugLog.ExceptionInfo>,
                    jsonUtility: string -> Outcome<T, DebugLog.ExceptionInfo>,
                    stackTrace: string, source: string) returns (value: Option<T>)
    modifies console
    ensures var c := Converted(response.json, standard, jsonNet, jsonUtility, stackTrace, source);
      && (value.Some? <==> c.Returned?)
      && (c.Returned? ==> value.value == c.value)
      && console.subscribed == old(console.subscribed)
      && console.entries == old(console.entries) + ExceptionOutput(console.isEditor, c)
      && console.raised == old(console.raised) + DebugLog.Notices(console.subscribed, ExceptionOutput(console.isEditor, c))
  {
    var c := Converted(response.json, standard, jsonNet, jsonUtility, stackTrace, source);
    if c.Returned? {
      value := Some(c.value);
    } else {
      console.Exception(Some(c.error));
      value := None;
    }
  }

  /** The lines logged for a conversion: the exception it threw, if any. */
  function ExceptionOutput<T>(isEditor: bool, c: Outcome<T, DebugLog.ExceptionInfo>): (es: seq<DebugLog.Entry>)
    ensures c.Returned? ==> es == []
    ensures c.Threw? && isEditor ==> |es| == 1 && es[0].channel == DebugLog.ErrorChannel
  {
    if c.Returned? then [] else DebugLog.Output(isEditor, DebugLog.ExceptionCall(Some(c.error)))
  }

  /** The `Error` getter, logging the exception when deserialisation throws
      and returning `null` (`None`) then. */
  method Error(console: DebugLog.Console, response: Response,
               jsonNet: string -> Outcome<Option<ErrorData>, DebugLog.ExceptionInfo>) returns (e: Option<ErrorData>)
    modifies console
    ensures var c := ErrorOf(response.json, jsonNet);
      && e == (if c.Returned? then c.value else None)
      && console.subscribed == old(console.subscribed)
      && console.entries == old(console.entries) + ExceptionOutput(console.isEditor, c)
      && console.raised == old(console.raised) + DebugLog.Notices(console.subscribed, ExceptionOutput(console.isEditor, c))
  {
    var c := ErrorOf(response.json, jsonNet);
    if c.Returned? {
      e := c.value;
    } else {
      console.Exception(Some(c.error));
      e := None;
    }
  }

  // ---------------------------------------------------------------------------
  // The overloads

  /** `UnityWebRequest.kHttpVerbGET`, `kHttpVerbPOST` and `kHttpVerbPUT`. */
  datatype Verb = GET | POST | PUT

  function VerbName(v: Verb): (s: string)
    ensures |s| >= 3
  {
    match v
    case GET => "GET"
    case POST => "POST"
    case PUT => "PUT"
  }

  /** The public request overloads, by the arguments that decide what
      `ProcessRequest` receives; `data` is the body already serialised by
      Json.NET, which is never `null`. The URL, timeout, progress and
      cancellation are passed through unchanged. */
  datatype Overload =
    | GetData
    | GetWithToken(token: Option<string>)
    | GetWithTokenAndData(token: Option<string>, data: string)
    | GetAuthenticated(token: Option<string>, isAuthenticated: bool)
    | GetPrivateData(token: Option<string>, isAuthenticated: bool)
    | PostData(data: string)
    | PostWithToken(token: Option<string>, data: string)
    | PostAuthenticated(token: Option<string>, isAuthenticated: bool, data: string)
    | PutWithToken(token: Option<string>, data: string)

  /** The verb, body and token `ProcessRequest` is called with. */
  datatype Arguments = Arguments(verb: Verb, json: Option<string>, token: Option<string>)

  predicate IsGet(o: Overload) {
    o.GetData? || o.GetWithToken? || o.GetWithTokenAndData? || o.GetAuthenticated? || o.GetPrivateData?
  }

  predicate HasData(o: Overload) {
    o.GetWithTokenAndData? || o.PostData? || o.PostWithToken? || o.PostAuthenticated? || o.PutWithToken?
  }

  predicate HasToken(o: Overload) {
    !o.GetData? && !o.PostData?
  }

  /** The call an overload makes: `None` when `PrivateData` returns the
      skipped response without a request. */
  function Route(o: Overload): (r: Option<Arguments>)
    ensures r.None? <==> o.GetPrivateData? && !o.isAuthenticated
    ensures r.Some? ==> (r.value.verb == GET <==> IsGet(o))
    ensures r.Some? ==> (r.value.verb == PUT <==> o.PutWithToken?)
    ensures r.Some? ==> (r.value.json.Some? <==> HasData(o))
    ensures r.Some? && HasData(o) ==> r.value.json == Some(o.data)
    ensures r.Some? && r.value.token.Some? ==> HasToken(o) && r.value.token == o.token
    ensures r.Some? && HasToken(o) && !o.GetAuthenticated? && !o.PostAuthenticated? ==> r.value.token == o.token
    ensures r.Some? && (o.GetAuthenticated? || o.PostAuthenticated?) ==>
      r.value.token == if o.isAuthenticated then o.token else None
  {
    match o
    case GetData => Some(Arguments(GET, None, None))
    case GetWithToken(t) => Some(Arguments(GET, None, t))
    case GetWithTokenAndData(t, d) => Some(Arguments(GET, Some(d), t))
    case GetAuthenticated(t, a) => Some(Arguments(GET, None, if a then t else None))
    case GetPrivateData(t, a) => if a then Some(Arguments(GET, None, t)) else None
    case PostData(d) => Some(Arguments(POST, Some(d), None))
    case PostWithToken(t, d) => Some(Arguments(POST, Some(d), t))
    case PostAuthenticated(t, a, d) => Some(Arguments(POST, Some(d), if a then t else None))
    case PutWithToken(t, d) => Some(Arguments(PUT, Some(d), t))
  }

  /** The overloads taking `isAuthenticated` forward the token exactly when
      it is true, and `PrivateData` sends nothing at all when it is false. */
  lemma TokenOnlyWhenAuthenticated(o: Overload)
    requires o.GetAuthenticated? || o.GetPrivateData? || o.PostAuthenticated?
    ensures Route(o).Some? ==> Route(o).value.token == (if o.isAuthenticated then o.token else None)
    ensures !o.isAuthenticated ==> Route(o).None? || Route(o).value.token.None?
    ensures o.isAuthenticated ==> Route(o).Some?
  {
  }

  /** The overloads without a token never send one, whatever the data. */
  lemma NoTokenOverloads(d: string)
    ensures Route(GetData).value.token.None?
    ensures Route(PostData(d)).value.token.None?
  {
  }

  // ---------------------------------------------------------------------------
  // ProcessRequest

  const ContentType: string := "Content-Type"
  const Authorization: string := "Authorization"
  const ApplicationJson: string := "application/json"

  /** The request headers `ProcessRequest` sets for a token. */
  function RequestHeaders(token: Option<string>): (h: map<string, string>)
    ensures ContentType in h && h[ContentType] == ApplicationJson
    ensures Authorization in h <==> !IsNullOrEmpty(token)
    ensures Authorization in h ==> h[Authorization] == "Bearer " + token.value
    ensures forall k | k in h :: k == ContentType || k == Authorization
  {
    if IsNullOrEmpty(token) then map[ContentType := ApplicationJson]
    else map[ContentType := ApplicationJson, Authorization := "Bearer " + token.value]
  }

  /** The body `ProcessRequest` uploads for a JSON text: none for `null` or
      the empty string. */
  function UploadBody(json: Option<string>): (b: Option<string>)
    ensures b.Some? <==> !IsNullOrEmpty(json)
    ensures b.Some? ==> b == json
  {
    if IsNullOrEmpty(json) then None else json
  }

  /** How awaiting the request ended: it completed, it was cancelled, or it
      threw. */
  datatype SendOutcome = Completed | Canceled | Failed(exception: DebugLog.ExceptionInfo)

  /** The logger calls `ProcessRequest` makes, oldest first: a warning when
      cancelled, the exception and the URL as an error when it threw, and
      always, from the `finally` block, the completion line. */
  function ProcessLog(verb: Verb, url: string, send: SendOutcome): (calls: seq<DebugLog.Call>)
    ensures |calls| >= 1
    ensures calls[|calls| - 1] == DebugLog.InfoCall(Some("Request " + VerbName(verb) + " completed!"))
    ensures send.Completed? <==> |calls| == 1
  {
    CatchLog(verb, url, send) + [Completion(verb)]
  }

  /** The line of the `finally` block. */
  function Completion(verb: Verb): DebugLog.Call {
    DebugLog.InfoCall(Some("Request " + VerbName(verb) + " completed!"))
  }

  /** The logger calls of the `catch` blocks. */
  function CatchLog(verb: Verb, url: string, send: SendOutcome): (calls: seq<DebugLog.Call>)
    ensures send.Completed? <==> calls == []
  {
    match send
    case Completed => []
    case Canceled => [DebugLog.WarningCall(Some("Request " + VerbName(verb) + " canceled: " + url))]
    case Failed(e) => [DebugLog.ExceptionCall(Some(e)), DebugLog.ErrorCall(Some(url))]
  }

  /** The console lines a run of logger calls adds. */
  function OutputAll(isEditor: bool, calls: seq<DebugLog.Call>): (es: seq<DebugLog.Entry>)
    ensures |es| <= |calls|
    ensures !isEditor ==> es == []
  {
    if calls == [] then [] else DebugLog.Output(isEditor, calls[0]) + OutputAll(isEditor, calls[1..])
  }

  /** In the editor the completion line is always the last line printed,
      whatever happened to the request. */
  lemma CompletionAlwaysLogged(verb: Verb, url: string, send: SendOutcome)
    ensures var es := OutputAll(true, ProcessLog(verb, url, send));
      && es != []
      && es[|es| - 1] == DebugLog.Entry(DebugLog.LogChannel,
           DebugLog.Line(DebugLog.Log, "Request " + VerbName(verb) + " completed!"))
  {
    LogThenLine(true, [], CatchLog(verb, url, send), Completion(verb));
    CompletionPrinted(verb);
    var front := OutputAll(true, CatchLog(verb, url, send));
    var es := OutputAll(true, ProcessLog(verb, url, send));
    assert es == [] + front + DebugLog.Output(true, Completion(verb));
    assert es[|es| - 1] == DebugLog.Output(true, Completion(verb))[0];
  }

  /** The completion line is printed in the editor. */
  lemma CompletionPrinted(verb: Verb)
    ensures DebugLog.Output(true, Completion(verb))
         == [DebugLog.Entry(DebugLog.LogChannel, DebugLog.Line(DebugLog.Log, "Request " + VerbName(verb) + " completed!"))]
  {
    var done := "Request " + VerbName(verb) + " completed!";
    assert !IsWhiteSpace(done[0]);
  }

  /** Appending the lines of one more call. */
  lemma LogThenLine(isEditor: bool, e0: seq<DebugLog.Entry>, before: seq<DebugLog.Call>, c: DebugLog.Call)
    ensures e0 + OutputAll(isEditor, before) + DebugLog.Output(isEditor, c) == e0 + OutputAll(isEditor, before + [c])
  {
    OutputAllSplit(isEditor, before, [c]);
    OutputCons(isEditor, c, []);
    assert [c] + [] == [c];
  }

  /** Notifying the subscribers of one more call. */
  lemma NoticeThenLine(isEditor: bool, subscribed: bool, r0: seq<string>, before: seq<DebugLog.Call>, c: DebugLog.Call)
    ensures r0 + DebugLog.Notices(subscribed, OutputAll(isEditor, before)) + DebugLog.Notices(subscribed, DebugLog.Output(isEditor, c))
         == r0 + DebugLog.Notices(subscribed, OutputAll(isEditor, before + [c]))
  {
    var a, b := OutputAll(isEditor, before), DebugLog.Output(isEditor, c);
    OutputAllSplit(isEditor, before, [c]);
    OutputOne(isEditor, c);
    DebugLog.NoticesAppend(subscribed, a, b);
  }

  /** The lines of a single call. */
  lemma OutputOne(isEditor: bool, c: DebugLog.Call)
    ensures OutputAll(isEditor, [c]) == DebugLog.Output(isEditor, c)
  {
    OutputCons(isEditor, c, []);
    assert [c] + [] == [c];
  }

  /** Output distributes over concatenation of calls. */
  lemma {:induction false} OutputAllSplit(isEditor: bool, a: seq<DebugLog.Call>, b: seq<DebugLog.Call>)
    ensures OutputAll(isEditor, a + b) == OutputAll(isEditor, a) + OutputAll(isEditor, b)
    decreases |a|
  {
    if a == [] {
      assert a + b == b;
    } else {
      assert (a + b)[0] == a[0];
      assert (a + b)[1..] == a[1..] + b;
      OutputAllSplit(isEditor, a[1..], b);
    }
  }

  /** A request that completes logs nothing but its completion line, and a
      cancelled one logs one warning before it. */
  lemma QuietUnlessInterrupted(verb: Verb, url: string)
    ensures |OutputAll(true, ProcessLog(verb, url, Completed))| == 1
    ensures |OutputAll(true, ProcessLog(verb, url, Canceled))| == 2
    ensures OutputAll(true, ProcessLog(verb, url, Canceled))[0].channel == DebugLog.WarningChannel
  {
    LogThenLine(true, [], CatchLog(verb, url, Completed), Completion(verb));
    CompletionPrinted(verb);
    var w := DebugLog.WarningCall(Some("Request " + VerbName(verb) + " canceled: " + url));
    assert !IsWhiteSpace(w.message.value[0]);
    LogThenLine(true, [], [w], Completion(verb));
    OutputCons(true, w, []);
    assert [w] + [] == [w];
  }

  /** A `UnityWebRequest` being assembled and sent. */
  class WebRequest {
    const url: string
    const verb: Verb
    var timeout: int
    /** The request headers, by name; setting a header again replaces it. */
    var headers: map<string, string>
    /** The upload handler's body, if one is attached. */
    var upload: Option<string>
    var disposed: bool

    constructor (url: string, verb: Verb)
      ensures this.url == url && this.verb == verb
      ensures headers == map[] && upload.None? && !disposed
    {
      this.url := url;
      this.verb := verb;
      timeout := 0;
      headers := map[];
      upload := None;
      disposed := false;
    }

    /** `SetRequestHeader`. */
    method SetRequestHeader(name: string, value: string)
      modifies this
      ensures headers == old(headers)[name := value]
      ensures timeout == old(timeout) && upload == old(upload) && disposed == old(disposed)
    {
      headers := headers[name := value];
    }
  }

  /** `ProcessRequest`: builds the request, sends it (its outcome and the
      reply it holds afterwards are given), logs what happened and returns
      the response built from the request. */
  method ProcessRequest(console: DebugLog.Console, url: string, verb: Verb, json: Option<string>,
                        token: Option<string>, timeout: int, send: SendOutcome, reply: Reply)
    returns (response: Response, request: WebRequest)
    modifies console
    ensures fresh(request)
    ensures request.url == url && request.verb == verb && request.timeout == timeout
    ensures request.headers == RequestHeaders(token)
    ensures request.upload == UploadBody(json)
    ensures request.disposed
    ensures Some(response) == NewResponse(Some(reply), false)
    ensures console.subscribed == old(console.subscribed)
    ensures console.entries == old(console.entries) + OutputAll(console.isEditor, ProcessLog(verb, url, send))
    ensures console.raised == old(console.raised) + DebugLog.Notices(console.subscribed, OutputAll(console.isEditor, ProcessLog(verb, url, send)))
  {
    request := new WebRequest(url, verb);
    request.timeout := timeout;
    request.SetRequestHeader(ContentType, ApplicationJson);
    if !IsNullOrEmpty(token) {
      request.SetRequestHeader(Authorization, "Bearer " + token.value);
    }
    if !IsNullOrEmpty(json) {
      request.upload := json;
    }
    response := Response(reply.text, reply.result == Success);
    request.disposed := true;
    Report(console, verb, url, send);
  }

  /** The logging of `ProcessRequest`: the `catch` blocks for the outcome,
      then the `finally` block. */
  method Report(console: DebugLog.Console, verb: Verb, url: string, send: SendOutcome)
    modifies console
    ensures console.subscribed == old(console.subscribed)
    ensures console.entries == old(console.entries) + OutputAll(console.isEditor, ProcessLog(verb, url, send))
    ensures console.raised == old(console.raised) + DebugLog.Notices(console.subscribed, OutputAll(console.isEditor, ProcessLog(verb, url, send)))
  {
    ghost var e0, r0 := console.entries, console.raised;
    ReportCatch(console, verb, url, send);
    console.Info(Completion(verb).message);
    LogThenLine(console.isEditor, e0, CatchLog(verb, url, send), Completion(verb));
    NoticeThenLine(console.isEditor, console.subscribed, r0, CatchLog(verb, url, send), Completion(verb));
  }

  /** The logging of the `catch` blocks of `ProcessRequest`. */
  method ReportCatch(console: DebugLog.Console, verb: Verb, url: string, send: SendOutcome)
    modifies console
    ensures console.subscribed == old(console.subscribed)
    ensures console.entries == old(console.entries) + OutputAll(console.isEditor, CatchLog(verb, url, send))
    ensures console.raised == old(console.raised) + DebugLog.Notices(console.subscribed, OutputAll(console.isEditor, CatchLog(verb, url, send)))
  {
    var calls := CatchLog(verb, url, send);
    match send {
      case Completed =>
      case Canceled =>
        var w := DebugLog.WarningCall(Some("Request " + VerbName(verb) + " canceled: " + url));
        assert calls == [w];
        console.Warning(w.message);
        OutputOne(console.isEditor, w);
      case Failed(e) =>
        var x, u := DebugLog.ExceptionCall(Some(e)), DebugLog.ErrorCall(Some(url));
        assert calls == [x, u];
        console.Exception(x.exception);
        console.Error(u.message);
        OutputOfTwo(console.isEditor, x, u);
        DebugLog.NoticesAppend(console.subscribed, DebugLog.Output(console.isEditor, x), DebugLog.Output(console.isEditor, u));
    }
  }

  /** The lines of a call followed by more calls. */
  lemma OutputCons(isEditor: bool, c: DebugLog.Call, rest: seq<DebugLog.Call>)
    ensures OutputAll(isEditor, [c] + rest) == DebugLog.Output(isEditor, c) + OutputAll(isEditor, rest)
  {
    assert ([c] + rest)[1..] == rest;
  }

  /** The lines of two logger calls. */
  lemma OutputOfTwo(isEditor: bool, c1: DebugLog.Call, c2: DebugLog.Call)
    ensures OutputAll(isEditor, [c1, c2]) == DebugLog.Output(isEditor, c1) + DebugLog.Output(isEditor, c2)
  {
    OutputCons(isEditor, c1, [c2]);
    OutputCons(isEditor, c2, []);
    assert [c1] + [c2] == [c1, c2];
    assert [c2] + [] == [c2];
  }

  /** A public request: the skipped response for an unauthenticated
      `PrivateData`, with no request and no log line; otherwise
      `ProcessRequest` with the routed arguments. */
  method Send(console: DebugLog.Console, o: Overload, url: string, timeout: int,
              send: SendOutcome, reply: Reply) returns (response: Response, issued: bool)
    modifies console
    ensures issued <==> Route(o).Some?
    ensures !issued ==> response == Skipped && console.entries == old(console.entries) && console.raised == old(console.raised)
    ensures issued ==> Some(response) == NewResponse(Some(reply), false)
    ensures issued ==>
      console.entries == old(console.entries) + OutputAll(console.isEditor, ProcessLog(Route(o).value.verb, url, send))
    ensures issued ==>
      console.raised == old(console.raised) + DebugLog.Notices(console.subscribed, OutputAll(console.isEditor, ProcessLog(Route(o).value.verb, url, send)))
    ensures console.subscribed == old(console.subscribed)
  {
    var args := Route(o);
    if args.None? {
      response := NewResponse(None, true).value;
      issued := false;
      return;
    }
    var a := args.value;
    var request;
    response, request := ProcessRequest(console, url, a.verb, a.json, a.token, timeout, send, reply);
    issued := true;
  }
}
