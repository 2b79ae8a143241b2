/** The editor console logger (DebugLog.cs): which calls print a line, on
    which console channel, in which colour, and which text is handed to the
    `OnLogCalled` subscribers. The Unity console and the colour-to-hex
    conversion are replaced by the entries they would show. */
module DebugLog {
  import opened Wrappers
  import opened Text

  /** The kind of call `CallLog` receives (`LogType`). */
  datatype LogType = Log | Warning | Error | Exception

  /** The console method a line goes to: `Debug.Log`, `Debug.LogWarning` or
      `Debug.LogError`. */
  datatype Channel = LogChannel | WarningChannel | ErrorChannel

  /** One line shown in the console. */
  datatype Entry = Entry(channel: Channel, text: string)

  /** The parts of a thrown exception that are printed; a `null` part prints
      as the empty string. */
  datatype ExceptionInfo = ExceptionInfo(message: string, stackTrace: string, source: string)

  /** One public call of the logger with its arguments; `None` is a `null`
      argument. */
  datatype Call =
    | InfoCall(message: Option<string>)
    | WarningCall(message: Option<string>)
    | ErrorCall(message: Option<string>)
    | ExceptionCall(exception: Option<ExceptionInfo>)
    | AssertCall(condition: bool, positive: Option<string>, negative: Option<string>)

  /** `ColorUtility.ToHtmlStringRGBA` of the colour each kind is printed in:
      white for info, Unity's yellow (1, 0.92, 0.016, 1) for warnings, red for
      errors and exceptions. */
  function ColorHex(t: LogType): (hex: string)
    ensures |hex| == 8
  {
    match t
    case Log => "FFFFFFFF"
    case Warning => "FFEB04FF"
    case Error => "FF0000FF"
    case Exception => "FF0000FF"
  }

  const LinePrefix := "<color=#"
  const ColorEnd := "> "
  const LineSuffix := "</color>"

  /** The rich-text line `CallLog` prints and hands to `OnLogCalled`. */
  function Line(t: LogType, message: string): string {
    LinePrefix + ColorHex(t) + ColorEnd + message + LineSuffix
  }

  /** The colour a printed line carries, read back from its text. */
  function LineColor(line: string): (hex: Option<string>)
    ensures hex.Some? ==> |hex.value| == 8
  {
    if |line| >= |LinePrefix| + 8 + |ColorEnd| + |LineSuffix|
       && line[..|LinePrefix|] == LinePrefix
       && line[|LinePrefix| + 8..|LinePrefix| + 8 + |ColorEnd|] == ColorEnd
       && line[|line| - |LineSuffix|..] == LineSuffix
    then Some(line[|LinePrefix|..|LinePrefix| + 8])
    else None
  }

  /** The message a printed line carries, read back from its text. */
  function LineMessage(line: string): (message: Option<string>)
    ensures message.Some? ==> |message.value| + 26 == |line|
  {
    if LineColor(line).Some?
    then Some(line[|LinePrefix| + 8 + |ColorEnd|..|line| - |LineSuffix|])
    else None
  }

  /** A printed line gives back the colour of its kind and the message it
      was built from, so no two messages print the same line. */
  lemma LineRoundTrip(t: LogType, message: string)
    ensures LineColor(Line(t, message)) == Some(ColorHex(t))
    ensures LineMessage(Line(t, message)) == Some(message)
  {
    var line := Line(t, message);
    assert line[..8] == LinePrefix;
    assert line[8..16] == ColorHex(t);
    assert line[16..18] == ColorEnd;
    assert line[|line| - 8..] == LineSuffix;
    assert line[18..|line| - 8] == message;
  }

  /** The channel of each kind: exceptions go to `Debug.LogError` like
      errors. */
  function Route(t: LogType): (c: Channel)
    ensures c == ErrorChannel <==> t == Error || t == Exception
    ensures c == LogChannel <==> t == Log
  {
    match t
    case Log => LogChannel
    case Warning => WarningChannel
    case Error => ErrorChannel
    case Exception => ErrorChannel
  }

  /** What one `CallLog` prints: one line in the editor, nothing elsewhere. */
  function Printed(isEditor: bool, t: LogType, message: string): (es: seq<Entry>)
    ensures |es| <= 1
    ensures es != [] <==> isEditor
  {
    if isEditor then [Entry(Route(t), Line(t, message))] else []
  }

  /** The text of the message `Exception` prints. */
  function ExceptionText(e: ExceptionInfo): string {
    e.message + " @ " + e.stackTrace + " @ " + e.source
  }

  /** The `CallLog` a call makes, if any: blank messages and a `null`
      exception make none, and `Assert` makes the one of `Info` or `Error`. */
  function Dispatch(call: Call): (d: Option<(LogType, string)>)
    ensures d.Some? && call.InfoCall? ==> d.value.0 == Log
    ensures d.Some? && call.WarningCall? ==> d.value.0 == Warning
    ensures d.Some? && call.ErrorCall? ==> d.value.0 == Error
    ensures d.Some? && call.ExceptionCall? ==> d.value.0 == Exception
  {
    match call
    case InfoCall(m) => if IsNullOrWhiteSpace(m) then None else Some((Log, m.value))
    case WarningCall(m) => if IsNullOrWhiteSpace(m) then None else Some((Warning, m.value))
    case ErrorCall(m) => if IsNullOrWhiteSpace(m) then None else Some((Error, m.value))
    case ExceptionCall(e) => if e.None? then None else Some((Exception, ExceptionText(e.value)))
    case AssertCall(c, p, n) =>
      if c then (if IsNullOrWhiteSpace(p) then None else Some((Log, p.value)))
      else if IsNullOrWhiteSpace(n) then None else Some((Error, n.value))
  }

  /** The console lines a call adds. */
  function Output(isEditor: bool, call: Call): (es: seq<Entry>)
    ensures |es| <= 1
  {
    match Dispatch(call)
    case None => []
    case Some((t, m)) => Printed(isEditor, t, m)
  }

  /** The text of each printed line, in order. */
  function Texts(es: seq<Entry>): (ts: seq<string>)
    ensures |ts| == |es|
    ensures forall i | 0 <= i < |es| :: ts[i] == es[i].text
  {
    if es == [] then [] else [es[0].text] + Texts(es[1..])
  }

  lemma TextsAppend(a: seq<Entry>, b: seq<Entry>)
    ensures Texts(a + b) == Texts(a) + Texts(b)
  {
  }

  /** What the `OnLogCalled` subscribers receive while the given lines are
      printed: the same strings, when anyone is subscribed. */
  function Notices(subscribed: bool, es: seq<Entry>): seq<string> {
    if subscribed then Texts(es) else []
  }

  /** Printing two batches of lines notifies for each batch in turn. */
  lemma NoticesAppend(subscribed: bool, a: seq<Entry>, b: seq<Entry>)
    ensures Notices(subscribed, a + b) == Notices(subscribed, a) + Notices(subscribed, b)
  {
    TextsAppend(a, b);
  }

  /** The strings a call hands to the `OnLogCalled` subscribers. */
  function Notified(isEditor: bool, subscribed: bool, call: Call): seq<string> {
    Notices(subscribed, Output(isEditor, call))
  }

  /** `Info`, `Warning` and `Error` print nothing for a `null`, empty or
      white-space message, and exactly one line otherwise (in the editor). */
  lemma BlankPrintsNothing(isEditor: bool, m: Option<string>)
    ensures Output(isEditor, InfoCall(m)) == [] <==> IsNullOrWhiteSpace(m) || !isEditor
    ensures Output(isEditor, WarningCall(m)) == [] <==> IsNullOrWhiteSpace(m) || !isEditor
    ensures Output(isEditor, ErrorCall(m)) == [] <==> IsNullOrWhiteSpace(m) || !isEditor
  {
  }

  /** Outside the editor no call prints anything. */
  lemma OutsideEditorSilent(call: Call)
    ensures Output(false, call) == [] && Notified(false, true, call) == []
  {
  }

  /** `Exception(null)` prints nothing; otherwise one error line with the
      message, stack trace and source separated by ` @ `. */
  lemma ExceptionPrints(e: ExceptionInfo)
    ensures Output(true, ExceptionCall(None)) == []
    ensures Output(true, ExceptionCall(Some(e)))
         == [Entry(ErrorChannel, Line(Exception, e.message + " @ " + e.stackTrace + " @ " + e.source))]
  {
  }

  /** Every printed line is a rich-text line of the kind's colour whose
      message is the call's message, on the kind's channel. */
  lemma OutputIsLine(isEditor: bool, call: Call)
    requires Output(isEditor, call) != []
    ensures Dispatch(call).Some?
    ensures var (t, m) := Dispatch(call).value;
      && Output(isEditor, call)[0].channel == Route(t)
      && LineColor(Output(isEditor, call)[0].text) == Some(ColorHex(t))
      && LineMessage(Output(isEditor, call)[0].text) == Some(m)
  {
    var (t, m) := Dispatch(call).value;
    LineRoundTrip(t, m);
  }

  /** `Assert` with a false condition is `Error(negative)`. */
  lemma AssertFalseIsError(isEditor: bool, p: Option<string>, n: Option<string>)
    ensures Output(isEditor, AssertCall(false, p, n)) == Output(isEditor, ErrorCall(n))
  {
  }

  /** `Assert` with a true condition prints at most the info line of
      `positive` and never an error. */
  lemma AssertTrueIsInfo(isEditor: bool, p: Option<string>, n: Option<string>)
    ensures Output(isEditor, AssertCall(true, p, n)) == Output(isEditor, InfoCall(p))
    ensures forall e | e in Output(isEditor, AssertCall(true, p, n)) :: e.channel == LogChannel
  {
  }

  /** The editor console together with the subscribers of `OnLogCalled`. */
  class Console {
    /** `Application.isEditor`. */
    const isEditor: bool
    /** Whether `OnLogCalled` has a subscriber. */
    var subscribed: bool
    /** The lines printed so far, oldest first. */
    var entries: seq<Entry>
    /** The strings passed to `OnLogCalled` so far, oldest first. */
    var raised: seq<string>

    constructor (isEditor: bool, subscribed: bool)
      ensures this.isEditor == isEditor && this.subscribed == subscribed
      ensures entries == [] && raised == []
    {
      this.isEditor := isEditor;
      this.subscribed := subscribed;
      entries := [];
      raised := [];
    }

    /** Prints one line in the editor and hands the same string to the
        subscribers. */
    method CallLog(t: LogType, message: string)
      modifies this
      ensures subscribed == old(subscribed)
      ensures entries == old(entries) + Printed(isEditor, t, message)
      ensures raised == old(raised) + (if isEditor && subscribed then [Line(t, message)] else [])
    {
      if isEditor {
        var log := Line(t, message);
        entries := entries + [Entry(Route(t), log)];
        if subscribed {
          raised := raised + [log];
        }
      }
    }

    /** Runs one public call of the logger. */
    method Run(call: Call)
      modifies this
      ensures subscribed == old(subscribed)
      ensures entries == old(entries) + Output(isEditor, call)
      ensures raised == old(raised) + Notified(isEditor, subscribed, call)
    {
      match call {
        case InfoCall(m) => Info(m);
        case WarningCall(m) => Warning(m);
        case ErrorCall(m) => Error(m);
        case ExceptionCall(e) => Exception(e);
        case AssertCall(c, p, n) => Assert(c, p, n);
      }
    }

    method Info(message: Option<string>)
      modifies this
      ensures subscribed == old(subscribed)
      ensures entries == old(entries) + Output(isEditor, InfoCall(message))
      ensures raised == old(raised) + Notified(isEditor, subscribed, InfoCall(message))
    {
      if !IsNullOrWhiteSpace(message) {
        CallLog(LogType.Log, message.value);
      }
    }

    method Warning(message: Option<string>)
      modifies this
      ensures subscribed == old(subscribed)
      ensures entries == old(entries) + Output(isEditor, WarningCall(message))
      ensures raised == old(raised) + Notified(isEditor, subscribed, WarningCall(message))
    {
      if !IsNullOrWhiteSpace(message) {
        CallLog(LogType.Warning, message.value);
      }
    }

    method Error(message: Option<string>)
      modifies this
      ensures subscribed == old(subscribed)
      ensures entries == old(entries) + Output(isEditor, ErrorCall(message))
      ensures raised == old(raised) + Notified(isEditor, subscribed, ErrorCall(message))
    {
      if !IsNullOrWhiteSpace(message) {
        CallLog(LogType.Error, message.value);
      }
    }

    method Exception(exception: Option<ExceptionInfo>)
      modifies this
      ensures subscribed == old(subscribed)
      ensures entries == old(entries) + Output(isEditor, ExceptionCall(exception))
      ensures raised == old(raised) + Notified(isEditor, subscribed, ExceptionCall(exception))
    {
      if exception.Some? {
        var e := exception.value;
        CallLog(LogType.Exception, e.message + " @ " + e.stackTrace + " @ " + e.source);
      }
    }

    method Assert(condition: bool, positive: Option<string>, negative: Option<string>)
      modifies this
      ensures subscribed == old(subscribed)
      ensures entries == old(entries) + Output(isEditor, AssertCall(condition, positive, negative))
      ensures raised == old(raised) + Notified(isEditor, subscribed, AssertCall(condition, positive, negative))
    {
      if condition {
        if !IsNullOrWhiteSpace(positive) {
          Info(positive);
        }
        return;
      }
      Error(negative);
    }
  }
}
