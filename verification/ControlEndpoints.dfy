// The two ends of the control channel: the EFI application's link object and
// the companion's server object.
module ControlEndpoints {
  import opened Bytes
  import opened ControlText

  // ---------------------------------------------------------------------
  // Companion side
  // ---------------------------------------------------------------------

  datatype Request = Request(layer: string, test: string, args: string)

  // What the registered callbacks answer to one message.
  datatype PrepareAnswer = Accepts(detail: string) | Declines(detail: string) | PrepareRaises(message: string)
  datatype FlagAnswer = Yes | No | FlagRaises(message: string)
  datatype ResultAnswer = Gives(result: string) | ResultRaises(message: string)
  datatype Callbacks = Callbacks(prepare: PrepareAnswer, start: FlagAnswer, stop: FlagAnswer, result: ResultAnswer)

  function RequestOf(parts: seq<string>): Request {
    Request(NameAt(parts, 1), NameAt(parts, 2), ArgsOf(parts))
  }

  // What the callback is given of a PREPARE: exactly under that condition, the
  // names and arguments that the client named.
  lemma RequestIsMeantIff(layer: string, test: string, args: string)
    ensures var r := RequestOf(Words(PrepareText(layer, test, args)));
            r.layer == layer && r.test == test && r.args == args <==> Arrives(layer, test, args)
  {
    RequestArrivesIff(layer, test, args);
  }

  function PrepareReply(a: PrepareAnswer): string {
    match a
    case Accepts(detail) => Ready(detail)
    case Declines(detail) => Error(detail)
    case PrepareRaises(message) => Error(message)
  }

  function FlagReply(a: FlagAnswer, failed: string): string {
    match a
    case Yes => ACK_TEXT
    case No => Error(failed)
    case FlagRaises(message) => Error(message)
  }

  function ResultReply(a: ResultAnswer): string {
    match a
    case Gives(result) => Report(result)
    case ResultRaises(message) => Error(message)
  }

  predicate NeedsSession(verb: Verb) {
    verb in {Prepare, Start, Stop, Result, GetReport}
  }

  // The one reply to a message.
  function ReplyTo(connected: bool, msg: string, cb: Callbacks): string {
    var verb := VerbOf(msg);
    if NeedsSession(verb) && !connected then NOT_CONNECTED
    else match verb
      case Hello => ACK_HELLO
      case Prepare => PrepareReply(cb.prepare)
      case Start => FlagReply(cb.start, "Start failed")
      case Stop => FlagReply(cb.stop, "Stop failed")
      case Result => ResultReply(cb.result)
      case GetReport => ResultReply(cb.result)
      case Done => CONFIRM_TEXT
      case Other => Error("Unknown command: " + Command(msg))
  }

  function ConnectedAfter(connected: bool, msg: string): bool {
    match VerbOf(msg)
    case Hello => true
    case Done => false
    case _ => connected
  }

  // The texts that answer each command.
  ghost predicate PrepareSpelled(a: PrepareAnswer, reply: string) {
    reply == match a
      case Accepts(detail) => "READY " + detail + "\n"
      case Declines(detail) => "ERROR " + detail + "\n"
      case PrepareRaises(message) => "ERROR " + message + "\n"
  }

  ghost predicate FlagSpelled(a: FlagAnswer, refusal: string, reply: string) {
    reply == match a
      case Yes => "ACK\n"
      case No => refusal
      case FlagRaises(message) => "ERROR " + message + "\n"
  }

  ghost predicate ResultSpelled(a: ResultAnswer, reply: string) {
    reply == match a
      case Gives(result) => "REPORT " + result + "\n"
      case ResultRaises(message) => "ERROR " + message + "\n"
  }

  ghost predicate ReplySpelled(connected: bool, msg: string, cb: Callbacks, reply: string) {
    var verb := VerbOf(msg);
    && (verb == Hello ==> reply == "ACK DDTSoft Companion 1.0\n")
    && (verb == Done ==> reply == "CONFIRM\n")
    && (verb == Other ==> reply == "ERROR Unknown command: " + Command(msg) + "\n")
    && (verb !in {Hello, Done, Other} && !connected ==> reply == "ERROR Not connected\n")
    && (connected ==>
          && (verb == Prepare ==> PrepareSpelled(cb.prepare, reply))
          && (verb == Start ==> FlagSpelled(cb.start, "ERROR Start failed\n", reply))
          && (verb == Stop ==> FlagSpelled(cb.stop, "ERROR Stop failed\n", reply))
          && (verb == Verb.Result || verb == GetReport ==> ResultSpelled(cb.result, reply)))
  }

  lemma ReplyIsSpelled(connected: bool, msg: string, cb: Callbacks)
    ensures ReplySpelled(connected, msg, cb, ReplyTo(connected, msg, cb))
  {
    hide PrepareReply, FlagReply, ResultReply, Command;
    PrepareIsSpelled(cb.prepare);
    FlagIsSpelled(cb.start, "Start failed", "ERROR Start failed\n");
    FlagIsSpelled(cb.stop, "Stop failed", "ERROR Stop failed\n");
    ResultIsSpelled(cb.result);
    OtherIsSpelled(Command(msg));
  }

  lemma PrepareIsSpelled(a: PrepareAnswer)
    ensures PrepareSpelled(a, PrepareReply(a))
  {
  }

  lemma FlagIsSpelled(a: FlagAnswer, failed: string, refusal: string)
    requires refusal == "ERROR " + failed + "\n"
    ensures FlagSpelled(a, refusal, FlagReply(a, failed))
  {
  }

  lemma ResultIsSpelled(a: ResultAnswer)
    ensures ResultSpelled(a, ResultReply(a))
  {
  }

  lemma OtherIsSpelled(command: string)
    ensures Error("Unknown command: " + command) == "ERROR Unknown command: " + command + "\n"
  {
    assert "ERROR " + ("Unknown command: " + command) == "ERROR Unknown command: " + command;
  }

  class ControlServer {
    var connected: bool
    var dutAddr: Option<nat>
    // Every request that the prepare callback has accepted, oldest first.
    ghost var accepted: seq<Request>

    ghost predicate Valid()
      reads this
    {
      connected <==> dutAddr.Some?
    }

    constructor ()
      ensures Valid() && !connected && accepted == []
    {
      connected, dutAddr, accepted := false, None, [];
    }

    // One message: its reply, which is sent back to `addr`, the session, and
    // the request that the callback accepts.
    method HandleCommand(msg: string, addr: nat, cb: Callbacks) returns (reply: string)
      requires Valid()
      modifies this
      ensures Valid()
      ensures ReplySpelled(old(connected), msg, cb, reply)
      ensures connected == (VerbOf(msg) == Hello || (old(connected) && VerbOf(msg) != Done))
      ensures dutAddr == if VerbOf(msg) == Hello then Some(addr) else if VerbOf(msg) == Done then None else old(dutAddr)
      ensures if VerbOf(msg) == Prepare && old(connected) && cb.prepare.Accepts?
              then |accepted| == |old(accepted)| + 1 && accepted[..|old(accepted)|] == old(accepted)
              else accepted == old(accepted)
      ensures forall layer, test, args ::
                msg == PrepareText(layer, test, args) && Arrives(layer, test, args) && old(connected) && cb.prepare.Accepts? ==>
                  && |accepted| > |old(accepted)|
                  && var r := accepted[|old(accepted)|];
                  r.layer == layer && r.test == test && r.args == args
      ensures reply == ReplyTo(old(connected), msg, cb) && connected == ConnectedAfter(old(connected), msg)
      ensures accepted == old(accepted) +
                          if VerbOf(msg) == Prepare && old(connected) && cb.prepare.Accepts? then [RequestOf(Words(msg))] else []
    {
      reply := Dispatch(msg, addr, cb);
      ReplyIsSpelled(old(connected), msg, cb);
      forall layer, test, args | msg == PrepareText(layer, test, args) && Arrives(layer, test, args)
        ensures VerbOf(msg) == Prepare && RequestOf(Words(msg)) == Request(layer, test, args)
      {
        PrepareIs(layer, test, args);
        RequestIsMeantIff(layer, test, args);
      }
    }

    // The chain of tests on the command word.
    method Dispatch(msg: string, addr: nat, cb: Callbacks) returns (reply: string)
      requires Valid()
      modifies this
      ensures Valid()
      ensures connected == ConnectedAfter(old(connected), msg)
      ensures dutAddr == if VerbOf(msg) == Hello then Some(addr) else if VerbOf(msg) == Done then None else old(dutAddr)
      ensures reply == ReplyTo(old(connected), msg, cb)
      ensures accepted == old(accepted) +
                          if VerbOf(msg) == Prepare && old(connected) && cb.prepare.Accepts? then [RequestOf(Words(msg))] else []
    {
      var parts := Words(msg);
      var command := if parts == [] then "" else Upper(parts[0]);
      if command == "HELLO" {
        dutAddr := Some(addr);
        connected := true;
        reply := ACK_HELLO;
      } else if command == "PREPARE" {
        if !connected {
          return NOT_CONNECTED;
        }
        match cb.prepare
        case Accepts(detail) =>
          accepted := accepted + [RequestOf(parts)];
          reply := Ready(detail);
        case Declines(detail) =>
          reply := Error(detail);
        case PrepareRaises(message) =>
          reply := Error(message);
      } else if command == "START" {
        if !connected {
          return NOT_CONNECTED;
        }
        reply := FlagReply(cb.start, "Start failed");
      } else if command == "STOP" {
        if !connected {
          return NOT_CONNECTED;
        }
        reply := FlagReply(cb.stop, "Stop failed");
      } else if command == "RESULT" || command == "GETREPORT" {
        if !connected {
          return NOT_CONNECTED;
        }
        reply := ResultReply(cb.result);
      } else if command == "DONE" {
        reply := CONFIRM_TEXT;
        connected := false;
        dutAddr := None;
      } else {
        reply := Error("Unknown command: " + command);
      }
    }
  }

  // ---------------------------------------------------------------------
  // EFI side
  // ---------------------------------------------------------------------

  datatype LinkState = Disconnected | Connecting | Connected | Failed

  datatype Status = Success | NotReady | InvalidParameter | Unsupported | TimedOut | DeviceError | SendError

  // One command sent and the response, if any, as it lands in the buffer.
  datatype Exchange = SendFails | NoResponse | Response(text: string)

  datatype Call = PrepareCall(layer: string, test: string, args: string) | StartCall | StopCall | ResultCall(size: nat)

  function CommandText(call: Call): string {
    match call
    case PrepareCall(layer, test, args) => PrepareText(layer, test, args)
    case StartCall => START_TEXT
    case StopCall => STOP_TEXT
    case ResultCall(_) => RESULT_TEXT
  }

  // How a call ends once a response is in.
  function ResponseStatus(call: Call, text: string): Status {
    match call
    case PrepareCall(_, _, _) => if StartsWith(text, "READY") then Success else DeviceError
    case StartCall => if StartsWith(text, "ACK") then Success else DeviceError
    case StopCall => if StartsWith(text, "ACK") then Success else DeviceError
    case ResultCall(_) => if !StartsWith(text, "REPORT") && StartsWith(text, "ERROR") then DeviceError else Success
  }

  // A result buffer of size 0 is refused only once RESULT has been sent.
  function ExchangeStatus(call: Call, ex: Exchange): Status {
    if ex == SendFails then SendError
    else if call == ResultCall(0) then InvalidParameter
    else match ex
      case NoResponse => TimedOut
      case Response(text) => ResponseStatus(call, text)
  }

  // The handshake: up to one attempt per exchange, ended by an ACK or ERROR.
  function Handshake(ex: seq<Exchange>): (LinkState, Status) {
    if ex == [] then (Failed, TimedOut)
    else if ex[0].Response? && StartsWith(ex[0].text, "ACK") then (Connected, Success)
    else if ex[0].Response? && StartsWith(ex[0].text, "ERROR") then (Failed, DeviceError)
    else Handshake(ex[1..])
  }

  predicate Acks(e: Exchange) {
    e.Response? && "ACK" <= e.text
  }

  predicate Refuses(e: Exchange) {
    e.Response? && "ERROR" <= e.text
  }

  // The first response that is an ACK or an ERROR decides; whatever else comes
  // before it is passed over, and what comes after it is not asked for.
  lemma {:induction false} HandshakeDecided(ex: seq<Exchange>, k: nat)
    requires k < |ex| && (Acks(ex[k]) || Refuses(ex[k]))
    requires forall j :: 0 <= j < k ==> !Acks(ex[j]) && !Refuses(ex[j])
    ensures Handshake(ex) == if Acks(ex[k]) then (Connected, Success) else (Failed, DeviceError)
  {
    if k > 0 {
      HandshakeDecided(ex[1..], k - 1);
    }
  }

  lemma {:induction false} HandshakeUndecided(ex: seq<Exchange>)
    requires forall j :: 0 <= j < |ex| ==> !Acks(ex[j]) && !Refuses(ex[j])
    ensures Handshake(ex) == (Failed, TimedOut)
  {
    if |ex| > 0 {
      HandshakeUndecided(ex[1..]);
    }
  }

  const HELLO_ATTEMPTS := 3

  class CompanionLink {
    var state: LinkState
    var udp4: bool   // Udp4 != NULL
    var mnp: bool    // Mnp != NULL

    constructor (udp4: bool, mnp: bool)
      ensures state == Disconnected && this.udp4 == udp4 && this.mnp == mnp
    {
      state, this.udp4, this.mnp := Disconnected, udp4, mnp;
    }

    // HELLO is sent until an answer decides, three times at most.
    method Connect(ex: seq<Exchange>) returns (status: Status, sent: seq<string>)
      requires |ex| == HELLO_ATTEMPTS
      modifies this`state
      ensures !udp4 || !mnp ==> sent == []
      ensures udp4 && mnp ==>
                && 1 <= |sent| <= 3 && (forall k :: 0 <= k < |sent| ==> sent[k] == "HELLO DDTSoft 1.0\n")
                && (forall k :: 0 <= k < |sent| - 1 ==> !Acks(ex[k]) && !Refuses(ex[k]))
                && var last := ex[|sent| - 1];
                   if Acks(last) then status == Success && state == Connected
                   else if Refuses(last) then status == DeviceError && state == Failed
                   else |sent| == 3 && status == TimedOut && state == Failed
      ensures if !udp4 then status == InvalidParameter && state == old(state)
              else if !mnp then status == Unsupported && state == Failed
              else (state, status) == Handshake(ex)
    {
      sent := [];
      if !udp4 {
        return InvalidParameter, sent;
      }
      if !mnp {
        state := Failed;
        return Unsupported, sent;
      }
      state := Connecting;
      var attempt := 0;
      while attempt < HELLO_ATTEMPTS
        invariant attempt <= HELLO_ATTEMPTS && |sent| == attempt
        invariant forall k :: 0 <= k < attempt ==> sent[k] == HELLO_TEXT
        invariant forall k :: 0 <= k < attempt ==> !Acks(ex[k]) && !Refuses(ex[k])
        invariant Handshake(ex) == Handshake(ex[attempt..])
      {
        var e := ex[attempt];
        sent := sent + [HELLO_TEXT];
        attempt := attempt + 1;
        assert ex[attempt - 1..][1..] == ex[attempt..];
        if !e.Response? {
          continue;
        }
        if StartsWith(e.text, "ACK") {
          state := Connected;
          return Success, sent;
        }
        if StartsWith(e.text, "ERROR") {
          state := Failed;
          return DeviceError, sent;
        }
      }
      state := Failed;
      status := TimedOut;
    }

    // DONE is sent, and an answer awaited, while the state still says
    // CONNECTED; neither outcome matters.
    method Disconnect(ex: Exchange) returns (status: Status, sent: Option<string>)
      modifies this`state
      ensures if !udp4 then status == InvalidParameter && state == old(state) && sent == None
              else status == Success && state == Disconnected && sent == if old(state) == Connected then Some("DONE\n") else None
    {
      if !udp4 {
        return InvalidParameter, None;
      }
      sent := if state == Connected then Some(DONE_TEXT) else None;
      state := Disconnected;
      status := Success;
    }

    // The four commands refuse unless CONNECTED, send, wait and judge the
    // response, which must start with the right word. None of them changes the
    // state.
    method Prepare(layer: Option<string>, test: Option<string>, args: string, ex: Exchange)
      returns (status: Status, sent: Option<string>)
      ensures state != Connected ==> status == NotReady && sent == None
      ensures state == Connected && (layer == None || test == None) ==> status == InvalidParameter && sent == None
      ensures state == Connected && layer.Some? && test.Some? ==>
                && sent == Some(PrepareText(layer.value, test.value, args))
                && (ex == SendFails ==> status == SendError)
                && (ex == NoResponse ==> status == TimedOut)
                && (ex.Response? ==> status == if "READY" <= ex.text then Success else DeviceError)
      ensures state == Connected && layer.Some? && test.Some? ==>
                var call := PrepareCall(layer.value, test.value, args);
                status == ExchangeStatus(call, ex) && sent == Some(CommandText(call))
    {
      if state != Connected {
        return NotReady, None;
      }
      if layer == None || test == None {
        return InvalidParameter, None;
      }
      sent := Some(PrepareText(layer.value, test.value, args));
      match ex
      case SendFails =>
        status := SendError;
      case NoResponse =>
        status := TimedOut;
      case Response(text) =>
        if StartsWith(text, "READY") {
          return Success, sent;
        }
        status := DeviceError;
    }

    method Start(ex: Exchange) returns (status: Status, sent: Option<string>)
      ensures state != Connected ==> status == NotReady && sent == None
      ensures state == Connected ==>
                && sent == Some("START\n")
                && (ex == SendFails ==> status == SendError)
                && (ex == NoResponse ==> status == TimedOut)
                && (ex.Response? ==> status == if "ACK" <= ex.text then Success else DeviceError)
      ensures state == Connected ==> status == ExchangeStatus(StartCall, ex) && sent == Some(CommandText(StartCall))
    {
      if state != Connected {
        return NotReady, None;
      }
      sent := Some(START_TEXT);
      match ex
      case SendFails =>
        status := SendError;
      case NoResponse =>
        status := TimedOut;
      case Response(text) =>
        if StartsWith(text, "ACK") {
          return Success, sent;
        }
        status := DeviceError;
    }

    method Stop(ex: Exchange) returns (status: Status, sent: Option<string>)
      ensures state != Connected ==> status == NotReady && sent == None
      ensures state == Connected ==>
                && sent == Some("STOP\n")
                && (ex == SendFails ==> status == SendError)
                && (ex == NoResponse ==> status == TimedOut)
                && (ex.Response? ==> status == if "ACK" <= ex.text then Success else DeviceError)
      ensures state == Connected ==> status == ExchangeStatus(StopCall, ex) && sent == Some(CommandText(StopCall))
    {
      if state != Connected {
        return NotReady, None;
      }
      sent := Some(STOP_TEXT);
      match ex
      case SendFails =>
        status := SendError;
      case NoResponse =>
        status := TimedOut;
      case Response(text) =>
        if StartsWith(text, "ACK") {
          return Success, sent;
        }
        status := DeviceError;
    }

    // `buffer` is the size of the result buffer, None for a NULL one. One of
    // size 0 is refused once RESULT has been sent. Whatever does not start with
    // ERROR is a result.
    method GetResult(buffer: Option<nat>, ex: Exchange) returns (status: Status, sent: Option<string>)
      ensures state != Connected || buffer == None ==> status == InvalidParameter && sent == None
      ensures state == Connected && buffer.Some? ==>
                && sent == Some("RESULT\n")
                && (ex == SendFails ==> status == SendError)
                && (ex != SendFails && buffer.value == 0 ==> status == InvalidParameter)
                && (ex == NoResponse && buffer.value > 0 ==> status == TimedOut)
                && (ex.Response? && buffer.value > 0 ==> status == if "ERROR" <= ex.text then DeviceError else Success)
      ensures state == Connected && buffer.Some? ==>
                var size := buffer.value;
                status == ExchangeStatus(ResultCall(size), ex) && sent == Some(CommandText(ResultCall(size)))
    {
      if state != Connected || buffer == None {
        return InvalidParameter, None;
      }
      sent := Some(RESULT_TEXT);
      if ex == SendFails {
        return SendError, sent;
      }
      if buffer.value == 0 {
        return InvalidParameter, sent;
      }
      match ex
      case NoResponse =>
        status := TimedOut;
      case Response(text) =>
        Distinct(text);
        if StartsWith(text, "REPORT") {
          return Success, sent;
        }
        if StartsWith(text, "ERROR") {
          return DeviceError, sent;
        }
        status := Success;
    }
  }
}
