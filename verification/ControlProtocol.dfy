// Runs of the control protocol over a network that may lose, delay, duplicate
// and reorder messages but not invent them. Messages are never removed from
// the two sets of texts sent so far; delivering one of them, at any time and
// any number of times, or never, covers all of that.
module ControlProtocol {
  import opened Bytes
  import opened ControlText
  import opened ControlEndpoints

  // Where the client is inside a call.
  datatype Pc = Idle | SayHello(attempt: nat) | AwaitAck(attempt: nat) | Await(call: Call) | AwaitConfirm

  // A failed transmit may or may not have put the message on the wire.
  datatype Send = Sent | FailedOnWire | FailedOffWire

  datatype Client = Client(
    state: LinkState, pc: Pc,
    outcome: Option<(Call, Status)>,   // how the last PREPARE/START/STOP/RESULT ended
    disconnects: nat,                  // DONE commands issued
    reconnects: nat)                   // handshakes begun after a DONE

  datatype Server = Server(
    connected: bool, helloSeen: bool, doneSeen: bool,
    accepted: set<Request>,            // requests the prepare callback accepted
    starts: nat,                       // START commands handed to the callback
    startsAgreed: nat,                 // those it said Yes to
    stopsAgreed: nat,                  // likewise for STOP
    results: set<string>)              // results the result callback gave

  datatype World = World(client: Client, server: Server, toServer: set<string>, toClient: set<string>)

  datatype Step =
    | Connect
    | Greet(send: Send)
    | Invoke(call: Call, send: Send)
    | Disconnect(send: Send)
    | Receive(text: string)
    | Expire
    | Handle(text: string, cb: Callbacks)

  const INITIAL := World(Client(Disconnected, Idle, None, 0, 0), Server(false, false, false, {}, 0, 0, 0, {}), {}, {})

  predicate Enabled(w: World, step: Step) {
    match step
    case Connect => w.client.pc == Idle
    case Greet(_) => w.client.pc.SayHello?
    case Invoke(_, _) => w.client.pc == Idle
    case Disconnect(_) => w.client.pc == Idle
    case Receive(text) => text in w.toClient && text != "" && Waiting(w.client.pc)
    case Expire => Waiting(w.client.pc)
    case Handle(text, _) => text in w.toServer && Words(text) != []
  }

  predicate Waiting(pc: Pc) {
    pc.AwaitAck? || pc.Await? || pc.AwaitConfirm?
  }

  function Transmit(texts: set<string>, text: string, send: Send): set<string> {
    if send == FailedOffWire then texts else texts + {text}
  }

  // After attempt `k` came to nothing.
  function NextAttempt(c: Client, k: nat): Client {
    if k + 1 < HELLO_ATTEMPTS then c.(pc := SayHello(k + 1)) else c.(state := Failed, pc := Idle)
  }

  function Finish(c: Client, call: Call, status: Status): Client {
    c.(pc := Idle, outcome := Some((call, status)))
  }

  function BufferSize(call: Call): nat {
    if call.ResultCall? then call.size else MAX_MSG_SIZE
  }

  function OnResponse(c: Client, text: string): Client
    requires Waiting(c.pc)
  {
    match c.pc
    case AwaitAck(k) =>
      var response := Cut(text, MAX_MSG_SIZE);
      if StartsWith(response, "ACK") then c.(state := Connected, pc := Idle)
      else if StartsWith(response, "ERROR") then c.(state := Failed, pc := Idle)
      else NextAttempt(c, k)
    case Await(call) => Finish(c, call, ExchangeStatus(call, Response(Cut(text, BufferSize(call)))))
    case AwaitConfirm => c.(state := Disconnected, pc := Idle)
  }

  function OnTimeout(c: Client): Client
    requires Waiting(c.pc)
  {
    match c.pc
    case AwaitAck(k) => NextAttempt(c, k)
    case Await(call) => Finish(c, call, ExchangeStatus(call, NoResponse))
    case AwaitConfirm => c.(state := Disconnected, pc := Idle)
  }

  predicate GivesResult(connected: bool, msg: string, cb: Callbacks) {
    connected && VerbOf(msg) in {Verb.Result, GetReport} && cb.result.Gives?
  }

  function OnCommand(s: Server, text: string, cb: Callbacks): Server {
    var verb := VerbOf(text);
    Server(ConnectedAfter(s.connected, text),
           s.helloSeen || verb == Verb.Hello,
           s.doneSeen || verb == Done,
           s.accepted + (if verb == Prepare && s.connected && cb.prepare.Accepts? then {RequestOf(Words(text))} else {}),
           s.starts + (if verb == Start && s.connected then 1 else 0),
           s.startsAgreed + (if verb == Start && s.connected && cb.start == Yes then 1 else 0),
           s.stopsAgreed + (if verb == Stop && s.connected && cb.stop == Yes then 1 else 0),
           s.results + (if GivesResult(s.connected, text, cb) then {cb.result.result} else {}))
  }

  function Next(w: World, step: Step): World
    requires Enabled(w, step)
  {
    var c := w.client;
    match step
    case Connect =>
      w.(client := c.(state := Connecting, pc := SayHello(0), reconnects := c.reconnects + (if c.disconnects > 0 then 1 else 0)))
    case Greet(send) =>
      w.(client := if send == Sent then c.(pc := AwaitAck(c.pc.attempt)) else NextAttempt(c, c.pc.attempt),
         toServer := Transmit(w.toServer, HELLO_TEXT, send))
    case Invoke(call, send) =>
      if c.state != Connected then
        w.(client := Finish(c, call, if call.ResultCall? then InvalidParameter else NotReady))
      else
        w.(client := if send == Sent then c.(pc := Await(call)) else Finish(c, call, SendError),
           toServer := Transmit(w.toServer, CommandText(call), send))
    case Disconnect(send) =>
      if c.state != Connected then w.(client := c.(state := Disconnected))
      else
        w.(client := c.(pc := AwaitConfirm, disconnects := c.disconnects + 1),
           toServer := Transmit(w.toServer, DONE_TEXT, send))
    case Receive(text) => w.(client := OnResponse(c, text))
    case Expire => w.(client := OnTimeout(c))
    case Handle(text, cb) =>
      w.(server := OnCommand(w.server, text, cb), toClient := w.toClient + {ReplyTo(w.server.connected, text, cb)})
  }

  // ---------------------------------------------------------------------
  // Runs
  // ---------------------------------------------------------------------

  predicate Legal(w: World, steps: seq<Step>)
    decreases |steps|
  {
    steps == [] || (Enabled(w, steps[0]) && Legal(Next(w, steps[0]), steps[1..]))
  }

  function After(w: World, steps: seq<Step>): World
    requires Legal(w, steps)
    decreases |steps|
  {
    if steps == [] then w else After(Next(w, steps[0]), steps[1..])
  }

  ghost predicate Reachable(w: World) {
    exists steps :: Legal(INITIAL, steps) && After(INITIAL, steps) == w
  }

  // ---------------------------------------------------------------------
  // The invariant
  // ---------------------------------------------------------------------

  ghost predicate InFlight(w: World, verb: Verb) {
    exists t :: t in w.toServer && VerbOf(t) == verb
  }

  ghost predicate ServerInv(s: Server) {
    && (s.connected ==> s.helloSeen)
    && (s.helloSeen && !s.connected ==> s.doneSeen)
    && (s.starts > 0 || s.accepted != {} ==> s.helloSeen)
    && s.startsAgreed <= s.starts
  }

  ghost predicate RequestsInv(w: World) {
    && (forall t :: t in w.toServer ==> VerbOf(t) != Other && VerbOf(t) != GetReport)
    && (forall t :: t in w.toServer && VerbOf(t) != Verb.Hello ==> w.server.helloSeen)
    && (w.server.doneSeen ==> InFlight(w, Done))
    && (w.server.startsAgreed > 0 ==> InFlight(w, Start))
    && (w.server.stopsAgreed > 0 ==> InFlight(w, Stop))
    && (InFlight(w, Done) ==> w.client.disconnects > 0)
    && (forall t :: t in w.toServer && VerbOf(t) == Prepare ==> IsPrepareText(t))
    && (forall r :: r in w.server.accepted ==>
          exists t :: t in w.toServer && VerbOf(t) == Prepare && r == RequestOf(Words(t)))
  }

  ghost predicate IsPrepareText(t: string) {
    exists layer, test, args :: t == PrepareText(layer, test, args)
  }

  ghost predicate RepliesInv(w: World) {
    && (forall t :: t in w.toClient && StartsWith(t, "ACK") ==> t == ACK_HELLO || t == ACK_TEXT)
    && (ACK_HELLO in w.toClient <==> w.server.helloSeen)
    && (ACK_TEXT in w.toClient <==> w.server.startsAgreed > 0 || w.server.stopsAgreed > 0)
    && (forall t :: t in w.toClient && StartsWith(t, "READY") ==> w.server.accepted != {})
  }

  // The fixed answers and those that wrap a detail, but no REPORT.
  ghost predicate Spoken(text: string) {
    || text == ACK_HELLO || text == ACK_TEXT || text == CONFIRM_TEXT
    || (exists d :: text == Ready(d)) || (exists d :: text == Error(d))
  }

  // What is in flight to the client is one of those, or the REPORT of a result
  // that was given; and all of these are in flight.
  ghost predicate ReportsInv(texts: set<string>, results: set<string>) {
    && (forall t :: t in texts ==> Spoken(t) || exists r :: r in results && t == Report(r))
    && (forall r :: r in results ==> Report(r) in texts)
  }

  ghost predicate ClientInv(w: World) {
    var c := w.client;
    && (c.state == Connected ==> w.server.helloSeen)
    && (c.pc.SayHello? || c.pc.AwaitAck? <==> c.state == Connecting)
    && (c.pc.Await? || c.pc == AwaitConfirm ==> c.state == Connected)
    && (c.pc == AwaitConfirm ==> c.disconnects > 0)
    && (c.reconnects == 0 && c.disconnects > 0 ==> c.pc == AwaitConfirm || (c.pc == Idle && c.state != Connected))
    && (c.outcome.Some? && c.outcome.value.1 == Success ==> exists t :: t in w.toClient && Earned(c.outcome.value.0, t))
  }

  // The texts on which a call may end in success.
  ghost predicate Earned(call: Call, text: string) {
    match call
    case PrepareCall(_, _, _) => "READY" <= text
    case StartCall => text == ACK_HELLO || text == ACK_TEXT
    case StopCall => text == ACK_HELLO || text == ACK_TEXT
    case ResultCall(size) => size > 0 && text != "" && !("ERROR" <= Cut(text, size))
  }

  ghost predicate Inv(w: World) {
    ServerInv(w.server) && RequestsInv(w) && RepliesInv(w) && ReportsInv(w.toClient, w.server.results) && ClientInv(w)
  }

  // ---------------------------------------------------------------------
  // Every step keeps it
  // ---------------------------------------------------------------------

  // A command goes out; nothing else about requests and replies changes.
  lemma SendKeeps(w: World, w': World, text: string, send: Send)
    requires Inv(w)
    requires w'.server == w.server && w'.toClient == w.toClient && w'.toServer == Transmit(w.toServer, text, send)
    requires VerbOf(text) != Other && VerbOf(text) != GetReport
    requires VerbOf(text) == Prepare ==> IsPrepareText(text)
    requires VerbOf(text) != Verb.Hello ==> w.client.state == Connected
    requires w'.client.disconnects >= w.client.disconnects
    requires VerbOf(text) == Done ==> w'.client.disconnects > 0
    ensures RequestsInv(w') && RepliesInv(w')
  {
    assert forall t :: t in w'.toServer ==> t in w.toServer || t == text;
    assert forall t :: t in w.toServer ==> t in w'.toServer;
  }

  function CallVerb(call: Call): Verb {
    match call
    case PrepareCall(_, _, _) => Prepare
    case StartCall => Start
    case StopCall => Stop
    case ResultCall(_) => Verb.Result
  }

  lemma CallIs(call: Call)
    ensures VerbOf(CommandText(call)) == CallVerb(call)
    ensures VerbOf(CommandText(call)) == Prepare ==> IsPrepareText(CommandText(call))
  {
    match call
    case PrepareCall(layer, test, args) => PrepareIs(layer, test, args);
    case StartCall => StartIs(START_TEXT);
    case StopCall => StopIs(STOP_TEXT);
    case ResultCall(_) => ResultIs(RESULT_TEXT);
  }

  lemma ConnectKeeps(w: World)
    requires Inv(w) && Enabled(w, Connect)
    ensures Inv(Next(w, Connect))
  {
    SilentKeeps(w, Next(w, Connect));
  }

  lemma GreetKeeps(w: World, w': World, text: string, send: Send)
    requires Inv(w) && w.client.pc.SayHello? && VerbOf(text) == Verb.Hello
    requires var c := w.client;
             w' == w.(client := if send == Sent then c.(pc := AwaitAck(c.pc.attempt)) else NextAttempt(c, c.pc.attempt),
                      toServer := Transmit(w.toServer, text, send))
    ensures Inv(w')
  {
    SendKeeps(w, w', text, send);
  }

  lemma HelloKeeps(w: World, send: Send)
    requires Inv(w) && Enabled(w, Greet(send))
    ensures Inv(Next(w, Greet(send)))
  {
    HelloIs(HELLO_TEXT);
    GreetKeeps(w, Next(w, Greet(send)), HELLO_TEXT, send);
  }

  lemma InvokeKeeps(w: World, call: Call, send: Send)
    requires Inv(w) && Enabled(w, Invoke(call, send))
    ensures Inv(Next(w, Invoke(call, send)))
  {
    var w' := Next(w, Invoke(call, send));
    if w.client.state == Connected {
      CallIs(call);
      SendKeeps(w, w', CommandText(call), send);
    } else {
      SilentKeeps(w, w');
    }
  }

  lemma DisconnectKeeps(w: World, send: Send)
    requires Inv(w) && Enabled(w, Disconnect(send))
    ensures Inv(Next(w, Disconnect(send)))
  {
    var w' := Next(w, Disconnect(send));
    if w.client.state == Connected {
      DoneIs(DONE_TEXT);
      SendKeeps(w, w', DONE_TEXT, send);
    } else {
      SilentKeeps(w, w');
    }
  }

  lemma CutKeepsPrefix(text: string, size: nat, word: string)
    requires StartsWith(Cut(text, size), word)
    ensures StartsWith(text, word)
  {
  }

  // A step of the client alone that sends nothing.
  lemma SilentKeeps(w: World, w': World)
    requires RequestsInv(w) && RepliesInv(w)
    requires w'.server == w.server && w'.toServer == w.toServer && w'.toClient == w.toClient
    requires w'.client.disconnects == w.client.disconnects
    ensures RequestsInv(w') && RepliesInv(w')
  {
    assert InFlight(w', Done) == InFlight(w, Done);
    assert InFlight(w', Start) == InFlight(w, Start);
    assert InFlight(w', Stop) == InFlight(w, Stop);
  }

  lemma ClientWaitKeeps(w: World, step: Step)
    requires Inv(w) && Enabled(w, step)
    requires step.Receive? || step.Expire?
    ensures Inv(Next(w, step))
  {
    var w' := Next(w, step);
    SilentKeeps(w, w');
    if step.Receive? {
      ReceiveKeeps(w, w', step.text);
    } else {
      ExpireKeeps(w, w');
    }
  }

  // An ACK says that the server has seen a HELLO; a call succeeds only on a
  // text that lets it.
  lemma ReceiveKeeps(w: World, w': World, text: string)
    requires Inv(w) && Waiting(w.client.pc) && text in w.toClient && text != ""
    requires w' == w.(client := OnResponse(w.client, text))
    ensures ClientInv(w')
  {
    var c := w.client;
    if c.pc.Await? {
      ReceiveEarns(w, c.pc.call, text);
    } else if StartsWith(Cut(text, MAX_MSG_SIZE), "ACK") {
      CutKeepsPrefix(text, MAX_MSG_SIZE, "ACK");
    }
  }

  lemma ReceiveEarns(w: World, call: Call, text: string)
    requires RepliesInv(w) && text in w.toClient && text != ""
    ensures ExchangeStatus(call, Response(Cut(text, BufferSize(call)))) == Success ==> Earned(call, text)
  {
    var cut := Cut(text, BufferSize(call));
    match call
    case PrepareCall(_, _, _) =>
      if StartsWith(cut, "READY") {
        CutKeepsPrefix(text, BufferSize(call), "READY");
      }
    case ResultCall(size) => Distinct(cut);
    case _ =>
      if StartsWith(cut, "ACK") {
        CutKeepsPrefix(text, BufferSize(call), "ACK");
      }
  }

  lemma ExpireKeeps(w: World, w': World)
    requires ClientInv(w) && Waiting(w.client.pc) && w' == w.(client := OnTimeout(w.client))
    ensures ClientInv(w')
  {
  }

  // Which replies can look like an ACK or a READY to the client.
  lemma ReplyKinds(connected: bool, msg: string, cb: Callbacks)
    ensures var r := ReplyTo(connected, msg, cb);
            && (StartsWith(r, "ACK") ==> r == ACK_HELLO || r == ACK_TEXT)
            && (r == ACK_HELLO <==> VerbOf(msg) == Verb.Hello)
            && (r == ACK_TEXT <==> AgreesToStart(connected, msg, cb) || AgreesToStop(connected, msg, cb))
            && (StartsWith(r, "READY") ==> VerbOf(msg) == Prepare && connected && cb.prepare.Accepts?)
            && (StartsWith(r, "REPORT") <==> GivesResult(connected, msg, cb))
  {
    FixedTexts();
    match VerbOf(msg)
    case Prepare => PrepareKinds(cb.prepare);
    case Start => FlagKinds(cb.start, "Start failed");
    case Stop => FlagKinds(cb.stop, "Stop failed");
    case Other => Openings("Unknown command: " + Command(msg));
    case _ => ResultKinds(cb.result);
  }

  lemma PrepareKinds(a: PrepareAnswer)
    ensures if a.Accepts? then Readies(PrepareReply(a)) else Plain(PrepareReply(a))
  {
    match a
    case Accepts(detail) => Openings(detail);
    case Declines(detail) => Openings(detail);
    case PrepareRaises(message) => Openings(message);
  }

  lemma FlagKinds(a: FlagAnswer, failed: string)
    ensures if a == Yes then FlagReply(a, failed) == ACK_TEXT else Plain(FlagReply(a, failed))
  {
    match a
    case Yes =>
    case No => Openings(failed);
    case FlagRaises(message) => Openings(message);
  }

  lemma ResultKinds(a: ResultAnswer)
    ensures a.Gives? ==> !Plain(ResultReply(a)) && Reports(ResultReply(a))
    ensures a.ResultRaises? ==> Plain(ResultReply(a))
  {
    match a
    case Gives(result) => Openings(result);
    case ResultRaises(message) => Openings(message);
  }

  // None of ACK, READY and REPORT; a READY only; a REPORT only.
  predicate Plain(text: string) {
    NoAck(text) && !StartsWith(text, "READY") && !StartsWith(text, "REPORT")
  }

  predicate Readies(text: string) {
    NoAck(text) && !StartsWith(text, "REPORT")
  }

  predicate Reports(text: string) {
    NoAck(text) && !StartsWith(text, "READY") && StartsWith(text, "REPORT")
  }

  predicate NoAck(text: string) {
    !StartsWith(text, "ACK") && text != ACK_HELLO && text != ACK_TEXT
  }

  lemma Openings(d: string)
    ensures Plain(Error(d)) && Reports(Report(d)) && Readies(Ready(d))
  {
    assert Error(d)[0] == 'E';
    assert Report(d)[0] == 'R' && Report(d)[2] == 'P' && Report(d)[..6] == "REPORT";
    assert Ready(d)[0] == 'R' && Ready(d)[2] == 'A';
    OtherOpening(Error(d));
    OtherOpening(Report(d));
    OtherOpening(Ready(d));
  }

  lemma OtherOpening(text: string)
    requires |text| >= 3
    ensures text[0] != 'A' ==> NoAck(text)
    ensures text[0] != 'R' || text[2] != 'A' ==> !StartsWith(text, "READY")
    ensures text[0] != 'R' || text[2] != 'P' ==> !StartsWith(text, "REPORT")
  {
    assert StartsWith(text, "ACK") ==> text[0] == 'A';
    assert StartsWith(text, "READY") ==> text[0] == 'R' && text[2] == 'A';
    assert StartsWith(text, "REPORT") ==> text[0] == 'R' && text[2] == 'P';
    assert ACK_HELLO[0] == 'A' && ACK_TEXT[0] == 'A';
  }

  lemma FixedTexts()
    ensures Plain(NOT_CONNECTED) && Plain(CONFIRM_TEXT) && ACK_HELLO != ACK_TEXT
    ensures !StartsWith(ACK_HELLO, "READY") && !StartsWith(ACK_TEXT, "READY")
    ensures !StartsWith(ACK_HELLO, "REPORT") && !StartsWith(ACK_TEXT, "REPORT")
  {
    OtherOpening(NOT_CONNECTED);
    OtherOpening(CONFIRM_TEXT);
    OtherOpening(ACK_HELLO);
    OtherOpening(ACK_TEXT);
    assert |ACK_HELLO| != |ACK_TEXT|;
  }

  // The same of a reply as a whole: it is the report of a result just given,
  // or one of the other answers.
  lemma ReplyReports(connected: bool, msg: string, cb: Callbacks)
    ensures var r := ReplyTo(connected, msg, cb);
            if GivesResult(connected, msg, cb) then r == Report(cb.result.result) else Spoken(r)
  {
    var verb := VerbOf(msg);
    if NeedsSession(verb) && !connected {
      RefusalSpoken();
    } else {
      match verb
      case Prepare => PrepareSpoken(cb.prepare);
      case Start => FlagSpoken(cb.start, "Start failed");
      case Stop => FlagSpoken(cb.stop, "Stop failed");
      case Other => ErrorSpoken("Unknown command: " + Command(msg));
      case Hello =>
      case Done =>
      case _ => ResultSpoken(cb.result);
    }
  }

  lemma RefusalSpoken()
    ensures Spoken(NOT_CONNECTED)
  {
    assert NOT_CONNECTED == Error("Not connected");
  }

  lemma ErrorSpoken(d: string)
    ensures Spoken(Error(d))
  {
  }

  lemma PrepareSpoken(a: PrepareAnswer)
    ensures Spoken(PrepareReply(a))
  {
  }

  lemma FlagSpoken(a: FlagAnswer, failed: string)
    ensures Spoken(FlagReply(a, failed))
  {
  }

  lemma ResultSpoken(a: ResultAnswer)
    ensures if a.Gives? then ResultReply(a) == Report(a.result) else Spoken(ResultReply(a))
  {
  }

  predicate AgreesToStart(connected: bool, msg: string, cb: Callbacks) {
    connected && VerbOf(msg) == Start && cb.start == Yes
  }

  predicate AgreesToStop(connected: bool, msg: string, cb: Callbacks) {
    connected && VerbOf(msg) == Stop && cb.stop == Yes
  }

  // One more reply, and perhaps one more message processed.
  lemma ReplyKeeps(w: World, w': World, reply: string)
    requires RepliesInv(w) && w'.toClient == w.toClient + {reply}
    requires w.server.accepted != {} ==> w'.server.accepted != {}
    requires StartsWith(reply, "ACK") ==> reply == ACK_HELLO || reply == ACK_TEXT
    requires w'.server.helloSeen == (w.server.helloSeen || reply == ACK_HELLO)
    requires w'.server.startsAgreed + w'.server.stopsAgreed > 0
             <==> w.server.startsAgreed + w.server.stopsAgreed > 0 || reply == ACK_TEXT
    requires StartsWith(reply, "READY") ==> w'.server.accepted != {}
    ensures RepliesInv(w')
  {
    assert ACK_HELLO in w'.toClient <==> ACK_HELLO in w.toClient || reply == ACK_HELLO;
    assert ACK_TEXT in w'.toClient <==> ACK_TEXT in w.toClient || reply == ACK_TEXT;
  }

  lemma ReportKeeps(texts: set<string>, results: set<string>, reply: string, given: set<string>)
    requires ReportsInv(texts, results)
    requires given == {} ==> Spoken(reply)
    requires forall r :: r in given ==> reply == Report(r)
    ensures ReportsInv(texts + {reply}, results + given)
  {
    var all := results + given;
    forall t | t in texts + {reply} ensures Spoken(t) || exists r :: r in all && t == Report(r) {
      if t in texts && !Spoken(t) {
        var r :| r in results && t == Report(r);
        assert r in all;
      } else if t == reply && given != {} {
        var r :| r in given;
        assert r in all;
      }
    }
  }

  lemma HandlingKeeps(w: World, w': World, text: string)
    requires RequestsInv(w) && text in w.toServer && w'.toServer == w.toServer && w'.client == w.client
    requires w'.server.helloSeen == (w.server.helloSeen || VerbOf(text) == Verb.Hello)
    requires w'.server.doneSeen == (w.server.doneSeen || VerbOf(text) == Done)
    requires w'.server.startsAgreed == w.server.startsAgreed || VerbOf(text) == Start
    requires w'.server.stopsAgreed == w.server.stopsAgreed || VerbOf(text) == Stop
    requires w'.server.accepted == w.server.accepted ||
             (VerbOf(text) == Prepare && w'.server.accepted == w.server.accepted + {RequestOf(Words(text))})
    ensures RequestsInv(w')
  {
    assert InFlight(w', Done) == InFlight(w, Done);
    assert InFlight(w', Start) == InFlight(w, Start);
    assert InFlight(w', Stop) == InFlight(w, Stop);
  }

  lemma ServerKeeps(w: World, text: string, cb: Callbacks)
    requires Inv(w) && Enabled(w, Handle(text, cb))
    ensures Inv(Next(w, Handle(text, cb)))
  {
    var w' := Next(w, Handle(text, cb));
    ReplyKinds(w.server.connected, text, cb);
    ReplyKeeps(w, w', ReplyTo(w.server.connected, text, cb));
    HandlingKeeps(w, w', text);
    ReplyReports(w.server.connected, text, cb);
    ReportKeeps(w.toClient, w.server.results, ReplyTo(w.server.connected, text, cb),
                if GivesResult(w.server.connected, text, cb) then {cb.result.result} else {});
  }

  lemma StepKeeps(w: World, step: Step)
    requires Inv(w) && Enabled(w, step)
    ensures Inv(Next(w, step))
  {
    match step
    case Connect => ConnectKeeps(w);
    case Greet(send) => HelloKeeps(w, send);
    case Invoke(call, send) => InvokeKeeps(w, call, send);
    case Disconnect(send) => DisconnectKeeps(w, send);
    case Receive(_) => ClientWaitKeeps(w, step);
    case Expire => ClientWaitKeeps(w, step);
    case Handle(text, cb) => ServerKeeps(w, text, cb);
  }

  lemma {:induction false} RunKeeps(w: World, steps: seq<Step>)
    requires Inv(w) && Legal(w, steps)
    ensures Inv(After(w, steps))
    decreases |steps|
  {
    if steps != [] {
      StepKeeps(w, steps[0]);
      RunKeeps(Next(w, steps[0]), steps[1..]);
    }
  }

  lemma InvariantHolds(w: World)
    requires Reachable(w)
    ensures Inv(w)
  {
    var steps :| Legal(INITIAL, steps) && After(INITIAL, steps) == w;
    RunKeeps(INITIAL, steps);
  }

  // ---------------------------------------------------------------------
  // What holds over every run
  // ---------------------------------------------------------------------

  // Until a DONE has been put on the wire, a client that is CONNECTED faces a
  // server that is connected.
  lemma ConnectedBothEnds(w: World)
    requires Reachable(w) && w.client.state == Connected && !InFlight(w, Done)
    ensures w.server.connected
  {
    InvariantHolds(w);
  }

  // One session, seen anywhere outside the disconnect call: CONNECTED on the
  // client implies connected on the server, and no DONE is under way.
  lemma SessionHolds(w: World)
    requires Reachable(w) && w.client.reconnects == 0
    requires w.client.pc != AwaitConfirm && w.client.state == Connected
    ensures w.server.connected && !InFlight(w, Done)
  {
    InvariantHolds(w);
  }

  // In one session a DONE is in flight only once the client has left
  // CONNECTED or is inside the disconnect call that is about to leave it.
  lemma DoneEndsSession(w: World)
    requires Reachable(w) && w.client.reconnects == 0 && InFlight(w, Done)
    ensures w.client.state != Connected || w.client.pc == AwaitConfirm
  {
    InvariantHolds(w);
  }

  // Over any number of sessions: a CONNECTED client can find its server
  // disconnected one delivery later exactly when some DONE is in flight.
  lemma ConnectionAtRiskIffDone(w: World)
    requires Reachable(w) && w.client.state == Connected && w.server.connected
    ensures (forall text, cb :: Enabled(w, Handle(text, cb)) ==> Next(w, Handle(text, cb)).server.connected)
            <==> !InFlight(w, Done)
  {
    InvariantHolds(w);
    if InFlight(w, Done) {
      var t :| t in w.toServer && VerbOf(t) == Done;
      var cb := Callbacks(Accepts(""), Yes, Yes, Gives(""));
      assert Enabled(w, Handle(t, cb));
      assert !Next(w, Handle(t, cb)).server.connected;
    }
  }

  // "Not connected" is the answer to a session command only after a DONE.
  lemma NotConnectedOnlyAfterDone(w: World, text: string, cb: Callbacks)
    requires Reachable(w) && Enabled(w, Handle(text, cb))
    requires NeedsSession(VerbOf(text)) && !w.server.connected
    ensures w.server.doneSeen && w.client.disconnects > 0
    ensures ReplyTo(w.server.connected, text, cb) == NOT_CONNECTED
  {
    InvariantHolds(w);
  }

  // A call ends in success only on a text that came while it waited: a timeout
  // and a failed transmit never do it, nor does a call made while not CONNECTED.
  lemma NoSuccessWithoutText(w: World, step: Step)
    requires Enabled(w, step) && !step.Receive?
    ensures var c, c' := w.client, Next(w, step).client;
            && (c'.outcome != c.outcome ==> c'.outcome.Some? && c'.outcome.value.1 != Success)
            && (step.Expire? && c.pc.Await? ==>
                  c'.outcome == Some((c.pc.call, if c.pc.call == ResultCall(0) then InvalidParameter else TimedOut)))
            && (step.Invoke? && c.state == Connected && step.send != Sent ==> c'.outcome == Some((step.call, SendError)))
            && (step.Invoke? && c.state != Connected ==>
                  c'.outcome == Some((step.call, if step.call.ResultCall? then InvalidParameter else NotReady)))
  {
  }

  // And over every run the text that earned it is among those in flight.
  lemma SuccessWasEarned(w: World, call: Call)
    requires Reachable(w) && w.client.outcome == Some((call, Success))
    ensures call.PrepareCall? ==> exists t :: t in w.toClient && "READY" <= t
    ensures call == StartCall || call == StopCall ==> ACK_HELLO in w.toClient || ACK_TEXT in w.toClient
    ensures call.ResultCall? ==> call.size > 0 && exists t :: t in w.toClient && t != "" && !("ERROR" <= Cut(t, call.size))
  {
    InvariantHolds(w);
    var t :| t in w.toClient && Earned(call, t);
    assert call.PrepareCall? ==> "READY" <= t;
    assert call.ResultCall? ==> !("ERROR" <= Cut(t, call.size));
  }

  // A PREPARE that succeeded means the companion's callback accepted the
  // request of some PREPARE this client sent, and was given what that command
  // named wherever a command can carry it.
  lemma PrepareSuccessWasAccepted(w: World)
    requires Reachable(w)
    requires w.client.outcome.Some? && w.client.outcome.value.0.PrepareCall? && w.client.outcome.value.1 == Success
    ensures exists layer, test, args, r ::
              PrepareText(layer, test, args) in w.toServer && r in w.server.accepted && GivenAs(r, layer, test, args)
  {
    InvariantHolds(w);
    var ready :| ready in w.toClient && Earned(w.client.outcome.value.0, ready);
    assert StartsWith(ready, "READY");
    var r :| r in w.server.accepted;
    var t :| t in w.toServer && VerbOf(t) == Prepare && r == RequestOf(Words(t));
    var layer, test, args :| t == PrepareText(layer, test, args);
    RequestGiven(layer, test, args);
  }

  // The request of such a command: the second word, the third and the others
  // joined by blanks, hence what was named wherever a command can carry it.
  ghost predicate GivenAs(r: Request, layer: string, test: string, args: string) {
    && WordsOfRequest(Words(PrepareText(layer, test, args)), r)
    && (Arrives(layer, test, args) ==> r.layer == layer && r.test == test && r.args == args)
  }

  lemma RequestGiven(layer: string, test: string, args: string)
    ensures GivenAs(RequestOf(Words(PrepareText(layer, test, args))), layer, test, args)
  {
    RequestIsMeantIff(layer, test, args);
  }

  ghost predicate WordsOfRequest(parts: seq<string>, r: Request) {
    && r.layer == (if |parts| > 1 then parts[1] else "")
    && r.test == (if |parts| > 2 then parts[2] else "")
    && r.args == (if |parts| > 3 then Join(parts[3..]) else "")
  }

  // ---------------------------------------------------------------------
  // What a START or STOP that succeeds means
  // ---------------------------------------------------------------------

  ghost predicate AwaitsAck(w: World) {
    w.client.pc == Await(StartCall) || w.client.pc == Await(StopCall)
  }

  ghost predicate Succeeds(w: World, text: string)
    requires w.client.pc.Await? && Enabled(w, Receive(text))
  {
    Next(w, Receive(text)).client.outcome == Some((w.client.pc.call, Success))
  }

  // The two texts that can be in flight and start with ACK.
  lemma AckTexts(w: World)
    requires Reachable(w)
    ensures forall t :: t in w.toClient && StartsWith(t, "ACK") ==> t == ACK_HELLO || t == ACK_TEXT
    ensures ACK_HELLO in w.toClient <==> w.server.helloSeen
    ensures ACK_TEXT in w.toClient <==> w.server.startsAgreed > 0 || w.server.stopsAgreed > 0
    ensures w.server.startsAgreed > 0 ==> InFlight(w, Start)
    ensures w.server.stopsAgreed > 0 ==> InFlight(w, Stop)
  {
    InvariantHolds(w);
  }

  // The greeting can arrive whenever START or STOP is waiting for its answer,
  // in every run, and then it succeeds.
  lemma GreetingAlwaysFits(w: World)
    requires Reachable(w) && AwaitsAck(w)
    ensures Enabled(w, Receive(ACK_HELLO)) && Succeeds(w, ACK_HELLO)
  {
    InvariantHolds(w);
    assert Cut(ACK_HELLO, MAX_MSG_SIZE) == ACK_HELLO;
  }

  // Of all the texts that can arrive exactly two let the call succeed: the
  // greeting, and the ACK that the server sends only when a callback agreed.
  lemma AckSucceedsIff(w: World, text: string)
    requires Reachable(w) && AwaitsAck(w) && Enabled(w, Receive(text))
    ensures Succeeds(w, text) <==> text == ACK_HELLO || text == ACK_TEXT
  {
    AckTexts(w);
    assert Cut(ACK_HELLO, MAX_MSG_SIZE) == ACK_HELLO && Cut(ACK_TEXT, MAX_MSG_SIZE) == ACK_TEXT;
    if StartsWith(Cut(text, MAX_MSG_SIZE), "ACK") {
      CutKeepsPrefix(text, MAX_MSG_SIZE, "ACK");
    }
  }

  // The guarantee of CompanionStart, "the companion acknowledged START", on
  // one text: while no STOP has been sent, success on anything but the
  // greeting means that the callback agreed to a START, and conversely such
  // an agreement puts a text in flight on which it succeeds.
  lemma StartSuccessMeaning(w: World, text: string)
    requires Reachable(w) && w.client.pc == Await(StartCall) && Enabled(w, Receive(text))
    requires !InFlight(w, Stop)
    ensures Succeeds(w, text) <==> text == ACK_HELLO || (text == ACK_TEXT && w.server.startsAgreed > 0)
    ensures w.server.startsAgreed > 0 <==> Enabled(w, Receive(ACK_TEXT))
  {
    AckTexts(w);
    AckSucceedsIff(w, text);
  }

  lemma StopSuccessMeaning(w: World, text: string)
    requires Reachable(w) && w.client.pc == Await(StopCall) && Enabled(w, Receive(text))
    requires !InFlight(w, Start)
    ensures Succeeds(w, text) <==> text == ACK_HELLO || (text == ACK_TEXT && w.server.stopsAgreed > 0)
    ensures w.server.stopsAgreed > 0 <==> Enabled(w, Receive(ACK_TEXT))
  {
    AckTexts(w);
    AckSucceedsIff(w, text);
  }

  // With both commands about, the plain ACK says that one of the two callbacks
  // agreed, not which.
  lemma AckMeansAgreement(w: World)
    requires Reachable(w) && AwaitsAck(w)
    ensures Enabled(w, Receive(ACK_TEXT)) <==> w.server.startsAgreed > 0 || w.server.stopsAgreed > 0
  {
    AckTexts(w);
  }

  // ---------------------------------------------------------------------
  // What a RESULT that succeeds means
  // ---------------------------------------------------------------------

  // Any text but an error lets it succeed.
  lemma ResultSucceedsIff(w: World, size: nat, text: string)
    requires w.client.pc == Await(ResultCall(size)) && Enabled(w, Receive(text))
    ensures Succeeds(w, text) <==> size > 0 && !StartsWith(Cut(text, size), "ERROR")
  {
    var cut := Cut(text, size);
    if StartsWith(cut, "REPORT") {
      Distinct(cut);
    }
  }

  // So does the greeting, which can arrive whenever RESULT waits.
  lemma GreetingFitsResult(w: World, size: nat)
    requires Reachable(w) && w.client.pc == Await(ResultCall(size)) && size > 0
    ensures Enabled(w, Receive(ACK_HELLO)) && Succeeds(w, ACK_HELLO)
  {
    InvariantHolds(w);
    ResultSucceedsIff(w, size, ACK_HELLO);
    NotError(ACK_HELLO, size);
  }

  lemma NotError(text: string, size: nat)
    requires |text| > 0 && text[0] != 'E'
    ensures !StartsWith(Cut(text, size), "ERROR")
  {
    ErrorOpens(text);
    if StartsWith(Cut(text, size), "ERROR") {
      CutKeepsPrefix(text, size, "ERROR");
    }
  }

  lemma ErrorOpens(text: string)
    ensures StartsWith(text, "ERROR") ==> |text| > 0 && text[0] == 'E'
  {
  }

  // A REPORT is in flight exactly when the callback gave a result, and what
  // arrives is the report of such a result.
  lemma ReportMeansGiven(w: World)
    requires Reachable(w)
    ensures forall t :: t in w.toClient && StartsWith(t, "REPORT") ==> exists r :: r in w.server.results && t == Report(r)
    ensures (exists t :: t in w.toClient && StartsWith(t, "REPORT")) <==> w.server.results != {}
  {
    InvariantHolds(w);
    forall t | t in w.toClient && StartsWith(t, "REPORT") ensures exists r :: r in w.server.results && t == Report(r) {
      if Spoken(t) {
        SpokenIsNoReport(t);
      }
    }
    if w.server.results != {} {
      var r :| r in w.server.results;
      Openings(r);
      assert Report(r) in w.toClient && StartsWith(Report(r), "REPORT");
    }
  }

  lemma SpokenIsNoReport(text: string)
    requires Spoken(text)
    ensures !StartsWith(text, "REPORT")
  {
    FixedTexts();
    if d :| text == Ready(d) {
      Openings(d);
    } else if d :| text == Error(d) {
      Openings(d);
    }
  }

  // ---------------------------------------------------------------------
  // A call and the answer to it
  // ---------------------------------------------------------------------

  lemma CutKeepsWord(text: string, size: nat, word: string)
    requires StartsWith(text, word) && |word| < size
    ensures StartsWith(Cut(text, size), word)
  {
  }

  // What the callback thinks of a call.
  predicate Agrees(call: Call, cb: Callbacks) {
    match call
    case PrepareCall(_, _, _) => cb.prepare.Accepts?
    case StartCall => cb.start == Yes
    case StopCall => cb.stop == Yes
    case ResultCall(_) => cb.result.Gives?
  }

  // The word the answer to a call starts with.
  function AnswerWord(connected: bool, call: Call, cb: Callbacks): string {
    if !connected || !Agrees(call, cb) then "ERROR"
    else match call
      case PrepareCall(_, _, _) => "READY"
      case ResultCall(_) => "REPORT"
      case _ => "ACK"
  }

  lemma AnswerStarts(connected: bool, call: Call, msg: string, cb: Callbacks)
    requires VerbOf(msg) == CallVerb(call)
    ensures StartsWith(ReplyTo(connected, msg, cb), AnswerWord(connected, call, cb))
  {
    assert forall d: string :: StartsWith(Error(d), "ERROR");
    assert forall d: string :: StartsWith(Ready(d), "READY");
    assert forall d: string :: StartsWith(Report(d), "REPORT");
    assert StartsWith(NOT_CONNECTED, "ERROR") && StartsWith(ACK_TEXT, "ACK");
  }

  // The server's answer, in the hands of the call that asked, makes it succeed
  // exactly when the server is connected and its callback agreed. A result
  // buffer of 1 to 5 bytes cuts "ERROR" short, and then RESULT always succeeds.
  lemma AnswerDecides(connected: bool, call: Call, cb: Callbacks)
    ensures ExchangeStatus(call, Response(Cut(ReplyTo(connected, CommandText(call), cb), BufferSize(call)))) == Success <==>
            (connected && Agrees(call, cb) && call != ResultCall(0)) || (call.ResultCall? && 1 <= call.size <= 5)
  {
    var reply := ReplyTo(connected, CommandText(call), cb);
    CallIs(call);
    AnswerStarts(connected, call, CommandText(call), cb);
    AnswerRead(call, reply, AnswerWord(connected, call, cb));
  }

  lemma AnswerRead(call: Call, reply: string, word: string)
    requires word in {"ERROR", "READY", "REPORT", "ACK"} && StartsWith(reply, word)
    ensures var status := ExchangeStatus(call, Response(Cut(reply, BufferSize(call))));
            status == Success <==>
              match call
              case PrepareCall(_, _, _) => word == "READY"
              case StartCall => word == "ACK"
              case StopCall => word == "ACK"
              case ResultCall(size) => size > 0 && (word != "ERROR" || size <= 5)
  {
    var size := BufferSize(call);
    var text := Cut(reply, size);
    if size > 6 {
      CutKeepsWord(reply, size, word);
      Distinct(text);
    } else if size > 0 {
      Distinct(reply);
      if StartsWith(text, "ERROR") {
        CutKeepsPrefix(reply, size, "ERROR");
      } else if word == "ERROR" && size == 6 {
        CutKeepsWord(reply, size, word);
      }
    }
  }

  // ---------------------------------------------------------------------
  // What does not hold: runs that exist
  // ---------------------------------------------------------------------

  lemma {:induction false} LegalSnoc(w: World, steps: seq<Step>, step: Step)
    requires Legal(w, steps) && Enabled(After(w, steps), step)
    ensures Legal(w, steps + [step]) && After(w, steps + [step]) == Next(After(w, steps), step)
    decreases |steps|
  {
    if steps == [] {
      assert steps + [step] == [step];
    } else {
      assert (steps + [step])[1..] == steps[1..] + [step];
      LegalSnoc(Next(w, steps[0]), steps[1..], step);
    }
  }

  lemma Extend(w: World, step: Step) returns (w': World)
    requires Reachable(w) && Enabled(w, step)
    ensures w' == Next(w, step) && Reachable(w')
  {
    var steps :| Legal(INITIAL, steps) && After(INITIAL, steps) == w;
    LegalSnoc(INITIAL, steps, step);
    w' := Next(w, step);
  }

  const ANY := Callbacks(Accepts(""), Yes, Yes, Gives(""))

  // The opening of every example: HELLO sent, acknowledged, ACK received.
  lemma Opening() returns (w: World)
    ensures Reachable(w)
    ensures w == World(Client(Connected, Idle, None, 0, 0), Server(true, true, false, {}, 0, 0, 0, {}), {HELLO_TEXT}, {ACK_HELLO})
  {
    assert Legal(INITIAL, []) && After(INITIAL, []) == INITIAL;
    w := Extend(INITIAL, Connect);
    w := Extend(w, Greet(Sent));
    assert w.toServer == {HELLO_TEXT};
    HelloIs(HELLO_TEXT);
    w := Answered(w, HELLO_TEXT);
    assert w.toClient == {ACK_HELLO};
    w := Extend(w, Receive(ACK_HELLO));
  }

  lemma Answered(w: World, hello: string) returns (w': World)
    requires Reachable(w) && VerbOf(hello) == Verb.Hello && hello in w.toServer
    ensures Reachable(w')
    ensures w'.client == w.client && w'.toServer == w.toServer && w'.toClient == w.toClient + {ACK_HELLO}
    ensures w'.server == w.server.(connected := true, helloSeen := true)
  {
    w' := Extend(w, Handle(hello, ANY));
    assert w.server.accepted + {} == w.server.accepted;
  }

  // A message that is in flight is handled, and its answer is in flight.
  lemma Served(w: World, msg: string, cb: Callbacks) returns (w': World)
    requires Reachable(w) && msg in w.toServer && Words(msg) != []
    ensures Reachable(w') && w'.client == w.client && w'.toServer == w.toServer
    ensures w'.server == OnCommand(w.server, msg, cb) && w'.toClient == w.toClient + {ReplyTo(w.server.connected, msg, cb)}
  {
    w' := Extend(w, Handle(msg, cb));
  }

  // A call goes out and waits.
  lemma Called(w: World, call: Call) returns (w': World)
    requires Reachable(w) && w.client.pc == Idle && w.client.state == Connected
    ensures Reachable(w') && w'.client == w.client.(pc := Await(call)) && w'.server == w.server
    ensures w'.toServer == w.toServer + {CommandText(call)} && w'.toClient == w.toClient
  {
    w' := Extend(w, Invoke(call, Sent));
  }

  // It gives up.
  lemma GivenUp(w: World) returns (w': World)
    requires Reachable(w) && w.client.pc.Await? && w.client.state == Connected
    ensures Reachable(w') && w'.client.pc == Idle && w'.client.state == Connected
    ensures w'.client.disconnects == w.client.disconnects && w'.client.reconnects == w.client.reconnects
    ensures w'.server == w.server && w'.toServer == w.toServer && w'.toClient == w.toClient
  {
    w' := Extend(w, Expire);
  }

  lemma HasWords(msg: string)
    requires VerbOf(msg) != Other
    ensures Words(msg) != []
  {
  }

  // The other of START and STOP.
  function OtherCall(call: Call): Call {
    if call == StartCall then StopCall else StartCall
  }

  function Agreed(s: Server, call: Call): nat {
    if call == StartCall then s.startsAgreed else s.stopsAgreed
  }

  // A run of one session up to a waiting call that nobody has agreed to, with
  // or without the other command on the wire.
  lemma WaitingUnagreed(call: Call, otherSent: bool) returns (w: World)
    requires call == StartCall || call == StopCall
    ensures Reachable(w) && w.client.pc == Await(call) && ACK_HELLO in w.toClient
    ensures Agreed(w.server, call) == 0 && (InFlight(w, CallVerb(OtherCall(call))) <==> otherSent)
  {
    var other := OtherCall(call);
    CallIs(call);
    CallIs(other);
    if otherSent {
      w := Opening();
      w := Called(w, other);
      w := GivenUp(w);
      w := Called(w, call);
      assert CommandText(other) in w.toServer;
    } else {
      w := FirstCall(call, CallVerb(other));
    }
  }

  // Nothing but the greeting and the call itself has been sent.
  lemma FirstCall(call: Call, verb: Verb) returns (w: World)
    requires verb != Verb.Hello && verb != CallVerb(call)
    ensures Reachable(w) && w.client.pc == Await(call) && ACK_HELLO in w.toClient
    ensures w.server.startsAgreed == w.server.stopsAgreed == 0 && !InFlight(w, verb)
  {
    w := Opening();
    HelloIs(HELLO_TEXT);
    w := Called(w, call);
    CallIs(call);
    OnlyTwo(w, HELLO_TEXT, CommandText(call), verb);
  }

  lemma OnlyTwo(w: World, a: string, b: string, verb: Verb)
    requires w.toServer == {a} + {b} && VerbOf(a) != verb && VerbOf(b) != verb
    ensures !InFlight(w, verb)
  {
  }

  // The same, with the other command sent and agreed to: its ACK is in flight.
  lemma OtherAgreed(call: Call) returns (w: World)
    requires call == StartCall || call == StopCall
    ensures Reachable(w) && w.client.pc == Await(call) && w.client.state == Connected && w.client.disconnects == 0
    ensures ACK_TEXT in w.toClient && Agreed(w.server, call) == 0 && Agreed(w.server, OtherCall(call)) > 0
    ensures InFlight(w, CallVerb(OtherCall(call)))
  {
    var other := OtherCall(call);
    w := Opening();
    CallIs(other);
    HasWords(CommandText(other));
    w := Called(w, other);
    w := Served(w, CommandText(other), ANY);
    w := GivenUp(w);
    w := Called(w, call);
    assert CommandText(other) in w.toServer;
  }

  // START and HELLO are both answered with an ACK, so a late handshake ACK
  // makes CompanionStart succeed though no START was ever processed.
  lemma StartMaySucceedUnstarted()
    ensures exists w :: Reachable(w) && w.client.outcome == Some((StartCall, Success)) && w.server.starts == 0
  {
    var w := Opening();
    w := Extend(w, Invoke(StartCall, Sent));
    w := Extend(w, Receive(ACK_HELLO));
  }

  // So are START and STOP: a late ACK of a STOP makes CompanionStart succeed
  // in the same session, though no START was agreed to.
  lemma StartMaySucceedOnStop()
    ensures exists w :: Reachable(w) && w.client.outcome == Some((StartCall, Success)) && w.client.disconnects == 0
                        && w.server.startsAgreed == 0 && w.server.stopsAgreed > 0
  {
    var w := OtherAgreed(StartCall);
    w := Extend(w, Receive(ACK_TEXT));
  }

  // What the client can go by is the text that came and whether it has sent
  // the other command. These prove that the callback agreed to the call ...
  ghost predicate AckProves(call: Call, text: string, otherSent: bool) {
    forall w :: Reachable(w) && w.client.pc == Await(call) && Enabled(w, Receive(text)) && Succeeds(w, text)
                && (InFlight(w, CallVerb(OtherCall(call))) <==> otherSent) ==>
                  Agreed(w.server, call) > 0
  }

  // ... exactly when the text is not the greeting, and not the plain ACK with
  // the other command sent.
  lemma AckProvesIff(call: Call, text: string, otherSent: bool)
    requires call == StartCall || call == StopCall
    ensures AckProves(call, text, otherSent) <==> text != ACK_HELLO && (text == ACK_TEXT ==> !otherSent)
  {
    if text == ACK_HELLO {
      var w := WaitingUnagreed(call, otherSent);
      AckSucceedsIff(w, text);
      assert Succeeds(w, text);
    } else if text == ACK_TEXT && otherSent {
      var w := OtherAgreed(call);
      AckSucceedsIff(w, text);
      assert Succeeds(w, text);
    } else {
      forall w | Reachable(w) && w.client.pc == Await(call) && Enabled(w, Receive(text)) && Succeeds(w, text)
                 && (InFlight(w, CallVerb(OtherCall(call))) <==> otherSent)
        ensures Agreed(w.server, call) > 0
      {
        AckSucceedsIff(w, text);
        AckTexts(w);
      }
    }
  }

  // A run in which CompanionGetResult succeeds on the handshake's ACK and no
  // result was given.
  lemma ResultMaySucceedUngiven()
    ensures exists w :: Reachable(w) && w.client.outcome == Some((ResultCall(512), Success)) && w.server.results == {}
                        && forall t :: t in w.toClient ==> !StartsWith(t, "REPORT")
  {
    var w := Opening();
    w := Called(w, ResultCall(512));
    GreetingFitsResult(w, 512);
    w := Extend(w, Receive(ACK_HELLO));
    FixedTexts();
  }

  // A run up to a waiting RESULT, no result given, with a given answer other
  // than a REPORT in flight.
  lemma WaitingUngiven(text: string, size: nat) returns (w: World)
    requires Spoken(text)
    ensures Reachable(w) && w.client.pc == Await(ResultCall(size)) && text in w.toClient && w.server.results == {}
  {
    w := Opening();
    if text == CONFIRM_TEXT {
      w := Reconnected();
    } else if text != ACK_HELLO {
      var call, cb := Eliciting(text);
      CallIs(call);
      HasWords(CommandText(call));
      w := Called(w, call);
      w := Served(w, CommandText(call), cb);
      w := GivenUp(w);
    }
    w := Called(w, ResultCall(size));
  }

  // What makes the server give such an answer.
  lemma Eliciting(text: string) returns (call: Call, cb: Callbacks)
    requires Spoken(text) && text != ACK_HELLO && text != CONFIRM_TEXT
    ensures (call == StartCall || call.PrepareCall?) && ReplyTo(true, CommandText(call), cb) == text
  {
    if text == ACK_TEXT {
      call, cb := StartCall, ANY;
      CallIs(call);
    } else if d :| text == Ready(d) {
      call, cb := PrepareCall("", "", ""), ANY.(prepare := Accepts(d));
      CallIs(call);
    } else {
      var d :| text == Error(d);
      call, cb := PrepareCall("", "", ""), ANY.(prepare := Declines(d));
      CallIs(call);
    }
  }

  // A session ended, with its CONFIRM about.
  lemma Ended() returns (w: World)
    ensures Reachable(w) && w.client == Client(Disconnected, Idle, None, 1, 0) && w.server.results == {}
    ensures ACK_HELLO in w.toClient && CONFIRM_TEXT in w.toClient
  {
    w := Opening();
    w := Extend(w, Disconnect(Sent));
    DoneIs(DONE_TEXT);
    HasWords(DONE_TEXT);
    w := Served(w, DONE_TEXT, ANY);
    assert ACK_HELLO in w.toClient && CONFIRM_TEXT in w.toClient;
    w := Extend(w, Expire);
  }

  // A second session begun on the first one's greeting.
  lemma Reconnected() returns (w: World)
    ensures Reachable(w) && w.client.pc == Idle && w.client.state == Connected && w.server.results == {}
    ensures CONFIRM_TEXT in w.toClient
  {
    w := Ended();
    w := Extend(w, Connect);
    w := Extend(w, Greet(Sent));
    w := Extend(w, Receive(ACK_HELLO));
  }

  // The text that came proves that a result was given ...
  ghost predicate TextProvesResult(text: string, size: nat) {
    forall w :: Reachable(w) && w.client.pc == Await(ResultCall(size)) && Enabled(w, Receive(text)) && Succeeds(w, text) ==>
                  w.server.results != {}
  }

  // ... exactly when it is none of the server's other answers, or is one that
  // makes the call fail. A text that starts with REPORT always does.
  lemma ResultProvenIff(text: string, size: nat)
    ensures TextProvesResult(text, size) <==> !(Spoken(text) && size > 0 && !StartsWith(Cut(text, size), "ERROR"))
    ensures StartsWith(text, "REPORT") ==> TextProvesResult(text, size)
  {
    if Spoken(text) {
      SpokenIsNoReport(text);
      var w := WaitingUngiven(text, size);
      SpokenNotEmpty(text);
      ResultSucceedsIff(w, size, text);
    }
    forall w | Reachable(w) && w.client.pc == Await(ResultCall(size)) && Enabled(w, Receive(text)) && Succeeds(w, text)
      ensures w.server.results != {} || Spoken(text)
      ensures size > 0 && !StartsWith(Cut(text, size), "ERROR")
    {
      InvariantHolds(w);
      ResultSucceedsIff(w, size, text);
    }
  }

  lemma SpokenNotEmpty(text: string)
    requires Spoken(text)
    ensures text != ""
  {
    if d :| text == Ready(d) {
      assert |Ready(d)| > 0;
    } else if d :| text == Error(d) {
      assert |Error(d)| > 0;
    }
  }

  // While CompanionDisconnect waits for its answer the client still says
  // CONNECTED to a server that has closed the session.
  lemma ClosedWhileDisconnecting()
    ensures exists w :: Reachable(w) && w.client.reconnects == 0 && w.client.state == Connected && !w.server.connected
  {
    var w := Opening();
    w := Extend(w, Disconnect(Sent));
    DoneIs(DONE_TEXT);
    assert DONE_TEXT in w.toServer;
    w := Extend(w, Handle(DONE_TEXT, ANY));
  }

  // In a second session a late DONE of the first closes the server between
  // calls of a CONNECTED client: messages carry no session.
  lemma SecondSessionMayBeClosed()
    ensures exists w :: Reachable(w) && w.client.pc == Idle && w.client.state == Connected && w.client.reconnects == 1
                        && !w.server.connected
  {
    var w := Opening();
    w := Extend(w, Disconnect(Sent));
    assert DONE_TEXT in w.toServer && ACK_HELLO in w.toClient;
    w := Extend(w, Expire);
    w := Extend(w, Connect);
    w := Extend(w, Greet(Sent));
    w := Extend(w, Receive(ACK_HELLO));
    DoneIs(DONE_TEXT);
    w := Extend(w, Handle(DONE_TEXT, ANY));
  }

  // ---------------------------------------------------------------------
  // The link object's calls are the machine's
  // ---------------------------------------------------------------------

  // The steps by which attempt `k` onwards goes as `ex` says.
  function HandshakeSteps(ex: seq<Exchange>): seq<Step> {
    if ex == [] then []
    else match ex[0]
      case SendFails => [Greet(FailedOffWire)] + HandshakeSteps(ex[1..])
      case NoResponse => [Greet(Sent), Expire] + HandshakeSteps(ex[1..])
      case Response(text) =>
        [Greet(Sent), Receive(text)] +
        (if StartsWith(text, "ACK") || StartsWith(text, "ERROR") then [] else HandshakeSteps(ex[1..]))
  }

  // Started in the same situation, the machine ends CONNECTED or in ERROR as
  // the object's Connect does, for every three exchanges the network allows.
  lemma {:induction false} HandshakeRefines(w: World, k: nat, ex: seq<Exchange>)
    requires k + |ex| == HELLO_ATTEMPTS && |ex| > 0
    requires w.client.pc == SayHello(k)
    requires forall e :: e in ex && e.Response? ==> e.text in w.toClient && 0 < |e.text| < MAX_MSG_SIZE
    ensures Legal(w, HandshakeSteps(ex))
    ensures After(w, HandshakeSteps(ex)).client == w.client.(state := Handshake(ex).0, pc := Idle)
    decreases |ex|
  {
    var steps := HandshakeSteps(ex);
    var w1 := Next(w, steps[0]);
    if ex[0] == SendFails {
      assert steps[1..] == HandshakeSteps(ex[1..]);
      if |ex| > 1 {
        HandshakeRefines(w1, k + 1, ex[1..]);
      }
    } else {
      var answer := if ex[0].NoResponse? then Expire else Receive(ex[0].text);
      var again := !(ex[0].Response? && (StartsWith(ex[0].text, "ACK") || StartsWith(ex[0].text, "ERROR")));
      var w2 := Next(w1, answer);
      if ex[0].Response? {
        assert Cut(ex[0].text, MAX_MSG_SIZE) == ex[0].text;
      }
      if again && |ex| > 1 {
        HandshakeRefines(w2, k + 1, ex[1..]);
      }
      TwoSteps(w, Greet(Sent), answer, if again then HandshakeSteps(ex[1..]) else []);
    }
  }

  function CallSteps(call: Call, ex: Exchange): seq<Step> {
    match ex
    case SendFails => [Invoke(call, FailedOffWire)]
    case NoResponse => [Invoke(call, Sent), Expire]
    case Response(text) => [Invoke(call, Sent), Receive(text)]
  }

  // Likewise for the four commands, in CONNECTED.
  lemma CallRefines(w: World, call: Call, ex: Exchange)
    requires w.client.pc == Idle && w.client.state == Connected
    requires ex.Response? ==> ex.text in w.toClient && 0 < |ex.text| < BufferSize(call)
    ensures Legal(w, CallSteps(call, ex))
    ensures After(w, CallSteps(call, ex)).client == w.client.(outcome := Some((call, ExchangeStatus(call, ex))))
  {
    if ex == SendFails {
      assert CallSteps(call, ex)[1..] == [];
    } else {
      var answer := if ex.NoResponse? then Expire else Receive(ex.text);
      TwoSteps(w, Invoke(call, Sent), answer, []);
      assert [Invoke(call, Sent), answer] + [] == CallSteps(call, ex);
    }
  }

  lemma TwoSteps(w: World, a: Step, b: Step, rest: seq<Step>)
    requires Enabled(w, a) && Enabled(Next(w, a), b) && Legal(Next(Next(w, a), b), rest)
    ensures Legal(w, [a, b] + rest) && After(w, [a, b] + rest) == After(Next(Next(w, a), b), rest)
  {
    assert ([a, b] + rest)[1..] == [b] + rest;
    assert ([b] + rest)[1..] == rest;
  }
}
