/** The trivia client (client.py) driven by a script instead of a socket and a keyboard:
    the frames the server will deliver and the lines the operator will type are fixed in
    advance, and every request the client makes is appended to a send log. */
module Client {
  import opened Wrappers
  import opened Text
  import opened Chatlib

  // ---------------------------------------------------------------------------
  // Sessions, faults and outcomes
  // ---------------------------------------------------------------------------

  /** Where the client stands: before an accepted login, logged in, or after LOGOUT. */
  datatype Phase = Unauthenticated | Authenticated | Terminated

  /** The scripted environment and the client's effect on it.
      `inbox`: the replies still to arrive, one per receive, each as `parse_message`
      decodes its frame (`Decode`), `None` standing for the `(None, None)` pair;
      `inputs`: lines the operator has still to type, one per `input()`;
      `sent`: every request written to the connection, oldest first, as (command, data);
      the frame on the wire for a request `m` is `BuildMessage(m.cmd, m.data)`. */
  datatype Session = Session(inbox: seq<Option<Message>>, inputs: seq<string>, sent: seq<Message>, phase: Phase)

  /** Why a run stops early, each an uncaught exception in the client:
      `input()` meets the end of the operator's input (EOFError), `build_message` refuses
      the request so `.encode()` is applied to `None`, or the question data has fewer than
      six `#`-separated fields (IndexError). */
  datatype Fault = InputExhausted | EncodeRejected | ShortQuestion

  /** The session after a step, with the step's value or the fault that stopped it. */
  datatype Outcome<T> = Ok(s: Session, value: T) | Halted(s: Session, fault: Fault)

  /** A request the codec accepts, so sending it does not fail. */
  predicate Encodable(m: Message) {
    BuildMessage(m.cmd, m.data).Some?
  }

  /** Both fields of the request fit their header fields. */
  predicate Fits(m: Message) {
    |m.cmd| <= CmdFieldLength && |m.data| <= MaxDataLength
  }

  /** The codec accepts exactly the requests whose fields fit. */
  lemma EncodableFits(m: Message)
    ensures Encodable(m) <==> Fits(m)
  {
  }

  /** A decoded reply with command `cmd`; the error pair carries no command. */
  predicate Carries(reply: Option<Message>, cmd: string) {
    reply.Some? && reply.value.cmd == cmd
  }

  // ---------------------------------------------------------------------------
  // The scripted transport and operator
  // ---------------------------------------------------------------------------

  /** The frame delivered by the `k`-th receive, for a script of `frames`. Past the end of
      the script the server has closed the connection, and a receive yields "". */
  function FrameAt(frames: seq<string>, k: nat): string {
    if k < |frames| then frames[k] else ""
  }

  /** The replies of a script of frames, decoded one by one. */
  function Decode(frames: seq<string>): (r: seq<Option<Message>>)
    ensures |r| == |frames|
    ensures forall k :: 0 <= k < |frames| && frames[k] == "" ==> r[k] == None
  {
    seq(|frames|, k requires 0 <= k < |frames| => ParseMessage(frames[k]))
  }

  /** The decoded reply of the `k`-th receive from now; past the end of the script the
      empty frame, which decodes to the error pair (`DecodeReceives`). */
  function ReplyAt(inbox: seq<Option<Message>>, k: nat): Option<Message> {
    if k < |inbox| then inbox[k] else None
  }

  /** The inbox after `n` receives. */
  function Drop<T>(inbox: seq<T>, n: nat): (r: seq<T>)
    ensures |r| <= |inbox|
  {
    if n <= |inbox| then inbox[n..] else []
  }

  /** After `n` receives, the `k`-th next frame is the `(n + k)`-th of the original script. */
  lemma ReplyAtDrop(inbox: seq<Option<Message>>, n: nat, k: nat)
    ensures ReplyAt(Drop(inbox, n), k) == ReplyAt(inbox, n + k)
  {
  }

  lemma DropDrop<T>(inbox: seq<T>, m: nat, n: nat)
    ensures Drop(Drop(inbox, m), n) == Drop(inbox, m + n)
  {
  }

  /** `build_and_send_message`: encodes the request and writes the frame; when the codec
      refuses it, the client stops without writing anything. */
  function Send(s: Session, cmd: string, data: string): (o: Outcome<()>)
    ensures o.s.inbox == s.inbox && o.s.inputs == s.inputs && o.s.phase == s.phase
    ensures o.Ok? <==> Fits(Message(cmd, data))
    ensures o.Ok? ==> o.s.sent == s.sent + [Message(cmd, data)]
    ensures o.Halted? ==> o.s == s && o.fault == EncodeRejected
  {
    if Fits(Message(cmd, data)) then Ok(s.(sent := s.sent + [Message(cmd, data)]), ())
    else Halted(s, EncodeRejected)
  }

  /** `Send` stops exactly where `build_message` returns `None`, and sends exactly the
      requests it encodes. */
  lemma SendFollowsCodec(s: Session, cmd: string, data: string)
    ensures Send(s, cmd, data).Halted? <==> BuildMessage(cmd, data).None?
    ensures BuildMessage(cmd, data).Some? ==> Send(s, cmd, data).s.sent == s.sent + [Message(cmd, data)]
  {
    EncodableFits(Message(cmd, data));
  }

  /** `recv_message_and_parse`: takes exactly one frame off the connection and decodes it;
      `None` is the `(None, None)` pair of a frame the codec rejects. */
  function Receive(s: Session): (o: Outcome<Option<Message>>)
    ensures o.Ok? && o.s == s.(inbox := Drop(s.inbox, 1))
    ensures o.value == ReplyAt(s.inbox, 0)
  {
    Ok(s.(inbox := Drop(s.inbox, 1)), ReplyAt(s.inbox, 0))
  }

  /** `build_send_recv_parse`: one send followed by one receive. */
  function Exchange(s: Session, cmd: string, data: string): (o: Outcome<Option<Message>>)
    ensures o.s.inputs == s.inputs && o.s.phase == s.phase
    ensures o.Ok? <==> Fits(Message(cmd, data))
    ensures o.Ok? ==> o.s.sent == s.sent + [Message(cmd, data)]
    ensures o.Ok? ==> o.s.inbox == Drop(s.inbox, 1) && o.value == ReplyAt(s.inbox, 0)
    ensures o.Halted? ==> o.s == s && o.fault == EncodeRejected
  {
    match Send(s, cmd, data)
    case Halted(t, f) => Halted(t, f)
    case Ok(t, _) => Receive(t)
  }

  /** `input()`: the operator's next line, or the end of input. */
  function Input(s: Session): (o: Outcome<string>)
    ensures o.Ok? <==> s.inputs != []
    ensures o.Ok? ==> o.s == s.(inputs := s.inputs[1..]) && o.value == s.inputs[0]
    ensures o.Halted? ==> o.s == s && o.fault == InputExhausted
  {
    if s.inputs == [] then Halted(s, InputExhausted)
    else Ok(s.(inputs := s.inputs[1..]), s.inputs[0])
  }

  /** The decoded inbox is the frames decoded receive by receive: the `k`-th receive
      yields `parse_message` of the `k`-th frame, and of "" once the script is over. */
  lemma DecodeReceives(frames: seq<string>, k: nat)
    ensures ReplyAt(Decode(frames), k) == ParseMessage(FrameAt(frames, k))
  {
    if k >= |frames| {
      assert Count("", Delimiter) == 0;
    }
  }

  /** A frame the server encoded from a command of its own and data without trailing
      whitespace is received as exactly that message. */
  lemma ReceiveDelivered(frames: seq<string>, k: nat, cmd: string, data: string)
    requires cmd in S2COrders && |data| <= MaxDataLength && !EndsInSpace(data)
    requires k < |frames| && Some(frames[k]) == BuildMessage(cmd, data)
    ensures ReplyAt(Decode(frames), k) == Some(Message(cmd, data))
  {
    ServerCommandsFit(cmd);
    CommandNameClean(cmd);
    RoundTrip(cmd, data);
  }

  // ---------------------------------------------------------------------------
  // Logging in
  // ---------------------------------------------------------------------------

  /** The LOGIN request for one credential pair: data `username#password`. */
  function LoginRequest(username: string, password: string): Message {
    Message("LOGIN", JoinData([username, password]))
  }

  /** The LOGIN requests for the first `n` credential pairs the operator types. */
  function LoginRequests(inputs: seq<string>, n: nat): (r: seq<Message>)
    requires 2 * n <= |inputs|
    ensures |r| == n
    ensures forall k :: 0 <= k < n ==> r[k].cmd == "LOGIN"
  {
    if n == 0 then [] else [LoginRequest(inputs[0], inputs[1])] + LoginRequests(inputs[2..], n - 1)
  }

  /** `t` is `s` after `n` login attempts: the requests for the first `n` credential pairs
      were sent, in order, and `n` replies were taken off the connection. */
  predicate LoginLog(s: Session, t: Session, n: nat) {
    2 * n <= |s.inputs| && t.sent == s.sent + LoginRequests(s.inputs, n) && t.inbox == Drop(s.inbox, n)
  }

  /** The position in the script of the first reply that accepts a login, if there is one. */
  function FirstLoginOk(inbox: seq<Option<Message>>): (r: Option<nat>)
    ensures r.Some? ==> r.value < |inbox|
  {
    if inbox == [] then None
    else if Carries(inbox[0], "LOGIN_OK") then Some(0)
    else
      match FirstLoginOk(inbox[1..])
      case None => None
      case Some(i) => Some(i + 1)
  }

  /** One pass of the login loop: two lines from the operator, one LOGIN request carrying
      them, one reply. The value says whether the reply accepted the login. */
  function LoginAttempt(s: Session): (o: Outcome<bool>)
    ensures o.Ok? ==> 2 <= |s.inputs|
                      && o.s == s.(inputs := s.inputs[2..],
                                   sent := s.sent + [LoginRequest(s.inputs[0], s.inputs[1])],
                                   inbox := Drop(s.inbox, 1))
                      && Fits(LoginRequest(s.inputs[0], s.inputs[1]))
                      && (o.value <==> Carries(ReplyAt(s.inbox, 0), "LOGIN_OK"))
    ensures o.Halted? && o.fault == InputExhausted ==> |s.inputs| < 2 && o.s == s.(inputs := [])
    ensures o.Halted? && o.fault != InputExhausted ==>
              o.fault == EncodeRejected && 2 <= |s.inputs| && o.s == s.(inputs := s.inputs[2..])
              && CredentialsTooLong(s.inputs[0], s.inputs[1])
  {
    match Input(s)
    case Halted(t, f) => Halted(t, f)
    case Ok(s1, username) =>
      match Input(s1)
      case Halted(t, f) => Halted(t, f)
      case Ok(s2, password) =>
        assert s.inputs[2..] == s2.inputs;
        JoinPairLength(username, password);
        match Exchange(s2, "LOGIN", JoinData([username, password]))
        case Halted(t, f) => Halted(t, f)
        case Ok(s3, reply) => Ok(s3, reply.Some? && reply.value.cmd == "LOGIN_OK")
  }

  /** `login`: asks for a username and a password, sends them as one LOGIN request and reads
      one reply, until a reply carries LOGIN_OK. Any other reply, the error pair included,
      starts another attempt. The value is the number of attempts; `LoginAccepted` and `LoginStopped` state
      which requests were sent and which replies were read. */
  function Login(s: Session): (o: Outcome<nat>)
    ensures o.Ok? ==> 1 <= o.value && o.s.phase == Authenticated
    ensures o.Halted? ==> o.s.phase == s.phase && o.fault != ShortQuestion
    decreases |s.inputs|
  {
    match LoginAttempt(s)
    case Halted(t, f) => Halted(t, f)
    case Ok(s3, accepted) =>
      if accepted then Ok(s3.(phase := Authenticated), 1)
      else
        match Login(s3)
        case Halted(t, f) => Halted(t, f)
        case Ok(t, n) => Ok(t, n + 1)
  }

  /** A successful `login` made one attempt more than the position of the first reply
      carrying LOGIN_OK, each attempt one LOGIN request with the next credential pair and
      one reply read. */
  lemma {:induction false} LoginAccepted(s: Session, o: Outcome<nat>)
    requires o == Login(s) && o.Ok?
    ensures FirstLoginOk(s.inbox) == Some(o.value - 1)
    ensures LoginLog(s, o.s, o.value) && o.s.inputs == s.inputs[2 * o.value..]
    decreases |s.inputs|, 1
  {
    var a := LoginAttempt(s);
    assert a.Ok?;
    if a.value {
      LoginAcceptedFirst(s, a, o);
    } else {
      LoginAcceptedLater(s, a, o);
    }
  }

  /** A first attempt that is accepted ends the login loop. */
  lemma LoginAcceptedFirst(s: Session, a: Outcome<bool>, o: Outcome<nat>)
    requires a == LoginAttempt(s) && a.Ok? && a.value && o == Login(s)
    ensures o == Ok(a.s.(phase := Authenticated), 1)
    ensures FirstLoginOk(s.inbox) == Some(0)
    ensures LoginLog(s, o.s, 1) && o.s.inputs == s.inputs[2..]
  {
    FirstLoginOkHere(s.inbox);
    LoginOnce(s, a.s.(phase := Authenticated));
  }

  /** After a rejected first attempt, a successful `login` is one attempt longer than the
      login that starts from the next credential pair and the next reply. */
  lemma {:induction false} LoginAcceptedLater(s: Session, a: Outcome<bool>, o: Outcome<nat>)
    requires a == LoginAttempt(s) && a.Ok? && !a.value && o == Login(s) && o.Ok?
    ensures FirstLoginOk(s.inbox) == Some(o.value - 1)
    ensures LoginLog(s, o.s, o.value) && o.s.inputs == s.inputs[2 * o.value..]
    decreases |s.inputs|, 0
  {
    var s3 := a.s;
    var o3 := Login(s3);
    assert o3.Ok? && o == Ok(o3.s, o3.value + 1);
    LoginAccepted(s3, o3);
    AcceptedLater(s, s3, o3, o);
  }

  /** Acceptance after `n` attempts from the next credential pair and the next reply, which
      rejected the login, is acceptance after `n + 1` attempts from this one. */
  lemma AcceptedLater(s: Session, s3: Session, o3: Outcome<nat>, o: Outcome<nat>)
    requires 2 <= |s.inputs| && s3.inputs == s.inputs[2..]
    requires s3.sent == s.sent + [LoginRequest(s.inputs[0], s.inputs[1])]
    requires s3.inbox == Drop(s.inbox, 1) && !Carries(ReplyAt(s.inbox, 0), "LOGIN_OK")
    requires o3.Ok? && o == Ok(o3.s, o3.value + 1)
    requires FirstLoginOk(s3.inbox) == Some(o3.value - 1)
    requires LoginLog(s3, o3.s, o3.value) && o3.s.inputs == s3.inputs[2 * o3.value..]
    ensures FirstLoginOk(s.inbox) == Some(o.value - 1)
    ensures LoginLog(s, o.s, o.value) && o.s.inputs == s.inputs[2 * o.value..]
  {
    FirstLoginOkLater(s.inbox);
    LoginStep(s, s3, o3.s, o3.value);
    InputsStep(s.inputs, s3.inputs, o3.s.inputs, o3.value);
  }

  /** The operator typed a username and a password whose LOGIN request is too long to encode. */
  predicate CredentialsTooLong(username: string, password: string) {
    |username| + 1 + |password| > MaxDataLength
  }

  /** `t` is `s` after `n` attempts of `login`, stopped by `fault` before the next request:
      the operator's input ran out within the next credential pair, or that pair was read
      but its LOGIN request is too long to encode. */
  predicate StoppedAfter(s: Session, t: Session, fault: Fault, n: nat) {
    LoginLog(s, t, n)
    && (fault == InputExhausted ==> t.inputs == [] && |s.inputs| < 2 * n + 2)
    && (fault == EncodeRejected ==>
          2 * n + 2 <= |s.inputs| && t.inputs == s.inputs[2 * n + 2..]
          && CredentialsTooLong(s.inputs[2 * n], s.inputs[2 * n + 1]))
  }

  /** A `login` that stops early has read no reply carrying LOGIN_OK, and stopped because
      the operator's input ran out or the next credential pair was too long to encode. */
  lemma {:induction false} LoginStopped(s: Session, o: Outcome<nat>)
    requires o == Login(s) && o.Halted?
    ensures |s.sent| <= |o.s.sent| && StoppedAfter(s, o.s, o.fault, |o.s.sent| - |s.sent|)
    ensures FirstLoginOk(s.inbox).Some? ==> |o.s.sent| - |s.sent| <= FirstLoginOk(s.inbox).value
    decreases |s.inputs|, 1
  {
    var a := LoginAttempt(s);
    if a.Halted? {
      LoginStoppedFirst(s, a, o);
    } else {
      LoginStoppedLater(s, a, o);
    }
  }

  /** A first attempt that cannot be sent stops `login` with nothing sent. */
  lemma LoginStoppedFirst(s: Session, a: Outcome<bool>, o: Outcome<nat>)
    requires a == LoginAttempt(s) && a.Halted? && o == Login(s)
    ensures o == Halted(a.s, a.fault) && |o.s.sent| == |s.sent|
    ensures StoppedAfter(s, o.s, o.fault, 0)
  {
    assert o == Halted(a.s, a.fault);
    LoginNone(s, a.s);
    if a.fault == EncodeRejected {
      assert s.inputs[0..][2..] == s.inputs[2..];
    }
  }

  /** After a rejected first attempt, a `login` that stops is one attempt longer than the
      one that starts from the next credential pair and the next reply. */
  lemma {:induction false} LoginStoppedLater(s: Session, a: Outcome<bool>, o: Outcome<nat>)
    requires a == LoginAttempt(s) && a.Ok? && o == Login(s) && o.Halted?
    ensures |s.sent| <= |o.s.sent| && StoppedAfter(s, o.s, o.fault, |o.s.sent| - |s.sent|)
    ensures FirstLoginOk(s.inbox).Some? ==> |o.s.sent| - |s.sent| <= FirstLoginOk(s.inbox).value
    decreases |s.inputs|, 0
  {
    var s3 := a.s;
    assert !a.value;
    var o3 := Login(s3);
    assert o == o3;
    LoginStopped(s3, o3);
    StoppedLater(s, s3, o);
  }

  /** A stop after the attempts from the next credential pair and the next reply, which
      rejected the login, is a stop after one more attempt from this one. */
  lemma StoppedLater(s: Session, s3: Session, o: Outcome<nat>)
    requires 2 <= |s.inputs| && s3.inputs == s.inputs[2..]
    requires s3.sent == s.sent + [LoginRequest(s.inputs[0], s.inputs[1])]
    requires s3.inbox == Drop(s.inbox, 1) && !Carries(ReplyAt(s.inbox, 0), "LOGIN_OK")
    requires o.Halted? && |s3.sent| <= |o.s.sent| && StoppedAfter(s3, o.s, o.fault, |o.s.sent| - |s3.sent|)
    requires FirstLoginOk(s3.inbox).Some? ==> |o.s.sent| - |s3.sent| <= FirstLoginOk(s3.inbox).value
    ensures |s.sent| <= |o.s.sent| && StoppedAfter(s, o.s, o.fault, |o.s.sent| - |s.sent|)
    ensures FirstLoginOk(s.inbox).Some? ==> |o.s.sent| - |s.sent| <= FirstLoginOk(s.inbox).value
  {
    var m := |o.s.sent| - |s3.sent|;
    FirstLoginOkLater(s.inbox);
    LoginStep(s, s3, o.s, m);
    StoppedStep(s, s3, o.s, o.fault, m);
  }

  /** Stopping after `n` attempts from the next credential pair is stopping after `n + 1`
      attempts from this one. */
  lemma StoppedStep(s: Session, s3: Session, t: Session, fault: Fault, n: nat)
    requires 2 <= |s.inputs| && s3.inputs == s.inputs[2..]
    requires LoginLog(s, t, n + 1) && StoppedAfter(s3, t, fault, n)
    ensures StoppedAfter(s, t, fault, n + 1)
  {
    if fault == EncodeRejected {
      InputsStep(s.inputs, s3.inputs, t.inputs, n + 1);
      assert s3.inputs[2 * n] == s.inputs[2 * n + 2];
      assert s3.inputs[2 * n + 1] == s.inputs[2 * n + 3];
    }
  }

  /** An accepting first reply is the first accepting reply. */
  lemma FirstLoginOkHere(inbox: seq<Option<Message>>)
    requires Carries(ReplyAt(inbox, 0), "LOGIN_OK")
    ensures FirstLoginOk(inbox) == Some(0)
  {
  }

  /** Past a rejecting first reply, the first accepting reply is one further on. */
  lemma FirstLoginOkLater(inbox: seq<Option<Message>>)
    requires !Carries(ReplyAt(inbox, 0), "LOGIN_OK")
    ensures FirstLoginOk(inbox).Some? <==> FirstLoginOk(Drop(inbox, 1)).Some?
    ensures FirstLoginOk(inbox).Some? ==> FirstLoginOk(inbox).value == FirstLoginOk(Drop(inbox, 1)).value + 1
  {
  }

  /** `username#password` is one character longer than the two parts. */
  lemma JoinPairLength(username: string, password: string)
    ensures |JoinData([username, password])| == |username| + 1 + |password|
  {
    JoinCons(username, [password], DataDelimiter);
    assert [username] + [password] == [username, password];
  }

  /** Stopping before any request leaves an empty attempt log. */
  lemma LoginNone(s: Session, t: Session)
    requires t.sent == s.sent && t.inbox == s.inbox
    ensures LoginLog(s, t, 0)
  {
    assert s.sent + LoginRequests(s.inputs, 0) == s.sent;
  }

  /** A single attempt is the log of one attempt. */
  lemma LoginOnce(s: Session, t: Session)
    requires 2 <= |s.inputs|
    requires t.sent == s.sent + [LoginRequest(s.inputs[0], s.inputs[1])] && t.inbox == Drop(s.inbox, 1)
    ensures LoginLog(s, t, 1)
  {
    assert LoginRequests(s.inputs, 1) == [LoginRequest(s.inputs[0], s.inputs[1])];
  }

  /** Reading two lines and then `2 * n` more reads `2 * (n + 1)`. */
  lemma InputsStep(a: seq<string>, b: seq<string>, c: seq<string>, n: nat)
    requires 2 <= |a| && b == a[2..] && 2 * n <= |b| && c == b[2 * n..]
    ensures c == a[2 * (n + 1)..]
  {
  }

  /** One rejected attempt followed by `n` more is `n + 1` attempts. */
  lemma LoginStep(s: Session, s3: Session, t: Session, n: nat)
    requires 2 <= |s.inputs| && s3.inputs == s.inputs[2..]
    requires s3.sent == s.sent + [LoginRequest(s.inputs[0], s.inputs[1])]
    requires s3.inbox == Drop(s.inbox, 1)
    requires LoginLog(s3, t, n)
    ensures LoginLog(s, t, n + 1)
  {
    DropDrop(s.inbox, 1, n);
    assert LoginRequests(s.inputs, n + 1)
        == [LoginRequest(s.inputs[0], s.inputs[1])] + LoginRequests(s3.inputs, n);
  }

  /** The `k`-th credential pair the operator types is short enough to encode. */
  predicate PairFits(inputs: seq<string>, k: nat)
    requires 2 * k + 1 < |inputs|
  {
    !CredentialsTooLong(inputs[2 * k], inputs[2 * k + 1])
  }

  /** Given enough credential pairs, each short enough to encode, `login` reaches the first
      reply that carries LOGIN_OK and stops there. */
  lemma {:induction false} LoginReaches(s: Session, i: nat, o: Outcome<nat>)
    requires o == Login(s)
    requires FirstLoginOk(s.inbox) == Some(i) && 2 * (i + 1) <= |s.inputs|
    requires forall k :: 0 <= k <= i ==> PairFits(s.inputs, k)
    ensures o.Ok? && o.value == i + 1
    decreases i
  {
    assert PairFits(s.inputs, 0);
    match LoginAttempt(s)
    case Halted(_, f) =>
      assert false;
    case Ok(s3, accepted) =>
      if !accepted {
        ReachesLater(s, s3, i);
        var o3 := Login(s3);
        LoginReaches(s3, i - 1, o3);
        assert LoginAttempt(s) == Ok(s3, false);
        assert o == Ok(o3.s, o3.value + 1);
      } else {
        FirstLoginOkHere(s.inbox);
        assert o == Ok(s3.(phase := Authenticated), 1);
      }
  }

  /** Past a rejecting reply, the first accepting reply and the fitting pairs that lead
      to it are one attempt nearer. */
  lemma ReachesLater(s: Session, s3: Session, i: nat)
    requires 2 <= |s.inputs| && s3.inputs == s.inputs[2..]
    requires s3.inbox == Drop(s.inbox, 1) && !Carries(ReplyAt(s.inbox, 0), "LOGIN_OK")
    requires FirstLoginOk(s.inbox) == Some(i) && 2 * (i + 1) <= |s.inputs|
    requires forall k :: 0 <= k <= i ==> PairFits(s.inputs, k)
    ensures i >= 1 && FirstLoginOk(s3.inbox) == Some(i - 1) && 2 * i <= |s3.inputs|
    ensures forall k :: 0 <= k <= i - 1 ==> PairFits(s3.inputs, k)
  {
    FirstLoginOkLater(s.inbox);
    PairsFitLater(s.inputs, s3.inputs, i - 1);
  }

  /** Once the first credential pair is read, the remaining pairs are the later ones. */
  lemma PairsFitLater(inputs: seq<string>, rest: seq<string>, i: nat)
    requires 2 <= |inputs| && rest == inputs[2..] && 2 * (i + 1) <= |rest|
    requires forall k :: 0 <= k <= i + 1 ==> PairFits(inputs, k)
    ensures forall k :: 0 <= k <= i ==> PairFits(rest, k)
  {
    forall k | 0 <= k <= i
      ensures PairFits(rest, k)
    {
      assert PairFits(inputs, k + 1);
      assert rest[2 * k] == inputs[2 * (k + 1)];
      assert rest[2 * k + 1] == inputs[2 * (k + 1) + 1];
    }
  }

  // ---------------------------------------------------------------------------
  // Logging out and the three queries
  // ---------------------------------------------------------------------------

  /** `logout`: one LOGOUT request with empty data; no reply is read. */
  function Logout(s: Session): (t: Session)
    ensures t.sent == s.sent + [Message("LOGOUT", "")]
    ensures t.inbox == s.inbox && t.inputs == s.inputs && t.phase == Terminated
  {
    Send(s, "LOGOUT", "").s.(phase := Terminated)
  }

  /** The shared shape of `get_score`, `get_highscore` and `get_logged_users`: one request
      with empty data and one reply, whose data is used only when the reply carries
      `expected`. */
  function Query(s: Session, request: string, expected: string): (o: Outcome<Option<string>>)
    requires |request| <= CmdFieldLength
    ensures o.Ok? && o.s == s.(sent := s.sent + [Message(request, "")], inbox := Drop(s.inbox, 1))
    ensures o.value.Some? <==> Carries(ReplyAt(s.inbox, 0), expected)
    ensures o.value.Some? ==> Some(Message(expected, o.value.value)) == ReplyAt(s.inbox, 0)
  {
    var e := Exchange(s, request, "");
    Ok(e.s, if Carries(e.value, expected) then Some(e.value.value.data) else None)
  }

  /** `get_score`: MY_SCORE, answered by YOUR_SCORE with the score. */
  function GetScore(s: Session): (o: Outcome<Option<string>>)
    ensures o.Ok? && o.s == s.(sent := s.sent + [Message("MY_SCORE", "")], inbox := Drop(s.inbox, 1))
    ensures o.value.Some? <==> Carries(ReplyAt(s.inbox, 0), "YOUR_SCORE")
    ensures o.value.Some? ==> Some(Message("YOUR_SCORE", o.value.value)) == ReplyAt(s.inbox, 0)
  {
    Query(s, "MY_SCORE", "YOUR_SCORE")
  }

  /** `get_logged_users`: LOGGED, answered by LOGGED_ANSWER with the list of users. */
  function GetLoggedUsers(s: Session): (o: Outcome<Option<string>>)
    ensures o.Ok? && o.s == s.(sent := s.sent + [Message("LOGGED", "")], inbox := Drop(s.inbox, 1))
    ensures o.value.Some? <==> Carries(ReplyAt(s.inbox, 0), "LOGGED_ANSWER")
    ensures o.value.Some? ==> Some(Message("LOGGED_ANSWER", o.value.value)) == ReplyAt(s.inbox, 0)
  {
    Query(s, "LOGGED", "LOGGED_ANSWER")
  }

  /** `get_highscore`: HIGHSCORE, answered by ALL_SCORE with a table that is shown line by
      line. The value is those lines. */
  function GetHighscore(s: Session): (o: Outcome<Option<seq<string>>>)
    ensures o.Ok? && o.s == s.(sent := s.sent + [Message("HIGHSCORE", "")], inbox := Drop(s.inbox, 1))
    ensures o.value.Some? <==> Carries(ReplyAt(s.inbox, 0), "ALL_SCORE")
    ensures o.value.Some? ==> Some(Message("ALL_SCORE", Join(o.value.value, '\n')))
                              == ReplyAt(s.inbox, 0)
    ensures o.value.Some? ==> forall k :: 0 <= k < |o.value.value| ==> '\n' !in o.value.value[k]
    ensures o.value.Some? ==> |o.value.value| == Count(ReplyAt(s.inbox, 0).value.data, '\n') + 1
  {
    var q := Query(s, "HIGHSCORE", "ALL_SCORE");
    Ok(q.s, if q.value.Some? then Some(Split(q.value.value, '\n')) else None)
  }

  /** A reply the server encoded from the expected command and data without trailing
      whitespace delivers exactly that data to a query. */
  lemma QueryDelivered(s: Session, request: string, expected: string, frame: string, data: string)
    requires |request| <= CmdFieldLength
    requires expected in S2COrders && |data| <= MaxDataLength && !EndsInSpace(data)
    requires Some(frame) == BuildMessage(expected, data)
    requires s.inbox != [] && s.inbox[0] == ParseMessage(frame)
    ensures Query(s, request, expected).value == Some(data)
  {
    ReceiveDelivered([frame], 0, expected, data);
  }

  /** A reply carrying any other command is ignored. */
  lemma QueryIgnored(s: Session, request: string, expected: string, other: string, frame: string, data: string)
    requires |request| <= CmdFieldLength
    requires other in S2COrders && other != expected
    requires |data| <= MaxDataLength && !EndsInSpace(data)
    requires Some(frame) == BuildMessage(other, data)
    requires s.inbox != [] && s.inbox[0] == ParseMessage(frame)
    ensures Query(s, request, expected).value == None
  {
    ReceiveDelivered([frame], 0, other, data);
  }

  // ---------------------------------------------------------------------------
  // Playing a question
  // ---------------------------------------------------------------------------

  /** A question as shown to the operator: its id, its text and four possible answers. */
  datatype Question = Question(id: string, text: string, answers: seq<string>)

  /** `show_question`: the question data is `id#text#answer1#answer2#answer3#answer4`;
      the value is `None` when there are fewer than six fields, where the source fails
      with an IndexError. Further fields are ignored. */
  function ShowQuestion(questData: string): (r: Option<Question>)
    ensures r.Some? <==> Count(questData, DataDelimiter) >= 5
    ensures r.Some? ==> |r.value.answers| == 4 && DataDelimiter !in r.value.id
    ensures r.Some? ==> r.value.id + [DataDelimiter] <= questData
  {
    var fields := SplitData(questData);
    if |fields| < 6 then None
    else
      JoinFirst(fields, DataDelimiter);
      Some(Question(fields[0], fields[1], fields[2..6]))
  }

  /** Six or more `#`-free fields joined by `#` are shown as the first six. */
  lemma ShowQuestionOfFields(fields: seq<string>)
    requires |fields| >= 6
    requires forall k :: 0 <= k < |fields| ==> DataDelimiter !in fields[k]
    ensures ShowQuestion(JoinData(fields)) == Some(Question(fields[0], fields[1], fields[2..6]))
  {
    SplitJoinData(fields);
  }

  /** How a round of `play_question` ends. */
  datatype RoundEnd =
    | NoQuestion                  // the reply to GET_QUESTION was not YOUR_QUESTION
    | Correct(score: Option<string>)  // CORRECT_ANSWER; the data of the MY_SCORE reply
    | Wrong(answer: string)       // WRONG_ANSWER with the right answer
    | GameOver                    // NO_QUESTIONS
    | Unrecognised                // any other reply to the answer

  /** The SEND_ANSWER request for a question id and the operator's answer: `id#answer`. */
  function AnswerRequest(id: string, answer: string): Message {
    Message("SEND_ANSWER", id + [DataDelimiter] + answer)
  }

  /** `play_question`: GET_QUESTION; on YOUR_QUESTION the question is shown, the operator
      types an answer and SEND_ANSWER carries `id#answer`; on CORRECT_ANSWER the score is
      fetched with one more MY_SCORE. Any other reply to GET_QUESTION ends the round. */
  function PlayQuestion(s: Session): (o: Outcome<RoundEnd>)
    ensures o.s.phase == s.phase && |o.s.inputs| <= |s.inputs|
    ensures !Carries(ReplyAt(s.inbox, 0), "YOUR_QUESTION") ==>
              o == Ok(s.(sent := s.sent + [Message("GET_QUESTION", "")], inbox := Drop(s.inbox, 1)),
                      NoQuestion)
  {
    var q := Exchange(s, "GET_QUESTION", "");
    if !Carries(q.value, "YOUR_QUESTION") then Ok(q.s, NoQuestion)
    else
      match ShowQuestion(q.value.value.data)
      case None => Halted(q.s, ShortQuestion)
      case Some(question) => Answer(q.s, question.id)
  }

  /** The rest of a round once a question with id `id` is shown: the operator's answer is
      sent and the verdict read. */
  function Answer(s: Session, id: string): (o: Outcome<RoundEnd>)
    ensures o.s.phase == s.phase && |o.s.inputs| <= |s.inputs|
    ensures o.Halted? ==> o.s.sent == s.sent && o.s.inbox == s.inbox
    ensures o.Halted? && o.fault == InputExhausted ==> s.inputs == []
    ensures o.Halted? ==> o.fault == InputExhausted || o.fault == EncodeRejected
    ensures o.Halted? && o.fault == EncodeRejected ==>
              s.inputs != [] && !Fits(AnswerRequest(id, s.inputs[0]))
    ensures o.Ok? ==> s.inputs != [] && o.s.inputs == s.inputs[1..]
                      && Fits(AnswerRequest(id, s.inputs[0]))
                      && |s.sent| + 1 <= |o.s.sent| && o.s.sent[|s.sent|] == AnswerRequest(id, s.inputs[0])
                      && Verdict(s.(inputs := s.inputs[1..],
                                    sent := s.sent + [AnswerRequest(id, s.inputs[0])],
                                    inbox := Drop(s.inbox, 1)),
                                 ReplyAt(s.inbox, 0)) == o
  {
    match Input(s)
    case Halted(t, f) => Halted(t, f)
    case Ok(s2, answer) =>
      match Exchange(s2, "SEND_ANSWER", id + [DataDelimiter] + answer)
      case Halted(t, f) => Halted(t, f)
      case Ok(s3, verdict) => Verdict(s3, verdict)
  }

  /** The end of a round once the verdict on the answer is read. */
  function Verdict(s: Session, verdict: Option<Message>): (o: Outcome<RoundEnd>)
    ensures o.Ok? && o.s.phase == s.phase && o.s.inputs == s.inputs && o.value != NoQuestion
    ensures o.value.Correct? <==> Carries(verdict, "CORRECT_ANSWER")
    ensures o.value.Correct? ==>
              o.s == s.(sent := s.sent + [Message("MY_SCORE", "")], inbox := Drop(s.inbox, 1))
              && o.value.score == ReplyData(s.inbox, 0)
    ensures !o.value.Correct? ==> o.s == s
    ensures o.value.Wrong? <==> Carries(verdict, "WRONG_ANSWER")
    ensures o.value.Wrong? ==> o.value.answer == verdict.value.data
    ensures o.value.GameOver? <==> Carries(verdict, "NO_QUESTIONS")
  {
    if Carries(verdict, "CORRECT_ANSWER") then
      var score := Exchange(s, "MY_SCORE", "");
      Ok(score.s, Correct(if score.value.Some? then Some(score.value.value.data) else None))
    else if Carries(verdict, "WRONG_ANSWER") then Ok(s, Wrong(verdict.value.data))
    else if Carries(verdict, "NO_QUESTIONS") then Ok(s, GameOver)
    else Ok(s, Unrecognised)
  }

  /** The data of the `k`-th next reply, when it decodes. */
  function ReplyData(inbox: seq<Option<Message>>, k: nat): Option<string> {
    match ReplyAt(inbox, k)
    case None => None
    case Some(m) => Some(m.data)
  }

  /** `id` is the id of question data `d`: the text before its first `#`. */
  predicate IsQuestionId(d: string, id: string) {
    DataDelimiter !in id && id + [DataDelimiter] <= d
  }

  /** From `s` to `t` one reply was read for each request sent. */
  predicate OneReplyEach(s: Session, t: Session) {
    |s.sent| <= |t.sent| && t.inbox == Drop(s.inbox, |t.sent| - |s.sent|)
  }

  /** The session once GET_QUESTION is sent and its reply read. */
  function Asked(s: Session): Session {
    s.(sent := s.sent + [Message("GET_QUESTION", "")], inbox := Drop(s.inbox, 1))
  }

  /** After a YOUR_QUESTION reply the round stops on question data with fewer than six
      fields, and otherwise goes on to the answer for the question's id. */
  lemma {:induction false} PlayQuestionShown(s: Session, o: Outcome<RoundEnd>)
    requires o == PlayQuestion(s) && Carries(ReplyAt(s.inbox, 0), "YOUR_QUESTION")
    ensures Count(ReplyData(s.inbox, 0).value, DataDelimiter) < 5 ==> o == Halted(Asked(s), ShortQuestion)
    ensures Count(ReplyData(s.inbox, 0).value, DataDelimiter) >= 5 ==>
              IsQuestionId(ReplyData(s.inbox, 0).value, ShowQuestion(ReplyData(s.inbox, 0).value).value.id)
              && o == Answer(Asked(s), ShowQuestion(ReplyData(s.inbox, 0).value).value.id)
  {
    var q := Exchange(s, "GET_QUESTION", "");
    assert q.s == Asked(s);
    assert q.value.value.data == ReplyData(s.inbox, 0).value;
  }

  /** What one round sends and reads. GET_QUESTION always goes first. SEND_ANSWER, with the
      question's id and the operator's next line, follows only a YOUR_QUESTION reply with
      at least six fields. MY_SCORE follows only a CORRECT_ANSWER verdict. Every request
      sent has exactly one reply read. */
  lemma {:induction false} PlayQuestionRequests(s: Session, o: Outcome<RoundEnd>)
    requires o == PlayQuestion(s)
    ensures |s.sent| < |o.s.sent| <= |s.sent| + 3 && o.s.sent[..|s.sent|] == s.sent
    ensures o.s.sent[|s.sent|] == Message("GET_QUESTION", "")
    ensures OneReplyEach(s, o.s)
    ensures o.s.inputs == s.inputs || (s.inputs != [] && o.s.inputs == s.inputs[1..])
    ensures |o.s.sent| >= |s.sent| + 2 ==>
              Carries(ReplyAt(s.inbox, 0), "YOUR_QUESTION") && s.inputs != []
              && exists id :: IsQuestionId(ReplyData(s.inbox, 0).value, id)
                              && o.s.sent[|s.sent| + 1] == AnswerRequest(id, s.inputs[0])
    ensures |o.s.sent| >= |s.sent| + 2 ==> Fits(o.s.sent[|s.sent| + 1])
    ensures |o.s.sent| == |s.sent| + 3 ==> o.s.sent[|s.sent| + 2] == Message("MY_SCORE", "")
    ensures |o.s.sent| >= |s.sent| + 2 <==> o.Ok? && !o.value.NoQuestion?
    ensures |o.s.sent| == |s.sent| + 3 <==> o.Ok? && o.value.Correct?
  {
    if !Carries(ReplyAt(s.inbox, 0), "YOUR_QUESTION") {
      assert o == Ok(Asked(s), NoQuestion);
      assert |o.s.sent| - |s.sent| == 1;
      assert OneReplyEach(s, o.s);
    } else {
      PlayQuestionShown(s, o);
      var d := ReplyData(s.inbox, 0).value;
      if Count(d, DataDelimiter) < 5 {
        assert o == Halted(Asked(s), ShortQuestion);
        assert |o.s.sent| - |s.sent| == 1;
        assert OneReplyEach(s, o.s);
      } else {
        var id := ShowQuestion(d).value.id;
        var a := Answer(Asked(s), id);
        assert o == a;
        if a.Halted? {
          assert o.s.sent == Asked(s).sent && o.s.inbox == Asked(s).inbox;
          assert |o.s.sent| - |s.sent| == 1;
          assert OneReplyEach(s, o.s);
        } else {
          AnswerRequests(s, id, o);
        }
      }
    }
  }

  /** Once the question is shown and the answer sent, the round sends MY_SCORE after a
      CORRECT_ANSWER verdict and nothing more otherwise, reading one reply per request. */
  lemma AnswerRequests(s: Session, id: string, o: Outcome<RoundEnd>)
    requires o == Answer(Asked(s), id) && o.Ok?
    ensures s.inputs != [] && o.s.inputs == s.inputs[1..]
    ensures |o.s.sent| == |s.sent| + (if o.value.Correct? then 3 else 2)
    ensures o.s.sent[..|s.sent|] == s.sent
    ensures o.s.sent[|s.sent|] == Message("GET_QUESTION", "")
    ensures o.s.sent[|s.sent| + 1] == AnswerRequest(id, s.inputs[0])
    ensures o.value.Correct? ==> o.s.sent[|s.sent| + 2] == Message("MY_SCORE", "")
    ensures Fits(AnswerRequest(id, s.inputs[0]))
    ensures OneReplyEach(s, o.s)
  {
    assert Asked(s).inputs == s.inputs;
    var s3 := Asked(s).(inputs := s.inputs[1..],
                        sent := s.sent + [Message("GET_QUESTION", ""), AnswerRequest(id, s.inputs[0])],
                        inbox := Drop(s.inbox, 2));
    DropDrop(s.inbox, 1, 1);
    assert Asked(s).sent + [AnswerRequest(id, s.inputs[0])] == s3.sent;
    assert o == Verdict(s3, ReplyAt(Drop(s.inbox, 1), 0));
    if o.value.Correct? {
      DropDrop(s.inbox, 2, 1);
      assert o.s.sent == s3.sent + [Message("MY_SCORE", "")];
      assert OneReplyEach(s, o.s);
    } else {
      assert o.s == s3;
      assert OneReplyEach(s, o.s);
    }
  }

  /** Question data has one id at most. */
  lemma QuestionIdUnique(d: string, a: string, b: string)
    requires IsQuestionId(d, a) && IsQuestionId(d, b)
    ensures a == b
  {
    assert d[|a|] == (a + [DataDelimiter])[|a|] == DataDelimiter;
    assert d[|b|] == (b + [DataDelimiter])[|b|] == DataDelimiter;
    assert forall j :: 0 <= j < |a| ==> d[j] == a[j];
    assert forall j :: 0 <= j < |b| ==> d[j] == b[j];
    assert a == d[..|a|] && b == d[..|b|];
  }

  /** The round gets as far as sending an answer: the first reply is a YOUR_QUESTION whose
      data has six fields or more, the operator types a line, and the SEND_ANSWER request
      carrying it fits. */
  ghost predicate AnswerSent(s: Session) {
    Carries(ReplyAt(s.inbox, 0), "YOUR_QUESTION")
    && Count(ReplyData(s.inbox, 0).value, DataDelimiter) >= 5
    && s.inputs != []
    && exists id :: IsQuestionId(ReplyData(s.inbox, 0).value, id) && Fits(AnswerRequest(id, s.inputs[0]))
  }

  /** How the replies decide the end of a round: no question unless the first reply is
      YOUR_QUESTION; a fault when the question is short, the operator's input has ended or
      the answer does not fit; otherwise the verdict in the second reply, with the score
      from the third after CORRECT_ANSWER. */
  lemma {:induction false} PlayQuestionOutcome(s: Session, o: Outcome<RoundEnd>)
    requires o == PlayQuestion(s)
    ensures (o.Ok? && o.value.NoQuestion?) <==> !Carries(ReplyAt(s.inbox, 0), "YOUR_QUESTION")
    ensures (o.Halted? && o.fault == ShortQuestion) <==>
              Carries(ReplyAt(s.inbox, 0), "YOUR_QUESTION")
              && Count(ReplyData(s.inbox, 0).value, DataDelimiter) < 5
    ensures (o.Halted? && o.fault == InputExhausted) <==>
              Carries(ReplyAt(s.inbox, 0), "YOUR_QUESTION")
              && Count(ReplyData(s.inbox, 0).value, DataDelimiter) >= 5 && s.inputs == []
    ensures (o.Ok? && !o.value.NoQuestion?) <==> AnswerSent(s)
    ensures (o.Ok? && o.value.Correct?) <==> AnswerSent(s) && Carries(ReplyAt(s.inbox, 1), "CORRECT_ANSWER")
    ensures o.Ok? && o.value.Correct? ==> o.value.score == ReplyData(s.inbox, 2)
    ensures (o.Ok? && o.value.Wrong?) <==> AnswerSent(s) && Carries(ReplyAt(s.inbox, 1), "WRONG_ANSWER")
    ensures o.Ok? && o.value.Wrong? ==> ReplyData(s.inbox, 1) == Some(o.value.answer)
    ensures (o.Ok? && o.value.GameOver?) <==> AnswerSent(s) && Carries(ReplyAt(s.inbox, 1), "NO_QUESTIONS")
  {
    if Carries(ReplyAt(s.inbox, 0), "YOUR_QUESTION") {
      PlayQuestionShown(s, o);
      var d := ReplyData(s.inbox, 0).value;
      if Count(d, DataDelimiter) >= 5 {
        var id := ShowQuestion(d).value.id;
        if s.inputs != [] {
          forall other | IsQuestionId(d, other)
            ensures other == id
          {
            QuestionIdUnique(d, other, id);
          }
          if Fits(AnswerRequest(id, s.inputs[0])) {
            assert AnswerSent(s);
            var s3 := Asked(s).(inputs := s.inputs[1..],
                                sent := Asked(s).sent + [AnswerRequest(id, s.inputs[0])],
                                inbox := Drop(s.inbox, 2));
            DropDrop(s.inbox, 1, 1);
            ReplyAtDrop(s.inbox, 1, 0);
            ReplyAtDrop(s.inbox, 2, 0);
            assert o == Verdict(s3, ReplyAt(s.inbox, 1));
          } else {
            assert !AnswerSent(s);
          }
        }
      }
    }
  }

  // ---------------------------------------------------------------------------
  // The menu
  // ---------------------------------------------------------------------------

  /** Every request in `ms` has a command from `cmds` and fits its header fields. */
  predicate AllFrom(ms: seq<Message>, cmds: set<string>) {
    forall i :: 0 <= i < |ms| ==> ms[i].cmd in cmds && Fits(ms[i])
  }

  /** From `s` to `t` requests were only appended, each with a command from `cmds` and
      short enough to encode. */
  predicate Appends(s: Session, t: Session, cmds: set<string>) {
    |s.sent| <= |t.sent| && t.sent[..|s.sent|] == s.sent && AllFrom(t.sent[|s.sent|..], cmds)
  }

  /** The commands a round of `play_question` sends. */
  const RoundCommands: set<string> := {"GET_QUESTION", "SEND_ANSWER", "MY_SCORE"}

  /** The commands the menu's choices send. */
  const MenuCommands: set<string> := {"MY_SCORE", "HIGHSCORE", "LOGGED", "GET_QUESTION", "SEND_ANSWER"}

  /** The menu's choices and the request each one starts with. */
  const MenuRequest: map<string, string> :=
    map["s" := "MY_SCORE", "p" := "GET_QUESTION", "h" := "HIGHSCORE", "l" := "LOGGED"]

  /** A round of `play_question` only appends GET_QUESTION, SEND_ANSWER and MY_SCORE
      requests that fit. */
  lemma PlayQuestionAppends(s: Session, o: Outcome<RoundEnd>)
    requires o == PlayQuestion(s)
    ensures Appends(s, o.s, RoundCommands)
  {
    PlayQuestionRequests(s, o);
    var n := |s.sent|;
    var added := o.s.sent[n..];
    forall i | 0 <= i < |added|
      ensures added[i].cmd in RoundCommands && Fits(added[i])
    {
      RoundRequest(s, o, n + i);
    }
  }

  /** Each request of a round is a GET_QUESTION, SEND_ANSWER or MY_SCORE that fits. */
  lemma RoundRequest(s: Session, o: Outcome<RoundEnd>, i: nat)
    requires o == PlayQuestion(s)
    requires |s.sent| <= i < |o.s.sent|
    ensures o.s.sent[i].cmd in RoundCommands && Fits(o.s.sent[i])
  {
    PlayQuestionRequests(s, o);
    if i == |s.sent| {
      assert o.s.sent[i] == Message("GET_QUESTION", "");
    } else if i == |s.sent| + 1 {
      assert o.s.sent[i].cmd == "SEND_ANSWER";
    } else {
      assert o.s.sent[i] == Message("MY_SCORE", "");
    }
  }

  /** Forgets the value of a step. */
  function Done<T>(o: Outcome<T>): (r: Outcome<()>)
    ensures r.s == o.s && r.Ok? == o.Ok? && (r.Halted? ==> r.fault == o.fault)
  {
    match o
    case Ok(t, _) => Ok(t, ())
    case Halted(t, f) => Halted(t, f)
  }

  /** One choice of the menu in `main`: `s`, `p`, `h` and `l` run the matching operation;
      any other line is ignored. */
  function Dispatch(s: Session, choice: string): (o: Outcome<()>)
    ensures o.s.phase == s.phase && |o.s.inputs| <= |s.inputs|
    ensures o.s.inputs == s.inputs || (choice == "p" && s.inputs != [] && o.s.inputs == s.inputs[1..])
  {
    if choice == "s" then Done(GetScore(s))
    else if choice == "p" then Done(PlayQuestion(s))
    else if choice == "h" then Done(GetHighscore(s))
    else if choice == "l" then Done(GetLoggedUsers(s))
    else Ok(s, ())
  }

  /** A menu choice starts with its request and only appends menu requests that fit,
      reading one reply for each; any other line sends nothing and reads nothing. Only
      a round of questions can stop the client. */
  lemma DispatchRequests(s: Session, choice: string, o: Outcome<()>)
    requires o == Dispatch(s, choice)
    ensures Appends(s, o.s, MenuCommands) && OneReplyEach(s, o.s)
    ensures choice in MenuRequest ==> |s.sent| < |o.s.sent|
                                      && o.s.sent[|s.sent|] == Message(MenuRequest[choice], "")
    ensures choice !in MenuRequest ==> o == Ok(s, ())
    ensures o.Halted? ==> choice == "p"
    ensures choice != "p" ==> o.s.inputs == s.inputs
    ensures o.s.inputs == s.inputs || (s.inputs != [] && o.s.inputs == s.inputs[1..])
    ensures o.Halted? && o.fault == InputExhausted ==> o.s.inputs == []
  {
    if choice == "p" {
      var r := PlayQuestion(s);
      PlayQuestionRequests(s, r);
      PlayQuestionAppends(s, r);
      assert o.s == r.s;
    } else if choice in MenuRequest {
      DropDrop(s.inbox, 0, 1);
      assert o.s.sent == s.sent + [Message(MenuRequest[choice], "")];
      assert o.s.sent[|s.sent|..] == [Message(MenuRequest[choice], "")];
    } else {
      assert o.s.sent[|s.sent|..] == [];
    }
  }

  /** No request was appended. */
  lemma AppendsNone(s: Session, t: Session, cmds: set<string>)
    requires t.sent == s.sent && t.inbox == s.inbox
    ensures Appends(s, t, cmds) && OneReplyEach(s, t)
  {
    assert t.sent[|s.sent|..] == [];
  }

  /** Appending in two steps is appending. */
  lemma AppendsTrans(a: Session, b: Session, c: Session, cmds: set<string>)
    requires Appends(a, b, cmds) && Appends(b, c, cmds)
    ensures Appends(a, c, cmds)
  {
    var x := c.sent[|a.sent|..];
    forall i | 0 <= i < |x|
      ensures x[i].cmd in cmds && Fits(x[i])
    {
      if |a.sent| + i < |b.sent| {
        assert x[i] == c.sent[..|b.sent|][|a.sent| + i] == b.sent[|a.sent|..][i];
      } else {
        assert x[i] == c.sent[|b.sent|..][|a.sent| + i - |b.sent|];
      }
    }
    assert c.sent[..|a.sent|] == c.sent[..|b.sent|][..|a.sent|];
  }

  /** Reading one reply per request in two steps is reading one reply per request. */
  lemma OneReplyEachTrans(a: Session, b: Session, c: Session)
    requires OneReplyEach(a, b) && OneReplyEach(b, c)
    ensures OneReplyEach(a, c)
  {
    DropDrop(a.inbox, |b.sent| - |a.sent|, |c.sent| - |b.sent|);
  }

  /** The menu loop of `main`: reads a choice; `q` sends LOGOUT and ends the loop; every
      other choice is dispatched and the loop goes on. The end of the operator's input
      stops the client. */
  function Menu(s: Session): (o: Outcome<()>)
    ensures o.s.phase == (if o.Ok? then Terminated else s.phase)
    decreases |s.inputs|
  {
    match Input(s)
    case Halted(t, f) => Halted(t, f)
    case Ok(s1, choice) =>
      if choice == "q" then Ok(Logout(s1), ())
      else
        match Dispatch(s1, choice)
        case Halted(t, f) => Halted(t, f)
        case Ok(s2, _) => Menu(s2)
  }

  /** The menu read `q` at some position of `inputs`, and `rest` is what followed it. */
  predicate QuitTyped(inputs: seq<string>, rest: seq<string>) {
    exists k :: 0 <= k < |inputs| && inputs[k] == "q" && rest == inputs[k + 1..]
  }

  /** A `q` read in a suffix of the input was read in the whole input. */
  lemma QuitTypedLater(inputs: seq<string>, tail: seq<string>, rest: seq<string>)
    requires |tail| < |inputs| && tail == inputs[|inputs| - |tail|..]
    requires QuitTyped(tail, rest)
    ensures QuitTyped(inputs, rest)
  {
    var k :| 0 <= k < |tail| && tail[k] == "q" && rest == tail[k + 1..];
    var j := |inputs| - |tail| + k;
    assert inputs[j] == "q" && rest == inputs[j + 1..];
  }

  /** The session `t` without its last request. */
  function Unsend(t: Session): Session
    requires t.sent != []
  {
    t.(sent := t.sent[..|t.sent| - 1])
  }

  /** A log is its prefix without the last request, followed by that request. */
  lemma UnsendLast(t: Session)
    requires t.sent != []
    ensures t.sent == Unsend(t).sent + [t.sent[|t.sent| - 1]]
  {
    assert t.sent == t.sent[..|t.sent| - 1] + [t.sent[|t.sent| - 1]];
  }

  /** The menu appends menu requests that fit, reading one reply for each, and ends with
      one LOGOUT, which reads none, exactly when it ends normally; the operator typed `q`
      then. */
  lemma {:induction false} MenuRequests(s: Session, o: Outcome<()>)
    requires o == Menu(s)
    ensures o.Halted? ==> Appends(s, o.s, MenuCommands) && OneReplyEach(s, o.s)
    ensures o.Halted? && o.fault == InputExhausted ==> o.s.inputs == []
    ensures o.Ok? ==> |s.sent| < |o.s.sent| && o.s.sent[|o.s.sent| - 1] == Message("LOGOUT", "")
                      && Appends(s, Unsend(o.s), MenuCommands) && OneReplyEach(s, Unsend(o.s))
                      && QuitTyped(s.inputs, o.s.inputs)
    ensures s.inputs != [] && s.inputs[0] == "q" ==> o == Ok(Logout(s.(inputs := s.inputs[1..])), ())
    decreases |s.inputs|, 1
  {
    match Input(s)
    case Halted(t, f) =>
      assert o == Halted(s, InputExhausted);
      AppendsNone(s, s, MenuCommands);
    case Ok(s1, choice) =>
      if choice == "q" {
        assert o == Ok(Logout(s1), ());
        MenuQuits(s, s1, o);
      } else {
        var d := Dispatch(s1, choice);
        MenuStep(s, s1, choice, d);
        if d.Ok? {
          assert o == Menu(d.s);
          MenuGoesOn(s, d.s, o);
        } else {
          assert o == d;
        }
      }
  }

  /** Typing `q` sends LOGOUT and nothing else. */
  lemma MenuQuits(s: Session, s1: Session, o: Outcome<()>)
    requires Input(s) == Ok(s1, "q") && o == Ok(Logout(s1), ())
    ensures |s.sent| < |o.s.sent| && o.s.sent[|o.s.sent| - 1] == Message("LOGOUT", "")
    ensures Appends(s, Unsend(o.s), MenuCommands) && OneReplyEach(s, Unsend(o.s))
    ensures QuitTyped(s.inputs, o.s.inputs)
  {
    assert s.inputs[0] == "q" && o.s.inputs == s.inputs[0 + 1..];
    assert Unsend(o.s).sent == s.sent;
    AppendsNone(s, Unsend(o.s), MenuCommands);
  }

  /** One choice other than `q`: the line is read, then the choice only appends menu
      requests with one reply each, and it consumes input from the front. */
  lemma MenuStep(s: Session, s1: Session, choice: string, d: Outcome<()>)
    requires Input(s) == Ok(s1, choice) && d == Dispatch(s1, choice)
    ensures Appends(s, d.s, MenuCommands) && OneReplyEach(s, d.s)
    ensures |d.s.inputs| < |s.inputs| && d.s.inputs == s.inputs[|s.inputs| - |d.s.inputs|..]
    ensures d.Halted? && d.fault == InputExhausted ==> d.s.inputs == []
  {
    DispatchRequests(s1, choice, d);
    AppendsNone(s, s1, MenuCommands);
    AppendsTrans(s, s1, d.s, MenuCommands);
    OneReplyEachTrans(s, s1, d.s);
    if d.s.inputs == s1.inputs {
      assert d.s.inputs == s.inputs[1..];
    } else {
      assert d.s.inputs == s.inputs[1..][1..] == s.inputs[2..];
    }
  }

  /** The menu's requests from `t` on, after requests from `s` to `t` of the same kind. */
  lemma {:induction false} MenuGoesOn(s: Session, t: Session, o: Outcome<()>)
    requires Appends(s, t, MenuCommands) && OneReplyEach(s, t)
    requires |t.inputs| < |s.inputs| && t.inputs == s.inputs[|s.inputs| - |t.inputs|..]
    requires o == Menu(t)
    ensures o.Halted? ==> Appends(s, o.s, MenuCommands) && OneReplyEach(s, o.s)
    ensures o.Halted? && o.fault == InputExhausted ==> o.s.inputs == []
    ensures o.Ok? ==> |s.sent| < |o.s.sent| && o.s.sent[|o.s.sent| - 1] == Message("LOGOUT", "")
                      && Appends(s, Unsend(o.s), MenuCommands) && OneReplyEach(s, Unsend(o.s))
                      && QuitTyped(s.inputs, o.s.inputs)
    decreases |s.inputs|, 0
  {
    MenuRequests(t, o);
    if o.Ok? {
      AppendsTrans(s, t, Unsend(o.s), MenuCommands);
      OneReplyEachTrans(s, t, Unsend(o.s));
      QuitTypedLater(s.inputs, t.inputs, o.s.inputs);
    } else {
      AppendsTrans(s, t, o.s, MenuCommands);
      OneReplyEachTrans(s, t, o.s);
    }
  }

  // ---------------------------------------------------------------------------
  // A whole run of the client
  // ---------------------------------------------------------------------------

  /** `login` appends only LOGIN requests that fit, reading one reply for each. */
  lemma {:induction false} LoginAppends(s: Session, o: Outcome<nat>)
    requires o == Login(s)
    ensures Appends(s, o.s, {"LOGIN"}) && OneReplyEach(s, o.s)
    decreases |s.inputs|
  {
    match LoginAttempt(s)
    case Halted(t, f) =>
      assert o == Halted(t, f);
      AppendsNone(s, t, {"LOGIN"});
    case Ok(s3, accepted) =>
      assert s3.sent[|s.sent|..] == [LoginRequest(s.inputs[0], s.inputs[1])];
      DropDrop(s.inbox, 0, 1);
      assert Appends(s, s3, {"LOGIN"}) && OneReplyEach(s, s3);
      if accepted {
        assert o.s == s3.(phase := Authenticated);
      } else {
        var o3 := Login(s3);
        assert o.s == o3.s;
        LoginAppends(s3, o3);
        AppendsTrans(s, s3, o3.s, {"LOGIN"});
        OneReplyEachTrans(s, s3, o3.s);
      }
  }

  /** The session a run starts from. */
  function Start(inbox: seq<Option<Message>>, inputs: seq<string>): Session {
    Session(inbox, inputs, [], Unauthenticated)
  }

  /** `main` once connected, over decoded replies: the login loop, then the menu loop.
      The connection object is always truthy, so the menu always follows an accepted
      login. */
  function Run(inbox: seq<Option<Message>>, inputs: seq<string>): (o: Outcome<()>)
    ensures o.Ok? <==> o.s.phase == Terminated
    ensures o.s.phase == Unauthenticated <==> Login(Start(inbox, inputs)).Halted?
  {
    match Login(Start(inbox, inputs))
    case Halted(t, f) => Halted(t, f)
    case Ok(t, _) => Menu(t)
  }

  /** `main` once connected, for the frames the server sends and the lines the operator
      types; each receive decodes the next frame. */
  function RunClient(frames: seq<string>, inputs: seq<string>): (o: Outcome<()>)
    ensures o.Ok? <==> o.s.phase == Terminated
    ensures o.s.phase == Unauthenticated <==> Login(Start(Decode(frames), inputs)).Halted?
  {
    Run(Decode(frames), inputs)
  }

  /** The shape of a run's request log: first `n` LOGIN requests, then requests of the menu,
      and a LOGOUT at the end exactly when the run `loggedOut`. Every request fits. */
  predicate RunShape(sent: seq<Message>, n: nat, loggedOut: bool) {
    var m := if loggedOut then |sent| - 1 else |sent|;
    n <= m
    && AllFrom(sent[..n], {"LOGIN"}) && AllFrom(sent[n..m], MenuCommands)
    && (loggedOut ==> sent[m] == Message("LOGOUT", ""))
  }

  /** The number of LOGIN requests a run sends. */
  function LoginsSent(inbox: seq<Option<Message>>, inputs: seq<string>): nat {
    |Login(Start(inbox, inputs)).s.sent|
  }

  /** A run's log has the shape above; when the run gets past the login loop, the number
      of LOGIN requests is one more than the position of the first LOGIN_OK reply. One
      reply is read for each request except LOGOUT. */
  lemma RunShaped(inbox: seq<Option<Message>>, inputs: seq<string>, o: Outcome<()>)
    requires o == Run(inbox, inputs)
    ensures RunShape(o.s.sent, LoginsSent(inbox, inputs), o.Ok?)
    ensures o.s.phase == Unauthenticated ==> LoginsSent(inbox, inputs) == |o.s.sent|
    ensures o.s.phase != Unauthenticated ==> FirstLoginOk(inbox) == Some(LoginsSent(inbox, inputs) - 1)
    ensures o.s.inbox == Drop(inbox, |o.s.sent| - (if o.Ok? then 1 else 0))
  {
    var l := Login(Start(inbox, inputs));
    if l.Halted? {
      RunStopsInLogin(inbox, inputs, l, o);
    } else {
      RunPassesLogin(inbox, inputs, l, o);
    }
  }

  /** A run that stops in the login loop has sent only LOGIN requests. */
  lemma RunStopsInLogin(inbox: seq<Option<Message>>, inputs: seq<string>, l: Outcome<nat>, o: Outcome<()>)
    requires l == Login(Start(inbox, inputs)) && l.Halted? && o == Run(inbox, inputs)
    ensures o.Halted? && o.s == l.s
    ensures RunShape(o.s.sent, |l.s.sent|, false)
    ensures o.s.inbox == Drop(inbox, |o.s.sent|)
  {
    LoginAppends(Start(inbox, inputs), l);
    var n := |l.s.sent|;
    assert l.s.sent[0..] == l.s.sent;
    assert l.s.sent[..n] == l.s.sent && l.s.sent[n..n] == [];
  }

  /** A run past the login loop sent one more LOGIN than the position of the first
      LOGIN_OK reply, then the menu's requests. */
  lemma RunPassesLogin(inbox: seq<Option<Message>>, inputs: seq<string>, l: Outcome<nat>, o: Outcome<()>)
    requires l == Login(Start(inbox, inputs)) && l.Ok? && o == Run(inbox, inputs)
    ensures o == Menu(l.s)
    ensures FirstLoginOk(inbox) == Some(|l.s.sent| - 1)
    ensures RunShape(o.s.sent, |l.s.sent|, o.Ok?)
    ensures o.s.inbox == Drop(inbox, |o.s.sent| - (if o.Ok? then 1 else 0))
  {
    var start := Start(inbox, inputs);
    LoginAppends(start, l);
    LoginAccepted(start, l);
    assert l.value == |l.s.sent|;
    assert l.s.sent[0..] == l.s.sent;
    MenuRequests(l.s, o);
    MenuAfterLogin(inbox, l.s, o);
  }

  /** A menu log as `MenuRequests` describes it, after LOGIN requests only with one reply
      read for each, is a log of a run's shape and has read one reply for each request except LOGOUT. */
  lemma MenuAfterLogin(inbox: seq<Option<Message>>, s: Session, o: Outcome<()>)
    requires AllFrom(s.sent, {"LOGIN"}) && s.inbox == Drop(inbox, |s.sent|)
    requires o.Halted? ==> Appends(s, o.s, MenuCommands) && OneReplyEach(s, o.s)
    requires o.Ok? ==> |s.sent| < |o.s.sent| && o.s.sent[|o.s.sent| - 1] == Message("LOGOUT", "")
                       && Appends(s, Unsend(o.s), MenuCommands) && OneReplyEach(s, Unsend(o.s))
    ensures RunShape(o.s.sent, |s.sent|, o.Ok?)
    ensures o.s.inbox == Drop(inbox, |o.s.sent| - (if o.Ok? then 1 else 0))
  {
    if o.Ok? {
      LoggedOutShape(inbox, s, o.s);
    } else {
      StoppedShape(inbox, s, o.s);
    }
  }

  /** A menu that ended normally: menu requests with one reply each, then LOGOUT. */
  lemma LoggedOutShape(inbox: seq<Option<Message>>, s: Session, u: Session)
    requires AllFrom(s.sent, {"LOGIN"}) && s.inbox == Drop(inbox, |s.sent|)
    requires |s.sent| < |u.sent| && u.sent[|u.sent| - 1] == Message("LOGOUT", "")
    requires Appends(s, Unsend(u), MenuCommands) && OneReplyEach(s, Unsend(u))
    ensures RunShape(u.sent, |s.sent|, true)
    ensures u.inbox == Drop(inbox, |u.sent| - 1)
  {
    var t := Unsend(u);
    UnsendLast(u);
    RunShapeJoin(s, t, u.sent, true);
    DropDrop(inbox, |s.sent|, |t.sent| - |s.sent|);
  }

  /** A menu that stopped early: menu requests with one reply each. */
  lemma StoppedShape(inbox: seq<Option<Message>>, s: Session, u: Session)
    requires AllFrom(s.sent, {"LOGIN"}) && s.inbox == Drop(inbox, |s.sent|)
    requires Appends(s, u, MenuCommands) && OneReplyEach(s, u)
    ensures RunShape(u.sent, |s.sent|, false)
    ensures u.inbox == Drop(inbox, |u.sent|)
  {
    RunShapeJoin(s, u, u.sent, false);
    DropDrop(inbox, |s.sent|, |u.sent| - |s.sent|);
  }

  /** LOGIN requests followed by menu requests, and a LOGOUT when the run ends normally,
      make a log of a run's shape. */
  lemma RunShapeJoin(l: Session, t: Session, sent: seq<Message>, loggedOut: bool)
    requires AllFrom(l.sent, {"LOGIN"}) && Appends(l, t, MenuCommands)
    requires sent == if loggedOut then t.sent + [Message("LOGOUT", "")] else t.sent
    ensures RunShape(sent, |l.sent|, loggedOut)
  {
    var n := |l.sent|;
    var m := |t.sent|;
    assert sent[..m] == t.sent;
    assert sent[..n] == t.sent[..n] == l.sent;
    assert sent[n..m] == t.sent[n..];
  }

  /** Each request of a log of that shape, with where in the log it may stand. */
  lemma ShapeAt(sent: seq<Message>, n: nat, loggedOut: bool, i: nat)
    requires RunShape(sent, n, loggedOut) && i < |sent|
    ensures i < n ==> sent[i].cmd == "LOGIN" && Fits(sent[i])
    ensures n <= i && !(loggedOut && i == |sent| - 1) ==> sent[i].cmd in MenuCommands && Fits(sent[i])
    ensures loggedOut && i == |sent| - 1 ==> sent[i] == Message("LOGOUT", "")
  {
    var m := if loggedOut then |sent| - 1 else |sent|;
    if i < n {
      assert sent[i] == sent[..n][i];
    } else if i < m {
      assert sent[i] == sent[n..m][i - n];
    }
  }

  /** Every request of a run is one of the client's commands and the codec accepts it. */
  lemma ShapeEncodable(sent: seq<Message>, n: nat, loggedOut: bool)
    requires RunShape(sent, n, loggedOut)
    ensures forall i :: 0 <= i < |sent| ==> sent[i].cmd in C2SOrders && Encodable(sent[i])
  {
    forall i | 0 <= i < |sent|
      ensures sent[i].cmd in C2SOrders && Encodable(sent[i])
    {
      ShapeAt(sent, n, loggedOut, i);
      EncodableFits(sent[i]);
    }
  }

  /** The LOGIN requests of a run are exactly its first `n` requests, and the LOGOUT
      request, if any, is its last. */
  lemma ShapeOrder(sent: seq<Message>, n: nat, loggedOut: bool)
    requires RunShape(sent, n, loggedOut)
    ensures forall i :: 0 <= i < |sent| ==> (sent[i].cmd == "LOGIN" <==> i < n)
    ensures forall i :: 0 <= i < |sent| ==> (sent[i].cmd == "LOGOUT" <==> loggedOut && i == |sent| - 1)
  {
    forall i | 0 <= i < |sent|
      ensures sent[i].cmd == "LOGIN" <==> i < n
      ensures sent[i].cmd == "LOGOUT" <==> loggedOut && i == |sent| - 1
    {
      ShapeAt(sent, n, loggedOut, i);
    }
  }

  /** What a whole run of the client sends, over any script of replies and any operator
      input: only the client's own commands, each accepted by the codec; every LOGIN
      before every other request; no request but LOGIN before a reply carrying LOGIN_OK;
      and LOGOUT once, as the last request, exactly when the run ends normally. */
  lemma RunClientLog(frames: seq<string>, inputs: seq<string>, o: Outcome<()>)
    requires o == RunClient(frames, inputs)
    ensures forall i :: 0 <= i < |o.s.sent| ==> o.s.sent[i].cmd in C2SOrders && Encodable(o.s.sent[i])
    ensures forall i, j :: 0 <= i < j < |o.s.sent| && o.s.sent[j].cmd == "LOGIN" ==> o.s.sent[i].cmd == "LOGIN"
    ensures FirstLoginOk(Decode(frames)).None? ==> forall i :: 0 <= i < |o.s.sent| ==> o.s.sent[i].cmd == "LOGIN"
    ensures forall i :: 0 <= i < |o.s.sent| && o.s.sent[i].cmd == "LOGOUT" ==> o.Ok? && i == |o.s.sent| - 1
    ensures o.Ok? ==> o.s.sent != [] && o.s.sent[|o.s.sent| - 1] == Message("LOGOUT", "")
  {
    var n := LoginsSent(Decode(frames), inputs);
    RunShaped(Decode(frames), inputs, o);
    ShapeEncodable(o.s.sent, n, o.Ok?);
    ShapeOrder(o.s.sent, n, o.Ok?);
  }
}
