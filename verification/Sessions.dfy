/** What one accepted connection does: read, hand the bytes to the message callback, reply.

    There are three session loops: the native and the WebSocket one of the asynchronous
    server, and the native one of the fiber server.  The peer's bytes, the callback and the
    success of each reply are the events a session is driven by.  Each loop is a method over
    a `Buffer` object, proved against a step function on `Session` values. */
module Sessions {
  import opened Bytes

  const MAX_MSG_SIZE: nat := 1024

  datatype BufferType = BINARY | TEXT

  type Array = s: seq<Byte> | |s| == MAX_MSG_SIZE witness seq(MAX_MSG_SIZE, _ => 0)

  /** The buffer that callbacks read and overwrite. */
  datatype Content = Content(kind: BufferType, size: nat, buf: Array)

  /** What a message callback does: its result, and the buffer as it leaves it. */
  datatype Answer = Answer(ok: bool, content: Content)

  datatype Incoming =
    | Nothing                                  // a timeout, or the stream is exhausted
    | ReadError
    | Data(bytes: seq<Byte>)                   // one read of a native connection
    | Text(payload: seq<Byte>, decodes: bool)
    | Binary(payload: seq<Byte>)
    | Control                                  // ping, pong
    | CloseFrame

  /** One round of a session: what arrives, the callback, and whether a reply gets out. */
  datatype Event = Event(incoming: Incoming, callback: Content -> Answer, sent: bool)

  datatype Reason =
    | ReadFailed | Refused | NotSent                                            // any session
    | PeerClosed | TooLarge | EmptyOrInvalid | WrongLength | BadText | NotUtf8  // WebSocket only

  datatype Phase = Open | Ended(reason: Reason) | Panicked

  datatype CloseCode = Normal | Unsupported | Abnormal | Invalid | Size

  /** Section 7.4.1 of RFC 6455. */
  function Number(code: CloseCode): nat {
    match code
    case Normal => 1000
    case Unsupported => 1003
    case Abnormal => 1006
    case Invalid => 1007
    case Size => 1009
  }

  /** What a session does that others can see. */
  datatype Act =
    | Called(seen: Content, ok: bool, left: Content)   // `left` is the buffer as it leaves it
    | Wrote(bytes: seq<Byte>, sent: bool)
    | SentText(bytes: seq<Byte>, sent: bool)
    | SentBinary(bytes: seq<Byte>, sent: bool)
    | SentClose(code: CloseCode)

  datatype Session = Session(phase: Phase, content: Content, code: CloseCode, acts: seq<Act>)

  datatype Kind = Native | Websocket | FiberNative

  function Start(kind: Kind): Session {
    Session(Open, Content(if kind == Websocket then TEXT else BINARY, 0, Zeros(MAX_MSG_SIZE)), Unsupported, [])
  }

  /** Bytes copied to the front of the buffer; the rest keeps what it held. */
  function Overlay(bytes: seq<Byte>, buf: Array): Array
    requires |bytes| <= MAX_MSG_SIZE
  {
    bytes + buf[|bytes|..]
  }

  /** Whether an event can happen to a kind of session. */
  predicate Fits(kind: Kind, e: Event) {
    if kind == Websocket then !e.incoming.Data?
    else e.incoming.ReadError? || (e.incoming.Data? && |e.incoming.bytes| <= MAX_MSG_SIZE)
  }

  // ---------------------------------------------------------------- the steps

  function NativeStep(s: Session, e: Event): Session
    requires Fits(Native, e)
  {
    if e.incoming.ReadError? then s.(phase := Ended(ReadFailed))
    else
      var seen := Content(s.content.kind, |e.incoming.bytes|, Overlay(e.incoming.bytes, s.content.buf));
      var a := e.callback(seen);
      var called := s.(content := a.content, acts := s.acts + [Called(seen, a.ok, a.content)]);
      if !a.ok then called.(phase := Ended(Refused))
      else if a.content.size == 0 then called
      else if a.content.size > MAX_MSG_SIZE then called.(phase := Panicked)
      else called.(acts := called.acts + [Wrote(a.content.buf[..a.content.size], e.sent)],
                   phase := if e.sent then Open else Ended(NotSent))
  }

  /** The fiber loop writes the whole buffer, and writes it even after a refusal. */
  function FiberStep(s: Session, e: Event): Session
    requires Fits(FiberNative, e)
  {
    if e.incoming.ReadError? then s.(phase := Ended(ReadFailed))
    else
      var seen := Content(s.content.kind, |e.incoming.bytes|, Overlay(e.incoming.bytes, s.content.buf));
      var a := e.callback(seen);
      var called := s.(content := a.content, acts := s.acts + [Called(seen, a.ok, a.content)]);
      var written := if a.content.size > 0 then called.(acts := called.acts + [Wrote(a.content.buf, e.sent)])
                     else called;
      if !a.ok then written.(phase := Ended(Refused))
      else if a.content.size > 0 && !e.sent then written.(phase := Ended(NotSent))
      else written
  }

  function EndWith(s: Session, code: CloseCode, reason: Reason): Session {
    s.(phase := Ended(reason), code := code)
  }

  /** The well-formed byte sequences of section 4 of RFC 3629. */
  predicate ValidUtf8(s: seq<Byte>)
    decreases |s|
  {
    if s == [] then true
    else if s[0] < 0x80 then ValidUtf8(s[1..])
    else if 0xC2 <= s[0] <= 0xDF then |s| >= 2 && Tail(s[1]) && ValidUtf8(s[2..])
    else if 0xE0 <= s[0] <= 0xEF then
      |s| >= 3 && Tail(s[1]) && Tail(s[2]) &&
      (s[0] == 0xE0 ==> s[1] >= 0xA0) && (s[0] == 0xED ==> s[1] <= 0x9F) && ValidUtf8(s[3..])
    else if 0xF0 <= s[0] <= 0xF4 then
      |s| >= 4 && Tail(s[1]) && Tail(s[2]) && Tail(s[3]) &&
      (s[0] == 0xF0 ==> s[1] >= 0x90) && (s[0] == 0xF4 ==> s[1] <= 0x8F) && ValidUtf8(s[4..])
    else false
  }

  predicate Tail(b: Byte) {
    0x80 <= b <= 0xBF
  }

  /** A text message; the buffer's size has been set. */
  function TextStep(s: Session, e: Event): Session
    requires e.incoming.Text? && |e.incoming.payload| <= MAX_MSG_SIZE
  {
    var typed := s.(content := s.content.(kind := TEXT));
    if !e.incoming.decodes then EndWith(typed, Unsupported, BadText)
    else
      var seen := typed.content.(buf := Overlay(e.incoming.payload, s.content.buf));
      var a := e.callback(seen);
      var called := typed.(content := a.content, acts := s.acts + [Called(seen, a.ok, a.content)]);
      if !a.ok then EndWith(called, Normal, Refused)
      else
        var reset := called.(content := Content(a.content.kind, 0, Zeros(MAX_MSG_SIZE)));
        if !ValidUtf8(reset.content.buf) then EndWith(reset, Invalid, NotUtf8)
        else
          var replied := reset.(acts := reset.acts + [SentText(reset.content.buf, e.sent)]);
          if e.sent then replied else EndWith(replied, Abnormal, NotSent)
  }

  function BinaryStep(s: Session, e: Event): Session
    requires e.incoming.Binary?
  {
    var typed := s.(content := s.content.(kind := BINARY));
    if |e.incoming.payload| != MAX_MSG_SIZE then EndWith(typed, Unsupported, WrongLength)
    else
      var seen := typed.content.(buf := e.incoming.payload);
      var a := e.callback(seen);
      var called := typed.(content := a.content, acts := s.acts + [Called(seen, a.ok, a.content)]);
      if !a.ok then EndWith(called, Normal, Refused)
      else
        var replied := called.(acts := called.acts + [SentBinary(a.content.buf, e.sent)]);
        if e.sent then replied else EndWith(replied, Abnormal, NotSent)
  }

  function WsStep(s: Session, e: Event): Session
    requires Fits(Websocket, e)
  {
    var i := e.incoming;
    if i.Nothing? || i.ReadError? then s
    else if i.CloseFrame? then s.(phase := Ended(PeerClosed))
    else if (i.Text? || i.Binary?) && i.payload != [] then
      var sized := s.(content := s.content.(size := |i.payload|));
      if |i.payload| > MAX_MSG_SIZE then EndWith(sized, Size, TooLarge)
      else if i.Text? then TextStep(sized, e)
      else BinaryStep(sized, e)
    else EndWith(s, Invalid, EmptyOrInvalid)
  }

  function Step(kind: Kind, s: Session, e: Event): Session
    requires Fits(kind, e)
  {
    match kind
    case Native => NativeStep(s, e)
    case Websocket => WsStep(s, e)
    case FiberNative => FiberStep(s, e)
  }

  predicate AllFit(kind: Kind, events: seq<Event>) {
    forall i :: 0 <= i < |events| ==> Fits(kind, events[i])
  }

  /** The session after the first `n` events; once it has ended, events no longer matter. */
  function After(kind: Kind, events: seq<Event>, n: nat): Session
    requires AllFit(kind, events) && n <= |events|
  {
    if n == 0 then Start(kind)
    else
      var s := After(kind, events, n - 1);
      if s.phase == Open then Step(kind, s, events[n - 1]) else s
  }

  lemma {:induction false} EndedStays(kind: Kind, events: seq<Event>, n: nat, k: nat)
    requires AllFit(kind, events) && n <= k <= |events|
    requires After(kind, events, n).phase != Open
    ensures After(kind, events, k) == After(kind, events, n)
  {
    if n < k {
      EndedStays(kind, events, n, k - 1);
    }
  }

  // ---------------------------------------------------------------- the loops

  class Buffer {
    var kind: BufferType
    var size: nat
    var buf: Array

    function View(): Content
      reads this
    {
      Content(kind, size, buf)
    }

    constructor (kind: BufferType)
      ensures View() == Content(kind, 0, Zeros(MAX_MSG_SIZE))
    {
      this.kind, size, buf := kind, 0, Zeros(MAX_MSG_SIZE);
    }

    method Reset()
      modifies this
      ensures View() == Content(old(kind), 0, Zeros(MAX_MSG_SIZE))
    {
      size := 0;
      buf := Zeros(MAX_MSG_SIZE);
    }

    method Run(callback: Content -> Answer) returns (ok: bool)
      modifies this
      ensures ok == callback(old(View())).ok && View() == callback(old(View())).content
    {
      var a := callback(View());
      kind, size, buf := a.content.kind, a.content.size, a.content.buf;
      ok := a.ok;
    }
  }

  method HandleTcpConnection(events: seq<Event>) returns (phase: Phase, acts: seq<Act>)
    requires AllFit(Native, events)
    ensures (phase, acts) == (After(Native, events, |events|).phase, After(Native, events, |events|).acts)
  {
    var msg := new Buffer(BINARY);
    phase, acts := Open, [];
    var n := 0;
    while n < |events|
      invariant n <= |events| && phase == Open
      invariant After(Native, events, n) == Session(phase, msg.View(), Unsupported, acts)
    {
      var e := events[n];
      n := n + 1;
      if e.incoming.ReadError? {
        phase := Ended(ReadFailed);
      } else {
        msg.buf := Overlay(e.incoming.bytes, msg.buf);
        msg.size := |e.incoming.bytes|;
        var seen := Content(msg.kind, msg.size, msg.buf);
        var ok := msg.Run(e.callback);
        acts := acts + [Called(seen, ok, msg.View())];
        if !ok {
          phase := Ended(Refused);
        } else if msg.size > 0 {
          if msg.size > MAX_MSG_SIZE {
            phase := Panicked;
          } else {
            acts := acts + [Wrote(msg.buf[..msg.size], e.sent)];
            if !e.sent {
              phase := Ended(NotSent);
            }
          }
        }
      }
      if phase != Open {
        EndedStays(Native, events, n, |events|);
        return;
      }
    }
  }

  method FiberHandleTcpConnection(events: seq<Event>) returns (phase: Phase, acts: seq<Act>)
    requires AllFit(FiberNative, events)
    ensures (phase, acts) == (After(FiberNative, events, |events|).phase, After(FiberNative, events, |events|).acts)
  {
    var msg := new Buffer(BINARY);
    phase, acts := Open, [];
    var n := 0;
    while n < |events|
      invariant n <= |events| && phase == Open
      invariant After(FiberNative, events, n) == Session(phase, msg.View(), Unsupported, acts)
    {
      var e := events[n];
      n := n + 1;
      if e.incoming.Data? {
        msg.buf := Overlay(e.incoming.bytes, msg.buf);
        msg.size := |e.incoming.bytes|;
        var seen := Content(msg.kind, msg.size, msg.buf);
        var ok := msg.Run(e.callback);
        acts := acts + [Called(seen, ok, msg.View())];
        if !ok {
          phase := Ended(Refused);
        }
        if msg.size > 0 {
          acts := acts + [Wrote(msg.buf, e.sent)];
          if !e.sent && phase == Open {
            phase := Ended(NotSent);
          }
        }
      } else {
        phase := Ended(ReadFailed);
      }
      if phase != Open {
        EndedStays(FiberNative, events, n, |events|);
        return;
      }
    }
  }

  method HandleWsTextMsg(e: Event, buffer: Buffer, acts: seq<Act>, code: CloseCode)
    returns (phase: Phase, acts': seq<Act>, code': CloseCode)
    requires e.incoming.Text? && |e.incoming.payload| <= MAX_MSG_SIZE
    modifies buffer
    ensures Session(phase, buffer.View(), code', acts')
         == TextStep(Session(Open, old(buffer.View()), code, acts), e)
  {
    phase, acts', code' := Open, acts, code;
    buffer.kind := TEXT;
    if !e.incoming.decodes {
      return Ended(BadText), acts', Unsupported;
    }
    buffer.buf := Overlay(e.incoming.payload, buffer.buf);
    var seen := Content(buffer.kind, buffer.size, buffer.buf);
    var ok := buffer.Run(e.callback);
    acts' := acts' + [Called(seen, ok, buffer.View())];
    if !ok {
      return Ended(Refused), acts', Normal;
    }
    buffer.Reset();
    if ValidUtf8(buffer.buf) {
      acts' := acts' + [SentText(buffer.buf, e.sent)];
      if !e.sent {
        return Ended(NotSent), acts', Abnormal;
      }
    } else {
      return Ended(NotUtf8), acts', Invalid;
    }
  }

  /** The session after its events, and the close frame that leaving the loop sends; the
      phase is `Open` while the loop still runs. */
  method HandleWsConnection(events: seq<Event>) returns (phase: Phase, acts: seq<Act>)
    requires AllFit(Websocket, events)
    ensures var s := After(Websocket, events, |events|);
            phase == s.phase && acts == if s.phase == Open then s.acts else s.acts + [SentClose(s.code)]
  {
    var closeCode := Unsupported;
    var buffer := new Buffer(TEXT);
    phase, acts := Open, [];
    var n := 0;
    while n < |events|
      invariant n <= |events| && phase == Open
      invariant After(Websocket, events, n) == Session(phase, buffer.View(), closeCode, acts)
    {
      var e := events[n];
      n := n + 1;
      if e.incoming.Nothing? || e.incoming.ReadError? {
        continue;
      }
      if e.incoming.CloseFrame? {
        phase := Ended(PeerClosed);
      } else if (e.incoming.Text? || e.incoming.Binary?) && e.incoming.payload != [] {
        buffer.size := |e.incoming.payload|;
        if buffer.size > MAX_MSG_SIZE {
          phase, closeCode := Ended(TooLarge), Size;
        } else if e.incoming.Text? {
          phase, acts, closeCode := HandleWsTextMsg(e, buffer, acts, closeCode);
        } else {
          buffer.kind := BINARY;
          if |e.incoming.payload| == MAX_MSG_SIZE {
            buffer.buf := e.incoming.payload;
            var seen := Content(buffer.kind, buffer.size, buffer.buf);
            var ok := buffer.Run(e.callback);
            acts := acts + [Called(seen, ok, buffer.View())];
            if !ok {
              phase, closeCode := Ended(Refused), Normal;
            } else {
              acts := acts + [SentBinary(buffer.buf, e.sent)];
              if !e.sent {
                phase, closeCode := Ended(NotSent), Abnormal;
              }
            }
          } else {
            phase, closeCode := Ended(WrongLength), Unsupported;
          }
        }
      } else {
        phase, closeCode := Ended(EmptyOrInvalid), Invalid;
      }
      if phase != Open {
        EndedStays(Websocket, events, n, |events|);
        acts := acts + [SentClose(closeCode)];
        return;
      }
    }
  }

  // ---------------------------------------------------------------- every session

  /** Every callback but the last accepted its message, and the last one refused exactly
      when the session ended for that reason; and no session sends a close frame itself. */
  ghost predicate Orderly(s: Session) {
    (forall i :: 0 <= i < |s.acts| ==> !s.acts[i].SentClose?) &&
    (s.phase != Ended(Refused) ==> forall i :: 0 <= i < |s.acts| && s.acts[i].Called? ==> s.acts[i].ok) &&
    (s.phase == Ended(Refused) ==>
      exists last :: 0 <= last < |s.acts| && s.acts[last].Called? && !s.acts[last].ok &&
        (forall i :: 0 <= i < |s.acts| && i != last && s.acts[i].Called? ==> s.acts[i].ok && i < last))
  }

  lemma StepOrderly(kind: Kind, s: Session, e: Event)
    requires Fits(kind, e) && s.phase == Open && Orderly(s)
    ensures Orderly(Step(kind, s, e))
  {
    hide ValidUtf8;
    match kind
    case Native => NativeStepOrderly(s, e);
    case Websocket => WsStepOrderly(s, e);
    case FiberNative => FiberStepOrderly(s, e);
  }

  lemma NativeStepOrderly(s: Session, e: Event)
    requires Fits(Native, e) && s.phase == Open && Orderly(s)
    ensures Orderly(NativeStep(s, e))
  {
    var s' := NativeStep(s, e);
    if s'.phase == Ended(Refused) {
      assert s'.acts[|s.acts|].Called? && !s'.acts[|s.acts|].ok;
    }
  }

  lemma FiberStepOrderly(s: Session, e: Event)
    requires Fits(FiberNative, e) && s.phase == Open && Orderly(s)
    ensures Orderly(FiberStep(s, e))
  {
    var s' := FiberStep(s, e);
    if s'.phase == Ended(Refused) {
      assert s'.acts[|s.acts|].Called? && !s'.acts[|s.acts|].ok;
    }
  }

  lemma WsStepOrderly(s: Session, e: Event)
    requires Fits(Websocket, e) && s.phase == Open && Orderly(s)
    ensures Orderly(WsStep(s, e))
  {
    hide ValidUtf8;
    var s' := WsStep(s, e);
    if s'.phase == Ended(Refused) {
      assert s'.acts[|s.acts|].Called? && !s'.acts[|s.acts|].ok;
    }
  }

  lemma {:induction false} SessionsAreOrderly(kind: Kind, events: seq<Event>, n: nat)
    requires AllFit(kind, events) && n <= |events|
    ensures Orderly(After(kind, events, n))
  {
    if n > 0 {
      SessionsAreOrderly(kind, events, n - 1);
      var s := After(kind, events, n - 1);
      if s.phase == Open {
        StepOrderly(kind, s, events[n - 1]);
      }
    }
  }

  /** The messages handed to the callback, as it saw them. */
  function Seen(acts: seq<Act>): seq<seq<Byte>> {
    if acts == [] then []
    else
      var a := acts[|acts| - 1];
      Seen(acts[..|acts| - 1]) +
      (if a.Called? && a.seen.size <= MAX_MSG_SIZE then [a.seen.buf[..a.seen.size]] else [])
  }

  lemma SeenSnoc(acts: seq<Act>, a: Act)
    ensures Seen(acts + [a]) == Seen(acts) +
            (if a.Called? && a.seen.size <= MAX_MSG_SIZE then [a.seen.buf[..a.seen.size]] else [])
  {
    assert (acts + [a])[..|acts|] == acts;
  }

  /** The events whose bytes a session accepts as a message. */
  predicate Delivers(e: Event) {
    match e.incoming
    case Data(_) => true
    case Text(payload, decodes) => decodes && 1 <= |payload| <= MAX_MSG_SIZE
    case Binary(payload) => |payload| == MAX_MSG_SIZE
    case _ => false
  }

  function BytesOf(e: Event): seq<Byte> {
    match e.incoming
    case Data(bytes) => bytes
    case Text(payload, _) => payload
    case Binary(payload) => payload
    case _ => []
  }

  /** The messages among the first `n` events, up to the one that ends the session. */
  function Messages(kind: Kind, events: seq<Event>, n: nat): seq<seq<Byte>>
    requires AllFit(kind, events) && n <= |events|
  {
    if n == 0 then []
    else
      Messages(kind, events, n - 1) +
      (if After(kind, events, n - 1).phase == Open && Delivers(events[n - 1]) then [BytesOf(events[n - 1])] else [])
  }

  /** Every message is handed to the callback once, in order, with its exact bytes at the
      front of the buffer and its length as the size. */
  lemma {:induction false} MessagesAreDelivered(kind: Kind, events: seq<Event>, n: nat)
    requires AllFit(kind, events) && n <= |events|
    ensures Seen(After(kind, events, n).acts) == Messages(kind, events, n)
  {
    if n > 0 {
      MessagesAreDelivered(kind, events, n - 1);
      var s := After(kind, events, n - 1);
      if s.phase == Open {
        StepDelivers(kind, s, events[n - 1]);
      }
    }
  }

  lemma StepDelivers(kind: Kind, s: Session, e: Event)
    requires Fits(kind, e) && s.phase == Open
    ensures Seen(Step(kind, s, e).acts) == Seen(s.acts) + (if Delivers(e) then [BytesOf(e)] else [])
  {
    match kind
    case Native => NativeStepDelivers(s, e);
    case Websocket => WsStepDelivers(s, e);
    case FiberNative => FiberStepDelivers(s, e);
  }

  /** A round adds at most a callback and then a reply. */
  lemma SeenAfter(acts: seq<Act>, acts': seq<Act>)
    requires |acts| <= |acts'| <= |acts| + 2 && acts'[..|acts|] == acts
    requires |acts'| == |acts| + 2 ==> !acts'[|acts| + 1].Called?
    ensures Seen(acts') == Seen(acts) +
            (if |acts'| > |acts| && acts'[|acts|].Called? && acts'[|acts|].seen.size <= MAX_MSG_SIZE
             then [acts'[|acts|].seen.buf[..acts'[|acts|].seen.size]] else [])
  {
    hide Seen;
    if |acts'| == |acts| {
      assert acts' == acts;
    } else {
      var called := acts + [acts'[|acts|]];
      SeenSnoc(acts, acts'[|acts|]);
      if |acts'| == |acts| + 1 {
        assert acts' == called;
      } else {
        SeenSnoc(called, acts'[|acts| + 1]);
        assert acts' == called + [acts'[|acts| + 1]];
      }
    }
  }

  lemma NativeStepDelivers(s: Session, e: Event)
    requires Fits(Native, e) && s.phase == Open
    ensures Seen(NativeStep(s, e).acts) == Seen(s.acts) + (if Delivers(e) then [BytesOf(e)] else [])
  {
    SeenAfter(s.acts, NativeStep(s, e).acts);
  }

  lemma FiberStepDelivers(s: Session, e: Event)
    requires Fits(FiberNative, e) && s.phase == Open
    ensures Seen(FiberStep(s, e).acts) == Seen(s.acts) + (if Delivers(e) then [BytesOf(e)] else [])
  {
    SeenAfter(s.acts, FiberStep(s, e).acts);
  }

  lemma WsStepDelivers(s: Session, e: Event)
    requires Fits(Websocket, e) && s.phase == Open
    ensures Seen(WsStep(s, e).acts) == Seen(s.acts) + (if Delivers(e) then [BytesOf(e)] else [])
  {
    hide Seen, ValidUtf8;
    AsciiIsUtf8(Zeros(MAX_MSG_SIZE));
    var acts' := WsStep(s, e).acts;
    SeenAfter(s.acts, acts');
    if e.incoming.Text? && Delivers(e) {
      assert acts'[|s.acts|].seen.buf[..|e.incoming.payload|] == e.incoming.payload;
    } else if e.incoming.Binary? && Delivers(e) {
      assert acts'[|s.acts|].seen.buf[..MAX_MSG_SIZE] == e.incoming.payload;
    }
  }

  // ---------------------------------------------------------------- WebSocket sessions

  lemma {:induction false} AsciiIsUtf8(s: seq<Byte>)
    requires forall i :: 0 <= i < |s| ==> s[i] < 0x80
    ensures ValidUtf8(s)
    decreases |s|
  {
    if s != [] {
      AsciiIsUtf8(s[1..]);
    }
  }

  /** Every text reply is 1024 zero bytes, whatever the callback put in the buffer; so a text
      reply is always well-formed and that way of ending is unreachable.  Every callback
      sees a size between 1 and 1024. */
  ghost predicate WsActs(s: Session) {
    (forall i :: 0 <= i < |s.acts| && s.acts[i].SentText? ==> s.acts[i].bytes == Zeros(1024)) &&
    (forall i :: 0 <= i < |s.acts| && s.acts[i].Called? ==> 1 <= s.acts[i].seen.size <= 1024) &&
    (forall i :: 0 <= i < |s.acts| ==> !s.acts[i].Wrote?) &&
    s.phase != Ended(NotUtf8) && s.phase != Panicked
  }

  lemma {:induction false} WsSessionActs(events: seq<Event>, n: nat)
    requires AllFit(Websocket, events) && n <= |events|
    ensures WsActs(After(Websocket, events, n))
  {
    hide WsStep;
    if n > 0 {
      WsSessionActs(events, n - 1);
      var s := After(Websocket, events, n - 1);
      if s.phase == Open {
        WsStepActs(s, events[n - 1]);
      }
    }
  }

  lemma WsStepActs(s: Session, e: Event)
    requires Fits(Websocket, e) && s.phase == Open && WsActs(s)
    ensures WsActs(WsStep(s, e))
  {
    hide TextStep, BinaryStep;
    var i := e.incoming;
    if (i.Text? || i.Binary?) && 0 < |i.payload| <= MAX_MSG_SIZE {
      var sized := s.(content := s.content.(size := |i.payload|));
      if i.Text? {
        TextStepActs(sized, e);
      } else {
        BinaryStepActs(sized, e);
      }
    }
  }

  lemma TextStepActs(s: Session, e: Event)
    requires e.incoming.Text? && |e.incoming.payload| <= MAX_MSG_SIZE
    requires s.phase == Open && WsActs(s) && 1 <= s.content.size <= MAX_MSG_SIZE
    ensures WsActs(TextStep(s, e))
  {
    hide ValidUtf8;
    AsciiIsUtf8(Zeros(MAX_MSG_SIZE));
  }

  lemma BinaryStepActs(s: Session, e: Event)
    requires e.incoming.Binary?
    requires s.phase == Open && WsActs(s) && 1 <= s.content.size <= MAX_MSG_SIZE
    ensures WsActs(BinaryStep(s, e))
  {
  }

  /** Why a session that is open ends on an event, read off the event and the callback's
      result alone. */
  function EndsOn(e: Event, refused: bool): Phase {
    var i := e.incoming;
    if i.Nothing? || i.ReadError? then Open
    else if i.CloseFrame? then Ended(PeerClosed)
    else if !(i.Text? || i.Binary?) || |i.payload| == 0 then Ended(EmptyOrInvalid)
    else if |i.payload| > MAX_MSG_SIZE then Ended(TooLarge)
    else if i.Text? && !i.decodes then Ended(BadText)
    else if i.Binary? && |i.payload| < MAX_MSG_SIZE then Ended(WrongLength)
    else if refused then Ended(Refused)
    else if !e.sent then Ended(NotSent)
    else Open
  }

  /** The status code of the close frame, by the reason for leaving the loop. */
  function CodeFor(reason: Reason): CloseCode {
    match reason
    case Refused => Normal
    case NotSent => Abnormal
    case TooLarge => Size
    case EmptyOrInvalid => Invalid
    case NotUtf8 => Invalid
    case _ => Unsupported
  }

  ghost predicate Coded(s: Session) {
    s.code == match s.phase case Ended(reason) => CodeFor(reason) case _ => Unsupported
  }

  /** A session ends exactly on the events listed in `EndsOn`; in particular timeouts, the
      end of the stream and read errors never end it. */
  lemma WsStepEnds(s: Session, e: Event)
    requires Fits(Websocket, e) && s.phase == Open && Coded(s)
    ensures var s' := WsStep(s, e);
            Coded(s') &&
            s'.phase == EndsOn(e, |s'.acts| > |s.acts| && s'.acts[|s.acts|].Called? && !s'.acts[|s.acts|].ok)
  {
    hide ValidUtf8;
    AsciiIsUtf8(Zeros(MAX_MSG_SIZE));
  }

  /** The close frame's code is decided by the reason; the reserved code 1006, which no
      endpoint may send, is sent exactly when a reply could not be. */
  lemma {:induction false} WsCloseCode(events: seq<Event>, n: nat)
    requires AllFit(Websocket, events) && n <= |events|
    ensures var s := After(Websocket, events, n);
            Coded(s) && (Number(s.code) == 1006 <==> s.phase == Ended(NotSent))
  {
    if n > 0 {
      WsCloseCode(events, n - 1);
      var s := After(Websocket, events, n - 1);
      if s.phase == Open {
        WsStepEnds(s, events[n - 1]);
      }
    }
  }

  /** The status codes by the reason for closing: 1000 after a refusal, 1006 after a reply that
      did not get out, 1007 for an empty or invalid message, 1009 for one that is too large,
      and 1003 otherwise. */
  lemma CloseNumbers(events: seq<Event>, n: nat, reason: Reason)
    requires AllFit(Websocket, events) && n <= |events| && After(Websocket, events, n).phase == Ended(reason)
    ensures Number(After(Websocket, events, n).code) ==
            match reason
            case Refused => 1000
            case NotSent => 1006
            case EmptyOrInvalid => 1007
            case NotUtf8 => 1007
            case TooLarge => 1009
            case _ => 1003
  {
    WsCloseCode(events, n);
  }

  // ---------------------------------------------------------------- native sessions

  /** A native session panics exactly when a callback accepts but leaves a size larger than
      the buffer; the fiber loop, which writes the whole buffer, never does. */
  lemma PanicsIff(kind: Kind, s: Session, e: Event)
    requires Fits(kind, e) && s.phase == Open
    ensures Step(kind, s, e).phase == Panicked <==>
            kind == Native && e.incoming.Data? &&
            var a := e.callback(Content(s.content.kind, |e.incoming.bytes|, Overlay(e.incoming.bytes, s.content.buf)));
            a.ok && a.content.size > 1024
  {
    hide ValidUtf8;
  }

  /** A callback that accepts and leaves a size larger than the buffer. */
  predicate Overfull(a: Act) {
    a.Called? && a.ok && a.left.size > MAX_MSG_SIZE
  }

  ghost predicate PanicTold(kind: Kind, s: Session) {
    s.phase == Panicked <==> kind == Native && exists i :: 0 <= i < |s.acts| && Overfull(s.acts[i])
  }

  lemma StepPanicTold(kind: Kind, s: Session, e: Event)
    requires Fits(kind, e) && s.phase == Open && PanicTold(kind, s)
    ensures PanicTold(kind, Step(kind, s, e))
  {
    hide ValidUtf8;
    PanicsIff(kind, s, e);
    if kind == Native && e.incoming.Data? {
      var acts' := NativeStep(s, e).acts;
      assert acts'[|s.acts|].Called?;
      assert forall i :: 0 <= i < |s.acts| ==> acts'[i] == s.acts[i];
    }
  }

  /** Over whole sessions: the native loop panicked exactly when some accepting callback left
      a size larger than the buffer; the other loops never do. */
  lemma {:induction false} PanickedIff(kind: Kind, events: seq<Event>, n: nat)
    requires AllFit(kind, events) && n <= |events|
    ensures PanicTold(kind, After(kind, events, n))
  {
    hide Step;
    if n > 0 {
      PanickedIff(kind, events, n - 1);
      var s := After(kind, events, n - 1);
      if s.phase == Open {
        StepPanicTold(kind, s, events[n - 1]);
      }
    }
  }

  /** The last act is the callback that refused; only in a fiber session whose callback left a
      size is it followed by a reply all the same. */
  ghost predicate RefusalTold(kind: Kind, s: Session) {
    s.phase == Ended(Refused) ==> exists k :: 0 <= k < |s.acts| && RefusedAt(kind, s.acts, k)
  }

  predicate RefusedAt(kind: Kind, acts: seq<Act>, k: nat)
    requires k < |acts|
  {
    acts[k].Called? && !acts[k].ok &&
    if kind == FiberNative && acts[k].left.size > 0 then k == |acts| - 2 && acts[k + 1].Wrote?
    else k == |acts| - 1
  }

  lemma {:induction false} RefusedSessions(kind: Kind, events: seq<Event>, n: nat)
    requires AllFit(kind, events) && n <= |events|
    ensures RefusalTold(kind, After(kind, events, n))
  {
    hide Step;
    if n > 0 {
      RefusedSessions(kind, events, n - 1);
      var s := After(kind, events, n - 1);
      if s.phase == Open {
        StepRefusalTold(kind, s, events[n - 1]);
      }
    }
  }

  lemma StepRefusalTold(kind: Kind, s: Session, e: Event)
    requires Fits(kind, e) && s.phase == Open
    ensures RefusalTold(kind, Step(kind, s, e))
  {
    hide ValidUtf8;
    var s', k := Step(kind, s, e), |s.acts|;
    if s'.phase == Ended(Refused) {
      assert RefusedAt(kind, s'.acts, k);
    }
  }

  // ---------------------------------------------------------------- replies

  predicate IsReply(a: Act) {
    a.Wrote? || a.SentText? || a.SentBinary?
  }

  /** What a session's buffer holds after its acts: what the last callback left, except that a
      text reply clears it first. */
  function Carried(kind: Kind, acts: seq<Act>): Content {
    if acts == [] then Content(if kind == Websocket then TEXT else BINARY, 0, Zeros(MAX_MSG_SIZE))
    else
      var a := acts[|acts| - 1];
      if !a.Called? then Carried(kind, acts[..|acts| - 1])
      else if kind == Websocket && a.seen.kind == TEXT && a.ok then Content(a.left.kind, 0, Zeros(MAX_MSG_SIZE))
      else a.left
  }

  /** Beyond its message a callback sees what the buffer held before. */
  predicate CallTold(kind: Kind, acts: seq<Act>, k: nat)
    requires k < |acts|
  {
    acts[k].Called? && acts[k].seen.size <= MAX_MSG_SIZE ==>
      var seen, held := acts[k].seen, Carried(kind, acts[..k]);
      seen.buf[seen.size..] == held.buf[seen.size..] && (kind != Websocket ==> seen.kind == held.kind)
  }

  /** Which callbacks are answered to. */
  predicate MustReply(kind: Kind, call: Act)
    requires call.Called?
  {
    match kind
    case Native => call.ok && 1 <= call.left.size <= MAX_MSG_SIZE
    case FiberNative => call.left.size > 0
    case Websocket => call.ok
  }

  /** The bytes of a reply are those the callback left: the first `size` of them in a native
      session, all 1024 in a fiber session and in a binary reply, and zeros in a text reply. */
  predicate Answers(kind: Kind, call: Act, reply: Act)
    requires call.Called? && MustReply(kind, call)
  {
    match kind
    case Native => reply.Wrote? && reply.bytes == call.left.buf[..call.left.size]
    case FiberNative => reply.Wrote? && reply.bytes == call.left.buf
    case Websocket =>
      if call.seen.kind == TEXT then reply.SentText? && reply.bytes == Zeros(MAX_MSG_SIZE)
      else reply.SentBinary? && reply.bytes == call.left.buf
  }

  /** Every reply directly follows the callback it answers, and every callback that calls for
      one is followed by it. */
  predicate ReplyTold(kind: Kind, acts: seq<Act>, k: nat)
    requires k < |acts|
  {
    (IsReply(acts[k]) ==>
      k > 0 && acts[k - 1].Called? && MustReply(kind, acts[k - 1]) && Answers(kind, acts[k - 1], acts[k])) &&
    (acts[k].Called? && MustReply(kind, acts[k]) ==> k + 1 < |acts| && IsReply(acts[k + 1]))
  }

  ghost predicate RepliesTold(kind: Kind, s: Session) {
    (forall k: nat | k < |s.acts| :: CallTold(kind, s.acts, k) && ReplyTold(kind, s.acts, k)) &&
    (s.phase == Open ==> s.content == Carried(kind, s.acts))
  }

  /** Over whole sessions: which callbacks are answered, and with which bytes. */
  lemma {:induction false} SessionReplies(kind: Kind, events: seq<Event>, n: nat)
    requires AllFit(kind, events) && n <= |events|
    ensures RepliesTold(kind, After(kind, events, n))
  {
    hide Step;
    if n > 0 {
      SessionReplies(kind, events, n - 1);
      var s := After(kind, events, n - 1);
      if s.phase == Open {
        StepReplies(kind, s, events[n - 1]);
      }
    }
  }

  lemma StepReplies(kind: Kind, s: Session, e: Event)
    requires Fits(kind, e) && s.phase == Open && RepliesTold(kind, s)
    ensures RepliesTold(kind, Step(kind, s, e))
  {
    hide NativeStep, FiberStep, WsStep, RepliesTold;
    match kind
    case Native => NativeReplies(s, e);
    case FiberNative => FiberReplies(s, e);
    case Websocket => WsReplies(s, e);
  }

  /** A callback, and a reply exactly if it calls for one. */
  lemma RoundReplies(kind: Kind, s: Session, call: Act, replies: seq<Act>, s': Session)
    requires RepliesTold(kind, s) && s.phase == Open && call.Called? && s'.acts == s.acts + [call] + replies
    requires |replies| <= 1 && (|replies| == 1 <==> MustReply(kind, call))
    requires |replies| == 1 ==> IsReply(replies[0]) && Answers(kind, call, replies[0])
    requires call.seen.size <= MAX_MSG_SIZE
    requires call.seen.buf[call.seen.size..] == s.content.buf[call.seen.size..]
    requires kind != Websocket ==> call.seen.kind == s.content.kind
    requires s'.phase == Open ==>
               s'.content == if kind == Websocket && call.seen.kind == TEXT && call.ok
                             then Content(call.left.kind, 0, Zeros(MAX_MSG_SIZE)) else call.left
    ensures RepliesTold(kind, s')
  {
    var acts, acts', n := s.acts, s'.acts, |s.acts|;
    assert acts'[..n] == acts && acts'[n] == call && acts'[..n + 1] == acts + [call];
    hide Answers, MustReply, Carried;
    forall k: nat | k < |acts'|
      ensures CallTold(kind, acts', k) && ReplyTold(kind, acts', k)
    {
      if k < n {
        assert acts'[..k] == acts[..k] && acts'[k] == acts[k];
        assert CallTold(kind, acts, k) && ReplyTold(kind, acts, k);
      } else if k > n {
        assert acts'[k] == replies[0];
      }
    }
    CarriedAfter(kind, acts, call, replies);
  }

  lemma CarriedAfter(kind: Kind, acts: seq<Act>, call: Act, replies: seq<Act>)
    requires call.Called? && |replies| <= 1 && forall a :: a in replies ==> !a.Called?
    ensures Carried(kind, acts + [call] + replies) ==
            if kind == Websocket && call.seen.kind == TEXT && call.ok
            then Content(call.left.kind, 0, Zeros(MAX_MSG_SIZE)) else call.left
  {
    var all := acts + [call] + replies;
    if |replies| == 1 {
      assert all[..|all| - 1] == acts + [call] && all[|all| - 1] == replies[0];
    } else {
      assert all == acts + [call];
    }
  }

  lemma NativeReplies(s: Session, e: Event)
    requires Fits(Native, e) && s.phase == Open && RepliesTold(Native, s)
    ensures RepliesTold(Native, NativeStep(s, e))
  {
    if e.incoming.Data? {
      var s' := NativeStep(s, e);
      RoundReplies(Native, s, s'.acts[|s.acts|], s'.acts[|s.acts| + 1..], s');
    }
  }

  lemma FiberReplies(s: Session, e: Event)
    requires Fits(FiberNative, e) && s.phase == Open && RepliesTold(FiberNative, s)
    ensures RepliesTold(FiberNative, FiberStep(s, e))
  {
    if e.incoming.Data? {
      var s' := FiberStep(s, e);
      RoundReplies(FiberNative, s, s'.acts[|s.acts|], s'.acts[|s.acts| + 1..], s');
    }
  }

  lemma WsReplies(s: Session, e: Event)
    requires Fits(Websocket, e) && s.phase == Open && RepliesTold(Websocket, s)
    ensures RepliesTold(Websocket, WsStep(s, e))
  {
    hide ValidUtf8;
    AsciiIsUtf8(Zeros(MAX_MSG_SIZE));
    var s' := WsStep(s, e);
    if Delivers(e) {
      RoundReplies(Websocket, s, s'.acts[|s.acts|], s'.acts[|s.acts| + 1..], s');
    }
  }

  // ---------------------------------------------------------------- rounds and endings

  /** One round, by what it adds: the callback answers as it does for what it sees, and a reply
      gets out as the event says. */
  ghost predicate RoundTold(s: Session, e: Event, s': Session) {
    |s.acts| <= |s'.acts| && s'.acts[..|s.acts|] == s.acts &&
    forall k: nat | |s.acts| <= k < |s'.acts| ::
      (s'.acts[k].Called? ==> Answer(s'.acts[k].ok, s'.acts[k].left) == e.callback(s'.acts[k].seen)) &&
      (s'.acts[k].Wrote? ==> s'.acts[k].sent == e.sent) &&
      (s'.acts[k].SentText? ==> s'.acts[k].sent == e.sent) &&
      (s'.acts[k].SentBinary? ==> s'.acts[k].sent == e.sent)
  }

  lemma RoundsTold(kind: Kind, events: seq<Event>, n: nat)
    requires AllFit(kind, events) && n < |events|
    ensures var s := After(kind, events, n);
            if s.phase == Open then RoundTold(s, events[n], After(kind, events, n + 1))
            else After(kind, events, n + 1) == s
  {
    hide ValidUtf8;
    var s := After(kind, events, n);
    if s.phase == Open {
      match kind
      case Native =>
      case FiberNative =>
      case Websocket => WsRoundTold(s, events[n]);
    }
  }

  lemma WsRoundTold(s: Session, e: Event)
    requires Fits(Websocket, e) && s.phase == Open
    ensures RoundTold(s, e, WsStep(s, e))
  {
    hide ValidUtf8;
  }

  /** Native and fiber sessions end on a read error, a refusal, or a reply that does not get
      out to a callback that accepted; and native ones in a panic. */
  ghost predicate EndTold(kind: Kind, s: Session) {
    (s.phase == Ended(NotSent) <==>
      exists k: nat :: k < |s.acts| && s.acts[k].Called? && s.acts[k].ok && k + 1 < |s.acts| &&
        s.acts[k + 1].Wrote? && !s.acts[k + 1].sent) &&
    s.phase in {Open, Panicked, Ended(ReadFailed), Ended(Refused), Ended(NotSent)}
  }

  lemma {:induction false} SessionEnds(kind: Kind, events: seq<Event>, n: nat)
    requires AllFit(kind, events) && n <= |events| && kind != Websocket
    ensures EndTold(kind, After(kind, events, n))
    ensures After(kind, events, n).phase == Ended(ReadFailed) <==>
            exists k: nat :: k < n && FailsToRead(kind, events, k)
  {
    hide FailsToRead;
    hide Step, EndTold;
    NothingEnded(kind);
    if n > 0 {
      SessionEnds(kind, events, n - 1);
      var s := After(kind, events, n - 1);
      ReadsOrNot(kind, events, n - 1);
      if s.phase == Open {
        StepEnds(kind, s, events[n - 1]);
      }
    }
  }

  /** A read error while the session still runs. */
  predicate FailsToRead(kind: Kind, events: seq<Event>, k: nat)
    requires AllFit(kind, events) && k < |events|
  {
    After(kind, events, k).phase == Open && events[k].incoming.ReadError?
  }

  lemma ReadsOrNot(kind: Kind, events: seq<Event>, k: nat)
    requires AllFit(kind, events) && k < |events|
    ensures FailsToRead(kind, events, k) <==>
            After(kind, events, k).phase == Open && events[k].incoming.ReadError?
  {
  }

  lemma NothingEnded(kind: Kind)
    ensures EndTold(kind, Start(kind))
  {
  }

  lemma StepEnds(kind: Kind, s: Session, e: Event)
    requires Fits(kind, e) && s.phase == Open && kind != Websocket && EndTold(kind, s)
    ensures EndTold(kind, Step(kind, s, e))
    ensures Step(kind, s, e).phase == Ended(ReadFailed) <==> e.incoming.ReadError?
  {
    var s', n := Step(kind, s, e), |s.acts|;
    assert forall k :: 0 <= k < n ==> s'.acts[k] == s.acts[k];
    if s'.phase == Ended(NotSent) {
      assert s'.acts[n].Called? && s'.acts[n + 1].Wrote?;
    }
  }
}
