/**
 WebSocket frames on the receiving side: the length of a frame, its parts, and
 the reassembly of fragmented messages (sections 5.2 to 5.4 of RFC 6455).
 */
module WebSocketFrames {
  import opened Common
  import opened Unmasking

  const MAX_FRAME_SIZE: nat := 16 * 1024 * 1024
  const MAX_FRAGMENTED_SIZE: nat := 16 * 1024 * 1024

  /* Header fields. */

  function Marker(b: bv8): (r: nat)
    ensures r < 128
  {
    (b & 0x7F) as nat
  }

  predicate HighBit(b: bv8) {
    b & 0x80 != 0
  }

  function OpCode(b: bv8): (r: nat)
    ensures r < 16
  {
    (b & 0x0F) as nat
  }

  function BigEndian(s: seq<bv8>): (n: nat) {
    if s == [] then 0 else BigEndian(s[..|s| - 1]) * 256 + s[|s| - 1] as nat
  }

  datatype Length = NeedMore(atLeast: nat) | Known(n: nat)

  function MaskSize(b: bv8): nat {
    if HighBit(b) then 4 else 0
  }

  // The size of the header, from its second byte.
  function HeaderSize(b: bv8): nat {
    MaskSize(b) + if Marker(b) < 126 then 2 else if Marker(b) == 126 then 4 else 10
  }

  // Section 5.2: the length of the frame at the start of s, header included.
  function RfcLength(s: seq<bv8>): Length {
    if |s| < 2 then NeedMore(2)
    else if Marker(s[1]) < 126 then Known(HeaderSize(s[1]) + Marker(s[1]))
    else if Marker(s[1]) == 126 then
      if |s| < 4 then NeedMore(4) else Known(HeaderSize(s[1]) + BigEndian(s[2..4]))
    else
      if |s| < 10 then NeedMore(10) else Known(HeaderSize(s[1]) + BigEndian(s[2..10]))
  }

  // What ProcessIncoming computes. With a 64-bit length field it counts a header
  // of four bytes instead of ten, in 64-bit arithmetic.
  function CodeLength(s: seq<bv8>): Length {
    if |s| < 2 then NeedMore(2)
    else if Marker(s[1]) < 126 then Known(Marker(s[1]) + 2 + MaskSize(s[1]))
    else if Marker(s[1]) == 126 then
      if |s| < 2 + 2 then NeedMore(2 + 2) else Known(BigEndian(s[2..4]) + 2 + 2 + MaskSize(s[1]))
    else
      if |s| < 2 + 8 then NeedMore(2 + 8)
      else Known((BigEndian(s[2..10]) + 2 + 2 + MaskSize(s[1])) % 0x1_0000_0000_0000_0000)
  }

  // The frame length is right exactly when it is not a 64-bit one.
  lemma LengthIsRight(s: seq<bv8>)
    ensures CodeLength(s) == RfcLength(s) <==> !(|s| >= 10 && Marker(s[1]) == 127)
  {
  }

  // More bytes do not change a length that is known.
  lemma LengthStays(s: seq<bv8>, t: seq<bv8>)
    requires CodeLength(s).Known?
    ensures CodeLength(s + t) == CodeLength(s)
  {
    hide Marker, BigEndian, HighBit;
    assert (s + t)[1] == s[1];
    if |s| >= 4 {
      assert (s + t)[2..4] == s[2..4];
    }
    if |s| >= 10 {
      assert (s + t)[2..10] == s[2..10];
    }
  }

  /* A stream as frames. */

  // s is one whole frame.
  predicate Whole(s: seq<bv8>) {
    RfcLength(s) == Known(|s|)
  }

  // The frames of a stream, and the rest that is not a whole frame.
  function Frames(s: seq<bv8>): (seq<seq<bv8>>, seq<bv8>)
    decreases |s|
  {
    match RfcLength(s)
    case NeedMore(_) => ([], s)
    case Known(n) =>
      if n == 0 || n > |s| then ([], s)
      else
        var rest := Frames(s[n..]);
        ([s[..n]] + rest.0, rest.1)
  }

  lemma RfcStays(s: seq<bv8>, t: seq<bv8>)
    requires RfcLength(s).Known?
    ensures RfcLength(s + t) == RfcLength(s) && RfcLength(s).n >= 2
  {
    hide Marker, BigEndian, HighBit;
    assert (s + t)[1] == s[1];
    if |s| >= 4 {
      assert (s + t)[2..4] == s[2..4];
    }
    if |s| >= 10 {
      assert (s + t)[2..10] == s[2..10];
    }
  }

  // Whole frames in front of a stream are its first frames.
  lemma {:induction false} FramesOf(frames: seq<seq<bv8>>, rest: seq<bv8>)
    requires forall f :: f in frames ==> Whole(f)
    ensures Frames(Flat(frames) + rest) == (frames + Frames(rest).0, Frames(rest).1)
  {
    hide Frames, Whole;
    if frames == [] {
      assert Flat(frames) + rest == rest && frames + Frames(rest).0 == Frames(rest).0;
    } else {
      var f, more := frames[0], Flat(frames[1..]) + rest;
      FlatFront(frames);
      assert f in frames && Whole(f);
      FramesOf(frames[1..], rest);
      var s := Flat(frames) + rest;
      assert s == f + more;
      FrontFrame(f, more);
      assert frames + Frames(rest).0 == [f] + (frames[1..] + Frames(rest).0);
    }
  }

  lemma {:induction false} FrontFrame(f: seq<bv8>, more: seq<bv8>)
    requires Whole(f)
    ensures Frames(f + more) == ([f] + Frames(more).0, Frames(more).1)
  {
    hide RfcLength;
    RfcStays(f, more);
    assert (f + more)[..|f|] == f && (f + more)[|f|..] == more;
  }

  /* Frames as values. */

  datatype Frame = Frame(fin: bool, opCode: nat, payload: seq<bv8>)

  // Section 5.2 and 5.3: flags, opcode and unmasked payload.
  function Parse(s: seq<bv8>): Frame
    requires |s| >= 2 && HeaderSize(s[1]) <= |s|
  {
    var n := HeaderSize(s[1]);
    Frame(HighBit(s[0]), OpCode(s[0]),
          if HighBit(s[1]) then Masked(s[n..], Word(s[n - 4], s[n - 3], s[n - 2], s[n - 1])) else s[n..])
  }

  /* ProcessFrame behind the unmasking, and ProcessControlFrame. */

  datatype Message = Message(text: bool, data: seq<bv8>)

  // What the peer's frames make the connection do: OnMessage, an answer to a
  // ping, OnClose.
  datatype Event = OnMessage(m: Message) | SendPong | OnClose(code: nat)

  datatype Reason = NoReason | ProtocolError | SizeLimit

  // FragOpCode is 0 while no message is in parts; `alive` says that there still
  // is a message handler.
  datatype Session = Session(fragOpCode: nat, fragMsgData: seq<bv8>, alive: bool, events: seq<Event>)

  function Emit(s: Session, e: Event): Session {
    s.(events := s.events + [e])
  }

  function HandleControl(s: Session, f: Frame): (Session, Reason) {
    if f.opCode == 0xA then (s, NoReason)
    else if f.opCode == 9 then (Emit(s, SendPong), NoReason)
    else if f.opCode == 8 then
      if s.alive then
        (Emit(s, OnClose(if |f.payload| >= 2 then BigEndian(f.payload[..2]) else 0)).(alive := false), NoReason)
      else (s, NoReason)
    else (s, ProtocolError)
  }

  function Handle(s: Session, f: Frame): (Session, Reason) {
    if f.opCode >= 8 then
      if f.fin then HandleControl(s, f) else (s, ProtocolError)
    else if s.fragOpCode != 0 && f.opCode == 0 then
      var data := s.fragMsgData + f.payload;
      if |data| > MAX_FRAGMENTED_SIZE then (s, SizeLimit)
      else if f.fin then (Emit(s, OnMessage(Message(s.fragOpCode == 1, data))).(fragOpCode := 0, fragMsgData := []), NoReason)
      else (s.(fragMsgData := data), NoReason)
    else if s.fragOpCode == 0 && f.opCode != 0 then
      if f.fin then (Emit(s, OnMessage(Message(f.opCode == 1, f.payload))), NoReason)
      else (s.(fragOpCode := f.opCode, fragMsgData := f.payload), NoReason)
    else (s, ProtocolError)
  }

  // Frames one after the other, up to the first that is refused.
  function HandleAll(s: Session, fs: seq<Frame>): (Session, Reason)
    decreases |fs|
  {
    if fs == [] then (s, NoReason)
    else
      var (s', reason) := Handle(s, fs[0]);
      if reason.NoReason? then HandleAll(s', fs[1..]) else (s', reason)
  }

  // Frames that passed the size check keep the fragment buffer within bounds.
  lemma FragmentBound(s: Session, f: Frame)
    requires |s.fragMsgData| <= MAX_FRAGMENTED_SIZE && |f.payload| <= MAX_FRAME_SIZE
    ensures |Handle(s, f).0.fragMsgData| <= MAX_FRAGMENTED_SIZE
  {
  }

  /* Section 5.4 said without a state: a message is a frame with an opcode and
     the continuation frames up to the first final one. */

  function FirstFin(fs: seq<Frame>): (i: nat)
    ensures i <= |fs|
  {
    if fs == [] || fs[0].fin then 0 else 1 + FirstFin(fs[1..])
  }

  function Payloads(fs: seq<Frame>): seq<bv8> {
    if fs == [] then [] else Payloads(fs[..|fs| - 1]) + fs[|fs| - 1].payload
  }

  // Frame i cannot be part of the message that starts with fs[0].
  predicate Breaks(fs: seq<Frame>, i: nat)
    requires i < |fs|
  {
    fs[i].opCode != 0 || |Payloads(fs[..i + 1])| > MAX_FRAGMENTED_SIZE
  }

  function FirstBreak(fs: seq<Frame>, i: nat, end: nat): (j: nat)
    requires i <= end <= |fs|
    ensures i <= j <= end
    decreases end - i
  {
    if i == end || Breaks(fs, i) then i else FirstBreak(fs, i + 1, end)
  }

  // The number of frames up to the first final one, or all.
  function MessageSize(fs: seq<Frame>): (n: nat)
    ensures n <= |fs|
    ensures fs != [] ==> 0 < n
  {
    if FirstFin(fs) < |fs| then FirstFin(fs) + 1 else |fs|
  }

  function Messages(fs: seq<Frame>): (seq<Message>, Reason)
    decreases |fs|
  {
    if fs == [] then ([], NoReason)
    else if fs[0].opCode == 0 then ([], ProtocolError)
    else
      var end := MessageSize(fs);
      var i := FirstBreak(fs, 1, end);
      if i < end then ([], if fs[i].opCode != 0 then ProtocolError else SizeLimit)
      else if FirstFin(fs) == |fs| then ([], NoReason)
      else
        var rest := Messages(fs[end..]);
        ([Message(fs[0].opCode == 1, Payloads(fs[..end]))] + rest.0, rest.1)
  }

  /* The session against section 5.4. */

  // The frames of an unfinished message so far.
  ghost predicate Started(head: seq<Frame>) {
    && head != [] && head[0].opCode != 0
    && (forall i :: 0 <= i < |head| ==> !head[i].fin)
    && (forall i :: 1 <= i < |head| ==> !Breaks(head, i))
  }

  lemma {:induction false} FirstFinBehind(head: seq<Frame>, fs: seq<Frame>)
    requires forall i :: 0 <= i < |head| ==> !head[i].fin
    ensures FirstFin(head + fs) == |head| + FirstFin(fs)
  {
    if head == [] {
      assert head + fs == fs;
    } else {
      assert (head + fs)[1..] == head[1..] + fs;
      FirstFinBehind(head[1..], fs);
    }
  }

  lemma {:induction false} FirstBreakBehind(head: seq<Frame>, fs: seq<Frame>, i: nat, end: nat)
    requires 1 <= i <= |head| <= end <= |head + fs| && forall j :: 1 <= j < |head| ==> !Breaks(head, j)
    ensures FirstBreak(head + fs, i, end) == FirstBreak(head + fs, |head|, end)
    decreases |head| - i
  {
    if i < |head| {
      assert (head + fs)[..i + 1] == head[..i + 1];
      assert !Breaks(head, i);
      FirstBreakBehind(head, fs, i + 1, end);
    }
  }

  lemma PayloadsSnoc(fs: seq<Frame>, f: Frame)
    ensures Payloads(fs + [f]) == Payloads(fs) + f.payload
  {
  }

  function Log(ms: seq<Message>): seq<Event> {
    seq(|ms|, i requires 0 <= i < |ms| => OnMessage(ms[i]))
  }

  lemma LogCons(m: Message, ms: seq<Message>)
    ensures Log([m] + ms) == [OnMessage(m)] + Log(ms)
  {
  }

  // In the middle of a message.
  lemma MidMessage(s: Session, head: seq<Frame>, fs: seq<Frame>)
    requires Started(head) && (forall f :: f in fs ==> f.opCode < 8)
    requires s.fragOpCode == head[0].opCode && s.fragMsgData == Payloads(head)
    ensures HandleAll(s, fs).0.events == s.events + Log(Messages(head + fs).0)
    ensures HandleAll(s, fs).1 == Messages(head + fs).1
    decreases |fs|, 1
  {
    hide Messages, Handle;
    if fs == [] {
      MessageOpen(head);
      assert head + fs == head && s.events + Log([]) == s.events;
    } else {
      var f := fs[0];
      assert f in fs;
      MidMessageStep(s, head, fs);
    }
  }

  lemma MessageOpen(head: seq<Frame>)
    requires Started(head)
    ensures Messages(head) == ([], NoReason)
  {
    FirstFinBehind(head, []);
    FirstBreakBehind(head, [], 1, |head|);
    assert head + [] == head;
  }

  lemma HeadSlices(head: seq<Frame>, f: Frame, rest: seq<Frame>)
    ensures var fs := head + [f] + rest;
            fs == head + ([f] + rest) && fs[|head|] == f && fs[..|head| + 1] == head + [f] && fs[|head| + 1..] == rest
  {
  }

  lemma HeadFacts(head: seq<Frame>, f: Frame, rest: seq<Frame>)
    requires Started(head)
    ensures var fs := head + [f] + rest;
            && |head| < MessageSize(fs)
            && FirstBreak(fs, 1, MessageSize(fs)) == FirstBreak(fs, |head|, MessageSize(fs))
            && (f.fin ==> FirstFin(fs) == |head| && MessageSize(fs) == |head| + 1)
  {
    hide FirstBreak, Payloads, Breaks;
    var fs, tail := head + [f] + rest, [f] + rest;
    HeadSlices(head, f, rest);
    FirstFinBehind(head, tail);
    assert tail[0] == f;
    FirstBreakBehind(head, tail, 1, MessageSize(fs));
  }

  // The frame behind the head ends it: a refusal, or a message.
  lemma MessageEnds(head: seq<Frame>, f: Frame, rest: seq<Frame>)
    requires Started(head)
    ensures var fs := head + [f] + rest;
            && (f.opCode != 0 ==> Messages(fs) == ([], ProtocolError))
            && (f.opCode == 0 && |Payloads(head + [f])| > MAX_FRAGMENTED_SIZE ==> Messages(fs) == ([], SizeLimit))
            && (f.opCode == 0 && |Payloads(head + [f])| <= MAX_FRAGMENTED_SIZE && f.fin ==>
                  Messages(fs) == ([Message(head[0].opCode == 1, Payloads(head + [f]))] + Messages(rest).0, Messages(rest).1))
  {
    hide Started, FirstFin, MessageSize, Payloads;
    StartedFacts(head);
    HeadSlices(head, f, rest);
    HeadFacts(head, f, rest);
    var fs := head + [f] + rest;
    assert fs[0] == head[0];
    assert Breaks(fs, |head|) ==> FirstBreak(fs, |head|, MessageSize(fs)) == |head|;
    assert !Breaks(fs, |head|) && f.fin ==> FirstBreak(fs, |head|, |head| + 1) == |head| + 1;
  }

  lemma {:induction false} MidMessageStep(s: Session, head: seq<Frame>, fs: seq<Frame>)
    requires fs != [] && Started(head) && (forall f :: f in fs ==> f.opCode < 8)
    requires s.fragOpCode == head[0].opCode && s.fragMsgData == Payloads(head)
    ensures HandleAll(s, fs).0.events == s.events + Log(Messages(head + fs).0)
    ensures HandleAll(s, fs).1 == Messages(head + fs).1
    decreases |fs|, 0
  {
    hide Messages, Started, Payloads, Log;
    var f, rest := fs[0], fs[1..];
    NoMessages();
    assert f in fs && forall g :: g in rest ==> g in fs;
    assert [f] + rest == fs && head + fs == head + [f] + rest;
    PayloadsSnoc(head, f);
    StartedFacts(head);
    MessageEnds(head, f, rest);
    assert s.events + Log([]) == s.events;
    if f.opCode == 0 && |Payloads(head + [f])| <= MAX_FRAGMENTED_SIZE {
      var s' := Handle(s, f).0;
      if f.fin {
        IdleMessages(s', rest);
        var m := Message(head[0].opCode == 1, Payloads(head + [f]));
        LogCons(m, Messages(rest).0);
        assert s.events + [OnMessage(m)] + Log(Messages(rest).0) == s.events + ([OnMessage(m)] + Log(Messages(rest).0));
      } else {
        StartedSnoc(head, f);
        MidMessage(s', head + [f], rest);
      }
    }
  }

  lemma StartedFacts(head: seq<Frame>)
    requires Started(head)
    ensures head != [] && head[0].opCode != 0
  {
  }

  lemma StartedSnoc(head: seq<Frame>, f: Frame)
    requires Started(head) && !f.fin && f.opCode == 0 && |Payloads(head + [f])| <= MAX_FRAGMENTED_SIZE
    ensures Started(head + [f])
  {
    var fs := head + [f];
    forall i | 1 <= i < |fs|
      ensures !Breaks(fs, i)
    {
      if i < |head| {
        assert fs[..i + 1] == head[..i + 1];
        assert !Breaks(head, i);
      } else {
        assert fs[..i + 1] == fs;
      }
    }
  }

  // Between messages.
  lemma IdleMessages(s: Session, fs: seq<Frame>)
    requires s.fragOpCode == 0 && (forall f :: f in fs ==> f.opCode < 8)
    ensures HandleAll(s, fs).0.events == s.events + Log(Messages(fs).0)
    ensures HandleAll(s, fs).1 == Messages(fs).1
    decreases |fs|, 2
  {
    hide Messages, Payloads, Log, Started;
    NoMessages();
    if fs == [] {
      assert s.events + Log([]) == s.events;
    } else {
      var f, rest := fs[0], fs[1..];
      assert f in fs && forall g :: g in rest ==> g in fs;
      assert [f] + rest == fs && s.events + Log([]) == s.events;
      if f.opCode == 0 {
        StrayContinuation(f, rest);
      } else if f.fin {
        SingleFrame(f, rest);
        var m := Message(f.opCode == 1, f.payload);
        IdleMessages(Emit(s, OnMessage(m)), rest);
        LogCons(m, Messages(rest).0);
        assert s.events + [OnMessage(m)] + Log(Messages(rest).0) == s.events + ([OnMessage(m)] + Log(Messages(rest).0));
      } else {
        FirstPart(f);
        MidMessage(s.(fragOpCode := f.opCode, fragMsgData := f.payload), [f], rest);
      }
    }
  }

  lemma FirstPart(f: Frame)
    requires f.opCode != 0 && !f.fin
    ensures Started([f]) && Payloads([f]) == f.payload
  {
  }

  lemma NoMessages()
    ensures Messages([]) == ([], NoReason) && Log([]) == []
  {
  }

  lemma StrayContinuation(f: Frame, rest: seq<Frame>)
    requires f.opCode == 0
    ensures Messages([f] + rest) == ([], ProtocolError)
  {
  }

  lemma SingleFrame(f: Frame, rest: seq<Frame>)
    requires f.opCode != 0 && f.fin
    ensures Messages([f] + rest) == ([Message(f.opCode == 1, f.payload)] + Messages(rest).0, Messages(rest).1)
  {
    var fs := [f] + rest;
    assert FirstFin(fs) == 0 && FirstBreak(fs, 1, 1) == 1;
    assert fs[..1] == [] + [f] && fs[1..] == rest;
    PayloadsSnoc([], f);
    assert [] + f.payload == f.payload;
  }

  /* Control frames in between. */

  function DataOf(fs: seq<Frame>): seq<Frame> {
    if fs == [] then []
    else (if fs[0].opCode < 8 then [fs[0]] else []) + DataOf(fs[1..])
  }

  function MessagesIn(es: seq<Event>): seq<Event> {
    if es == [] then []
    else MessagesIn(es[..|es| - 1]) + if es[|es| - 1].OnMessage? then [es[|es| - 1]] else []
  }

  // A ping or a pong, not fragmented.
  predicate PingPong(f: Frame) {
    f.fin && (f.opCode == 9 || f.opCode == 0xA)
  }

  function OnlyMessages(s: Session): Session {
    s.(events := MessagesIn(s.events))
  }

  lemma HandleData(s: Session, f: Frame)
    requires f.opCode < 8
    ensures Handle(OnlyMessages(s), f) == (OnlyMessages(Handle(s, f).0), Handle(s, f).1)
  {
  }

  lemma HandlePingPong(s: Session, f: Frame)
    requires PingPong(f)
    ensures OnlyMessages(Handle(s, f).0) == OnlyMessages(s) && Handle(s, f).1 == NoReason
  {
  }

  lemma {:induction false} ControlIsTransparent(s: Session, fs: seq<Frame>)
    requires forall f :: f in fs ==> f.opCode < 8 || PingPong(f)
    ensures HandleAll(OnlyMessages(s), DataOf(fs)) == (OnlyMessages(HandleAll(s, fs).0), HandleAll(s, fs).1)
    decreases |fs|
  {
    hide Handle, OnlyMessages;
    if fs != [] {
      var f := fs[0];
      assert f in fs;
      ControlIsTransparent(Handle(s, f).0, fs[1..]);
      if f.opCode < 8 {
        HandleData(s, f);
        assert DataOf(fs)[0] == f && DataOf(fs)[1..] == DataOf(fs[1..]);
      } else {
        HandlePingPong(s, f);
        assert [] + DataOf(fs[1..]) == DataOf(fs[1..]);
      }
    }
  }

  lemma {:induction false} DataOfIsData(fs: seq<Frame>)
    ensures forall f :: f in DataOf(fs) ==> f.opCode < 8
  {
    if fs != [] {
      DataOfIsData(fs[1..]);
    }
  }

  // Every ping is answered once, and nothing else is.
  function Pings(fs: seq<Frame>): nat {
    if fs == [] then 0 else (if fs[0].opCode == 9 then 1 else 0) + Pings(fs[1..])
  }

  function Pongs(es: seq<Event>): nat {
    if es == [] then 0 else Pongs(es[..|es| - 1]) + if es[|es| - 1].SendPong? then 1 else 0
  }

  lemma OnePong(s: Session, f: Frame)
    requires Flows(f)
    ensures Pongs(Handle(s, f).0.events) == Pongs(s.events) + if f.opCode == 9 then 1 else 0
  {
  }

  lemma {:induction false} PongsAnswerPings(s: Session, fs: seq<Frame>)
    requires (forall f :: f in fs ==> Flows(f)) && HandleAll(s, fs).1.NoReason?
    ensures Pongs(HandleAll(s, fs).0.events) == Pongs(s.events) + Pings(fs)
    decreases |fs|
  {
    hide Handle, Flows, Pongs;
    if fs != [] {
      assert fs[0] in fs;
      OnePong(s, fs[0]);
      PongsAnswerPings(Handle(s, fs[0]).0, fs[1..]);
    }
  }

  // With nothing but pings and pongs in between, the handler gets exactly the
  // messages of section 5.4, and the first frame that breaks its rules gives
  // the reason.
  lemma FlowReassembles(s: Session, fs: seq<Frame>)
    requires s.fragOpCode == 0 && s.events == [] && forall f :: f in fs ==> Flows(f)
    ensures MessagesIn(HandleAll(s, fs).0.events) == Log(Messages(DataOf(fs)).0)
    ensures HandleAll(s, fs).1 == Messages(DataOf(fs)).1
  {
    hide HandleAll, Messages, DataOf;
    ControlIsTransparent(s, fs);
    DataOfIsData(fs);
    IdleMessages(OnlyMessages(s), DataOf(fs));
    assert [] + Log(Messages(DataOf(fs)).0) == Log(Messages(DataOf(fs)).0);
  }

  /* Closing, and control frames that are not allowed. */

  // Data, a ping or a pong.
  predicate Flows(f: Frame) {
    f.opCode < 8 || PingPong(f)
  }

  predicate IsClose(f: Frame) {
    f.fin && f.opCode == 8
  }

  // Section 5.5.1: the first two bytes of the body, if there is one.
  function CloseCode(f: Frame): nat {
    if |f.payload| >= 2 then 256 * f.payload[0] as nat + f.payload[1] as nat else 0
  }

  lemma TwoBytes(s: seq<bv8>)
    requires |s| >= 2
    ensures BigEndian(s[..2]) == 256 * s[0] as nat + s[1] as nat
  {
    var two := s[..2];
    assert two[..1] == [s[0]] && two[..1][..0] == [];
    assert BigEndian(two[..1]) == s[0] as nat;
  }

  // The first frame that is none of these, or the end.
  function FirstStop(fs: seq<Frame>): (k: nat)
    ensures k <= |fs| && (forall i :: 0 <= i < k ==> Flows(fs[i])) && (k < |fs| ==> !Flows(fs[k]))
  {
    if fs == [] || !Flows(fs[0]) then 0 else 1 + FirstStop(fs[1..])
  }

  function ClosesIn(es: seq<Event>): seq<Event> {
    if es == [] then []
    else ClosesIn(es[..|es| - 1]) + if es[|es| - 1].OnClose? then [es[|es| - 1]] else []
  }

  lemma ClosesSnoc(es: seq<Event>, e: Event)
    ensures ClosesIn(es + [e]) == ClosesIn(es) + if e.OnClose? then [e] else []
    ensures MessagesIn(es + [e]) == MessagesIn(es) + if e.OnMessage? then [e] else []
  {
  }

  lemma {:induction false} HandleAllConcat(s: Session, fs: seq<Frame>, gs: seq<Frame>)
    ensures HandleAll(s, fs + gs) == if HandleAll(s, fs).1.NoReason? then HandleAll(HandleAll(s, fs).0, gs) else HandleAll(s, fs)
    decreases |fs|
  {
    hide Handle;
    if fs == [] {
      assert fs + gs == gs;
    } else {
      assert (fs + gs)[1..] == fs[1..] + gs;
      HandleAllConcat(Handle(s, fs[0]).0, fs[1..], gs);
    }
  }

  lemma FlowStaysOpen(s: Session, f: Frame)
    requires Flows(f)
    ensures Handle(s, f).0.alive == s.alive && ClosesIn(Handle(s, f).0.events) == ClosesIn(s.events)
  {
    var r := Handle(s, f).0;
    if r.events != s.events {
      var e := r.events[|s.events|];
      assert r.events == s.events + [e];
      ClosesSnoc(s.events, e);
    }
  }

  lemma {:induction false} FlowsStayOpen(s: Session, fs: seq<Frame>)
    requires forall f :: f in fs ==> Flows(f)
    ensures HandleAll(s, fs).0.alive == s.alive && ClosesIn(HandleAll(s, fs).0.events) == ClosesIn(s.events)
    decreases |fs|
  {
    hide Handle, Flows;
    if fs != [] {
      assert fs[0] in fs;
      FlowStaysOpen(s, fs[0]);
      FlowsStayOpen(Handle(s, fs[0]).0, fs[1..]);
    }
  }

  // A control frame that is neither a ping nor a pong ends the connection: a
  // close calls the handler once, with its code, and anything else is refused.
  lemma StopEnds(s: Session, f: Frame)
    requires !Flows(f) && s.alive
    ensures var end := Handle(s, f);
            && MessagesIn(end.0.events) == MessagesIn(s.events)
            && ClosesIn(end.0.events) == ClosesIn(s.events) + (if IsClose(f) then [OnClose(CloseCode(f))] else [])
            && end.0.alive == !IsClose(f)
            && end.1 == if IsClose(f) then NoReason else ProtocolError
  {
    ClosesSnoc(s.events, OnClose(CloseCode(f)));
    if |f.payload| >= 2 {
      TwoBytes(f.payload);
    }
  }

  // Nothing follows a close.
  ghost predicate ClosesLast(fs: seq<Frame>) {
    forall i :: 0 <= i < |fs| - 1 ==> !IsClose(fs[i])
  }

  // The frames up to the first control frame that is neither a ping nor a pong
  // give the messages and the reason of section 5.4. If they give no reason, that
  // frame closes the connection or is refused.
  lemma Reassembles(s: Session, fs: seq<Frame>)
    requires s.fragOpCode == 0 && s.events == [] && s.alive && ClosesLast(fs)
    ensures var k := FirstStop(fs);
            var m := Messages(DataOf(fs[..k]));
            var stops := m.1.NoReason? && k < |fs|;
            var closes := stops && IsClose(fs[k]);
            var end := HandleAll(s, fs);
            && MessagesIn(end.0.events) == Log(m.0)
            && ClosesIn(end.0.events) == (if closes then [OnClose(CloseCode(fs[k]))] else [])
            && end.0.alive == !closes
            && end.1 == if stops && !closes then ProtocolError else m.1
  {
    hide Handle, Flows, IsClose, Messages, DataOf, CloseCode, MessagesIn;
    var k := FirstStop(fs);
    var head, tail := fs[..k], fs[k..];
    assert fs == head + tail && forall f :: f in head ==> Flows(f);
    HandleAllConcat(s, head, tail);
    FlowReassembles(s, head);
    FlowsStayOpen(s, head);
    if k < |fs| {
      StopEnds(HandleAll(s, head).0, fs[k]);
      if k < |fs| - 1 {
        assert !IsClose(fs[k]);
      } else {
        assert tail[1..] == [];
      }
    }
  }
}
