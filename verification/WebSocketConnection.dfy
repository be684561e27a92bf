/**
 The receiving side of a WebSocket connection: frames are cut from a read buffer
 that fills in pieces of any size, unmasked in place and handed to the session.
 */
module WebSocketConnection {
  import opened Common
  import opened StreamReadBuffs
  import opened Unmasking
  import opened WebSocketFrames

  // No 64-bit length field at the start of s.
  predicate Short(s: seq<bv8>) {
    |s| >= 2 ==> Marker(s[1]) < 127
  }

  // The computed length covers at least the header. A 64-bit length field below
  // six, or near its end, gives a length for which the source reads elsewhere.
  predicate CoversHeader(s: seq<bv8>) {
    CodeLength(s).Known? ==> |s| >= 2 && HeaderSize(s[1]) <= CodeLength(s).n
  }

  // The payload of the frame at buff[at..at + length), unmasked where it lies.
  method TakePayload(buff: array<bv8>, at: nat, length: nat) returns (payload: seq<bv8>)
    requires 2 <= length && at + length <= buff.Length && HeaderSize(buff[at + 1]) <= length
    modifies buff
    ensures forall i :: 0 <= i < buff.Length && !(at <= i < at + length) ==> buff[i] == old(buff[i])
    ensures HeaderSize(old(buff[at..at + length])[1]) <= length && payload == Parse(old(buff[at..at + length])).payload
  {
    hide Marker, HighBit, OpCode, Word, Masked, Parse;
    ghost var s := buff[at..at + length];
    assert s[1] == buff[at + 1];
    var isMask, marker := HighBit(buff[at + 1]), Marker(buff[at + 1]);
    var payloadPos := if marker < 126 then at + 2 else if marker == 126 then at + 2 + 2 else at + 2 + 8;
    ghost var n := HeaderSize(s[1]);
    ParsedPayload(s);
    if isMask {
      assert payloadPos == at + n - 4;
      assert s[n - 4] == buff[payloadPos] && s[n - 3] == buff[payloadPos + 1]
          && s[n - 2] == buff[payloadPos + 2] && s[n - 1] == buff[payloadPos + 3];
      var key := Word(buff[payloadPos], buff[payloadPos + 1], buff[payloadPos + 2], buff[payloadPos + 3]);
      payloadPos := payloadPos + 4;
      assert buff[payloadPos..at + length] == s[n..];
      Unmask(buff, payloadPos, at + length, key);
    } else {
      assert buff[payloadPos..at + length] == s[n..];
    }
    payload := buff[payloadPos..at + length];
  }

  lemma ParsedPayload(s: seq<bv8>)
    requires |s| >= 2 && HeaderSize(s[1]) <= |s|
    ensures var n := HeaderSize(s[1]);
            Parse(s).payload == if HighBit(s[1]) then Masked(s[n..], Word(s[n - 4], s[n - 3], s[n - 2], s[n - 1])) else s[n..]
  {
  }

  class WsConnection {
    const readBuff: StreamReadBuff<bv8>
    var currFrameLength: Option<nat>
    var session: Session

    // The frames handled so far, as they were received.
    ghost var frames: seq<seq<bv8>>

    ghost predicate Valid()
      reads this, readBuff, readBuff.buff
    {
      && readBuff.Valid()
      && |session.fragMsgData| <= MAX_FRAGMENTED_SIZE
      && (currFrameLength.Some? ==> CodeLength(readBuff.Available()) == Known(currFrameLength.value))
    }

    constructor (size: nat)
      ensures Valid() && fresh(readBuff) && fresh(readBuff.buff) && readBuff.Available() == [] && frames == []
      ensures currFrameLength.None? && session == Session(0, [], true, []) && readBuff.buff.Length == size && readBuff.dataEndPos == 0
    {
      hide CodeLength, StreamReadBuff.Content, StreamReadBuff.Relevant, StreamReadBuff.Available;
      readBuff := new StreamReadBuff<bv8>(size);
      currFrameLength := None;
      session := Session(0, [], true, []);
      frames := [];
    }

    // A control frame. Its answers are events.
    method ProcessControlFrame(opCode: nat, payload: seq<bv8>) returns (r: Reason)
      modifies `session
      ensures (session, r) == HandleControl(old(session), Frame(true, opCode, payload))
    {
      if opCode == 0xA {
        return NoReason;
      } else if opCode == 9 {
        session := session.(events := session.events + [SendPong]);
        return NoReason;
      } else if opCode == 8 {
        if session.alive {
          var code := if |payload| >= 2 then BigEndian(payload[..2]) else 0;
          session := session.(events := session.events + [OnClose(code)]);
          session := session.(alive := false);
        }
        return NoReason;
      } else {
        return ProtocolError;
      }
    }

    // The frame behind its unmasking.
    method Dispatch(isFin: bool, opCode: nat, payload: seq<bv8>) returns (r: Reason)
      modifies `session
      ensures (session, r) == Handle(old(session), Frame(isFin, opCode, payload))
    {
      if isFin {
        if opCode < 8 {
          if session.fragOpCode != 0 && opCode == 0 {
            if |session.fragMsgData| + |payload| > MAX_FRAGMENTED_SIZE {
              return SizeLimit;
            }
            session := session.(fragMsgData := session.fragMsgData + payload);
            session := session.(events := session.events + [OnMessage(Message(session.fragOpCode == 1, session.fragMsgData))]);
            session := session.(fragMsgData := [], fragOpCode := 0);
          } else if session.fragOpCode == 0 && opCode != 0 {
            session := session.(events := session.events + [OnMessage(Message(opCode == 1, payload))]);
          } else {
            return ProtocolError;
          }
        } else {
          r := ProcessControlFrame(opCode, payload);
          return;
        }
      } else if opCode < 8 {
        if session.fragOpCode != 0 && opCode == 0 {
          if |session.fragMsgData| + |payload| > MAX_FRAGMENTED_SIZE {
            return SizeLimit;
          }
          session := session.(fragMsgData := session.fragMsgData + payload);
        } else if session.fragOpCode == 0 && opCode != 0 {
          session := session.(fragMsgData := payload, fragOpCode := opCode);
        } else {
          return ProtocolError;
        }
      } else {
        return ProtocolError;
      }
      return NoReason;
    }

    // The frame of the given length at the read position: it is unmasked where
    // it lies, and nothing else in the buffer changes.
    method ProcessFrame(length: nat) returns (r: Reason)
      requires readBuff.Valid() && 2 <= length <= |readBuff.Available()|
      requires HeaderSize(readBuff.Available()[1]) <= length
      modifies `session, readBuff.buff
      ensures readBuff.Available()[length..] == old(readBuff.Available())[length..]
      ensures HeaderSize(old(readBuff.Available())[..length][1]) <= length
      ensures (session, r) == Handle(old(session), Parse(old(readBuff.Available())[..length]))
    {
      hide Handle, Marker, HighBit, OpCode, Word, Masked, StreamReadBuff.Content, StreamReadBuff.Available;
      var buff, at := readBuff.buff, readBuff.readPos;
      ghost var s, end := buff[at..at + length], readBuff.dataEndPos;
      ghost var rest := buff[at + length..end];
      InBuffer(readBuff, length);
      assert s[0] == buff[at] && s[1] == buff[at + 1];
      var isFin, opCode := HighBit(buff[at]), OpCode(buff[at]);
      var payload := TakePayload(buff, at, length);
      InBuffer(readBuff, length);
      assert buff[at + length..end] == rest;
      r := Dispatch(isFin, opCode, payload);
    }

    // Handles at most one frame. The `while (true)` of the source never comes
    // around: each of its paths returns.
    method ProcessIncoming() returns (r: Reason)
      requires Valid() && session.alive && CoversHeader(readBuff.Available())
      modifies this, readBuff, readBuff.buff
      ensures Valid() && (readBuff.buff == old(readBuff.buff) || fresh(readBuff.buff))
      ensures Handled(old(readBuff.Available()), old(session), old(frames), r)
    {
      hide Handle, Parse, Marker, BigEndian, HighBit, StreamReadBuff.Content, StreamReadBuff.Relevant, StreamReadBuff.Available;
      var data := readBuff.Available();
      if currFrameLength.None? {
        var length := CodeLength(data);
        if length.NeedMore? {
          MoreIsMore(data);
          var enough := readBuff.RequestData(length.atLeast);
          return NoReason;
        }
        currFrameLength := Some(length.n);
      }
      var n := currFrameLength.value;
      if n > MAX_FRAME_SIZE {
        return SizeLimit;
      }
      if |data| < n {
        var enough := readBuff.RequestData(n);
        return NoReason;
      }
      r := TakeFrame(n);
    }

    // What ProcessIncoming does with the available bytes s.
    ghost predicate Handled(s: seq<bv8>, before: Session, handled: seq<seq<bv8>>, r: Reason)
      requires readBuff.Valid()
      reads this, readBuff, readBuff.buff
    {
      match CodeLength(s)
      case NeedMore(_) =>
        r == NoReason && readBuff.Available() == s && session == before && frames == handled
        && readBuff.dataEndPos < readBuff.buff.Length
      case Known(n) =>
        if n > MAX_FRAME_SIZE then
          r == SizeLimit && readBuff.Available() == s && session == before && frames == handled
        else if n > |s| then
          r == NoReason && readBuff.Available() == s && session == before && frames == handled
          && readBuff.dataEndPos < readBuff.buff.Length
        else
          && readBuff.Available() == s[n..]
          && frames == handled + [s[..n]]
          && n >= 2 && HeaderSize(s[..n][1]) <= n
          && (session, r) == Handle(before, Parse(s[..n]))
    }

    // ProcessFrame and Consume on a complete frame.
    method TakeFrame(n: nat) returns (r: Reason)
      requires readBuff.Valid() && session.alive && |session.fragMsgData| <= MAX_FRAGMENTED_SIZE
      requires CodeLength(readBuff.Available()) == Known(n) && n <= MAX_FRAME_SIZE && n <= |readBuff.Available()|
      requires CoversHeader(readBuff.Available())
      modifies this, readBuff, readBuff.buff
      ensures Valid() && readBuff.buff == old(readBuff.buff) && currFrameLength.None?
      ensures Handled(old(readBuff.Available()), old(session), old(frames), r)
    {
      hide Handle, Parse, Marker, BigEndian, HighBit, StreamReadBuff.Content, StreamReadBuff.Relevant, StreamReadBuff.Available;
      ghost var s, before := readBuff.Available(), session;
      assert s[..n][1] == s[1];
      PayloadSize(s[..n]);
      FragmentBound(before, Parse(s[..n]));
      r := ProcessFrame(n);
      var c := readBuff.Consume(n, false);
      currFrameLength := None;
      frames := frames + [s[..n]];
    }

    // OnRead without an error: data was read into the free part of the buffer.
    method OnRead(data: seq<bv8>) returns (r: Reason)
      requires Valid() && session.alive && |data| <= readBuff.buff.Length - readBuff.dataEndPos
      requires CoversHeader(readBuff.Available() + data)
      modifies this, readBuff, readBuff.buff
      ensures Valid() && (readBuff.buff == old(readBuff.buff) || fresh(readBuff.buff))
      ensures Handled(old(readBuff.Available()) + data, old(session), old(frames), r)
    {
      hide CodeLength, StreamReadBuff.Content, StreamReadBuff.Relevant, StreamReadBuff.Available;
      if currFrameLength.Some? {
        LengthStays(readBuff.Available(), data);
      }
      readBuff.Put(data);
      var ok := readBuff.OnNewData(|data|);
      r := ProcessIncoming();
    }
  }

  lemma InBuffer(b: StreamReadBuff<bv8>, n: nat)
    requires b.Valid() && n <= |b.Available()|
    ensures b.Available()[..n] == b.buff[b.readPos..b.readPos + n]
    ensures b.Available()[n..] == b.buff[b.readPos + n..b.dataEndPos]
  {
  }

  lemma MoreIsMore(s: seq<bv8>)
    requires CodeLength(s).NeedMore?
    ensures CodeLength(s).atLeast > |s|
  {
  }

  lemma ShortFrame(s: seq<bv8>)
    requires Short(s)
    ensures CodeLength(s) == RfcLength(s) && CoversHeader(s)
  {
  }

  lemma WholeFrame(s: seq<bv8>, n: nat)
    requires RfcLength(s) == Known(n) && n <= |s|
    ensures n >= 2 && Whole(s[..n]) && HeaderSize(s[..n][1]) <= n && s[..n][1] == s[1]
  {
    hide Marker, BigEndian, HighBit;
    if |s| >= 4 && n >= 4 {
      assert s[..n][2..4] == s[2..4];
    }
    if |s| >= 10 && n >= 10 {
      assert s[..n][2..10] == s[2..10];
    }
  }

  lemma PayloadSize(s: seq<bv8>)
    requires |s| >= 2 && HeaderSize(s[1]) <= |s|
    ensures |Parse(s).payload| <= |s|
  {
  }

  /* Whole connections. */

  lemma WholeParses(f: seq<bv8>)
    requires Whole(f)
    ensures |f| >= 2 && HeaderSize(f[1]) <= |f|
  {
  }

  function ParseWhole(f: seq<bv8>): Frame
    requires Whole(f)
  {
    WholeParses(f);
    Parse(f)
  }

  function Parsed(frames: seq<seq<bv8>>): (fs: seq<Frame>)
    requires forall f :: f in frames ==> Whole(f)
    ensures |fs| == |frames|
  {
    if frames == [] then [] else
      assert frames[|frames| - 1] in frames;
      Parsed(frames[..|frames| - 1]) + [ParseWhole(frames[|frames| - 1])]
  }

  lemma ParsedSnoc(frames: seq<seq<bv8>>, f: seq<bv8>)
    requires Whole(f) && forall g :: g in frames ==> Whole(g)
    ensures Parsed(frames + [f]) == Parsed(frames) + [ParseWhole(f)]
  {
  }

  lemma HandleAllSnoc(s: Session, fs: seq<Frame>, f: Frame)
    requires HandleAll(s, fs).1.NoReason?
    ensures HandleAll(s, fs + [f]) == Handle(HandleAll(s, fs).0, f)
  {
    hide Handle;
    HandleAllConcat(s, fs, [f]);
    assert [f][1..] == [];
  }

  lemma AliveStep(s: Session, f: Frame)
    ensures Handle(s, f).0.alive ==> s.alive && !IsClose(f)
  {
  }

  // As long as there is a handler, no close has come.
  lemma {:induction false} AliveMeansNoClose(s: Session, fs: seq<Frame>)
    requires HandleAll(s, fs).0.alive && HandleAll(s, fs).1.NoReason?
    ensures s.alive && forall i :: 0 <= i < |fs| ==> !IsClose(fs[i])
    decreases |fs|
  {
    hide Handle, IsClose;
    if fs != [] {
      AliveStep(s, fs[0]);
      AliveMeansNoClose(Handle(s, fs[0]).0, fs[1..]);
    }
  }

  // No frame of the stream has a 64-bit length field.
  ghost predicate ShortFrames(s: seq<bv8>) {
    (forall f :: f in Frames(s).0 ==> Short(f)) && Short(Frames(s).1)
  }

  lemma ShortStart(s: seq<bv8>, t: seq<bv8>)
    requires ShortFrames(s + t)
    ensures Short(s)
  {
    hide Marker, BigEndian, HighBit;
    var all := s + t;
    if |s| >= 2 {
      assert all[1] == s[1];
      if Frames(all).0 != [] {
        var n := RfcLength(all).n;
        RfcStays(all, []);
        assert all + [] == all;
        var f := Frames(all).0[0];
        assert f in Frames(all).0;
        assert f == all[..n] && f[1] == all[1];
      }
    }
  }

  // The stream behind some whole frames.
  lemma ShortBehind(frames: seq<seq<bv8>>, rest: seq<bv8>)
    requires ShortFrames(Flat(frames) + rest) && forall f :: f in frames ==> Whole(f)
    ensures ShortFrames(rest)
  {
    hide Frames, Flat, Short, Whole;
    FramesOf(frames, rest);
  }

  const START := Session(0, [], true, [])

  // The whole frames at the start of the stream were handled with this outcome,
  // and the rest is what follows them.
  ghost predicate Served(stream: seq<bv8>, frames: seq<seq<bv8>>, rest: seq<bv8>, session: Session, r: Reason) {
    && stream == Flat(frames) + rest
    && (forall f :: f in frames ==> Whole(f))
    && HandleAll(START, Parsed(frames)) == (session, r)
    && ClosesLast(Parsed(frames))
  }

  lemma ServedFrame(stream: seq<bv8>, frames: seq<seq<bv8>>, s: seq<bv8>, more: seq<bv8>, session: Session, n: nat)
    requires Served(stream, frames, s + more, session, NoReason) && session.alive && n <= |s| && Whole(s[..n])
    ensures var after := Handle(session, ParseWhole(s[..n]));
            Served(stream, frames + [s[..n]], s[n..] + more, after.0, after.1)
  {
    hide Whole, Flat, Parsed, HandleAll, ParseWhole, Handle, IsClose;
    var f := s[..n];
    AliveMeansNoClose(START, Parsed(frames));
    FlatSnoc(frames, f);
    assert Flat(frames) + (s + more) == Flat(frames) + f + (s[n..] + more);
    ParsedSnoc(frames, f);
    HandleAllSnoc(START, Parsed(frames), ParseWhole(f));
  }

  // What is served are the first frames of the stream.
  lemma ServedPrefix(stream: seq<bv8>, frames: seq<seq<bv8>>, rest: seq<bv8>, session: Session, r: Reason)
    requires Served(stream, frames, rest, session, r)
    ensures |frames| <= |Frames(stream).0| && frames == Frames(stream).0[..|frames|]
  {
    hide Flat, Frames, Whole, HandleAll, Parsed;
    FramesOf(frames, rest);
  }

  // As Served, or the next frame is refused for the length in its header.
  ghost predicate Ended(stream: seq<bv8>, frames: seq<seq<bv8>>, rest: seq<bv8>, session: Session, r: Reason) {
    || Served(stream, frames, rest, session, r)
    || (r.SizeLimit? && Served(stream, frames, rest, session, NoReason)
        && RfcLength(rest).Known? && RfcLength(rest).n > MAX_FRAME_SIZE)
  }

  // A whole frame at the start of s is handled, unless it is too long.
  lemma HandledFrames(c: WsConnection, s: seq<bv8>, before: Session, handled: seq<seq<bv8>>, r: Reason)
    requires c.Valid() && c.Handled(s, before, handled, r) && Short(s)
    ensures var l := RfcLength(s);
            if l.Known? && l.n > MAX_FRAME_SIZE then
              r.SizeLimit? && c.readBuff.Available() == s && c.session == before && c.frames == handled
            else if l.NeedMore? || l.n > |s| then
              && r.NoReason? && c.readBuff.Available() == s && c.session == before && c.frames == handled
              && Frames(s).0 == [] && c.readBuff.dataEndPos < c.readBuff.buff.Length
            else
              && 2 <= l.n <= |s| && Whole(s[..l.n]) && c.frames == handled + [s[..l.n]]
              && (c.session, r) == Handle(before, ParseWhole(s[..l.n]))
              && c.readBuff.Available() == s[l.n..]
              && Frames(s).0 == [s[..l.n]] + Frames(s[l.n..]).0
  {
    hide CodeLength, RfcLength, Whole, Parse, Handle, StreamReadBuff.Content, StreamReadBuff.Available;
    ShortFrame(s);
    if RfcLength(s).Known? && RfcLength(s).n <= |s| {
      WholeFrame(s, RfcLength(s).n);
    }
  }

  // What one read leaves: the frames behind the first one. So a whole frame is
  // left exactly when at least two were there.
  lemma ReadLeaves(c: WsConnection, s: seq<bv8>, before: Session, handled: seq<seq<bv8>>, r: Reason)
    requires c.Valid() && c.Handled(s, before, handled, r) && Short(s)
    requires RfcLength(s).Known? ==> RfcLength(s).n <= MAX_FRAME_SIZE
    ensures Frames(c.readBuff.Available()).0 == if Frames(s).0 == [] then [] else Frames(s).0[1..]
    ensures Frames(c.readBuff.Available()).0 != [] <==> |Frames(s).0| >= 2
  {
    hide RfcLength, Whole, Handle, StreamReadBuff.Content, StreamReadBuff.Available, Frames;
    HandledFrames(c, s, before, handled, r);
  }

  lemma ServedOnce(stream: seq<bv8>, frames: seq<seq<bv8>>, rest: seq<bv8>, session: Session)
    requires Served(stream, frames, rest, session, NoReason)
    ensures !Served(stream, frames, rest, session, SizeLimit)
  {
  }

  lemma HandledEnds(c: WsConnection, stream: seq<bv8>, s: seq<bv8>, more: seq<bv8>, before: Session, handled: seq<seq<bv8>>, r: Reason)
    requires c.Valid() && c.Handled(s, before, handled, r) && Short(s) && before.alive
    requires Served(stream, handled, s + more, before, NoReason)
    ensures Ended(stream, c.frames, c.readBuff.Available() + more, c.session, r)
    ensures if Served(stream, c.frames, c.readBuff.Available() + more, c.session, r)
            then |c.frames| == |handled| + Min(1, |Frames(s).0|) else c.frames == handled
    ensures |c.readBuff.Available()| < |s| || r.SizeLimit?
         || (c.readBuff.Available() == s && c.readBuff.dataEndPos < c.readBuff.buff.Length)
  {
    hide Served, RfcLength, Whole, ParseWhole, Handle, StreamReadBuff.Content, StreamReadBuff.Available, WsConnection.Handled, Frames;
    HandledFrames(c, s, before, handled, r);
    ServedOnce(stream, handled, s + more, before);
    if RfcLength(s).Known? {
      RfcStays(s, more);
      var n := RfcLength(s).n;
      if n <= MAX_FRAME_SIZE && n <= |s| {
        ServedFrame(stream, handled, s, more, before, n);
      }
    }
  }

  // What is available at the start of a stream of short frames is short.
  lemma ServedShort(stream: seq<bv8>, frames: seq<seq<bv8>>, s: seq<bv8>, more: seq<bv8>, session: Session)
    requires ShortFrames(stream) && Served(stream, frames, s + more, session, NoReason)
    ensures Short(s)
  {
    hide ShortFrames, Flat, Whole, HandleAll, Parsed;
    ShortBehind(frames, s + more);
    ShortStart(s, more);
  }

  // The whole frames among the first n bytes of a stream.
  function Arrived(stream: seq<bv8>, n: nat): nat {
    |Frames(if n <= |stream| then stream[..n] else stream).0|
  }

  lemma ServedArrived(stream: seq<bv8>, frames: seq<seq<bv8>>, s: seq<bv8>, more: seq<bv8>, session: Session)
    requires Served(stream, frames, s + more, session, NoReason)
    ensures |more| <= |stream| && Arrived(stream, |stream| - |more|) == |frames| + |Frames(s).0|
  {
    hide Flat, Frames, Whole, HandleAll, Parsed;
    FramesOf(frames, s);
    assert stream[..|stream| - |more|] == Flat(frames) + s;
  }

  // StartAsyncRead and OnRead. A read without room for a byte yields none. One
  // more frame is handled if one more has arrived.
  method Round(c: WsConnection, sock: Socket<bv8>, ghost stream: seq<bv8>) returns (open: bool, r: Reason, size: nat)
    requires c.Valid() && c.session.alive && ShortFrames(stream)
    requires Served(stream, c.frames, c.readBuff.Available() + sock.incoming, c.session, NoReason)
    modifies c, c.readBuff, c.readBuff.buff, sock
    ensures c.Valid() && (c.readBuff.buff == old(c.readBuff.buff) || fresh(c.readBuff.buff))
    ensures Ended(stream, c.frames, c.readBuff.Available() + sock.incoming, c.session, r)
    ensures |old(sock.incoming)| == size + |sock.incoming| && |sock.incoming| <= |stream|
    ensures if size == 0 && open then sock.cuts == old(sock.cuts)
            else size <= Cut(old(sock.cuts)) && sock.cuts == if old(sock.cuts) == [] then [] else old(sock.cuts)[1..]
    ensures open ==> if Served(stream, c.frames, c.readBuff.Available() + sock.incoming, c.session, r)
                     then |c.frames| == Min(|old(c.frames)| + 1, Arrived(stream, |stream| - |sock.incoming|))
                     else c.frames == old(c.frames)
    ensures !open ==> r.NoReason? && c.session.alive && sock.incoming == [] && size == 0 && c.frames == old(c.frames)
    ensures open && r.NoReason? ==>
              || |sock.incoming| < |old(sock.incoming)|
              || (sock.incoming == old(sock.incoming)
                  && (|c.readBuff.Available()| < |old(c.readBuff.Available())|
                      || (c.readBuff.Available() == old(c.readBuff.Available())
                          && old(c.readBuff.dataEndPos == c.readBuff.buff.Length)
                          && c.readBuff.dataEndPos < c.readBuff.buff.Length)))
  {
    hide ShortFrames, Served, Ended, Short, CoversHeader, Arrived, Frames, WsConnection.Handled, StreamReadBuff.Content, StreamReadBuff.Available;
    ghost var s, incoming, before, handled := c.readBuff.Available(), sock.incoming, c.session, c.frames;
    var reqLength, freeLength := c.readBuff.GetReadInfo();
    var data := [];
    open, r := true, NoReason;
    if freeLength > 0 {
      data := sock.ReadSome(freeLength);
    }
    size := |data|;
    assert s + incoming == (s + data) + sock.incoming;
    ServedArrived(stream, c.frames, s + data, sock.incoming, c.session);
    if freeLength > 0 && data == [] {
      EndedServed(stream);
      assert s + data == s;
      return false, NoReason, 0;
    }
    ServedShort(stream, c.frames, s + data, sock.incoming, c.session);
    ShortFrame(s + data);
    r := c.OnRead(data);
    HandledEnds(c, stream, s + data, sock.incoming, before, handled, r);
    assert data == [] ==> s + data == s;
  }

  lemma ServedStart(stream: seq<bv8>)
    ensures Served(stream, [], [] + stream, START, NoReason)
  {
  }

  /* How far the handling lags behind. */

  // counts[k] frames are handled after k reads: each read handles one frame more
  // if one more has arrived.
  ghost predicate Paced(stream: seq<bv8>, sizes: seq<nat>, counts: seq<nat>) {
    && |counts| == |sizes| + 1 && counts[0] == 0
    && (forall k :: 0 < k <= |sizes| ==> counts[k] == Min(counts[k - 1] + 1, Arrived(stream, Sum(sizes[..k]))))
  }

  lemma {:induction false} PacedStep(stream: seq<bv8>, sizes: seq<nat>, counts: seq<nat>, size: nat, n: nat)
    requires Paced(stream, sizes, counts)
    requires n == Min(counts[|sizes|] + 1, Arrived(stream, Sum(sizes) + size))
    ensures Paced(stream, sizes + [size], counts + [n])
  {
    hide Arrived, Min, Sum;
    var sizes', counts' := sizes + [size], counts + [n];
    SumSnoc(sizes, size);
    forall k | 0 < k <= |sizes'|
      ensures counts'[k] == Min(counts'[k - 1] + 1, Arrived(stream, Sum(sizes'[..k])))
    {
      if k <= |sizes| {
        assert sizes'[..k] == sizes[..k];
        assert counts[k] == Min(counts[k - 1] + 1, Arrived(stream, Sum(sizes[..k])));
      } else {
        assert sizes'[..k] == sizes';
      }
    }
  }

  // Every read that does not get a new frame handles what has arrived in full;
  // every other one handles a frame.
  lemma {:induction false} LagBounds(stream: seq<bv8>, sizes: seq<nat>, counts: seq<nat>, k: nat) returns (j: nat)
    requires Paced(stream, sizes, counts) && k <= |sizes|
    ensures forall i :: 0 <= i <= k ==> counts[k] <= Arrived(stream, Sum(sizes[..i])) + (k - i)
    ensures j <= k && counts[k] == Arrived(stream, Sum(sizes[..j])) + (k - j)
  {
    hide Frames;
    if k == 0 {
      assert sizes[..0] == [] && Frames(stream[..0]).0 == [] by { NothingArrived(stream); }
      j := 0;
    } else {
      j := LagBounds(stream, sizes, counts, k - 1);
      assert counts[k] == Min(counts[k - 1] + 1, Arrived(stream, Sum(sizes[..k])));
      if counts[k] == Arrived(stream, Sum(sizes[..k])) {
        j := k;
      }
    }
  }

  lemma NothingArrived(stream: seq<bv8>)
    ensures Frames(stream[..0]).0 == [] && Arrived(stream, 0) == 0
  {
  }

  // All frames that have arrived are handled exactly if no run of reads up to
  // the last one brought more frames than it has reads.
  lemma CaughtUp(stream: seq<bv8>, sizes: seq<nat>, counts: seq<nat>)
    requires Paced(stream, sizes, counts)
    ensures var all := Arrived(stream, Sum(sizes));
            counts[|sizes|] == all <==>
            forall j :: 0 <= j <= |sizes| ==> all - Arrived(stream, Sum(sizes[..j])) <= |sizes| - j
  {
    hide Arrived, Paced;
    var j := LagBounds(stream, sizes, counts, |sizes|);
    assert sizes[..|sizes|] == sizes;
    PacedBound(stream, sizes, counts);
  }

  lemma PacedBound(stream: seq<bv8>, sizes: seq<nat>, counts: seq<nat>)
    requires Paced(stream, sizes, counts)
    ensures |counts| == |sizes| + 1
  {
  }

  // No frame ever waits exactly if no read completes two.
  lemma NeverBehind(stream: seq<bv8>, sizes: seq<nat>, counts: seq<nat>)
    requires Paced(stream, sizes, counts)
    ensures (forall k :: 0 <= k <= |sizes| ==> counts[k] == Arrived(stream, Sum(sizes[..k]))) <==>
            (forall k :: 0 < k <= |sizes| ==> Arrived(stream, Sum(sizes[..k])) <= Arrived(stream, Sum(sizes[..k - 1])) + 1)
  {
    hide Arrived;
    if forall k :: 0 < k <= |sizes| ==> Arrived(stream, Sum(sizes[..k])) <= Arrived(stream, Sum(sizes[..k - 1])) + 1 {
      AllInStep(stream, sizes, counts, |sizes|);
    } else {
      var k :| 0 < k <= |sizes| && Arrived(stream, Sum(sizes[..k])) > Arrived(stream, Sum(sizes[..k - 1])) + 1;
      assert counts[k] == Min(counts[k - 1] + 1, Arrived(stream, Sum(sizes[..k])));
    }
  }

  lemma {:induction false} AllInStep(stream: seq<bv8>, sizes: seq<nat>, counts: seq<nat>, n: nat)
    requires Paced(stream, sizes, counts) && n <= |sizes|
    requires forall k :: 0 < k <= |sizes| ==> Arrived(stream, Sum(sizes[..k])) <= Arrived(stream, Sum(sizes[..k - 1])) + 1
    ensures forall k :: 0 <= k <= n ==> counts[k] == Arrived(stream, Sum(sizes[..k]))
  {
    hide Arrived;
    if n == 0 {
      assert sizes[..0] == [];
      NothingArrived(stream);
    } else {
      AllInStep(stream, sizes, counts, n - 1);
      assert counts[n] == Min(counts[n - 1] + 1, Arrived(stream, Sum(sizes[..n])));
    }
  }

  /* Whole runs. */

  // The sizes of the reads that yielded something.
  function Yields(sizes: seq<nat>): (r: seq<nat>)
    ensures |r| <= |sizes|
  {
    if sizes == [] then []
    else Yields(sizes[..|sizes| - 1]) + if sizes[|sizes| - 1] == 0 then [] else [sizes[|sizes| - 1]]
  }

  // The reads keep to the cuts, and the cuts behind them are left.
  ghost predicate KeepsTo(sizes: seq<nat>, pieces: seq<nat>, left: seq<nat>) {
    var some := Yields(sizes);
    && left == (if |some| <= |pieces| then pieces[|some|..] else [])
    && (forall i :: 0 <= i < |some| ==> some[i] <= Cut(if i <= |pieces| then pieces[i..] else []))
  }

  lemma KeepsToNext(sizes: seq<nat>, pieces: seq<nat>, left: seq<nat>, size: nat)
    requires KeepsTo(sizes, pieces, left) && size <= Cut(left)
    ensures KeepsTo(sizes + [size], pieces, if size == 0 || left == [] then left else left[1..])
  {
    assert (sizes + [size])[..|sizes|] == sizes;
  }

  // Reading goes on until a frame is refused, a close frame has come or the
  // peer has closed. For every way in which the stream arrives, its first n
  // frames are handled, in order, as many as the sizes of the reads say, and
  // what follows them is left, with the bytes that were not read at its end.
  method Serve(size: nat, stream: seq<bv8>, pieces: seq<nat>)
    returns (session: Session, r: Reason, rest: seq<bv8>, sizes: seq<nat>, ghost counts: seq<nat>)
    requires ShortFrames(stream)
    ensures |counts| == |sizes| + 1 && counts[|sizes|] <= |Frames(stream).0|
    ensures Ended(stream, Frames(stream).0[..counts[|sizes|]], rest, session, r)
    ensures if Served(stream, Frames(stream).0[..counts[|sizes|]], rest, session, r) then Paced(stream, sizes, counts)
            else |sizes| > 0 && counts[|sizes|] == counts[|sizes| - 1]
                 && Paced(stream, sizes[..|sizes| - 1], counts[..|sizes|])
    ensures Sum(sizes) <= |stream| <= Sum(sizes) + |rest|
    ensures r.NoReason? && session.alive ==> Sum(sizes) == |stream|
    ensures exists left :: KeepsTo(sizes, pieces, left)
    ensures |session.fragMsgData| <= MAX_FRAGMENTED_SIZE
  {
    hide Frames, ShortFrames, Ended, Served, Paced, KeepsTo, Arrived, StreamReadBuff.Content, StreamReadBuff.Available;
    var c := new WsConnection(size);
    var sock := new Socket<bv8>(stream, pieces);
    var open := true;
    r, sizes, counts := NoReason, [], [0];
    ServeStart(stream, pieces);
    EndedServed(stream);
    while open && r.NoReason? && c.session.alive
      invariant c.Valid() && fresh(c) && fresh(c.readBuff) && fresh(c.readBuff.buff) && fresh(sock)
      invariant !open ==> sock.incoming == []
      invariant Ended(stream, c.frames, c.readBuff.Available() + sock.incoming, c.session, r)
      invariant |counts| == |sizes| + 1 && counts[|sizes|] == |c.frames|
      invariant if Served(stream, c.frames, c.readBuff.Available() + sock.incoming, c.session, r) then Paced(stream, sizes, counts)
                else |sizes| > 0 && counts[|sizes|] == counts[|sizes| - 1]
                     && Paced(stream, sizes[..|sizes| - 1], counts[..|sizes|])
      invariant Sum(sizes) + |sock.incoming| == |stream|
      invariant KeepsTo(sizes, pieces, sock.cuts) || !open
      invariant exists left :: KeepsTo(sizes, pieces, left)
      decreases open && r.NoReason?, |sock.incoming|, |c.readBuff.Available()|, c.readBuff.buff.Length == c.readBuff.dataEndPos
    {
      EndedServed(stream);
      ghost var cuts := sock.cuts;
      var n;
      open, r, n := Round(c, sock, stream);
      if open {
        KeepsToNext(sizes, pieces, cuts, n);
        assert (sizes + [n])[..|sizes|] == sizes && (counts + [|c.frames|])[..|counts|] == counts;
        if Served(stream, c.frames, c.readBuff.Available() + sock.incoming, c.session, r) {
          PacedStep(stream, sizes, counts, n, |c.frames|);
        }
        sizes, counts := sizes + [n], counts + [|c.frames|];
      }
    }
    session, rest := c.session, c.readBuff.Available() + sock.incoming;
    EndedPrefix(stream, c.frames, rest, session, r);
  }

  lemma ServeStart(stream: seq<bv8>, pieces: seq<nat>)
    ensures Served(stream, [], [] + stream, START, NoReason) && Paced(stream, [], [0]) && KeepsTo([], pieces, pieces)
  {
    ServedStart(stream);
  }

  lemma EndedServed(stream: seq<bv8>)
    ensures forall frames, rest, session ::
              Ended(stream, frames, rest, session, NoReason) == Served(stream, frames, rest, session, NoReason)
  {
  }

  lemma EndedPrefix(stream: seq<bv8>, frames: seq<seq<bv8>>, rest: seq<bv8>, session: Session, r: Reason)
    requires Ended(stream, frames, rest, session, r)
    ensures |frames| <= |Frames(stream).0| && frames == Frames(stream).0[..|frames|]
  {
    hide Served, Frames;
    if Served(stream, frames, rest, session, r) {
      ServedPrefix(stream, frames, rest, session, r);
    } else {
      ServedPrefix(stream, frames, rest, session, NoReason);
    }
  }

  // What a connection's handler gets is what section 5.4 reads from the frames
  // handled, up to the first close or control frame that is not allowed.
  lemma ServedMessages(stream: seq<bv8>, frames: seq<seq<bv8>>, rest: seq<bv8>, session: Session, r: Reason)
    requires Served(stream, frames, rest, session, r)
    ensures var fs := Parsed(frames);
            var k := FirstStop(fs);
            var m := Messages(DataOf(fs[..k]));
            var stops := m.1.NoReason? && k < |fs|;
            var closes := stops && IsClose(fs[k]);
            && MessagesIn(session.events) == Log(m.0)
            && ClosesIn(session.events) == (if closes then [OnClose(CloseCode(fs[k]))] else [])
            && session.alive == !closes
            && r == if stops && !closes then ProtocolError else m.1
  {
    hide Flat, Whole, HandleAll, Parsed, Messages, DataOf, MessagesIn, ClosesIn, Log, IsClose, Flows, CloseCode;
    Reassembles(START, Parsed(frames));
  }

  lemma EmptyPong(t: seq<bv8>)
    ensures Short([0x8A, 0] + t) && RfcLength([0x8A, 0] + t) == Known(2) && Whole([0x8A, 0])
    ensures Handle(START, ParseWhole([0x8A, 0])) == (START, NoReason)
  {
  }

  // A second frame in the same read waits for another read: two pongs arrive,
  // one is handled, the other is whole and stays.
  method SecondFrameWaits() returns (rest: seq<bv8>, r: Reason)
    ensures Whole(rest) && r.NoReason?
  {
    hide RfcLength, CodeLength, CoversHeader, Short, Whole, Handle, ParseWhole, Frames, WsConnection.Handled, StreamReadBuff.Content, StreamReadBuff.Relevant, StreamReadBuff.Available;
    var c := new WsConnection(16);
    var pong: seq<bv8> := [0x8A, 0];
    var data := pong + pong;
    EmptyPong(pong);
    ShortFrame(data);
    assert [] + data == data && data[..2] == pong && data[2..] == pong;
    r := c.OnRead(data);
    HandledFrames(c, data, START, [], r);
    rest := c.readBuff.Available();
  }
}
