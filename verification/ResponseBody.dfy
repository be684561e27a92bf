/**
 The body of a response on its way through the write queue to the socket: as it
 is when its length was announced, in chunks when it was not (section 7.1 of
 RFC 9112).
 */
module ResponseBody {
  import opened Common
  import opened WriteBuffQueues

  const WRITE_BUFF_SIZE: nat := 24 * 1024
  const CHUNK_HEADER_LENGTH: nat := 8 + 2
  const CHUNK_FOOTER_LENGTH: nat := 2
  const OFFERED: nat := WRITE_BUFF_SIZE - CHUNK_HEADER_LENGTH - CHUNK_FOOTER_LENGTH

  /* The chunked coding, as its receiver reads it. */

  function HexRun(s: string): (n: nat)
    ensures n <= |s| && forall i :: 0 <= i < n ==> IsHex(s[i])
  {
    if s == [] || !IsHex(s[0]) then 0 else 1 + HexRun(s[1..])
  }

  function HexValue(s: string): nat
    requires forall i :: 0 <= i < |s| ==> IsHex(s[i])
  {
    if s == [] then 0 else HexValue(s[..|s| - 1]) * 16 + HexVal(s[|s| - 1])
  }

  datatype Body = Body(chunks: seq<string>, rest: string)

  // The chunks up to the one of size zero, and what follows the message.
  // Chunk extensions and trailer fields are not accepted.
  function Dechunk(s: string): Option<Body>
    decreases |s|
  {
    var n := HexRun(s);
    var at := n + 2 + HexValue(s[..n]);
    if n == 0 || |s| < at + 2 || s[n..n + 2] != "\r\n" || s[at..at + 2] != "\r\n" then None
    else if at == n + 2 then Some(Body([], s[at + 2..]))
    else
      match Dechunk(s[at + 2..])
      case None => None
      case Some(b) => Some(Body([s[n + 2..at]] + b.chunks, b.rest))
  }

  /* The chunked coding, as it is written. */

  function HexDigit(d: nat): char
    requires d < 16
  {
    "0123456789abcdef"[d]
  }

  // The digits of "%0<width>x" for a value that fits.
  function Hex(n: nat, width: nat): (r: string)
    ensures |r| == width
  {
    if width == 0 then [] else Hex(n / 16, width - 1) + [HexDigit(n % 16)]
  }

  function Chunk(data: string): string {
    Hex(|data|, 8) + "\r\n" + data + "\r\n"
  }

  const FINAL_CHUNK := "0\r\n\r\n"

  function Coded(chunks: seq<string>): string {
    if chunks == [] then [] else Coded(chunks[..|chunks| - 1]) + Chunk(chunks[|chunks| - 1])
  }

  lemma CodedSnoc(chunks: seq<string>, data: string)
    ensures Coded(chunks + [data]) == Coded(chunks) + Chunk(data)
  {
  }

  function Power(n: nat): (r: nat)
    ensures r > 0
  {
    if n == 0 then 1 else 16 * Power(n - 1)
  }

  lemma HexDigitValue(d: nat)
    requires d < 16
    ensures IsHex(HexDigit(d)) && HexVal(HexDigit(d)) == d
  {
  }

  lemma {:induction false} HexRoundTrip(n: nat, width: nat)
    requires n < Power(width)
    ensures forall i :: 0 <= i < width ==> IsHex(Hex(n, width)[i])
    ensures HexValue(Hex(n, width)) == n
  {
    hide IsHex, HexVal, HexDigit;
    if width > 0 {
      HexRoundTrip(n / 16, width - 1);
      HexDigitValue(n % 16);
      var s := Hex(n, width);
      assert s[..|s| - 1] == Hex(n / 16, width - 1);
    }
  }

  lemma {:induction false} HexRunStops(digits: string, t: string)
    requires forall i :: 0 <= i < |digits| ==> IsHex(digits[i])
    requires t != [] && !IsHex(t[0])
    ensures HexRun(digits + t) == |digits|
  {
    if digits == [] {
      assert digits + t == t;
    } else {
      assert (digits + t)[1..] == digits[1..] + t;
      HexRunStops(digits[1..], t);
    }
  }

  lemma SizeBound(n: nat)
    requires n < 0x1_0000_0000
    ensures n < Power(8)
  {
  }

  // One chunk in front of a message.
  lemma DechunkChunk(data: string, t: string)
    requires 0 < |data| < 0x1_0000_0000
    ensures Dechunk(Chunk(data) + t) ==
            match Dechunk(t) case None => None case Some(b) => Some(Body([data] + b.chunks, b.rest))
  {
    hide Hex, HexValue, HexRun, IsHex;
    var digits := Hex(|data|, 8);
    SizeBound(|data|);
    HexRoundTrip(|data|, 8);
    var s := Chunk(data) + t;
    var tail := "\r\n" + data + "\r\n" + t;
    assert s == digits + tail;
    CRIsNoDigit();
    HexRunStops(digits, tail);
    var at := 8 + 2 + |data|;
    assert s[..8] == digits && s[8..10] == "\r\n" && s[10..at] == data && s[at..at + 2] == "\r\n" && s[at + 2..] == t;
  }

  lemma CRIsNoDigit()
    ensures !IsHex('\r') && IsHex('0') && HexVal('0') == 0
  {
  }

  lemma DechunkFinal(t: string)
    ensures Dechunk(FINAL_CHUNK + t) == Some(Body([], t))
  {
    hide IsHex, HexVal;
    var s := FINAL_CHUNK + t;
    CRIsNoDigit();
    HexRunStops("0", "\r\n\r\n" + t);
    assert s == "0" + ("\r\n\r\n" + t);
    assert s[..1] == "0" && s[1..3] == "\r\n" && s[3..5] == "\r\n" && s[5..] == t;
    assert "0"[..0] == [];
  }

  // Whatever is written as chunks is read as those chunks.
  lemma {:induction false} ChunkedRoundTrip(chunks: seq<string>, t: string)
    requires forall c :: c in chunks ==> 0 < |c| < 0x1_0000_0000
    ensures Dechunk(Coded(chunks) + t) ==
            match Dechunk(t) case None => None case Some(b) => Some(Body(chunks + b.chunks, b.rest))
    decreases |chunks|
  {
    hide Chunk, Dechunk;
    if chunks == [] {
      assert Coded(chunks) + t == t && forall cs :: chunks + cs == cs;
    } else {
      var n := |chunks| - 1;
      var last := chunks[n];
      ChunkedRoundTrip(chunks[..n], Chunk(last) + t);
      DechunkChunk(last, t);
      assert Coded(chunks) + t == Coded(chunks[..n]) + (Chunk(last) + t);
      assert forall cs :: chunks[..n] + ([last] + cs) == chunks + cs;
    }
  }

  /* The write queue and the socket behind it. */

  class Wire {
    var sent: string

    constructor ()
      ensures sent == []
    {
      sent := [];
    }

    method Write(data: string)
      modifies this
      ensures sent == old(sent) + data
    {
      sent := sent + data;
    }
  }

  // The queue between two calls of the response handler.
  ghost predicate Idle(q: WriteBuffQueue<char>)
    reads q, q.ring
  {
    q.Valid() && !q.View().Open() && q.firstPending == 0
  }

  // The committed bytes that are not yet sent.
  ghost function Queued(q: WriteBuffQueue<char>): string
    reads q
  {
    Flat(Flat(q.groups))
  }

  lemma QueuedEnqueue(groups: seq<seq<string>>, merge: bool, b: string)
    requires merge ==> groups != []
    ensures Flat(Flat(Enqueue(groups, merge, b))) == Flat(Flat(groups)) + b
  {
    hide Enqueue;
    EnqueueFlat(groups, merge, b);
    if b == [] {
      assert Flat(groups) + [] == Flat(groups);
    } else {
      FlatSnoc(Flat(groups), b);
    }
  }

  lemma QueuedFront(groups: seq<seq<string>>)
    requires groups != []
    ensures Flat(Flat(groups)) == Flat(groups[0]) + Flat(Flat(groups[1..]))
  {
    assert groups == [groups[0]] + groups[1..];
    FlatConcat([groups[0]], groups[1..]);
    FlatSnoc([], groups[0]);
    assert [] + [groups[0]] == [groups[0]] && [] + groups[0] == groups[0];
    FlatConcat(groups[0], Flat(groups[1..]));
  }

  // Pops one buffer, sends it and releases it, if there is one.
  method WriteNext(q: WriteBuffQueue<char>, wire: Wire) returns (some: bool)
    requires Idle(q)
    modifies q, wire
    ensures Idle(q) && wire.sent + Queued(q) == old(wire.sent + Queued(q))
    ensures some <==> old(q.out) != []
    ensures |q.out| == if some then old(|q.out|) - 1 else 0
  {
    hide State.Good, State.OpenBytes, Room, InRing, InHeap, Closes, Frees, Flat;
    GoodFacts(q.View());
    ghost var groups, sent := q.groups, wire.sent;
    if q.firstPending < |q.out| {
      ClosedIsPending(q.View());
    }
    var r := q.Pop();
    if r.None? {
      return false;
    }
    QueuedFront(groups);
    var data := q.Read(r.value.0, r.value.1);
    assert data == Flat(groups[0]);
    wire.Write(data);
    q.Release();
    Regroup(sent, data, sent + data, [], Flat(Flat(groups[1..])));
    return true;
  }

  method WriteAll(q: WriteBuffQueue<char>, wire: Wire)
    requires Idle(q)
    modifies q, wire
    ensures Idle(q) && q.out == [] && wire.sent == old(wire.sent + Queued(q))
  {
    hide State.Good, State.OpenBytes, Room, InRing, InHeap, Closes, Frees, Flat;
    var some := true;
    while some
      invariant Idle(q) && wire.sent + Queued(q) == old(wire.sent + Queued(q))
      invariant !some ==> q.out == []
      decreases some, |q.out|
    {
      some := WriteNext(q, wire);
    }
    GoodFacts(q.View());
    assert q.groups == [];
    EmptyQueue();
  }

  lemma EmptyQueue()
    ensures Flat(Flat<string>([])) == []
  {
  }

  // Commits the first n bytes of the open block.
  method Close(q: WriteBuffQueue<char>, n: nat)
    requires q.Valid() && q.View().Open() && q.firstPending == 0 && n <= |q.View().OpenBytes()| == q.lastAlloc
    modifies q
    ensures Idle(q) && Queued(q) == old(Queued(q) + q.View().OpenBytes()[..n])
  {
    hide State.Good, State.OpenBytes, Room, InRing, InHeap, Closes, Frees, Flat, Enqueue;
    ghost var s := q.View();
    MergeAt(s);
    QueuedEnqueue(s.groups, s.Merging(), s.OpenBytes()[..n]);
    q.Commit(n);
  }

  lemma {:induction false} ChunkInPlace(buff: string, data: string)
    requires |buff| == WRITE_BUFF_SIZE && 0 < |data| <= OFFERED
    ensures var n := CHUNK_HEADER_LENGTH + |data|;
            var b := Splice(Splice(Splice(Splice(buff, CHUNK_HEADER_LENGTH, data), 0, Hex(|data|, 8) + "\r\0"), 9, "\n"), n, "\r\n");
            b[..n + CHUNK_FOOTER_LENGTH] == Chunk(data)
  {
    hide Hex, Splice;
    var n, digits := CHUNK_HEADER_LENGTH + |data|, Hex(|data|, 8);
    var b1 := Splice(buff, CHUNK_HEADER_LENGTH, data);
    SpliceParts(buff, CHUNK_HEADER_LENGTH, data);
    var b2 := Splice(b1, 0, digits + "\r\0");
    SpliceParts(b1, 0, digits + "\r\0");
    SpliceBehind(b1, 0, digits + "\r\0", 10, n);
    var b3 := Splice(b2, 9, "\n");
    SpliceParts(b2, 9, "\n");
    SpliceBehind(b2, 9, "\n", 10, n);
    HeaderPart(b2, b3, digits);
    SpliceParts(b3, n, "\r\n");
    SliceJoin(b3, 0, 10, n);
    assert b3[0..10] == b3[..10] && b3[0..n] == b3[..n];
  }

  lemma HeaderPart(b2: string, b3: string, digits: string)
    requires |digits| == 8 && |b2| >= 10 && |b3| >= 10 && b2[..10] == digits + "\r\0"
    requires b3[..9] == b2[..9] && b3[9..10] == "\n"
    ensures b3[..10] == digits + "\r\n"
  {
    assert b2[..9] == b2[..10][..9] == digits + "\r";
    assert b3[..10] == b3[..9] + b3[9..10];
  }

  lemma SpliceBehind(mem: string, from: nat, data: string, a: nat, b: nat)
    requires from + |data| <= a <= b <= |mem|
    ensures Splice(mem, from, data)[a..b] == mem[a..b]
  {
  }

  lemma SpliceParts(mem: string, from: nat, data: string)
    requires from + |data| <= |mem|
    ensures var r := Splice(mem, from, data);
            && r[..from] == mem[..from] && r[from..from + |data|] == data
            && r[..from + |data|] == mem[..from] + data
  {
  }

  // One round of the chunked loop: data was read to its place behind the room
  // for the chunk header. An empty read gives the block back.
  method WriteChunk(q: WriteBuffQueue<char>, data: string)
    requires Idle(q) && |data| <= OFFERED
    modifies q, q.ring
    ensures Idle(q) && Queued(q) == old(Queued(q)) + if data == [] then [] else Chunk(data)
  {
    hide State.Good, State.OpenBytes, Room, InRing, InHeap, Closes, Frees, Flat, Splice, RingSpot, Chunk, Hex;
    var block := q.Allocate(WRITE_BUFF_SIZE);
    ghost var buff := q.View().OpenBytes();
    q.Store(CHUNK_HEADER_LENGTH, data);
    if data != [] {
      q.Store(0, Hex(|data|, 8) + "\r\0");
      q.Store(8 + 1, "\n");
      q.Store(|data| + CHUNK_HEADER_LENGTH, "\r\n");
      ChunkInPlace(buff, data);
      Close(q, |data| + CHUNK_HEADER_LENGTH + CHUNK_FOOTER_LENGTH);
    } else {
      Close(q, 0);
    }
  }

  /* The response handler. */

  // What one call of IResponse::Read yields.
  datatype ReadResult = ReadResult(data: string, finished: bool)

  // The answer to call i. A response that has nothing left is finished.
  function Answer(script: seq<ReadResult>, i: nat): ReadResult {
    if i < |script| then script[i] else ReadResult([], true)
  }

  // The data up to the first empty read or the first one that is the last.
  function Chunks(script: seq<ReadResult>): seq<string> {
    if script == [] || script[0].data == [] then []
    else [script[0].data] + if script[0].finished then [] else Chunks(script[1..])
  }

  lemma ChunksStep(script: seq<ReadResult>, i: nat, done: seq<string>)
    requires i <= |script|
    ensures var r := Answer(script, i);
            && (r.data == [] ==> Chunks(script[i..]) == [])
            && (r.data != [] ==> i < |script|)
            && (r.data != [] && r.finished ==> done + Chunks(script[i..]) == done + [r.data])
            && (r.data != [] && !r.finished ==> done + Chunks(script[i..]) == done + [r.data] + Chunks(script[i + 1..]))
  {
  }

  // The chunks are the data of the first k reads: k is the first read that is
  // empty, or behind the first that is the last, or behind all.
  lemma {:induction false} ChunksAre(script: seq<ReadResult>) returns (k: nat)
    ensures k <= |script| && |Chunks(script)| == k
    ensures forall j :: 0 <= j < k ==> Chunks(script)[j] == script[j].data != []
    ensures forall j :: 0 <= j < k - 1 ==> !script[j].finished
    ensures k < |script| ==> script[k].data == [] || (k > 0 && script[k - 1].finished)
  {
    if script == [] || script[0].data == [] {
      k := 0;
    } else if script[0].finished {
      k := 1;
    } else {
      var i := ChunksAre(script[1..]);
      k := i + 1;
      assert forall j :: 0 < j < k ==> script[j] == script[1..][j - 1];
    }
  }

  lemma NothingCoded()
    ensures Coded([]) == [] && Flat<char>([]) == []
  {
  }

  // The chunked loop and its final chunk.
  method SendChunked(q: WriteBuffQueue<char>, wire: Wire, script: seq<ReadResult>) returns (total: nat)
    requires Idle(q) && forall r :: r in script ==> |r.data| <= OFFERED
    modifies q, q.ring, wire
    ensures Idle(q) && q.out == []
    ensures wire.sent == old(wire.sent + Queued(q)) + Coded(Chunks(script)) + FINAL_CHUNK
    ensures total == |Flat(Chunks(script))|
  {
    hide State.Good, State.OpenBytes, Room, InRing, InHeap, Closes, Frees, Flat, Coded, Chunk, FINAL_CHUNK;
    ghost var base := wire.sent + Queued(q);
    ghost var done: seq<string> := [];
    var i := 0;
    total := 0;
    var isFinished := false;
    NothingCoded();
    assert script[0..] == script && base + [] == base;
    while true
      invariant Idle(q) && 0 <= i <= |script| && wire.sent + Queued(q) == base + Coded(done)
      invariant done + Chunks(script[i..]) == Chunks(script) && total == |Flat(done)|
      decreases |script| - i
    {
      var r := Answer(script, i);
      ChunksStep(script, i, done);
      ghost var queued := Queued(q);
      WriteChunk(q, r.data);
      if r.data != [] {
        total := total + |r.data|;
        CodedSnoc(done, r.data);
        FlatSnoc(done, r.data);
        Regroup(wire.sent, queued, base, Coded(done), Chunk(r.data));
        done := done + [r.data];
      } else {
        assert queued + [] == queued && done + [] == done;
      }
      isFinished := r.finished || r.data == [];
      if isFinished {
        break;
      }
      i := i + 1;
      var some := WriteNext(q, wire);
    }
    Regroup(wire.sent, Queued(q), base, Coded(done), FINAL_CHUNK);
    WriteFinal(q);
    WriteAll(q, wire);
  }

  lemma Regroup(sent: string, queued: string, base: string, coded: string, more: string)
    requires sent + queued == base + coded
    ensures sent + (queued + more) == base + (coded + more) == base + coded + more
  {
  }

  method WriteFinal(q: WriteBuffQueue<char>)
    requires Idle(q)
    modifies q, q.ring
    ensures Idle(q) && Queued(q) == old(Queued(q)) + FINAL_CHUNK
  {
    hide State.Good, State.OpenBytes, Room, InRing, InHeap, Closes, Frees, Flat, Splice, RingSpot;
    var n := 1 + 2 + 2;
    var block := q.Allocate(n);
    SpliceAll(q.View().OpenBytes(), FINAL_CHUNK);
    q.Store(0, FINAL_CHUNK);
    assert q.View().OpenBytes()[..n] == FINAL_CHUNK;
    Close(q, n);
  }

  // The data of the first k reads.
  function Data(script: seq<ReadResult>, k: nat): string {
    if k == 0 then [] else Data(script, k - 1) + Answer(script, k - 1).data
  }

  // One block, of which the first |data| bytes are used.
  method WriteBlock(q: WriteBuffQueue<char>, length: nat, data: string)
    requires Idle(q) && |data| <= length && 0 < length <= MAX_LENGTH
    modifies q, q.ring
    ensures Idle(q) && Queued(q) == old(Queued(q)) + data
  {
    hide State.Good, State.OpenBytes, Room, InRing, InHeap, Closes, Frees, Flat, Splice, RingSpot;
    var block := q.Allocate(length);
    SpliceParts(q.View().OpenBytes(), 0, data);
    q.Store(0, data);
    assert q.View().OpenBytes()[..|data|] == data;
    Close(q, |data|);
  }

  // Read i is not the last one and does not complete the announced length.
  ghost predicate GoesOn(script: seq<ReadResult>, length: nat, i: nat) {
    !Answer(script, i).finished && |Data(script, i + 1)| < length
  }

  // The reading stops with read k - 1: the first that is the last one or that
  // completes the announced length.
  ghost predicate StopsAt(script: seq<ReadResult>, length: nat, k: nat) {
    && (forall j :: 0 <= j < k - 1 ==> GoesOn(script, length, j))
    && (k == 0 <==> length == 0)
    && (k > 0 ==> !GoesOn(script, length, k - 1))
  }

  // The loop for a body whose length was announced. The connection is kept only
  // if the response says that it is finished with the very read that completes
  // the length; so it is never kept after a body that is too short.
  method SendFixed(q: WriteBuffQueue<char>, wire: Wire, script: seq<ReadResult>, length: nat) returns (total: nat, keep: bool, k: nat)
    requires Idle(q) && forall r :: r in script ==> |r.data| <= WRITE_BUFF_SIZE
    modifies q, q.ring, wire
    ensures Idle(q) && q.out == []
    ensures StopsAt(script, length, k) && wire.sent == old(wire.sent + Queued(q)) + Data(script, k)
    ensures total == |Data(script, k)|
    ensures keep <==> k > 0 && Answer(script, k - 1).finished && total >= length
  {
    hide State.Good, State.OpenBytes, Room, InRing, InHeap, Closes, Frees, Flat;
    ghost var base := wire.sent + Queued(q);
    var respLength := length;
    total, keep, k := 0, false, 0;
    while respLength > 0
      invariant Idle(q) && wire.sent + Queued(q) == base + Data(script, k) && total == |Data(script, k)|
      invariant respLength == (if total <= length then length - total else 0) && !keep && k <= |script|
      invariant k > 0 ==> respLength > 0
      invariant forall j :: 0 <= j < k ==> GoesOn(script, length, j)
      decreases |script| - k
    {
      var r := Answer(script, k);
      Regroup(wire.sent, Queued(q), base, Data(script, k), r.data);
      WriteBlock(q, WRITE_BUFF_SIZE, r.data);
      respLength := if |r.data| <= respLength then respLength - |r.data| else 0;
      total := total + |r.data|;
      k := k + 1;
      var some := WriteNext(q, wire);
      if r.finished && respLength == 0 {
        keep := true;
        break;
      } else if r.finished || respLength == 0 {
        keep := false;
        break;
      }
      assert GoesOn(script, length, k - 1);
    }
    WriteAll(q, wire);
  }

  // A response of unknown length: behind the headers, the receiver reads exactly
  // the chunks of the response, and nothing is left over.
  method RespondChunked(headers: string, maxHeadersLength: nat, script: seq<ReadResult>) returns (sent: string, total: nat)
    requires |headers| <= maxHeadersLength && 0 < maxHeadersLength <= MAX_LENGTH
    requires forall r :: r in script ==> |r.data| <= OFFERED
    ensures headers <= sent && Dechunk(sent[|headers|..]) == Some(Body(Chunks(script), []))
    ensures total == |Flat(Chunks(script))|
  {
    hide State.Good, State.OpenBytes, Room, InRing, InHeap, Closes, Frees, Flat, Chunks, Dechunk, Coded, FINAL_CHUNK;
    var q := new WriteBuffQueue<char>(WRITE_BUFF_SIZE);
    var wire := new Wire();
    EmptyQueue();
    WriteBlock(q, maxHeadersLength, headers);
    var some := WriteNext(q, wire);
    total := SendChunked(q, wire, script);
    sent := wire.sent;
    ChunksBounded(script);
    ChunkedRoundTrip(Chunks(script), FINAL_CHUNK);
    DechunkFinal([]);
    assert FINAL_CHUNK + [] == FINAL_CHUNK && Chunks(script) + [] == Chunks(script);
    assert sent[|headers|..] == Coded(Chunks(script)) + FINAL_CHUNK;
  }

  lemma {:induction false} ChunksBounded(script: seq<ReadResult>)
    requires forall r :: r in script ==> |r.data| <= OFFERED
    ensures forall c :: c in Chunks(script) ==> 0 < |c| <= OFFERED
  {
    if script != [] {
      ChunksBounded(script[1..]);
    }
  }
}
