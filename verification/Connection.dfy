/**
 The reading side of an HTTP connection: the header block and the body of a
 multipart POST, from a socket that delivers bytes in pieces of any size.
 */
module Connection {
  import opened Common
  import opened HeaderFields
  import opened BoundaryMatcher
  import opened PartMachine
  import opened QueryParams
  import opened MultipartForm
  import opened StreamReadBuffs

  const READ_BUFF_SIZE: nat := 16 * 1024

  lemma CutAt<T>(a: seq<T>, b: seq<T>, c: seq<T>, d: seq<T>, n: nat)
    requires a + b == c + d && |a| == |c| + n
    ensures n <= |d| && a == c + d[..n] && b == d[n..]
  {
    assert a == (a + b)[..|a|] && b == (a + b)[|a|..];
    assert (c + d)[..|c| + n] == c + d[..n];
  }

  lemma Assoc<T>(a: seq<T>, b: seq<T>, c: seq<T>)
    ensures a + b + c == a + (b + c)
  {
  }

  /* The multipart loop of ContentHandler. */

  // What the reads of some rounds bring.
  function Brought(rounds: seq<Round>): nat {
    if rounds == [] then 0 else Brought(rounds[..|rounds| - 1]) + rounds[|rounds| - 1].got
  }

  // Each request is for all that is still to come, up to a limit.
  predicate AsksForRest(rounds: seq<Round>, length: int) {
    forall i :: 0 <= i < |rounds| ==>
      rounds[i].asked == Asked(length - Brought(rounds[..i]))
  }

  function Asked(rest: int): nat {
    if rest < 0 then 0 else if rest < READ_BUFF_SIZE then rest else READ_BUFF_SIZE
  }

  lemma StartsEmpty(length: int)
    ensures AsksForRest([], length) && Brought([]) == 0
  {
  }

  lemma {:induction false} RoundAdded(rounds: seq<Round>, r: Round, length: int)
    requires AsksForRest(rounds, length) && r.asked == Asked(length - Brought(rounds))
    ensures AsksForRest(rounds + [r], length) && Brought(rounds + [r]) == Brought(rounds) + r.got
  {
    hide Brought;
    BroughtSnoc(rounds, r);
    var all := rounds + [r];
    forall i | 0 <= i < |all|
      ensures all[i].asked == Asked(length - Brought(all[..i]))
    {
      assert all[..i] == rounds[..i] && rounds[..|rounds|] == rounds;
    }
  }

  lemma BroughtSnoc(rounds: seq<Round>, r: Round)
    ensures Brought(rounds + [r]) == Brought(rounds) + r.got
  {
    assert (rounds + [r])[..|rounds|] == rounds;
  }

  // Exactly the next contentLength bytes reach the parser, in order; the bytes
  // behind them stay. False only if the peer closes too early. The buffer grows
  // as the rounds of the loop make it.
  method ReceiveMultipart(b: StreamReadBuff<char>, sock: Socket<char>, query: QueryParams, contentLength: nat)
    returns (ok: bool, ghost rounds: seq<Round>)
    requires b.Valid() && query.Valid()
    modifies b, b.buff, sock, query
    ensures b.Valid() && query.Valid()
    ensures ok <==> contentLength <= |old(Stream(b, sock))|
    ensures ok ==> query.fed == old(query.fed) + old(Stream(b, sock))[..contentLength]
                   && Stream(b, sock) == old(Stream(b, sock))[contentLength..]
    ensures !ok ==> query.fed == old(query.fed) + old(Stream(b, sock)) && Stream(b, sock) == []
    ensures AsksForRest(rounds, contentLength - |old(b.Available())|)
    ensures |old(sock.incoming)| == Brought(rounds) + |sock.incoming|
    ensures var rewound := if old(b.relevantLength) > 0 && old(b.readPos) == old(b.dataEndPos) then old(b.dataEndPos) else 0;
            b.buff.Length == Capacity(old(b.buff.Length), Peak(old(b.Missing()) + rewound, rounds))
  {
    hide QueryParams.Valid, Capacity, Peak, Drift, AsksForRest, Brought, Left;
    hide StreamReadBuff.Content, StreamReadBuff.Available, StreamReadBuff.Relevant;
    b.ResetRelevant();
    rounds := [];
    ghost var m, size, length: int := b.Missing(), b.buff.Length, contentLength - |b.Available()|;
    NoRounds(m, size);
    StartsEmpty(length);
    ghost var stream := Stream(b, sock);
    assert stream == old(Stream(b, sock));
    var remLength: nat := contentLength;
    ok := true;
    while remLength > 0 && ok
      invariant b.Valid() && query.Valid() && (b.buff == old(b.buff) || fresh(b.buff))
      invariant remLength <= contentLength
      invariant query.fed + Stream(b, sock) == old(query.fed) + stream
      invariant |query.fed| == |old(query.fed)| + (contentLength - remLength)
      invariant !ok ==> remLength > 0 && Stream(b, sock) == []
      invariant b.relevantLength == 0 && b.Missing() == Drift(m, rounds) && b.buff.Length == Capacity(size, Peak(m, rounds))
      invariant AsksForRest(rounds, length) && |old(sock.incoming)| == Brought(rounds) + |sock.incoming|
      invariant remLength > 0 ==> remLength - |b.Available()| == length - Brought(rounds)
      decreases |sock.incoming|, remLength, ok
    {
      ghost var asked := Asked(remLength - |b.Available()|);
      ghost var more := |b.Available()| < remLength;
      CapacityTwice(size, Peak(m, rounds), b.Missing() + asked);
      remLength, ok := ReceivePiece(b, sock, query, remLength);
      if more {
        ghost var round := Round(asked, |b.Available()|);
        DriftSnoc(m, rounds, round);
        RoundAdded(rounds, round, length);
        rounds := rounds + [round];
      }
    }
    if ok {
      CutAt(query.fed, Stream(b, sock), old(query.fed), stream, contentLength);
    } else {
      assert query.fed == query.fed + Stream(b, sock);
    }
  }

  // One round of the loop. A read always has room, so every round takes at
  // least one byte from the socket or finishes.
  method ReceivePiece(b: StreamReadBuff<char>, sock: Socket<char>, query: QueryParams, remLength: nat)
    returns (rest: nat, open: bool)
    requires b.Valid() && query.Valid() && remLength > 0 && b.relevantLength == 0
    modifies b, b.buff, sock, query
    ensures b.Valid() && query.Valid() && (b.buff == old(b.buff) || fresh(b.buff))
    ensures query.fed + Stream(b, sock) == old(query.fed) + old(Stream(b, sock))
    ensures rest <= remLength && |query.fed| == |old(query.fed)| + (remLength - rest)
    ensures open && rest > 0 ==> |sock.incoming| < |old(sock.incoming)|
    ensures |sock.incoming| <= |old(sock.incoming)|
    ensures !open ==> rest > 0 && Stream(b, sock) == []
    ensures b.relevantLength == 0
    ensures var asked := Asked(remLength - |old(b.Available())|);
            if asked == 0 then rest == 0 && b.Missing() == old(b.Missing()) && b.buff == old(b.buff) && sock.incoming == old(sock.incoming)
            else
              && rest == remLength - |old(b.Available())|
              && b.buff.Length == Capacity(old(b.buff.Length), old(b.Missing()) + asked)
              && b.Missing() == Left(old(b.Missing()) + asked, |b.Available()|)
              && |old(sock.incoming)| == |b.Available()| + |sock.incoming|
  {
    hide QueryParams.Valid, StreamReadBuff.Content, StreamReadBuff.Available, Capacity;
    ghost var fed, available, incoming := query.fed, b.Available(), sock.incoming;
    open := true;
    if b.dataEndPos - b.readPos < remLength {
      rest := remLength - (b.dataEndPos - b.readPos);
      Feed(b, query, b.dataEndPos - b.readPos);
      open := RequestMore(b, sock, Asked(rest));
      assert available[..|available|] == available;
      Assoc(fed, available, incoming);
    } else {
      Feed(b, query, remLength);
      rest := 0;
      Assoc(fed, available[..remLength], available[remLength..] + incoming);
      Assoc(available[..remLength], available[remLength..], incoming);
      assert available == available[..remLength] + available[remLength..];
    }
  }

  // Hands the next n available bytes to the parser and consumes them.
  method Feed(b: StreamReadBuff<char>, query: QueryParams, n: nat)
    requires b.Valid() && query.Valid() && n <= b.dataEndPos - b.readPos
    modifies b`readPos, b`relevantLength, query
    ensures b.Valid() && query.Valid()
    ensures query.fed == old(query.fed) + old(b.Available())[..n]
    ensures b.Available() == old(b.Available())[n..] && b.dataEndPos - b.readPos == old(b.dataEndPos - b.readPos) - n
    ensures b.relevantLength == old(b.relevantLength)
  {
    hide QueryParams.Valid;
    query.AppendFormMultipart(b.Available()[..n]);
    var r := b.Consume(n, false);
  }

  // With nothing available, a request for n > 0 bytes always makes room.
  method RequestMore(b: StreamReadBuff<char>, sock: Socket<char>, n: nat) returns (open: bool)
    requires b.Valid() && b.readPos == b.dataEndPos && b.relevantLength == 0 && n > 0
    modifies b, b.buff, sock
    ensures b.Valid() && (b.buff == old(b.buff) || fresh(b.buff))
    ensures Stream(b, sock) == old(sock.incoming)
    ensures open <==> old(sock.incoming) != []
    ensures open ==> |sock.incoming| < |old(sock.incoming)|
    ensures |sock.incoming| <= |old(sock.incoming)|
    ensures b.relevantLength == 0 && b.buff.Length == Capacity(old(b.buff.Length), old(b.Missing()) + n)
    ensures b.Missing() == Left(old(b.Missing()) + n, |b.Available()|)
  {
    hide Capacity;
    assert b.Available() == [];
    var enough := b.RequestData(n);
    assert Stream(b, sock) == sock.incoming;
    open := ContinueRead(b, sock);
  }

  // A form posted over a socket: whatever the sizes of the reads, the parameters
  // and the uploaded files are those of the form, and the bytes behind the form are untouched.
  method PostForm(boundary: string, h: Surroundings, unsetCounter: nat, fields: seq<Field>, stream: string, pieces: seq<nat>)
    returns (params: map<string, string>, uploads: seq<Upload>, rest: string)
    requires '\r' !in boundary
    requires forall f :: f in fields ==> Sendable("\r\n--" + boundary, f)
    requires FormBody("\r\n--" + boundary, fields) <= stream
    ensures params == LastWins(fields) && uploads == UploadsOf(h, 0, fields)
    ensures stream == FormBody("\r\n--" + boundary, fields) + rest
  {
    hide ScanAll, EatAll, Absent, FormBody, LastWins, FilesOf, UploadsOf, Disciplined, Play, Capacity, Peak, AsksForRest, Brought;
    hide StreamReadBuff.Content, StreamReadBuff.Available, StreamReadBuff.Relevant;
    DelimiterOf(boundary);
    var b := new StreamReadBuff<char>(READ_BUFF_SIZE);
    var sock := new Socket<char>(stream, pieces);
    var query := new QueryParams(boundary, h, unsetCounter);
    assert Stream(b, sock) == stream;
    var body := FormBody("\r\n--" + boundary, fields);
    var ok, rounds := ReceiveMultipart(b, sock, query, |body|);
    assert query.fed == body;
    FormEats(h, query.start, query.delimiter, fields);
    WholeTraceAgrees(h, query.start, query.trace);
    params, uploads := query.part.params, query.part.uploads;
    rest := b.Available() + sock.incoming;
  }

  /* HeaderHandler */

  // The lines from `start` on, up to the first line of at most one byte before
  // its LF, and the position behind that line.
  function Block(s: string, start: nat): Option<(seq<string>, nat)>
    requires start <= |s|
    decreases |s| - start
  {
    var lf := start + Find(s[start..], '\n');
    if lf == |s| then None
    else if lf - start <= 1 then Some(([], lf + 1))
    else Ahead([s[start..lf]], Block(s, lf + 1))
  }

  function Ahead(lines: seq<string>, b: Option<(seq<string>, nat)>): Option<(seq<string>, nat)> {
    match b
    case None => None
    case Some((more, end)) => Some((lines + more, end))
  }

  datatype HeaderOutcome = Headers(lines: seq<string>) | BadRequestLine | TooLong | Closed

  // The request line is complete, not empty, and refused.
  predicate Refused(t: string, accepts: string -> bool) {
    var lf := Find(t, '\n');
    1 < lf < |t| && !accepts(t[..lf])
  }

  // One pass over all the bytes, of which only the first `room` fit.
  function Outcome(s: string, room: nat, accepts: string -> bool): HeaderOutcome {
    var t := Fitting(s, room);
    if Refused(t, accepts) then BadRequestLine
    else
      match Block(t, 0)
      case Some((lines, end)) => Headers(lines)
      case None => if room <= |s| then TooLong else Closed
  }

  // The scan has reached position k of t, behind `lines`, in the line at `start`.
  ghost predicate Reached(t: string, accepts: string -> bool, lines: seq<string>, start: nat, k: nat) {
    && start <= k <= |t|
    && '\n' !in t[start..k]
    && Block(t, 0) == Ahead(lines, Block(t, start))
    && (lines == [] <==> start == 0)
    && (lines != [] ==> !Refused(t, accepts))
  }

  lemma ReachedStart(t: string, accepts: string -> bool)
    ensures Reached(t, accepts, [], 0, 0)
  {
    match Block(t, 0)
    case None =>
    case Some((more, end)) => assert [] + more == more;
  }

  lemma ReachedByte(t: string, accepts: string -> bool, lines: seq<string>, start: nat, k: nat)
    requires Reached(t, accepts, lines, start, k) && k < |t|
    ensures t[k] != '\n' ==> Reached(t, accepts, lines, start, k + 1)
    ensures t[k] == '\n' && k - start <= 1 ==> Block(t, 0) == Some((lines, k + 1)) && !Refused(t, accepts)
    ensures t[k] == '\n' && k - start > 1 && lines == [] ==> (Refused(t, accepts) <==> !accepts(t[start..k]))
    ensures t[k] == '\n' && k - start > 1 && !Refused(t, accepts) ==>
              Reached(t, accepts, lines + [t[start..k]], k + 1, k + 1)
  {
    hide Block, Find;
    if t[k] != '\n' {
      assert t[start..k + 1] == t[start..k] + [t[k]];
    } else {
      BlockAt(t, start, k);
      if lines == [] {
        RefusedAt(t, accepts, k);
      }
      if k - start <= 1 {
        assert lines + [] == lines;
      } else {
        AheadTwice(lines, [t[start..k]], Block(t, k + 1));
        assert t[k + 1..k + 1] == "";
      }
    }
  }

  lemma BlockAt(t: string, start: nat, k: nat)
    requires start <= k < |t| && '\n' !in t[start..k] && t[k] == '\n'
    ensures Block(t, start) == if k - start <= 1 then Some(([], k + 1)) else Ahead([t[start..k]], Block(t, k + 1))
  {
  }

  lemma RefusedAt(t: string, accepts: string -> bool, k: nat)
    requires k < |t| && '\n' !in t[0..k] && t[k] == '\n'
    ensures Refused(t, accepts) <==> 1 < k && !accepts(t[0..k])
  {
  }

  lemma AheadTwice(a: seq<string>, c: seq<string>, b: Option<(seq<string>, nat)>)
    ensures Ahead(a, Ahead(c, b)) == Ahead(a + c, b)
  {
    match b
    case None =>
    case Some((more, end)) => assert a + (c + more) == a + c + more;
  }

  // The bytes of complete lines after they were parsed: the request line as it
  // was, the header lines as their extraction leaves them.
  function InMemory(lines: seq<string>): string {
    if lines == [] then ""
    else
      var n := |lines| - 1;
      InMemory(lines[..n]) + (if n == 0 then lines[n] else Rewritten(lines[n])) + "\n"
  }

  lemma NoLines()
    ensures InMemory([]) == ""
  {
  }

  // The scan of the first n bytes has reached the line at `start`.
  ghost predicate Marked(mem: string, t: string, lines: seq<string>, start: nat, n: nat) {
    |InMemory(lines)| == start <= n <= |t| && mem == InMemory(lines) + t[start..n]
  }

  lemma InMemorySnoc(lines: seq<string>, line: string)
    ensures InMemory(lines + [line]) == InMemory(lines) + (if lines == [] then line else Rewritten(line)) + "\n"
  {
    hide Rewritten;
    assert (lines + [line])[..|lines|] == lines;
  }

  lemma {:induction false} NextLine(mem: string, mem': string, t: string, lines: seq<string>, start: nat, n: nat, end: nat)
    requires Marked(mem, t, lines, start, n) && start <= end < n && t[end] == '\n' && |mem'| == |mem|
    requires mem'[..start] == mem[..start] && mem'[end..] == mem[end..]
    requires mem'[start..end] == if lines == [] then mem[start..end] else Rewritten(mem[start..end])
    ensures Marked(mem', t, lines + [t[start..end]], end + 1, n)
  {
    hide Rewritten, InMemory;
    var line := t[start..end];
    InMemorySnoc(lines, line);
    MarkedAt(mem, t, lines, start, n, start, end);
    MarkedAt(mem, t, lines, start, n, end, n);
    var rest := t[end + 1..n];
    var here := if lines == [] then line else Rewritten(line);
    assert mem'[start..end] == here;
    assert mem'[end..] == "\n" + rest by {
      assert mem[end..] == mem[end..n];
      assert t[end..n] == [t[end]] + rest;
    }
    Thirds(mem', start, end);
    Assoc(InMemory(lines) + here, "\n", rest);
    assert |here| == end - start;
  }

  lemma {:induction false} Thirds(mem: string, a: nat, b: nat)
    requires a <= b <= |mem|
    ensures mem == mem[..a] + mem[a..b] + mem[b..]
  {
  }

  lemma {:induction false} MarkedAt(mem: string, t: string, lines: seq<string>, start: nat, n: nat, i: nat, j: nat)
    requires Marked(mem, t, lines, start, n) && start <= i <= j <= n
    ensures |mem| == n <= |t| && mem[i..j] == t[i..j] && (i < n ==> mem[i] == t[i])
    ensures |InMemory(lines)| == start && mem[..start] == InMemory(lines)
  {
    hide InMemory;
    forall k | start <= k < n
      ensures mem[k] == t[k]
    {
      assert mem[k] == t[start..n][k - start];
    }
    assert mem[i..j] == t[i..j];
  }

  // Parses the first n bytes at `base` of the buffer from position k on. Header
  // lines are extracted where they lie.
  method ScanLines(buff: array<char>, base: nat, n: nat, k: nat, start: nat, lines: seq<string>, accepts: string -> bool, ghost t: string)
    returns (r: Option<HeaderOutcome>, end: nat, start': nat, lines': seq<string>)
    requires base + n <= buff.Length && k <= n && Reached(t, accepts, lines, start, k)
    requires Marked(buff[base..base + n], t, lines, start, n)
    modifies buff
    ensures Marked(buff[base..base + n], t, lines', start', n)
    ensures k <= end <= n && start' <= end
    ensures r.None? ==> end == n && Reached(t, accepts, lines', start', end)
    ensures r.Some? && r.value.BadRequestLine? ==> Refused(t, accepts)
    ensures r.Some? && !r.value.BadRequestLine? ==>
              !Refused(t, accepts) && r.value == Headers(lines') && Block(t, 0) == Some((lines', end)) && k < end
  {
    hide Reached, Block, Refused, Marked, Rewritten;
    start', lines', end := start, lines, k;
    ReachedBounds(t, accepts, lines, start, k);
    while end < n
      invariant k <= end <= n && start' <= end
      invariant Reached(t, accepts, lines', start', end)
      invariant Marked(buff[base..base + n], t, lines', start', n)
    {
      ghost var mem := buff[base..base + n];
      MarkedAt(mem, t, lines', start', n, start', end);
      MarkedAt(mem, t, lines', start', n, end, end);
      ReachedByte(t, accepts, lines', start', end);
      ReachedBounds(t, accepts, lines', start', end);
      assert buff[base + end] == mem[end];
      if buff[base + end] == '\n' {
        if end - start' > 1 {
          var line := buff[base + start'..base + end];
          SliceSlice(buff[..], base, n, start', end);
          if lines' == [] {
            if !accepts(line) {
              return Some(BadRequestLine), end, start', lines';
            }
          } else {
            ExtractLine(buff, base, n, start', end);
          }
          NextLine(mem, buff[base..base + n], t, lines', start', n, end);
          lines' := lines' + [line];
          start' := end + 1;
        } else {
          end := end + 1;
          return Some(Headers(lines')), end, start', lines';
        }
      }
      end := end + 1;
    }
    return None, end, start', lines';
  }

  // HeaderA.push_back(Header(...)): the line is extracted in the buffer.
  method ExtractLine(buff: array<char>, base: nat, n: nat, start: nat, end: nat)
    requires start <= end <= n && base + n <= buff.Length
    modifies buff
    ensures buff[base..base + n][..start] == old(buff[base..base + n])[..start]
    ensures buff[base..base + n][end..] == old(buff[base..base + n])[end..]
    ensures buff[base..base + n][start..end] == Rewritten(old(buff[base..base + n])[start..end])
  {
    hide Rewritten;
    ghost var mem := buff[..];
    var header := ExtractHeader(buff, base + start, base + end);
    InnerSlices(mem, buff[..], base, n, start, end);
  }

  lemma InnerSlices(mem: string, mem': string, base: nat, n: nat, start: nat, end: nat)
    requires |mem| == |mem'| && start <= end <= n && base + n <= |mem|
    requires mem'[..base + start] == mem[..base + start] && mem'[base + end..] == mem[base + end..]
    ensures mem'[base..base + n][..start] == mem[base..base + n][..start]
    ensures mem'[base..base + n][end..] == mem[base..base + n][end..]
    ensures mem'[base..base + n][start..end] == mem'[base + start..base + end]
    ensures mem[base..base + n][start..end] == mem[base + start..base + end]
  {
    SliceSlice(mem, base, n, 0, start);
    SliceSlice(mem', base, n, 0, start);
    SliceSlice(mem, base, n, start, end);
    SliceSlice(mem', base, n, start, end);
    SliceSlice(mem, base, n, end, n);
    SliceSlice(mem', base, n, end, n);
    assert mem'[base..base + start] == mem'[..base + start][base..] == mem[base..base + start];
    assert mem'[base + end..base + n] == mem'[base + end..][..n - end] == mem[base + end..base + n];
  }

  lemma ReachedBounds(t: string, accepts: string -> bool, lines: seq<string>, start: nat, k: nat)
    requires Reached(t, accepts, lines, start, k)
    ensures start <= k <= |t| && (lines != [] ==> !Refused(t, accepts))
  {
  }

  // The state of HeaderHandler between reads: everything that arrived since the
  // buffer position `begin` is kept or available, and the kept part was scanned.
  ghost predicate Tracking(b: StreamReadBuff<char>, sock: Socket<char>, s: string, begin: nat,
                           accepts: string -> bool, lines: seq<string>, start: nat)
    reads b, b.buff, sock
  {
    && b.Valid()
    && b.readPos - b.relevantLength == begin
    && |InMemory(lines)| == start <= b.relevantLength && start <= |s|
    && b.Content() + sock.incoming == InMemory(lines) + s[start..]
    && Reached(Fitting(s, b.buff.Length - begin), accepts, lines, start, b.relevantLength)
  }

  // What the caller sees when the header block is complete.
  ghost predicate Delivered(b: StreamReadBuff<char>, sock: Socket<char>, s: string)
    reads b, b.buff, sock
  {
    && b.Valid()
    && Block(s, 0).Some?
    && var (lines, end) := Block(s, 0).value;
    && |InMemory(lines)| <= end <= |s|
    && b.Relevant() == InMemory(lines) + s[|InMemory(lines)|..end]
    && Stream(b, sock) == s[end..]
  }

  // Reads the header block. The outcome, the kept bytes and the bytes left are
  // those of one pass over the whole stream, whatever the sizes of the reads.
  method HeaderHandler(b: StreamReadBuff<char>, sock: Socket<char>, accepts: string -> bool) returns (r: HeaderOutcome)
    requires b.Valid() && b.relevantLength == 0
    modifies b, b.buff, sock
    ensures b.Valid() && b.buff == old(b.buff)
    ensures r == Outcome(old(Stream(b, sock)), old(b.buff.Length - b.readPos), accepts)
    ensures r.Headers? ==> Delivered(b, sock, old(Stream(b, sock)))
  {
    hide Fitting, Reached, Outcome, Delivered, InMemory, StreamReadBuff.Content, StreamReadBuff.Relevant, StreamReadBuff.Available;
    ghost var s, begin := Stream(b, sock), b.readPos;
    ReachedStart(Fitting(s, b.buff.Length - begin), accepts);
    var start, lines := 0, [];
    ContentParts(b, sock);
    NoLines();
    assert b.Relevant() + Stream(b, sock) == "" + s[0..];
    while true
      invariant b.buff == old(b.buff) && Tracking(b, sock, s, begin, accepts, lines, start)
      decreases |sock.incoming|, b.dataEndPos - b.readPos
    {
      if b.dataEndPos == b.readPos {
        var more := ReadUnseen(b, sock, s, begin, accepts, lines, start);
        if more.Some? {
          return more.value;
        }
        if b.dataEndPos == b.readPos {
          AllSeen(b, sock, s, begin, accepts, lines, start);
          return TooLong;
        }
      }
      var found;
      found, start, lines := ScanAvailable(b, sock, s, begin, accepts, lines, start);
      if found.Some? {
        return found.value;
      }
      var more := ReadUnseen(b, sock, s, begin, accepts, lines, start);
      if more.Some? {
        return more.value;
      }
    }
  }

  lemma AllSeen(b: StreamReadBuff<char>, sock: Socket<char>, s: string, begin: nat,
                accepts: string -> bool, lines: seq<string>, start: nat)
    requires Tracking(b, sock, s, begin, accepts, lines, start) && b.dataEndPos == b.readPos
    ensures b.dataEndPos == b.buff.Length ==> Outcome(s, b.buff.Length - begin, accepts) == TooLong
    ensures b.dataEndPos < b.buff.Length && sock.incoming == "" ==> Outcome(s, b.buff.Length - begin, accepts) == Closed
  {
    hide Reached, Outcome, InMemory;
    assert |b.Content() + sock.incoming| == |InMemory(lines) + s[start..]|;
    NothingUnseen(s, b.relevantLength, |sock.incoming|, b.buff.Length - begin, accepts, lines, start);
  }

  lemma ContentParts(b: StreamReadBuff<char>, sock: Socket<char>)
    requires b.Valid()
    ensures b.Content() == b.Relevant() + b.Available()
    ensures b.Content() + sock.incoming == b.Relevant() + Stream(b, sock)
  {
    assert b.Content() == b.Relevant() + b.Available();
  }

  // ContinueRead when all available bytes were scanned.
  method ReadUnseen(b: StreamReadBuff<char>, sock: Socket<char>, ghost s: string, ghost begin: nat,
                    ghost accepts: string -> bool, ghost lines: seq<string>, ghost start: nat)
    returns (r: Option<HeaderOutcome>)
    requires Tracking(b, sock, s, begin, accepts, lines, start) && b.dataEndPos == b.readPos
    modifies b, b.buff, sock
    ensures b.Valid() && b.buff == old(b.buff)
    ensures r.Some? ==> r.value == Closed == Outcome(s, b.buff.Length - begin, accepts)
    ensures r.None? ==> Tracking(b, sock, s, begin, accepts, lines, start)
    ensures |sock.incoming| <= |old(sock.incoming)|
    ensures r.None? ==> |sock.incoming| < |old(sock.incoming)| || b.dataEndPos == b.readPos
    ensures r.None? && b.dataEndPos == b.readPos ==> b.dataEndPos == b.buff.Length
  {
    hide Reached, Outcome, Fitting, InMemory, StreamReadBuff.Content, StreamReadBuff.Relevant, StreamReadBuff.Available;
    AllSeen(b, sock, s, begin, accepts, lines, start);
    ContentParts(b, sock);
    var open := ContinueRead(b, sock);
    ContentParts(b, sock);
    return if open then None else Some(Closed);
  }

  // Scans the available bytes and keeps them.
  method ScanAvailable(b: StreamReadBuff<char>, sock: Socket<char>, ghost s: string, ghost begin: nat,
                       accepts: string -> bool, lines: seq<string>, start: nat)
    returns (r: Option<HeaderOutcome>, start': nat, lines': seq<string>)
    requires Tracking(b, sock, s, begin, accepts, lines, start)
    modifies b`readPos, b`relevantLength, b.buff
    ensures b.Valid()
    ensures r.Some? ==> r.value == Outcome(s, b.buff.Length - begin, accepts)
    ensures r.Some? && r.value.Headers? ==> Delivered(b, sock, s)
    ensures r.None? ==> Tracking(b, sock, s, begin, accepts, lines', start') && b.readPos == b.dataEndPos
  {
    hide Fitting, Reached, Block, Refused, InMemory, Marked, StreamReadBuff.Relevant, StreamReadBuff.Available;
    ghost var room, incoming := b.buff.Length - begin, sock.incoming;
    var base, k, n := b.readPos - b.relevantLength, b.relevantLength, b.relevantLength + (b.dataEndPos - b.readPos);
    ghost var t := Fitting(s, room);
    ContentMarked(s, b.Content(), incoming, room, lines, start);
    var end;
    r, end, start', lines' := ScanLines(b.buff, base, n, k, start, lines, accepts, t);
    MarkedContent(s, b.Content(), incoming, room, lines', start');
    if r.Some? {
      if !r.value.BadRequestLine? {
        BlockPrefix(t, s, 0);
        Keep(b, sock, end - k);
        KeptParts(b, sock, s, lines', start', end);
      }
    } else {
      Keep(b, sock, b.dataEndPos - b.readPos);
    }
  }

  lemma KeptParts(b: StreamReadBuff<char>, sock: Socket<char>, s: string, lines: seq<string>, start: nat, end: nat)
    requires b.Valid() && b.relevantLength == end && |InMemory(lines)| == start <= end <= |s|
    requires b.Content() + sock.incoming == InMemory(lines) + s[start..]
    ensures b.Relevant() == InMemory(lines) + s[start..end] && Stream(b, sock) == s[end..]
  {
    hide InMemory;
    var all := InMemory(lines) + s[start..];
    assert b.Relevant() == all[..end] && Stream(b, sock) == all[end..];
  }

  // Consumes n available bytes and keeps them.
  method Keep(b: StreamReadBuff<char>, sock: Socket<char>, n: nat)
    requires b.Valid() && n <= b.dataEndPos - b.readPos
    modifies b`readPos, b`relevantLength
    ensures b.Valid() && b.relevantLength == old(b.relevantLength) + n && b.readPos == old(b.readPos) + n
    ensures b.Content() == old(b.Content())
  {
    hide StreamReadBuff.Content, StreamReadBuff.Relevant, StreamReadBuff.Available;
    ContentParts(b, sock);
    ghost var kept, available := b.Relevant(), b.Available();
    var c := b.Consume(n, true);
    assert !c ==> n == |available|;
    ContentParts(b, sock);
    assert kept + available[..n] + available[n..] == kept + available;
  }

  function Fitting(s: string, room: nat): string {
    if |s| <= room then s else s[..room]
  }

  lemma ContentMarked(s: string, content: string, incoming: string, room: nat, lines: seq<string>, start: nat)
    requires |InMemory(lines)| == start <= |content| <= room && start <= |s|
    requires content + incoming == InMemory(lines) + s[start..]
    ensures Fitting(s, room) <= s && |content| <= |s| && Marked(content, Fitting(s, room), lines, start, |content|)
    ensures incoming == s[|content|..]
  {
    hide InMemory;
    var n, t := |content|, Fitting(s, room);
    var all := InMemory(lines) + s[start..];
    assert content == all[..n] && incoming == all[n..];
    assert t[start..n] == s[start..n];
  }

  lemma MarkedContent(s: string, content: string, incoming: string, room: nat, lines: seq<string>, start: nat)
    requires |content| + |incoming| == |s| && Marked(content, Fitting(s, room), lines, start, |content|)
    requires incoming == s[|content|..]
    ensures |InMemory(lines)| == start <= |content| && content + incoming == InMemory(lines) + s[start..]
  {
    hide InMemory;
    var n, t := |content|, Fitting(s, room);
    assert t[start..n] == s[start..n] && s[start..n] + s[n..] == s[start..];
  }

  // Everything that arrived was scanned: the outcome without more bytes.
  lemma NothingUnseen(s: string, k: nat, left: nat, room: nat, accepts: string -> bool, lines: seq<string>, start: nat)
    requires |s| == k + left && k <= room && Reached(Fitting(s, room), accepts, lines, start, k)
    ensures k == room ==> Outcome(s, room, accepts) == TooLong
    ensures k < room && left == 0 ==> Outcome(s, room, accepts) == Closed
  {
  }

  // A block that is complete in a prefix is the block of the whole.
  lemma {:induction false} BlockPrefix(t: string, s: string, start: nat)
    requires t <= s && start <= |t|
    ensures Block(t, start).Some? ==> Block(s, start) == Block(t, start) && Block(t, start).value.1 <= |t|
    decreases |t| - start
  {
    hide Find, Block;
    var lf := start + Find(t[start..], '\n');
    if lf < |t| {
      assert t[start..][..lf - start] == t[start..lf] && t[start..][lf - start] == t[lf];
      assert s[start..lf] == t[start..lf] && s[lf] == t[lf];
      BlockAt(t, start, lf);
      BlockAt(s, start, lf);
      if lf - start > 1 {
        BlockPrefix(t, s, lf + 1);
      }
    } else {
      NoBlock(t, start);
    }
  }

  /* A header block as a client writes it. */

  // Lines of at least two bytes, each with its LF.
  predicate Lines(lines: seq<string>) {
    forall l :: l in lines ==> |l| > 1 && '\n' !in l
  }

  function BlockText(lines: seq<string>): string {
    if lines == [] then "" else lines[0] + "\n" + BlockText(lines[1..])
  }

  lemma {:induction false} LineAt(before: string, line: string, more: string)
    ensures var s, k := before + (line + ("\n" + more)), |before| + |line|;
            && s[|before|..k] == line && k < |s| && s[k] == '\n' && s == before + line + "\n" + more
  {
  }

  lemma {:induction false} TextFront(lines: seq<string>, t: string)
    requires lines != []
    ensures BlockText(lines) + t == lines[0] + ("\n" + (BlockText(lines[1..]) + t))
    ensures |BlockText(lines)| == |lines[0]| + 1 + |BlockText(lines[1..])|
  {
  }

  lemma NoText()
    ensures BlockText([]) == ""
  {
  }

  // A line of at most one byte ends the block: a CR, as a rule.
  lemma {:induction false} BlockParses(lines: seq<string>, blank: string, before: string, rest: string)
    requires Lines(lines) && |blank| <= 1 && '\n' !in blank
    ensures var s := before + (BlockText(lines) + (blank + "\n" + rest));
            Block(s, |before|) == Some((lines, |before| + |BlockText(lines)| + |blank| + 1))
    decreases lines
  {
    hide Find, Block, BlockText;
    NoText();
    var s := before + (BlockText(lines) + (blank + "\n" + rest));
    if lines == [] {
      LineAt(before, blank, rest);
      assert s == before + (blank + ("\n" + rest));
      BlockAt(s, |before|, |before| + |blank|);
    } else {
      var l, more := lines[0], BlockText(lines[1..]) + (blank + "\n" + rest);
      assert l in lines;
      LineAt(before, l, more);
      assert BlockText(lines) + (blank + "\n" + rest) == l + ("\n" + more) by { TextFront(lines, blank + "\n" + rest); }
      BlockAt(s, |before|, |before| + |l|);
      BlockParses(lines[1..], blank, before + l + "\n", rest);
      assert [l] + lines[1..] == lines;
    }
  }

  // A printed block that fits: its lines, unless the first one is refused.
  lemma {:induction false} OutcomeOfBlock(lines: seq<string>, blank: string, rest: string, room: nat, accepts: string -> bool)
    requires Lines(lines) && |blank| <= 1 && '\n' !in blank && |BlockText(lines)| + |blank| < room
    ensures Outcome(BlockText(lines) + (blank + "\n" + rest), room, accepts) ==
            if lines != [] && !accepts(lines[0]) then BadRequestLine else Headers(lines)
  {
    hide Find, Block, BlockText;
    var text := BlockText(lines);
    var s := text + (blank + "\n" + rest);
    var t := Fitting(s, room);
    var rest' := rest[..|t| - |text| - |blank| - 1];
    assert t == text + (blank + "\n" + rest');
    BlockParses(lines, blank, "", rest');
    assert "" + t == t;
    FirstLine(lines, blank, rest', accepts);
  }

  lemma {:induction false} FirstLine(lines: seq<string>, blank: string, rest: string, accepts: string -> bool)
    requires Lines(lines) && |blank| <= 1 && '\n' !in blank
    ensures Refused(BlockText(lines) + (blank + "\n" + rest), accepts) <==> lines != [] && !accepts(lines[0])
  {
    hide Find;
    var s := BlockText(lines) + (blank + "\n" + rest);
    if lines == [] {
      assert s[0..|blank|] == blank && s[|blank|] == '\n';
      RefusedAt(s, accepts, |blank|);
    } else {
      var l := lines[0];
      assert l in lines;
      assert s == l + ("\n" + (BlockText(lines[1..]) + (blank + "\n" + rest)));
      assert s[0..|l|] == l && s[|l|] == '\n';
      RefusedAt(s, accepts, |l|);
    }
  }

  lemma NoBlock(t: string, start: nat)
    requires start <= |t| && start + Find(t[start..], '\n') == |t|
    ensures Block(t, start) == None
  {
  }
}
