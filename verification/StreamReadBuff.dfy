/**
 The sliding read buffer: consumed bytes that are still relevant, bytes that are
 available, and room behind them. Moving the bytes to the front or to a larger
 buffer must not be visible from outside.
 */
module StreamReadBuffs {
  import opened Common

  // memmove and memcpy to the start of a buffer.
  method Copy<T>(src: array<T>, from: nat, length: nat, target: array<T>)
    requires from + length <= src.Length && length <= target.Length
    modifies target
    ensures target[..length] == old(src[from..from + length])
  {
    forall i | 0 <= i < length {
      target[i] := src[from + i];
    }
  }

  method Write<T>(target: array<T>, at: nat, data: seq<T>)
    requires at + |data| <= target.Length
    modifies target
    ensures target[..at] == old(target[..at]) && target[at..at + |data|] == data
  {
    forall i | 0 <= i < |data| {
      target[at + i] := data[i];
    }
  }

  // k of the bytes at [at, end) of a memory are consumed; the ones from `from` on
  // are kept.
  lemma Consumed<T>(mem: seq<T>, from: nat, at: nat, end: nat, k: nat)
    requires from <= at && at + k <= end <= |mem|
    ensures mem[at + k..end] == mem[at..end][k..]
    ensures mem[from..at] + mem[at..end][..k] == mem[from..at + k]
    ensures mem[from + k..at + k] == mem[from..at + k][k..]
  {
    SliceTail(mem, at, end, k);
    SliceTail(mem, from, at + k, k);
    SliceSlice(mem, at, end - at, 0, k);
    SliceJoin(mem, from, at, at + k);
    assert mem[at..end][..k] == mem[at..end][0..k];
  }

  // Memories that agree up to `end`.
  lemma SameStart<T>(mem: seq<T>, mem': seq<T>, end: nat, a: nat, b: nat)
    requires a <= b <= end <= |mem| && end <= |mem'| && mem[..end] == mem'[..end]
    ensures mem'[a..b] == mem[a..b] && mem'[b..end] == mem[b..end]
  {
    SliceTail(mem, 0, end, b);
    SliceTail(mem', 0, end, b);
    assert mem[0..end] == mem[..end] && mem'[0..end] == mem'[..end];
    SliceSlice(mem, 0, end, a, b);
    SliceSlice(mem', 0, end, a, b);
  }

  // The size of a buffer of `size` bytes once there is room for n: it never
  // shrinks, and a new one is a multiple of 1024.
  function Capacity(size: nat, n: nat): (r: nat)
    ensures n <= size ==> r == size
    ensures n > size ==> n <= r < n + 1024 && r % 1024 == 0
  {
    if n <= size then size else RoundUp(n, 1024)
  }

  lemma EnoughRoom(size: nat, n: nat)
    requires n <= size
    ensures Capacity(size, n) == size
  {
  }

  class StreamReadBuff<T(0)> {
    var buff: array<T>
    var readPos: nat
    var relevantLength: nat
    var dataEndPos: nat
    var reqDataEndPos: nat

    ghost predicate Valid()
      reads this
    {
      relevantLength <= readPos <= dataEndPos <= buff.Length && dataEndPos <= reqDataEndPos
    }

    // The kept bytes and, behind them, the available bytes.
    function Content(): (r: seq<T>)
      requires Valid()
      reads this, buff
      ensures |r| == relevantLength + dataEndPos - readPos
    {
      buff[readPos - relevantLength..dataEndPos]
    }

    function Relevant(): (r: seq<T>)
      requires Valid()
      reads this, buff
      ensures |r| == relevantLength
    {
      buff[readPos - relevantLength..readPos]
    }

    // The bytes that can be consumed.
    function Available(): (r: seq<T>)
      requires Valid()
      reads this, buff
      ensures |r| == dataEndPos - readPos
    {
      buff[readPos..dataEndPos]
    }

    // The bytes that the last requests still miss.
    function Missing(): nat
      requires Valid()
      reads this
    {
      reqDataEndPos - dataEndPos
    }

    constructor (staticSize: nat)
      ensures Valid() && fresh(buff) && buff.Length == staticSize && dataEndPos == 0
      ensures Relevant() == [] && Available() == [] && Missing() == 0
    {
      buff := new T[staticSize];
      readPos := 0;
      relevantLength := 0;
      dataEndPos := 0;
      reqDataEndPos := 0;
    }

    method Reset()
      modifies this
      ensures Valid() && buff == old(buff) && Relevant() == [] && Available() == [] && Missing() == 0
    {
      readPos := 0;
      relevantLength := 0;
      dataEndPos := 0;
      reqDataEndPos := 0;
    }

    // Consumes n bytes, or all of them if fewer are there. The result is true
    // only if some byte is left, so it is false for an exact consume, too.
    method Consume(n: nat, isRelevant: bool) returns (ok: bool)
      requires Valid()
      modifies `readPos, `relevantLength
      ensures Valid()
      ensures ok <==> n < |old(Available())|
      ensures var k := if ok then n else |old(Available())|;
              && Available() == old(Available())[k..]
              && Relevant() == if isRelevant then old(Relevant()) + old(Available())[..k]
                               else (old(Relevant()) + old(Available())[..k])[k..]
    {
      hide StreamReadBuff.Content, StreamReadBuff.Relevant, StreamReadBuff.Available;
      if n < dataEndPos - readPos {
        Advance(n, isRelevant);
        ok := true;
      } else {
        Advance(dataEndPos - readPos, isRelevant);
        ok := false;
      }
    }

    method Advance(k: nat, isRelevant: bool)
      requires Valid() && k <= dataEndPos - readPos
      modifies `readPos, `relevantLength
      ensures Valid()
      ensures Available() == old(Available())[k..]
      ensures Relevant() == if isRelevant then old(Relevant()) + old(Available())[..k]
                            else (old(Relevant()) + old(Available())[..k])[k..]
    {
      hide StreamReadBuff.Content;
      Consumed(buff[..], readPos - relevantLength, readPos, dataEndPos, k);
      if isRelevant {
        relevantLength := relevantLength + k;
      }
      readPos := readPos + k;
    }

    // Forgets the kept bytes. If nothing is available either, the positions
    // start over, but the requested end does not: what is missing grows.
    method ResetRelevant()
      requires Valid()
      modifies `readPos, `relevantLength, `dataEndPos
      ensures Valid()
      ensures Relevant() == [] && Available() == old(Available())
      ensures Missing() == old(Missing()) + (old(dataEndPos) - dataEndPos)
      ensures dataEndPos == if old(relevantLength) > 0 && old(readPos) == old(dataEndPos) then 0 else old(dataEndPos)
    {
      if relevantLength != 0 && readPos != 0 {
        relevantLength := 0;
        if readPos == dataEndPos {
          readPos := 0;
          dataEndPos := 0;
        }
      }
    }

    // True if n bytes are available. Otherwise the request is noted, on top of
    // what earlier requests still miss, and there is room for all of it.
    method RequestData(n: nat) returns (ok: bool)
      requires Valid()
      modifies this, buff
      ensures Valid() && (buff == old(buff) || fresh(buff)) && buff.Length >= old(buff.Length)
      ensures Relevant() == old(Relevant()) && Available() == old(Available())
      ensures ok <==> n <= |Available()|
      ensures Missing() == old(Missing()) + if ok then 0 else n - |Available()|
      ensures !ok ==> Missing() <= buff.Length - dataEndPos
      ensures buff.Length == if ok then old(buff.Length) else Capacity(old(buff.Length), relevantLength + |Available()| + Missing())
    {
      hide Capacity, StreamReadBuff.Content, StreamReadBuff.Relevant, StreamReadBuff.Available;
      var availableLength := dataEndPos - readPos;
      if availableLength >= n {
        return true;
      }
      Slices(this);
      reqDataEndPos := reqDataEndPos + (n - availableLength);
      Slices(this);
      ContentParts(this);
      if reqDataEndPos > buff.Length {
        MakeRoom();
        ContentParts(this);
      } else {
        EnoughRoom(buff.Length, relevantLength + availableLength + Missing());
      }
      return false;
    }

    // Moves the content to the front, in a larger buffer if this one is too small.
    method MakeRoom()
      requires Valid()
      modifies this, buff
      ensures Valid() && (buff == old(buff) || fresh(buff)) && buff.Length >= old(buff.Length)
      ensures Content() == old(Content()) && relevantLength == old(relevantLength) && Missing() == old(Missing())
      ensures dataEndPos - readPos == old(dataEndPos - readPos)
      ensures old(reqDataEndPos) > old(buff.Length) ==> reqDataEndPos <= buff.Length
      ensures buff.Length == Capacity(old(buff.Length), |Content()| + Missing())
    {
      hide RoundUp, StreamReadBuff.Content;
      var buffLength := buff.Length;
      var frontSpace := readPos - relevantLength;
      var endSpace := buffLength - dataEndPos;
      var reqNewLength := reqDataEndPos - dataEndPos;
      if reqNewLength <= frontSpace + endSpace {
        MoveTo(buff);
      } else {
        var newBuff := new T[RoundUp(buffLength - frontSpace - endSpace + reqNewLength, 1024)];
        MoveTo(newBuff);
      }
    }

    // The content moves to the front of a buffer, and the positions with it.
    method MoveTo(target: array<T>)
      requires Valid() && |Content()| <= target.Length
      modifies this, target
      ensures Valid() && buff == target && readPos == relevantLength
      ensures Content() == old(Content()) && relevantLength == old(relevantLength) && Missing() == old(Missing())
    {
      hide StreamReadBuff.Content;
      ContentAt(this);
      var frontSpace := readPos - relevantLength;
      Copy(buff, frontSpace, dataEndPos - frontSpace, target);
      buff := target;
      readPos := readPos - frontSpace;
      dataEndPos := dataEndPos - frontSpace;
      reqDataEndPos := reqDataEndPos - frontSpace;
      ContentAt(this);
    }

    // The bytes that must and that can be read into the buffer.
    method GetReadInfo() returns (reqLength: nat, freeLength: nat)
      requires Valid()
      ensures reqLength == Missing() && freeLength == buff.Length - dataEndPos
    {
      reqLength := if reqDataEndPos > dataEndPos then reqDataEndPos - dataEndPos else 0;
      freeLength := buff.Length - dataEndPos;
    }

    // A read puts data behind the available bytes.
    method Put(data: seq<T>)
      requires Valid() && |data| <= buff.Length - dataEndPos
      modifies buff
      ensures Relevant() == old(Relevant()) && Available() == old(Available())
      ensures buff[dataEndPos..dataEndPos + |data|] == data
    {
      ghost var mem := buff[..];
      Write(buff, dataEndPos, data);
      SameStart(mem, buff[..], dataEndPos, readPos - relevantLength, readPos);
    }

    // n bytes were read. The clamp for a length beyond the room sets the end
    // behind the buffer unless the buffer was empty.
    method OnNewData(n: nat) returns (ok: bool)
      requires Valid()
      modifies `dataEndPos, `reqDataEndPos
      ensures Valid() <==> n <= buff.Length - old(dataEndPos) || old(dataEndPos) == 0
      ensures n <= buff.Length - old(dataEndPos) ==>
                && Relevant() == old(Relevant())
                && Available() == old(Available()) + buff[old(dataEndPos)..old(dataEndPos) + n]
                && (ok <==> n >= old(Missing()))
                && Missing() == if ok then 0 else old(Missing()) - n
    {
      hide StreamReadBuff.Content, StreamReadBuff.Relevant, StreamReadBuff.Available;
      Slices(this);
      var k := n;
      if n > buff.Length - dataEndPos {
        k := buff.Length;
      }
      ghost var end := dataEndPos;
      ok := MoveEnd(k);
      if n <= buff.Length - end {
        Slices(this);
        Extended(buff, readPos, end, end + n);
      }
    }

    method MoveEnd(k: nat) returns (ok: bool)
      requires dataEndPos <= reqDataEndPos
      modifies `dataEndPos, `reqDataEndPos
      ensures dataEndPos == old(dataEndPos) + k && (ok <==> dataEndPos >= old(reqDataEndPos))
      ensures reqDataEndPos == if ok then dataEndPos else old(reqDataEndPos)
    {
      dataEndPos := dataEndPos + k;
      if dataEndPos >= reqDataEndPos {
        reqDataEndPos := dataEndPos;
        ok := true;
      } else {
        ok := false;
      }
    }
  }

  lemma Slices<T(0)>(b: StreamReadBuff<T>)
    requires b.Valid()
    ensures b.Relevant() == b.buff[b.readPos - b.relevantLength..b.readPos]
    ensures b.Available() == b.buff[b.readPos..b.dataEndPos]
  {
  }

  lemma ContentAt<T(0)>(b: StreamReadBuff<T>)
    requires b.Valid()
    ensures b.Content() == b.buff[b.readPos - b.relevantLength..b.dataEndPos]
    ensures b.relevantLength == b.readPos ==> b.Content() == b.buff[..b.dataEndPos]
  {
  }

  lemma Extended<T>(buff: array<T>, a: nat, b: nat, c: nat)
    requires a <= b <= c <= buff.Length
    ensures buff[a..c] == buff[a..b] + buff[b..c]
  {
  }

  lemma ContentParts<T(0)>(b: StreamReadBuff<T>)
    requires b.Valid()
    ensures b.Content() == b.Relevant() + b.Available()
    ensures b.Relevant() == b.Content()[..b.relevantLength] && b.Available() == b.Content()[b.relevantLength..]
  {
    SliceJoin(b.buff[..], b.readPos - b.relevantLength, b.readPos, b.dataEndPos);
  }

  /* What is reported about a request. */

  // After a request for n bytes, a read of k bytes is reported as enough.
  ghost predicate Reported<T(0)>(b: StreamReadBuff<T>, n: nat, k: nat)
    requires b.Valid()
    reads b, b.buff
  {
    k >= b.Missing() + n - |b.Available()|
  }

  // It is enough.
  ghost predicate Satisfied<T(0)>(b: StreamReadBuff<T>, n: nat, k: nat)
    requires b.Valid()
    reads b, b.buff
  {
    |b.Available()| + k >= n
  }

  // A request for more than there is, then a read of as much of the data as
  // fits. There is room for all that is missing, so that the read can be enough.
  method RequestAndRead<T(0)>(b: StreamReadBuff<T>, n: nat, data: seq<T>) returns (k: nat, reported: bool, satisfied: bool)
    requires b.Valid() && n > |b.Available()|
    modifies b, b.buff
    ensures b.Valid() && k <= |data| && (k == |data| || k >= old(b.Missing()) + n - |old(b.Available())|)
    ensures reported <==> old(Reported(b, n, k))
    ensures satisfied <==> old(Satisfied(b, n, k))
  {
    hide StreamReadBuff.Content, StreamReadBuff.Relevant, StreamReadBuff.Available;
    var enough := b.RequestData(n);
    var missing, free := b.GetReadInfo();
    k := if |data| <= free then |data| else free;
    b.Put(data[..k]);
    reported := b.OnNewData(k);
    satisfied := b.RequestData(n);
  }

  // The report is right for every read if and only if nothing was missing
  // before the request.
  lemma ReportIsRight<T(0)>(b: StreamReadBuff<T>, n: nat)
    requires b.Valid() && n > |b.Available()|
    ensures (forall k :: Reported(b, n, k) == Satisfied(b, n, k)) <==> b.reqDataEndPos == b.dataEndPos
  {
    var k := n - |b.Available()|;
    assert Satisfied(b, n, k);
    assert Reported(b, n, k) <==> b.Missing() == 0;
  }

  // A satisfied request need not be reported: two requests for the same byte
  // leave one byte missing after it has arrived.
  method RequestTwice() returns (satisfied: bool, reported: bool)
    ensures satisfied && !reported
  {
    hide StreamReadBuff.Content, StreamReadBuff.Relevant, StreamReadBuff.Available;
    var b := new StreamReadBuff<char>(16);
    var r := b.RequestData(1);
    r := b.RequestData(1);
    b.Put(['x']);
    reported := b.OnNewData(1);
    satisfied := b.RequestData(1);
  }

  /* How large the buffer gets. */

  // What is left of m missing bytes after k bytes have come.
  function Left(m: nat, k: nat): nat {
    if m <= k then 0 else m - k
  }

  // All bytes are consumed, `asked` bytes are requested, and `got` bytes come.
  datatype Round = Round(asked: nat, got: nat)

  // What is missing after the rounds, if m bytes were missing before.
  function Drift(m: nat, rounds: seq<Round>): nat {
    if rounds == [] then m
    else
      var last := rounds[|rounds| - 1];
      Left(Drift(m, rounds[..|rounds| - 1]) + last.asked, last.got)
  }

  // The most that is missing at the end of a request.
  function Peak(m: nat, rounds: seq<Round>): nat {
    if rounds == [] then 0
    else
      var before := rounds[..|rounds| - 1];
      Max(Peak(m, before), Drift(m, before) + rounds[|rounds| - 1].asked)
  }

  // What the rounds from i on ask for less what they get, with the m bytes that
  // were missing before the first one.
  function Excess(m: nat, rounds: seq<Round>, i: nat): int
    requires i <= |rounds|
  {
    if i == |rounds| then if i == 0 then m else 0
    else
      var last := rounds[|rounds| - 1];
      Excess(m, rounds[..|rounds| - 1], i) + last.asked - last.got
  }

  lemma DriftSnoc(m: nat, rounds: seq<Round>, r: Round)
    ensures Drift(m, rounds + [r]) == Left(Drift(m, rounds) + r.asked, r.got)
    ensures Peak(m, rounds + [r]) == Max(Peak(m, rounds), Drift(m, rounds) + r.asked)
  {
    assert (rounds + [r])[..|rounds|] == rounds;
  }

  // Growing in steps is growing once.
  lemma CapacityTwice(size: nat, a: nat, b: nat)
    ensures Capacity(Capacity(size, a), b) == Capacity(size, Max(a, b))
  {
    if a <= b <= RoundUp(a, 1024) {
      SameMultiple(a, b);
    }
  }

  lemma SameMultiple(a: nat, b: nat)
    requires a <= b <= RoundUp(a, 1024)
    ensures RoundUp(b, 1024) == RoundUp(a, 1024)
  {
  }

  // One round. The read takes as much of the data as fits.
  method ReadRound<T(0)>(b: StreamReadBuff<T>, asked: nat, data: seq<T>)
    requires b.Valid() && b.relevantLength == 0 && asked > 0
    modifies b, b.buff
    ensures b.Valid() && b.relevantLength == 0 && (b.buff == old(b.buff) || fresh(b.buff))
    ensures b.buff.Length == Capacity(old(b.buff.Length), old(b.Missing()) + asked)
    ensures b.Missing() == Left(old(b.Missing()) + asked, |data|)
  {
    hide StreamReadBuff.Content, StreamReadBuff.Relevant, StreamReadBuff.Available, Capacity;
    var r := b.Consume(b.dataEndPos - b.readPos, false);
    r := b.RequestData(asked);
    var missing, free := b.GetReadInfo();
    var k := if |data| <= free then |data| else free;
    b.Put(data[..k]);
    r := b.OnNewData(k);
  }

  // Any number of rounds: what was once missed is asked for again, so that the
  // buffer grows to the largest sum of what is asked for and still missing.
  method ReadRounds<T(0)>(b: StreamReadBuff<T>, asked: seq<nat>, data: seq<seq<T>>)
    requires b.Valid() && b.relevantLength == 0 && |asked| == |data|
    requires forall i :: 0 <= i < |asked| ==> asked[i] > 0
    modifies b, b.buff
    ensures var rounds := seq(|asked|, i requires 0 <= i < |asked| => Round(asked[i], |data[i]|));
            && b.Valid()
            && b.Missing() == Drift(old(b.Missing()), rounds)
            && b.buff.Length == Capacity(old(b.buff.Length), Peak(old(b.Missing()), rounds))
  {
    hide Capacity, Drift, Peak;
    ghost var rounds := seq(|asked|, i requires 0 <= i < |asked| => Round(asked[i], |data[i]|));
    ghost var m, size := b.Missing(), b.buff.Length;
    NoRounds(m, size);
    for i := 0 to |asked|
      invariant b.Valid() && b.relevantLength == 0 && (b.buff == old(b.buff) || fresh(b.buff))
      invariant b.Missing() == Drift(m, rounds[..i]) && b.buff.Length == Capacity(size, Peak(m, rounds[..i]))
    {
      CapacityTwice(size, Peak(m, rounds[..i]), b.Missing() + asked[i]);
      ReadRound(b, asked[i], data[i]);
      assert rounds[..i + 1] == rounds[..i] + [rounds[i]];
      DriftSnoc(m, rounds[..i], rounds[i]);
    }
    assert rounds[..|asked|] == rounds;
  }

  lemma NoRounds(m: nat, size: nat)
    ensures Drift(m, []) == m && Capacity(size, Peak(m, [])) == size
  {
  }

  // Reads of one byte each, after requests for n: nearly all that was asked for
  // is held free.
  lemma {:induction false} OneByteRounds(n: nat, rounds: seq<Round>)
    requires n > 0 && forall i :: 0 <= i < |rounds| ==> rounds[i] == Round(n, 1)
    ensures Drift(0, rounds) == |rounds| * (n - 1)
    ensures Peak(0, rounds) == if rounds == [] then 0 else |rounds| * (n - 1) + 1
  {
    if rounds != [] {
      var k := |rounds| - 1;
      OneByteRounds(n, rounds[..k]);
      assert rounds == rounds[..k] + [Round(n, 1)];
      hide Drift, Peak;
      DriftSnoc(0, rounds[..k], Round(n, 1));
      OneMore(k, n - 1);
    }
  }

  lemma OneMore(k: nat, n: nat)
    ensures (k + 1) * n == k * n + n >= 0
  {
  }

  lemma {:induction false} DriftIsExcess(m: nat, rounds: seq<Round>, x: int)
    ensures Drift(m, rounds) <= x <==> forall i :: 0 <= i <= |rounds| ==> Excess(m, rounds, i) <= x
  {
    if rounds == [] {
      assert Excess(m, rounds, 0) == m;
    } else {
      var before, last := rounds[..|rounds| - 1], rounds[|rounds| - 1];
      DriftIsExcess(m, before, x - last.asked + last.got);
      assert Drift(m, rounds) <= x <==> 0 <= x && Drift(m, before) <= x - last.asked + last.got;
      assert Excess(m, rounds, |rounds|) == 0;
      if Drift(m, rounds) <= x {
        forall i | 0 <= i <= |rounds|
          ensures Excess(m, rounds, i) <= x
        {
          assert i < |rounds| ==> Excess(m, before, i) <= x - last.asked + last.got;
        }
      } else if 0 <= x {
        var i :| 0 <= i <= |before| && Excess(m, before, i) > x - last.asked + last.got;
        assert Excess(m, rounds, i) > x;
      }
    }
  }

  // The buffer keeps its size if and only if no run of rounds asks for more than
  // fits beyond what its reads before the last request bring.
  lemma {:induction false} KeepsSizeIff(size: nat, m: nat, rounds: seq<Round>)
    ensures Capacity(size, Peak(m, rounds)) == size <==>
            forall i, j :: 0 <= i <= j < |rounds| ==> Excess(m, rounds[..j], i) + rounds[j].asked <= size
  {
    assert Capacity(size, Peak(m, rounds)) == size <==> Peak(m, rounds) <= size;
    PeakIsExcess(size, m, rounds);
  }

  lemma {:induction false} PeakIsExcess(size: nat, m: nat, rounds: seq<Round>)
    ensures Peak(m, rounds) <= size <==>
            forall i, j :: 0 <= i <= j < |rounds| ==> Excess(m, rounds[..j], i) + rounds[j].asked <= size
  {
    hide Excess, Drift;
    if rounds != [] {
      var n := |rounds| - 1;
      var before := rounds[..n];
      PeakIsExcess(size, m, before);
      DriftIsExcess(m, before, size - rounds[n].asked);
      assert forall j :: 0 <= j < n ==> before[..j] == rounds[..j] && before[j] == rounds[j];
      assert Peak(m, rounds) <= size <==> Peak(m, before) <= size && Drift(m, before) <= size - rounds[n].asked;
    }
  }

  /* The other end: bytes that arrive in pieces of any size. */

  // The most that the next read yields.
  function Cut(cuts: seq<nat>): nat {
    if cuts == [] || cuts[0] == 0 then 1 else cuts[0]
  }

  // `cuts` decides how much each read yields, at least one byte.
  class Socket<T(0)> {
    var incoming: seq<T>
    var cuts: seq<nat>

    constructor (stream: seq<T>, pieces: seq<nat>)
      ensures incoming == stream && cuts == pieces
    {
      incoming := stream;
      cuts := pieces;
    }

    method ReadSome(max: nat) returns (data: seq<T>)
      requires max > 0
      modifies this
      ensures |data| <= max && |data| <= |old(incoming)|
      ensures data == old(incoming)[..|data|] && incoming == old(incoming)[|data|..]
      ensures data == [] <==> old(incoming) == []
      ensures |data| <= Cut(old(cuts)) && cuts == if old(cuts) == [] then [] else old(cuts)[1..]
    {
      var k := Cut(cuts);
      if k > max {
        k := max;
      }
      if k > |incoming| {
        k := |incoming|;
      }
      data := incoming[..k];
      incoming := incoming[k..];
      if cuts != [] {
        cuts := cuts[1..];
      }
    }
  }

  // What has arrived or will arrive.
  ghost function Stream<T(0)>(b: StreamReadBuff<T>, sock: Socket<T>): seq<T>
    requires b.Valid()
    reads b, b.buff, sock
  {
    b.Available() + sock.incoming
  }

  // Connection::ContinueRead. The result is false when the peer has closed.
  method ContinueRead<T(0)>(b: StreamReadBuff<T>, sock: Socket<T>) returns (open: bool)
    requires b.Valid()
    modifies b, b.buff, sock
    ensures b.Valid() && b.buff == old(b.buff) && b.readPos == old(b.readPos)
    ensures b.Relevant() == old(b.Relevant()) && Stream(b, sock) == old(Stream(b, sock))
    ensures old(b.Available()) <= b.Available()
    ensures old(b.dataEndPos) == b.buff.Length ==> open && b.dataEndPos == b.buff.Length && sock.incoming == old(sock.incoming)
    ensures old(b.dataEndPos) < b.buff.Length ==>
              if old(sock.incoming) == [] then !open && b.Available() == old(b.Available())
              else open && |sock.incoming| < |old(sock.incoming)|
    ensures |sock.incoming| <= |old(sock.incoming)|
    ensures b.Missing() == Left(old(b.Missing()), |b.Available()| - |old(b.Available())|)
  {
    hide StreamReadBuff.Content, StreamReadBuff.Relevant, StreamReadBuff.Available;
    var reqLength, freeLength := b.GetReadInfo();
    open := true;
    if freeLength > 0 {
      var data := sock.ReadSome(freeLength);
      if data == [] {
        return false;
      }
      b.Put(data);
      var ok := b.OnNewData(|data|);
      assert old(sock.incoming) == data + sock.incoming;
    }
  }
}
