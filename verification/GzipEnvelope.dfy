/**
 A deflated entry of a zip archive, served as a gzip file: the header, the
 compressed bytes as they are in the archive, the footer (section 2.3 of
 RFC 1952), in reads of any size.
 */
module GzipEnvelope {
  import opened Common

  const HEADER: seq<UInt8> := [31, 139, 8, 0, 0, 0, 0, 0, 2, 255]

  // A 32-bit word as memory holds it, the low byte first.
  function Bytes(w: nat): (r: seq<UInt8>)
    requires w < 0x1_0000_0000
    ensures |r| == 4
  {
    [w % 0x100, w / 0x100 % 0x100, w / 0x1_0000 % 0x100, w / 0x100_0000]
  }

  function Word(s: seq<UInt8>): nat
    requires |s| == 4
  {
    s[0] as nat + 0x100 * (s[1] as nat + 0x100 * (s[2] as nat + 0x100 * (s[3] as nat)))
  }

  lemma WordOfBytes(w: nat)
    requires w < 0x1_0000_0000
    ensures Word(Bytes(w)) == w
  {
    assert w / 0x100 / 0x100 == w / 0x1_0000 && w / 0x1_0000 / 0x100 == w / 0x100_0000;
  }

  /* A gzip member as its receiver reads it. */

  datatype Member = Member(deflated: seq<UInt8>, crc32: nat, isize: nat)

  // A member with a plain header: FLG is zero, so no field follows the first ten bytes.
  function ReadMember(s: seq<UInt8>): Option<Member> {
    if |s| < 18 || s[0] != 31 || s[1] != 139 || s[2] != 8 || s[3] != 0 then None
    else
      var n := |s| - 8;
      Some(Member(s[10..n], Word(s[n..n + 4]), Word(s[n + 4..])))
  }

  /* The response. */

  datatype ContentState = CsHeader | CsBody | CsFooter

  // Writes data into the target buffer.
  method Put(target: array<UInt8>, at: nat, data: seq<UInt8>)
    requires at + |data| <= target.Length
    modifies target
    ensures target[..at] == old(target[..at]) && target[at..at + |data|] == data
    ensures target[at + |data|..] == old(target[at + |data|..])
  {
    forall i | 0 <= i < |data| {
      target[at + i] := data[i];
    }
  }

  class ZipResponse {
    const data: seq<UInt8>
    const footer: seq<UInt8>
    const modified: bool
    // What lies behind the header array in memory.
    const behind: seq<UInt8>
    var compPos: nat
    var cState: ContentState
    var cStatePos: nat

    ghost predicate Valid()
      reads this
    {
      && |footer| == 8 && |behind| >= 10 && compPos <= |data|
      && match cState
         case CsHeader => cStatePos < 10 && compPos == 0
         case CsBody => true
         case CsFooter => cStatePos <= 8 && compPos == |data|
    }

    ghost function Envelope(): seq<UInt8> {
      if modified then HEADER + data + footer else []
    }

    // How much of the envelope has been read, if the header was not cut.
    ghost function Position(): nat
      reads this
    {
      if !modified then 0
      else match cState
           case CsHeader => 0
           case CsBody => 10 + compPos
           case CsFooter => 10 + compPos + cStatePos
    }

    // The header was read at once or not at all.
    ghost predicate Clean()
      reads this
    {
      cState.CsHeader? ==> cStatePos == 0
    }

    // A read of m bytes does not cut the header.
    ghost predicate Sound(m: nat)
      reads this
    {
      Clean() && (cState.CsHeader? ==> m == 0 || m >= 10)
    }

    constructor (data: seq<UInt8>, crc32: nat, uncompressedSize: nat, lastModTime: int, ifModifiedSince: int, behind: seq<UInt8>)
      requires crc32 < 0x1_0000_0000 && uncompressedSize < 0x1_0000_0000 && |behind| >= 10
      ensures Valid() && Clean() && cState.CsHeader? && Position() == 0
      ensures this.data == data && modified == (lastModTime > ifModifiedSince)
      ensures modified ==> Envelope() == GzipFile(data, crc32, uncompressedSize)
    {
      this.data := data;
      this.behind := behind;
      footer := Bytes(crc32) + Bytes(uncompressedSize);
      modified := lastModTime > ifModifiedSince;
      compPos := 0;
      cState := CsHeader;
      cStatePos := 0;
    }

    function GetLength(): (n: nat)
      requires |footer| == 8
      ensures n == |Envelope()|
    {
      if modified then |data| + |HEADER| + |footer| else 0
    }

    // ZipArchive::Stream::Read: it falls short only at the end.
    method ReadStream(target: array<UInt8>, at: nat, size: nat) returns (n: nat)
      requires Valid() && at + size <= target.Length
      modifies `compPos, target
      ensures n == (if size <= |data| - old(compPos) then size else |data| - old(compPos)) && compPos == old(compPos) + n
      ensures target[..at] == old(target[..at]) && target[at..at + n] == data[old(compPos)..compPos]
      ensures target[at + size..] == old(target[at + size..])
    {
      n := if size > |data| - compPos then |data| - compPos else size;
      ghost var end := target[at + n..];
      Put(target, at, data[compPos..compPos + n]);
      assert target[at + size..] == end[size - n..];
      compPos := compPos + n;
    }

    // Up to `room` bytes of the compressed data go to the target.
    method BodyStep(target: array<UInt8>, at: nat, room: nat) returns (n: nat)
      requires Valid() && modified && cState.CsBody? && at + room <= target.Length
      modifies `compPos, `cState, `cStatePos, target
      ensures Valid() && n <= room && Rest(target[..], old(target[..]), at, room)
      ensures old(Position()) <= Position() == old(Position()) + n < |Envelope()|
      ensures target[at..at + n] == Envelope()[old(Position())..Position()]
      ensures if n < room then cState.CsFooter? else cState.CsBody?
    {
      hide HEADER;
      HeaderLength();
      n := ReadStream(target, at, room);
      if n < room {
        cState := CsFooter;
        cStatePos := 0;
      }
      assert Envelope()[10 + old(compPos)..10 + compPos] == data[old(compPos)..compPos];
    }

    // The position in the header is advanced before the copy, so that a part
    // of the header is not the part that is due.
    method HeaderStep(target: array<UInt8>, at: nat, room: nat) returns (n: nat)
      requires Valid() && modified && cState.CsHeader? && 0 < room && at + room <= target.Length
      modifies `cState, `cStatePos, target
      ensures Valid() && 0 < n <= room && Rest(target[..], old(target[..]), at, room)
      ensures if room >= 10 - old(cStatePos) then cState.CsBody? else cState.CsHeader? && n == room
      ensures old(cStatePos) == 0 ==>
                if room >= 10
                then n == 10 == Position() && target[at..at + n] == Envelope()[..n]
                else target[at] != HEADER[0]
    {
      hide HEADER;
      HeaderLength();
      ghost var pos := cStatePos;
      if room >= |HEADER| - cStatePos {
        n := |HEADER| - cStatePos;
        cState := CsBody;
        cStatePos := 0;
      } else {
        n := room;
        cStatePos := cStatePos + n;
      }
      var source := (HEADER + behind)[cStatePos..cStatePos + n];
      Put(target, at, source);
      assert target[at] == target[at..at + n][0] == source[0];
      if pos == 0 && room >= 10 {
        assert source == HEADER == Envelope()[..n];
      } else if pos == 0 {
        assert source[0] == HEADER[cStatePos];
        HeaderIsNotPeriodic(cStatePos);
      }
    }

    method FooterStep(target: array<UInt8>, at: nat, room: nat) returns (n: nat)
      requires Valid() && modified && cState.CsFooter? && at + room <= target.Length
      modifies `cStatePos, target
      ensures Valid() && n <= room && Rest(target[..], old(target[..]), at, room)
      ensures old(Position()) <= Position() == old(Position()) + n <= |Envelope()|
      ensures target[at..at + n] == Envelope()[old(Position())..Position()]
      ensures cStatePos == 8 || n == room
    {
      hide HEADER;
      HeaderLength();
      n := if room >= |footer| - cStatePos then |footer| - cStatePos else room;
      Put(target, at, footer[cStatePos..cStatePos + n]);
      cStatePos := cStatePos + n;
      assert Envelope()[old(Position())..Position()] == footer[old(cStatePos)..cStatePos];
    }

    // One round of the loop.
    method Step(target: array<UInt8>, at: nat, room: nat) returns (n: nat)
      requires Valid() && modified && 0 < room && at + room <= target.Length
      modifies `compPos, `cState, `cStatePos, target
      ensures Valid() && n <= room && Rest(target[..], old(target[..]), at, room)
      ensures old(Sound(room)) ==>
                && !cState.CsHeader?
                && old(Position()) <= Position() == old(Position()) + n <= |Envelope()|
                && target[at..at + n] == Envelope()[old(Position())..Position()]
                && (Position() == |Envelope()| <==> cState.CsFooter? && cStatePos == 8)
      ensures old(cState.CsHeader? && cStatePos == 0) && room < 10 ==>
                n == room && cState.CsHeader? && target[at] != HEADER[0]
      ensures n == room || (cState.CsFooter? && cStatePos == 8) || Rank(cState) < Rank(old(cState))
      ensures Rank(cState) <= Rank(old(cState))
    {
      hide HEADER;
      HeaderLength();
      match cState {
        case CsBody => n := BodyStep(target, at, room);
        case CsHeader => n := HeaderStep(target, at, room);
        case CsFooter => n := FooterStep(target, at, room);
      }
    }

    // For a read that does not cut the header, the next bytes of the envelope,
    // as many as fit, and the finished flag with the last of them. A read that
    // cuts the header starts with a wrong byte.
    method Read(target: array<UInt8>, maxLength: nat) returns (outLength: nat, finished: bool)
      requires Valid() && maxLength <= target.Length
      modifies `compPos, `cState, `cStatePos, target
      ensures Valid() && outLength <= maxLength
      ensures target[maxLength..] == old(target[maxLength..])
      ensures old(Sound(maxLength)) ==>
                && Clean()
                && old(Position()) <= Position() == old(Position()) + outLength <= |Envelope()|
                && target[..outLength] == Envelope()[old(Position())..Position()]
                && outLength == (if maxLength <= |Envelope()| - old(Position()) then maxLength else |Envelope()| - old(Position()))
                && (finished <==> Position() == |Envelope()| && (maxLength > 0 || !modified))
                && (cState.CsHeader? ==> maxLength == 0 || !modified)
      ensures modified && old(Clean()) && !old(Sound(maxLength)) ==>
                outLength == maxLength > 0 && target[0] != HEADER[0] && !finished
    {
      hide HEADER, ZipResponse.Valid, ZipResponse.Position, ZipResponse.Envelope, Rest, Copied;
      HeaderLength();
      PositionBound(this);
      if !modified {
        return 0, true;
      }
      CopiedNone(target[..], Envelope(), Position());
      ghost var sound, spoils, from := Sound(maxLength), Clean() && !Sound(maxLength), Position();
      var remLength: nat, at: nat := maxLength, 0;
      while remLength > 0
        invariant Valid() && at + remLength == maxLength
        invariant target[maxLength..] == old(target[maxLength..])
        invariant sound ==>
                    && Position() == from + at <= |Envelope()| && Copied(target[..], at, Envelope(), from)
                    && (remLength == 0 && maxLength > 0 ==> Position() < |Envelope()| && !cState.CsHeader?)
                    && (cState.CsHeader? ==> at == 0 && cStatePos == 0)
        invariant spoils ==> if at == 0 then cState.CsHeader? && cStatePos == 0 else remLength == 0 && target[0] != HEADER[0]
        decreases Rank(cState), remLength
      {
        ghost var before := target[..];
        var n := Step(target, at, remLength);
        Extend(before, target[..], at, n, remLength, Envelope(), from, sound);
        remLength := remLength - n;
        at := at + n;
        if cState.CsFooter? && cStatePos == |footer| {
          if sound {
            CopiedAll(target[..], at, Envelope(), from);
          }
          return maxLength - remLength, true;
        }
      }
      if sound {
        CopiedAll(target[..], at, Envelope(), from);
      }
      return maxLength - remLength, false;
    }
  }

  lemma PositionBound(z: ZipResponse)
    requires z.Valid()
    ensures z.Position() <= |z.Envelope()|
    ensures z.modified && !z.cState.CsFooter? ==> z.Position() < |z.Envelope()|
    ensures !z.modified ==> z.Envelope() == [] && z.Position() == 0
    ensures |z.footer| == 8
  {
  }

  function Rank(s: ContentState): nat {
    match s
    case CsHeader => 2
    case CsBody => 1
    case CsFooter => 0
  }

  // Only the bytes from `at` on, `room` of them, have changed.
  ghost predicate Rest(now: seq<UInt8>, before: seq<UInt8>, at: nat, room: nat) {
    && |now| == |before| && at + room <= |now|
    && now[..at] == before[..at] && now[at + room..] == before[at + room..]
  }

  // The first bytes are those of the envelope, from a position on.
  ghost predicate Copied(now: seq<UInt8>, n: nat, all: seq<UInt8>, from: nat) {
    n <= |now| && from + n <= |all| && now[..n] == all[from..from + n]
  }

  lemma CopiedNone(now: seq<UInt8>, all: seq<UInt8>, from: nat)
    requires from <= |all|
    ensures Copied(now, 0, all, from)
  {
  }

  lemma {:induction false} Extend(before: seq<UInt8>, now: seq<UInt8>, at: nat, n: nat, room: nat, all: seq<UInt8>, from: nat, sound: bool)
    requires Rest(now, before, at, room) && n <= room
    requires sound ==> from + at + n <= |all| && Copied(before, at, all, from) && now[at..at + n] == all[from + at..from + at + n]
    ensures now[at + room..] == before[at + room..]
    ensures sound ==> Copied(now, at + n, all, from)
  {
    if sound {
      SliceJoin(now, 0, at, at + n);
      SliceJoin(all, from, from + at, from + at + n);
      assert now[..at] == now[0..at] && now[..at + n] == now[0..at + n];
    }
  }

  lemma CopiedAll(now: seq<UInt8>, n: nat, all: seq<UInt8>, from: nat)
    requires Copied(now, n, all, from)
    ensures n <= |now| && from + n <= |all| && now[..n] == all[from..from + n]
  {
  }

  lemma HeaderLength()
    ensures |HEADER| == 10
  {
  }

  lemma HeaderIsNotPeriodic(i: nat)
    requires 0 < i < 10
    ensures HEADER[i] != HEADER[0]
  {
  }

  function GzipFile(data: seq<UInt8>, crc32: nat, size: nat): seq<UInt8>
    requires crc32 < 0x1_0000_0000 && size < 0x1_0000_0000
  {
    HEADER + data + (Bytes(crc32) + Bytes(size))
  }

  // What is served is a gzip member with the entry's data, checksum and size.
  lemma FileIsMember(data: seq<UInt8>, crc32: nat, size: nat)
    requires crc32 < 0x1_0000_0000 && size < 0x1_0000_0000
    ensures ReadMember(GzipFile(data, crc32, size)) == Some(Member(data, crc32, size))
    // No time, the extra flags for slow compression, an unknown system.
    ensures GzipFile(data, crc32, size)[4..10] == [0, 0, 0, 0, 2, 255]
  {
    hide Bytes, Word;
    WordOfBytes(crc32);
    WordOfBytes(size);
    var s := GzipFile(data, crc32, size);
    var n := |s| - 8;
    assert s[..10] == HEADER && s[4..10] == s[..10][4..];
    assert s[10..n] == data && s[n..n + 4] == Bytes(crc32) && s[n + 4..] == Bytes(size);
  }

  /* Whole downloads. */

  // The first size that is not zero, if there is one.
  function FirstRead(sizes: seq<nat>): nat {
    if sizes == [] then 0
    else
      var f := FirstRead(sizes[..|sizes| - 1]);
      if f > 0 then f else sizes[|sizes| - 1]
  }

  lemma {:induction false} PrefixReads(sizes: seq<nat>, i: nat)
    requires i <= |sizes|
    ensures Sum(sizes[..i]) <= Sum(sizes)
    ensures FirstRead(sizes[..i]) > 0 ==> FirstRead(sizes) == FirstRead(sizes[..i])
    decreases |sizes| - i
  {
    if i == |sizes| {
      assert sizes[..i] == sizes;
    } else {
      PrefixReads(sizes, i + 1);
      assert sizes[..i + 1][..i] == sizes[..i];
    }
  }

  // The state of a download after reads of the given sizes.
  ghost predicate Downloaded(z: ZipResponse, sizes: seq<nat>, output: seq<UInt8>, finished: bool)
    requires z.Valid() && z.modified
    reads z
  {
    var f, all := FirstRead(sizes), z.Envelope();
    if f == 0 then z.cState.CsHeader? && z.cStatePos == 0 && output == [] && !finished && Sum(sizes) == 0
    else if f >= 10 then
      && z.Clean() && !z.cState.CsHeader?
      && z.Position() == Min(Sum(sizes), |all|) && output == all[..z.Position()]
      && (finished <==> Sum(sizes) >= |all|)
    else output != [] && output[0] != HEADER[0]
  }

  // Reads of the given sizes until the response says that it is finished. The
  // output is right if and only if the first read that asks for something asks
  // for at least the ten bytes of the header.
  method Download(data: seq<UInt8>, crc32: nat, size: nat, behind: seq<UInt8>, sizes: seq<nat>)
    returns (output: seq<UInt8>, finished: bool, length: nat)
    requires crc32 < 0x1_0000_0000 && size < 0x1_0000_0000 && |behind| >= 10
    ensures var all, f := GzipFile(data, crc32, size), FirstRead(sizes);
            && length == |all|
            && (output <= all <==> f == 0 || f >= 10)
            && (f == 0 || f >= 10 ==> output == all[..Min(Sum(sizes), |all|)] && (finished <==> Sum(sizes) >= |all|))
  {
    hide HEADER, ZipResponse.Envelope, GzipFile, FirstRead, Sum;
    var z := new ZipResponse(data, crc32, size, 1, 0, behind);
    length := z.GetLength();
    ghost var all := z.Envelope();
    NoReads();
    EnvelopeStart(z);
    output, finished := [], false;
    var i := 0;
    while i < |sizes| && !finished
      invariant 0 <= i <= |sizes| && z.Valid() && Downloaded(z, sizes[..i], output, finished)
    {
      ghost var p := z.Position();
      var target := new UInt8[sizes[i]];
      var outLength;
      outLength, finished := z.Read(target, sizes[i]);
      DownloadStep(sizes, i);
      assert forall k: nat :: p <= k <= |all| ==> all[..p] + all[p..k] == all[..k];
      output := output + target[..outLength];
      i := i + 1;
    }
    PrefixReads(sizes, i);
    assert i == |sizes| ==> sizes[..i] == sizes;
  }

  lemma NoReads()
    ensures FirstRead([]) == 0 && Sum([]) == 0
  {
  }

  lemma EnvelopeStart(z: ZipResponse)
    requires z.Valid() && z.modified
    ensures |z.Envelope()| >= 18 && z.Envelope()[0] == HEADER[0]
  {
  }

  lemma DownloadStep(sizes: seq<nat>, i: nat)
    requires i < |sizes|
    ensures Sum(sizes[..i + 1]) == Sum(sizes[..i]) + sizes[i]
    ensures FirstRead(sizes[..i + 1]) == if FirstRead(sizes[..i]) > 0 then FirstRead(sizes[..i]) else sizes[i]
  {
    assert sizes[..i + 1][..i] == sizes[..i];
  }
}
