/**
 The streaming multipart/form-data parser: the boundary matcher drives the part
 machine, one piece of the body at a time.
 */
module QueryParams {
  import opened Common
  import opened HeaderFields
  import opened BoundaryMatcher
  import opened PartMachine

  /* The loop of AppendFormMultipart at position pos of a piece, with the content
     from `begin` on not passed on yet. */

  // The pending match started before this piece.
  ghost predicate Early(d: string, m: Scan, chunk: string, pos: nat, begin: nat, tmp: string, toks: seq<Tok>)
    requires m.Ok(d) && begin <= pos <= |chunk|
  {
    begin == 0 && m.count > 0 && tmp + chunk[..pos] == Held(d, m) && toks == m.toks
  }

  // The pending match, if any, started in this piece.
  ghost predicate Here(d: string, m: Scan, chunk: string, pos: nat, begin: nat, tmp: string, toks: seq<Tok>)
    requires m.Ok(d) && begin <= pos <= |chunk|
  {
    && tmp == "" && !m.lead && m.count <= pos - begin
    && chunk[pos - m.count..pos] == d[..m.count]
    && '\r' !in chunk[begin..pos - m.count]
    && toks + Bytes(chunk[begin..pos - m.count]) == m.toks
    && (0 < m.count < pos - begin ==> !EndsCrLf(m.toks))
    && (begin < pos && EndsCr(toks) ==> chunk[begin] != '\n')
  }

  // A match was just broken by the byte at pos, which is still to be looked at.
  ghost predicate Broken(d: string, m: Scan, chunk: string, pos: nat, begin: nat, tmp: string, toks: seq<Tok>)
    requires m.Ok(d) && begin <= pos <= |chunk|
  {
    begin == pos < |chunk| && m.count > 0 && chunk[pos] != d[m.count] && tmp == "" && toks == m.toks + Bytes(Held(d, m))
  }

  ghost predicate Matching(d: string, fed: string, chunk: string, pos: nat, begin: nat, count: nat, tmp: string, toks: seq<Tok>) {
    && Delimiter(d)
    && begin <= pos <= |chunk|
    && var m := ScanAll(d, fed + chunk[..pos]);
    && (|| (count == 0 && Broken(d, m, chunk, pos, begin, tmp, toks))
        || (count == m.count && (Early(d, m, chunk, pos, begin, tmp, toks) || Here(d, m, chunk, pos, begin, tmp, toks))))
  }

  lemma NextScan(d: string, fed: string, chunk: string, pos: nat)
    requires Delimiter(d) && pos < |chunk|
    ensures ScanAll(d, fed + chunk[..pos + 1]) == ScanByte(d, ScanAll(d, fed + chunk[..pos]), chunk[pos])
  {
    assert fed + chunk[..pos + 1] == fed + chunk[..pos] + [chunk[pos]];
    ScanSnoc(d, fed + chunk[..pos], chunk[pos]);
  }

  lemma MatchingStart(d: string, fed: string, chunk: string, tmp: string, toks: seq<Tok>)
    requires Delimiter(d)
    requires var m := ScanAll(d, fed); Held(d, m) == tmp && m.toks == toks
    ensures Matching(d, fed, chunk, 0, 0, ScanAll(d, fed).count, tmp, toks)
  {
    assert fed + chunk[..0] == fed;
    var m := ScanAll(d, fed);
    assert tmp + chunk[..0] == tmp && Bytes(chunk[0..0]) == [] && toks + [] == toks;
  }

  lemma IdleHere(d: string, m: Scan, chunk: string, pos: nat, begin: nat, tmp: string, toks: seq<Tok>)
    requires Delimiter(d) && m.Ok(d) && begin <= pos < |chunk| && Here(d, m, chunk, pos, begin, tmp, toks)
    requires m.count == 0 && !EndsCrLf(m.toks) && !EndsCr(m.toks)
    ensures Here(d, ScanByte(d, m, chunk[pos]), chunk, pos + 1, begin, tmp, toks)
  {
    var c := chunk[pos];
    assert d[0] == d[..4][0] == '\r' && d[..1] == [d[0]];
    var content := chunk[begin..pos];
    assert chunk[begin..pos + 1] == content + [c] && chunk[pos..pos + 1] == [c];
    BytesConcat(content, [c]);
    assert Held(d, m) == "" && m.toks + Bytes("") == m.toks;
    assert toks + (Bytes(content) + Bytes([c])) == m.toks + [Byte(c)];
  }

  lemma IdleBroken(d: string, m: Scan, chunk: string, pos: nat, begin: nat, tmp: string, toks: seq<Tok>)
    requires Delimiter(d) && m.Ok(d) && begin <= pos < |chunk| && Broken(d, m, chunk, pos, begin, tmp, toks)
    requires m.lead ==> m.toks == []
    ensures Here(d, ScanByte(d, m, chunk[pos]), chunk, pos + 1, begin, tmp, toks)
  {
    var c := chunk[pos];
    assert d[0] == d[..4][0] == '\r' && d[..1] == [d[0]];
    assert chunk[pos..pos + 1] == [c] && chunk[pos..pos] == "" && toks + Bytes("") == toks;
    assert Bytes([c]) == [Byte(c)];
    BrokenLine(d, m, c);
  }

  // A broken match does not leave a CR in front of a LF.
  lemma BrokenLine(d: string, m: Scan, c: char)
    requires Delimiter(d) && m.Ok(d) && 0 < m.count && c != d[m.count] && (m.lead ==> m.toks == [])
    ensures EndsCr(m.toks + Bytes(Held(d, m))) ==> c != '\n'
  {
    var held := Held(d, m);
    assert d[1] == d[..4][1] == '\n';
    if held == "" {
      assert m.toks + Bytes(held) == [];
    } else {
      LastByte(m.toks, held);
      assert held[|held| - 1] == d[m.count - 1];
    }
  }

  // Nothing is matched: a byte other than CR is content, a CR starts a match.
  lemma MatchingIdle(d: string, fed: string, chunk: string, pos: nat, begin: nat, tmp: string, toks: seq<Tok>)
    requires pos < |chunk| && Matching(d, fed, chunk, pos, begin, 0, tmp, toks)
    ensures Matching(d, fed, chunk, pos + 1, begin, if chunk[pos] == '\r' then 1 else 0, tmp, toks)
  {
    hide Early, Here, ScanAll;
    NextScan(d, fed, chunk, pos);
    IdleScan(d, fed + chunk[..pos]);
    var m := ScanAll(d, fed + chunk[..pos]);
    assert d[0] == d[..4][0] == '\r';
    if m.count == 0 {
      NotEarly(d, m, chunk, pos, begin, tmp, toks);
      IdleHere(d, m, chunk, pos, begin, tmp, toks);
    } else {
      IdleBroken(d, m, chunk, pos, begin, tmp, toks);
    }
  }

  lemma NotEarly(d: string, m: Scan, chunk: string, pos: nat, begin: nat, tmp: string, toks: seq<Tok>)
    requires m.Ok(d) && begin <= pos <= |chunk| && m.count == 0
    ensures !Early(d, m, chunk, pos, begin, tmp, toks)
  {
  }

  lemma NextEarly(d: string, m: Scan, chunk: string, pos: nat, begin: nat, tmp: string, toks: seq<Tok>)
    requires m.Ok(d) && begin <= pos < |chunk| && Early(d, m, chunk, pos, begin, tmp, toks)
    requires m.count + 1 < |d| && chunk[pos] == d[m.count]
    ensures Early(d, m.(count := m.count + 1), chunk, pos + 1, begin, tmp, toks)
  {
    assert Held(d, m.(count := m.count + 1)) == Held(d, m) + [chunk[pos]];
    assert tmp + chunk[..pos + 1] == tmp + chunk[..pos] + [chunk[pos]];
  }

  lemma NextHere(d: string, m: Scan, chunk: string, pos: nat, begin: nat, tmp: string, toks: seq<Tok>)
    requires m.Ok(d) && begin <= pos < |chunk| && Here(d, m, chunk, pos, begin, tmp, toks)
    requires 0 < m.count && m.count + 1 < |d| && chunk[pos] == d[m.count]
    ensures Here(d, m.(count := m.count + 1), chunk, pos + 1, begin, tmp, toks)
  {
    var from := pos - m.count;
    assert chunk[from..pos + 1] == chunk[from..pos] + [chunk[pos]];
    assert d[..m.count + 1] == d[..m.count] + [d[m.count]];
  }

  // One more byte of the delimiter, but not its last.
  lemma MatchingNext(d: string, fed: string, chunk: string, pos: nat, begin: nat, count: nat, tmp: string, toks: seq<Tok>)
    requires pos < |chunk| && Matching(d, fed, chunk, pos, begin, count, tmp, toks)
    requires 0 < count && count + 1 < |d| && chunk[pos] == d[count]
    ensures Matching(d, fed, chunk, pos + 1, begin, count + 1, tmp, toks)
  {
    hide Early, Here, ScanAll;
    NextScan(d, fed, chunk, pos);
    var m := ScanAll(d, fed + chunk[..pos]);
    if Early(d, m, chunk, pos, begin, tmp, toks) {
      NextEarly(d, m, chunk, pos, begin, tmp, toks);
    } else {
      NextHere(d, m, chunk, pos, begin, tmp, toks);
    }
  }

  // The whole delimiter was seen: what lay before it in this piece is content.
  lemma MatchingFull(d: string, fed: string, chunk: string, pos: nat, begin: nat, count: nat, tmp: string, toks: seq<Tok>)
    requires pos < |chunk| && Matching(d, fed, chunk, pos, begin, count, tmp, toks)
    requires 0 < count && count + 1 == |d| && chunk[pos] == d[count]
    ensures pos + 1 < |d| ==> |tmp| <= |d| - (pos + 1)
    ensures var end := pos + 1 - |d|;
            var content := if begin < end then chunk[begin..end] else "";
            && '\r' !in content
            && (content != "" ==> |d| <= pos + 1 && (EndsCr(toks) ==> content[0] != '\n'))
            && Matching(d, fed, chunk, pos + 1, pos + 1, 0, "", toks + Bytes(content) + [NewPart])
  {
    hide Early, Here, ScanAll;
    NextScan(d, fed, chunk, pos);
    var m := ScanAll(d, fed + chunk[..pos]);
    var end := pos + 1 - |d|;
    var content := if begin < end then chunk[begin..end] else "";
    if Early(d, m, chunk, pos, begin, tmp, toks) {
      FullEarly(d, m, chunk, pos, begin, tmp, toks);
      assert Bytes("") == [] && toks + [] == toks;
    } else {
      FullHere(d, m, chunk, pos, begin, tmp, toks);
    }
    AfterFull(d, ScanAll(d, fed + chunk[..pos + 1]), chunk, pos + 1, toks + Bytes(content) + [NewPart]);
  }

  lemma FullEarly(d: string, m: Scan, chunk: string, pos: nat, begin: nat, tmp: string, toks: seq<Tok>)
    requires m.Ok(d) && begin <= pos < |chunk| && m.count + 1 == |d| && Early(d, m, chunk, pos, begin, tmp, toks)
    ensures m.toks == toks && begin >= pos + 1 - |d| && |tmp| <= |d| - (pos + 1)
  {
  }

  lemma FullHere(d: string, m: Scan, chunk: string, pos: nat, begin: nat, tmp: string, toks: seq<Tok>)
    requires m.Ok(d) && begin <= pos < |chunk| && 0 < m.count && m.count + 1 == |d| && Here(d, m, chunk, pos, begin, tmp, toks)
    ensures var end := pos + 1 - |d|;
            && begin <= end && tmp == "" && '\r' !in chunk[begin..end]
            && m.toks == toks + Bytes(chunk[begin..end])
            && (begin == end ==> chunk[begin..end] == "")
            && (begin < end && EndsCr(toks) ==> chunk[begin] != '\n')
  {
  }

  // Behind a delimiter nothing is pending.
  lemma AfterFull(d: string, m: Scan, chunk: string, pos: nat, toks: seq<Tok>)
    requires m.Ok(d) && pos <= |chunk| && m.count == 0 && !m.lead && m.toks == toks
    ensures Here(d, m, chunk, pos, pos, "", toks)
  {
  }

  lemma BreaksEarly(d: string, m: Scan, chunk: string, pos: nat, tmp: string, toks: seq<Tok>)
    requires Delimiter(d) && m.Ok(d) && pos < |chunk| && Early(d, m, chunk, pos, 0, tmp, toks)
    ensures tmp != "" ==> Fits(toks, tmp)
    ensures 0 < pos ==> Fits(toks + Bytes(tmp), chunk[..pos])
    ensures toks + Bytes(tmp) + Bytes(chunk[..pos]) == m.toks + Bytes(Held(d, m))
  {
    hide Fits, Held, Bytes, Delimiter, DelimiterStart;
    HeldStarts(d, m);
    BytesConcat(tmp, chunk[..pos]);
    PartsFit(toks, tmp, chunk[..pos]);
    assert toks + Bytes(tmp) + Bytes(chunk[..pos]) == toks + (Bytes(tmp) + Bytes(chunk[..pos]));
  }

  // What can be held back: the start of the delimiter, or of what follows its
  // line break.
  ghost predicate DelimiterStart(held: string) {
    held != "" ==>
      && held[0] != '\n' && '\r' !in held[1..]
      && (held[0] == '\r' ==> (|held| > 1 ==> held[1] == '\n') && (|held| > 2 ==> held[2] == '-'))
  }

  lemma HeldStarts(d: string, m: Scan)
    requires Delimiter(d) && m.Ok(d)
    ensures DelimiterStart(Held(d, m))
  {
    assert d[..4][0] == '\r' && d[..4][1] == '\n' && d[..4][2] == '-';
  }

  // It can be passed on in two blocks.
  lemma PartsFit(toks: seq<Tok>, s: string, t: string)
    requires DelimiterStart(s + t)
    ensures s != "" ==> Fits(toks, s)
    ensures t != "" ==> Fits(toks + Bytes(s), t)
  {
    hide Fits;
    var u := s + t;
    if s != "" {
      assert forall i :: 0 <= i < |s| - 1 ==> s[1..][i] == u[1..][i];
      PlainFits(toks, s);
    }
    if t != "" {
      assert forall i :: 0 <= i < |t| - 1 ==> t[1..][i] == u[1..][|s| + i];
      if s != "" {
        assert t[0] == u[1..][|s| - 1];
        assert |s| > 1 ==> s[|s| - 1] == u[1..][|s| - 2];
        LastByte(toks, s);
      } else {
        assert toks + Bytes(s) == toks;
      }
      PlainFits(toks + Bytes(s), t);
    }
  }

  lemma LastByte(toks: seq<Tok>, s: string)
    requires s != ""
    ensures EndsCr(toks + Bytes(s)) <==> s[|s| - 1] == '\r'
  {
    var t := toks + Bytes(s);
    assert t[|t| - 1] == Byte(s[|s| - 1]);
  }

  lemma {:induction false} BreaksHere(d: string, m: Scan, chunk: string, pos: nat, begin: nat, tmp: string, toks: seq<Tok>)
    requires Delimiter(d) && m.Ok(d) && begin <= pos < |chunk| && Here(d, m, chunk, pos, begin, tmp, toks)
    requires 0 < m.count
    ensures Fits(toks, chunk[begin..pos])
    ensures toks + Bytes(chunk[begin..pos]) == m.toks + Bytes(Held(d, m))
  {
    hide Fits, Bytes, Delimiter, Here, Held;
    HereParts(d, m, chunk, pos, begin, tmp, toks);
    var held, content := Held(d, m), chunk[begin..pos - m.count];
    HeldStarts(d, m);
    BytesConcat(content, held);
    BrokenFits(toks, content, held);
    assert toks + (Bytes(content) + Bytes(held)) == toks + Bytes(content) + Bytes(held);
  }

  lemma HereParts(d: string, m: Scan, chunk: string, pos: nat, begin: nat, tmp: string, toks: seq<Tok>)
    requires Delimiter(d) && m.Ok(d) && begin <= pos <= |chunk| && Here(d, m, chunk, pos, begin, tmp, toks) && 0 < m.count
    ensures m.count <= pos - begin && Held(d, m) != "" && Held(d, m)[0] == '\r'
    ensures var content := chunk[begin..pos - m.count];
            && chunk[begin..pos] == content + Held(d, m) && '\r' !in content
            && toks + Bytes(content) == m.toks
            && (content != "" ==> !EndsCrLf(m.toks) && (EndsCr(toks) ==> content[0] != '\n'))
  {
    hide Bytes, EndsCrLf, EndsCr;
    assert d[0] == d[..4][0];
  }

  // The match is broken: what was held back is content after all.
  lemma MatchingBreaks(d: string, fed: string, chunk: string, pos: nat, begin: nat, count: nat, tmp: string, toks: seq<Tok>)
    requires pos < |chunk| && Matching(d, fed, chunk, pos, begin, count, tmp, toks)
    requires 0 < count < |d| && chunk[pos] != d[count]
    ensures tmp != "" ==> Fits(toks, tmp)
    ensures begin < pos ==> Fits(toks + Bytes(tmp), chunk[begin..pos])
    ensures Matching(d, fed, chunk, pos, pos, 0, "", toks + Bytes(tmp) + Bytes(chunk[begin..pos]))
  {
    hide Fits, ScanAll;
    var m := ScanAll(d, fed + chunk[..pos]);
    if Early(d, m, chunk, pos, begin, tmp, toks) {
      BreaksEarly(d, m, chunk, pos, tmp, toks);
      assert chunk[0..pos] == chunk[..pos];
    } else {
      BreaksHere(d, m, chunk, pos, begin, tmp, toks);
      assert toks + Bytes("") == toks;
    }
  }

  // The content to pass on at the end of a piece.
  function Remainder(chunk: string, begin: nat, count: nat): string
    requires begin <= |chunk|
  {
    if begin < |chunk| - count then chunk[begin..|chunk| - count] else ""
  }

  lemma EndEarly(d: string, m: Scan, chunk: string, begin: nat, tmp: string, toks: seq<Tok>)
    requires m.Ok(d) && begin <= |chunk| && Early(d, m, chunk, |chunk|, begin, tmp, toks)
    ensures Remainder(chunk, begin, m.count) == "" && |chunk| <= m.count && tmp + chunk == Held(d, m)
  {
  }

  lemma EndHere(d: string, m: Scan, chunk: string, begin: nat, tmp: string, toks: seq<Tok>)
    requires m.Ok(d) && begin <= |chunk| && Here(d, m, chunk, |chunk|, begin, tmp, toks)
    ensures var r := Remainder(chunk, begin, m.count); '\r' !in r && (r != "" && EndsCr(toks) ==> r[0] != '\n')
    ensures m.toks == toks + Bytes(Remainder(chunk, begin, m.count))
    ensures m.count <= |chunk| && tmp + chunk[|chunk| - m.count..] == Held(d, m)
  {
  }

  // The end of the piece: the pending match is held back, the rest is content.
  lemma MatchingEnd(d: string, fed: string, chunk: string, begin: nat, count: nat, tmp: string, toks: seq<Tok>)
    requires Matching(d, fed, chunk, |chunk|, begin, count, tmp, toks)
    ensures var r := Remainder(chunk, begin, count); '\r' !in r && (r != "" && EndsCr(toks) ==> r[0] != '\n')
    ensures var m := ScanAll(d, fed + chunk);
            && m.count == count
            && m.toks == toks + Bytes(Remainder(chunk, begin, count))
            && Held(d, m) == tmp + chunk[if |chunk| > count then |chunk| - count else 0..]
  {
    hide Early, Here, ScanAll;
    assert chunk[..|chunk|] == chunk && chunk[0..] == chunk && toks + Bytes("") == toks;
    var m := ScanAll(d, fed + chunk);
    if Early(d, m, chunk, |chunk|, begin, tmp, toks) {
      EndEarly(d, m, chunk, begin, tmp, toks);
      EarlyToks(d, m, chunk, begin, tmp, toks);
    } else {
      EndHere(d, m, chunk, begin, tmp, toks);
    }
  }

  lemma EarlyToks(d: string, m: Scan, chunk: string, begin: nat, tmp: string, toks: seq<Tok>)
    requires m.Ok(d) && begin <= |chunk| && Early(d, m, chunk, |chunk|, begin, tmp, toks)
    ensures toks == m.toks
  {
  }

  lemma MatchingBounds(d: string, fed: string, chunk: string, pos: nat, begin: nat, count: nat, tmp: string, toks: seq<Tok>)
    requires Matching(d, fed, chunk, pos, begin, count, tmp, toks)
    ensures count < |d|
  {
  }

  lemma DelimiterOf(boundary: string)
    requires '\r' !in boundary
    ensures Delimiter("\r\n--" + boundary)
    ensures Held("\r\n--" + boundary, Scan(2, true, [])) == ""
  {
  }

  /* What one piece makes the parser do, exactly. */

  // The calls of the part machine, and what the matcher is left with.
  datatype Piece = Piece(events: seq<Event>, count: nat, tmp: string)

  // A call of the part machine with [begin, end) of s, if that is not empty.
  function Slice(s: string, begin: int, end: int): seq<Event> {
    if 0 <= begin < end <= |s| then [Content(s[begin..end])] else []
  }

  function Behind(events: seq<Event>, p: Piece): Piece {
    p.(events := events + p.events)
  }

  // From position pos on, with the content from `begin` on not passed on yet.
  function RunPiece(d: string, chunk: string, pos: nat, begin: nat, count: nat, tmp: string): Piece
    requires begin <= pos <= |chunk| && count < |d|
    decreases |chunk| - pos, count
  {
    if pos == |chunk| then
      var end := |chunk| - count;
      Piece(Slice(chunk, begin, end), count, if count == 0 then tmp else tmp + chunk[if end > 0 then end else 0..])
    else if count == 0 then
      RunPiece(d, chunk, pos + 1, begin, if chunk[pos] == '\r' && |d| > 1 then 1 else 0, tmp)
    else if chunk[pos] != d[count] then
      Behind(Slice(tmp, 0, |tmp|) + Slice(chunk, begin, pos), RunPiece(d, chunk, pos, pos, 0, ""))
    else if count + 1 < |d| then
      RunPiece(d, chunk, pos + 1, begin, count + 1, tmp)
    else
      Behind(Slice(chunk, begin, pos + 1 - |d|) + [Boundary], RunPiece(d, chunk, pos + 1, pos + 1, 0, ""))
  }

  // The pieces of a body, one after the other.
  function RunPieces(d: string, chunks: seq<string>): (p: Piece)
    requires |d| > 2
    ensures p.count < |d|
  {
    if chunks == [] then Piece([], 2, "")
    else
      var before := RunPieces(d, chunks[..|chunks| - 1]);
      CountBelow(d, chunks[|chunks| - 1], 0, 0, before.count, before.tmp);
      Behind(before.events, RunPiece(d, chunks[|chunks| - 1], 0, 0, before.count, before.tmp))
  }

  lemma {:induction false} CountBelow(d: string, chunk: string, pos: nat, begin: nat, count: nat, tmp: string)
    requires begin <= pos <= |chunk| && count < |d|
    ensures RunPiece(d, chunk, pos, begin, count, tmp).count < |d|
    decreases |chunk| - pos, count
  {
    if pos < |chunk| {
      if count == 0 {
        CountBelow(d, chunk, pos + 1, begin, if chunk[pos] == '\r' && |d| > 1 then 1 else 0, tmp);
      } else if chunk[pos] != d[count] {
        CountBelow(d, chunk, pos, pos, 0, "");
      } else if count + 1 < |d| {
        CountBelow(d, chunk, pos + 1, begin, count + 1, tmp);
      } else {
        CountBelow(d, chunk, pos + 1, pos + 1, 0, "");
      }
    }
  }

  lemma BehindTwice(a: seq<Event>, b: seq<Event>, p: Piece)
    ensures Behind(a, Behind(b, p)) == Behind(a + b, p)
  {
    assert a + (b + p.events) == a + b + p.events;
  }

  lemma NoSlice(s: string, begin: int, end: int)
    requires begin >= end
    ensures Slice(s, begin, end) == []
  {
  }

  lemma RunBreaks(trace: seq<Event>, d: string, chunk: string, pos: nat, begin: nat, count: nat, tmp: string)
    requires begin <= pos < |chunk| && 0 < count < |d| && chunk[pos] != d[count]
    ensures Behind(trace, RunPiece(d, chunk, pos, begin, count, tmp)) ==
            Behind(trace + Slice(tmp, 0, |tmp|) + Slice(chunk, begin, pos), RunPiece(d, chunk, pos, pos, 0, ""))
  {
    hide Slice;
    var a, b := Slice(tmp, 0, |tmp|), Slice(chunk, begin, pos);
    BehindTwice(trace, a + b, RunPiece(d, chunk, pos, pos, 0, ""));
    assert trace + (a + b) == trace + a + b;
  }

  lemma RunMatches(trace: seq<Event>, d: string, chunk: string, pos: nat, begin: nat, count: nat, tmp: string)
    requires begin <= pos < |chunk| && 0 < count < |d| && chunk[pos] == d[count]
    ensures Behind(trace, RunPiece(d, chunk, pos, begin, count, tmp)) ==
            if count + 1 < |d| then Behind(trace, RunPiece(d, chunk, pos + 1, begin, count + 1, tmp))
            else Behind(trace + Slice(chunk, begin, pos + 1 - |d|) + [Boundary], RunPiece(d, chunk, pos + 1, pos + 1, 0, ""))
  {
    hide Slice;
    var a := Slice(chunk, begin, pos + 1 - |d|);
    BehindTwice(trace, a + [Boundary], RunPiece(d, chunk, pos + 1, pos + 1, 0, ""));
    assert trace + (a + [Boundary]) == trace + a + [Boundary];
  }

  lemma RunEnds(trace: seq<Event>, d: string, chunk: string, begin: nat, count: nat, tmp: string)
    requires begin <= |chunk| && count < |d|
    ensures var end := |chunk| - count;
            Behind(trace, RunPiece(d, chunk, |chunk|, begin, count, tmp)) ==
            Piece(trace + Slice(chunk, begin, end), count, if count == 0 then tmp else tmp + chunk[if end > 0 then end else 0..])
  {
    hide Slice;
  }

  class QueryParams {
    const delimiter: string
    const surroundings: Surroundings
    var boundaryParseCounter: nat
    var parseTmp: string
    var part: Part
    // The calls of the upload helper so far.
    var calls: seq<Call>

    // The body so far, and the calls of the part machine so far.
    ghost var fed: string
    ghost var trace: seq<Event>
    ghost const start: Part

    ghost predicate Valid()
      reads this
    {
      && Delimiter(delimiter)
      && Initial(start) && start.uploads == []
      && Played()
      && Disciplined(trace)
      && Scanned()
    }

    // The part machine is in the state that its calls lead to.
    ghost predicate Played()
      reads this
    {
      part == Play(surroundings, start, trace) && calls == PlayCalls(surroundings, start, trace)
    }

    // What the parser has done and, if the rest of the piece is like chunk from
    // pos on, will do.
    ghost function Ahead(chunk: string, pos: nat, begin: nat): Piece
      requires begin <= pos <= |chunk| && boundaryParseCounter < |delimiter|
      reads this
    {
      Behind(trace, RunPiece(delimiter, chunk, pos, begin, boundaryParseCounter, parseTmp))
    }

    // The matcher refines the byte-wise scan: same match, same tokens, and
    // exactly the pending match is held back.
    ghost predicate Scanned()
      requires Delimiter(delimiter)
      reads this
    {
      var m := ScanAll(delimiter, fed);
      && boundaryParseCounter == m.count
      && Toks(trace) == m.toks
      && parseTmp == Held(delimiter, m)
    }

    // FMParseCounter and the current target are not set by the source.
    constructor (boundary: string, surroundings: Surroundings, unsetCounter: nat)
      requires '\r' !in boundary
      ensures Valid() && fed == "" && trace == [] && boundaryParseCounter == 2 && parseTmp == "" && delimiter == "\r\n--" + boundary && this.surroundings == surroundings
      ensures start == NewState(unsetCounter)
    {
      delimiter := "\r\n--" + boundary;
      this.surroundings := surroundings;
      boundaryParseCounter := 2;
      parseTmp := "";
      part := NewState(unsetCounter);
      calls := [];
      start := NewState(unsetCounter);
      fed := "";
      trace := [];
      new;
      DelimiterOf(boundary);
    }

    method StartNewPart()
      requires Played() && Disciplined(trace)
      modifies `part, `trace
      ensures Played() && Disciplined(trace)
      ensures Toks(trace) == old(Toks(trace)) + [NewPart] && trace == old(trace) + [Boundary]
    {
      PlaySnoc(surroundings, start, trace, Boundary);
      PlayCallsSnoc(surroundings, start, trace, Boundary);
      ToksSnoc(trace, Boundary);
      part := part.(phase := HeaderStart, counter := 0, header := "");
      trace := trace + [Boundary];
    }

    method OnFileEnd()
      modifies `part, `calls
      ensures part == old(part).(uploads := CloseUpload(old(part).uploads)) && calls == old(calls) + [Call.OnFileEnd]
    {
      calls := calls + [Call.OnFileEnd];
      if part.uploads != [] {
        var k := |part.uploads| - 1;
        part := part.(uploads := part.uploads[k := part.uploads[k].(open := false)]);
      }
    }

    method ParseFMHeaders(headers: string) returns (ok: bool)
      modifies `part, `calls
      ensures (ok, part) == OnHeaders(surroundings, old(part), headers)
      ensures calls == old(calls) + HeaderCalls(surroundings, old(part), ReadLines(NO_INFO, headers))
    {
      hide ReadLines;
      var info := ParsePartHeaders(headers);
      if info.name != "" {
        if part.fileMode {
          OnFileEnd();
        }
        if info.hasFile {
          var mime := if info.contentType.Some? then info.contentType.value else "";
          part := part.(fileMode := true);
          var res := surroundings.answer(part.asked);
          part := part.(asked := part.asked + 1);
          calls := calls + [OnNewFile(info.name, info.fileName, mime, res)];
          if res.Some? {
            part := part.(uploads := part.uploads + [Upload(info.name, info.fileName, mime, res.value, "", true)]);
            part := part.(target := FileTarget, files := part.files[info.name := File(mime, info.fileName, res.value)]);
          } else {
            part := part.(target := NoTarget);
          }
        } else {
          part := part.(fileMode := false, target := ParamTarget(info.name), params := part.params[info.name := ""]);
        }
        return true;
      } else {
        part := part.(target := NoTarget);
        return false;
      }
    }

    // Passes [begin, end) of src on to the current part. The callers ignore the
    // result, so it is not modelled.
    method AppendToCurrentPart(src: string, begin: int, end: int)
      requires begin < end ==> 0 <= begin && end <= |src|
      modifies `part, `calls
      ensures part == if begin < end then Append(surroundings, old(part), src[begin..end]) else old(part)
      ensures calls == old(calls) + if begin < end then BlockCalls(surroundings, old(part), src[begin..end]) else []
    {
      if begin >= end || part.phase.Finished? {
        return;
      }
      var s := src[begin..end];
      AppendBlock(s);
    }

    method AppendBlock(s: string)
      modifies `part, `calls
      ensures part == AppendFrom(surroundings, old(part), s, 0, 0) && calls == old(calls) + CallsFrom(surroundings, old(part), s, 0, 0)
    {
      hide OnHeaders, Deliver, HeaderCalls, ReadLines;
      var pos, orig := 0, 0;
      while pos < |s| && !part.phase.Reading?
        invariant orig <= pos <= |s|
        invariant AppendFrom(surroundings, part, s, orig, pos) == AppendFrom(surroundings, old(part), s, 0, 0)
        invariant calls + CallsFrom(surroundings, part, s, orig, pos) == old(calls) + CallsFrom(surroundings, old(part), s, 0, 0)
      {
        var c := s[pos];
        match part.phase {
          case HeaderStart =>
            if part.counter == 0 {
              if c == '\r' || c == '-' {
                part := part.(counter := 1);
              } else {
                return;
              }
            } else if part.counter == 1 {
              if c == '\n' {
                part := part.(counter := 0, phase := HeadersEnd);
                orig := pos + 1;
              } else if c == '-' {
                part := part.(phase := Finished);
                OnFileEnd();
                assert old(calls) + CallsFrom(surroundings, old(part), s, 0, 0)
                    == calls + CallsFrom(surroundings, part, s, orig, pos + 1);
              } else {
                return;
              }
            }
          case HeadersEnd =>
            if HeaderEndChar(surroundings, part.counter) == c {
              part := part.(counter := part.counter + 1);
              if part.counter == 4 {
                if pos - orig - 4 > 0 {
                  part := part.(header := part.header + s[orig..pos + 1]);
                }
                ghost var before := calls;
                ghost var headerCalls := HeaderCalls(surroundings, part, ReadLines(NO_INFO, part.header));
                var ok := ParseFMHeaders(part.header);
                if ok {
                  part := part.(phase := Reading);
                  assert before + (headerCalls + CallsFrom(surroundings, part, s, orig, pos + 1))
                      == calls + CallsFrom(surroundings, part, s, orig, pos + 1);
                } else {
                  part := part.(header := "");
                  assert before + (headerCalls + []) == calls;
                  return;
                }
              }
            } else {
              part := part.(counter := 0);
            }
          case Finished =>
            OnFileEnd();
            return;
        }
        pos := pos + 1;
      }
      match part.phase {
        case Reading =>
          calls := calls + DataCalls(part, s[pos..]);
          part := Deliver(part, s[pos..]);
        case HeadersEnd =>
          part := part.(header := part.header + s[orig..pos]);
        case _ =>
      }
    }

    // A call of the part machine, entered in the trace.
    method Emit(src: string, begin: int, end: int)
      requires begin < end ==> 0 <= begin && end <= |src|
      requires Played() && Disciplined(trace)
      requires begin < end ==> Fits(Toks(trace), src[begin..end])
      modifies `part, `calls, `trace
      ensures Played() && Disciplined(trace) && trace == old(trace) + Slice(src, begin, end)
      ensures Toks(trace) == old(Toks(trace)) + Bytes(if begin < end then src[begin..end] else "")
    {
      hide Append, BlockCalls, Fits;
      AppendToCurrentPart(src, begin, end);
      if begin < end {
        PlaySnoc(surroundings, start, trace, Content(src[begin..end]));
        PlayCallsSnoc(surroundings, start, trace, Content(src[begin..end]));
        ToksSnoc(trace, Content(src[begin..end]));
        trace := trace + [Content(src[begin..end])];
      } else {
        assert Toks(trace) + Bytes("") == Toks(trace);
      }
    }

    // A full match ends at pos. The held-back bytes all belong to the delimiter,
    // so the first branch finds no content in them.
    method FullMatch(chunk: string, pos: nat, contentBegin: nat)
      requires contentBegin <= pos <= |chunk| && boundaryParseCounter == |delimiter|
      requires pos < |delimiter| ==> |parseTmp| <= |delimiter| - pos
      requires contentBegin < pos - |delimiter| ==>
                 '\r' !in chunk[contentBegin..pos - |delimiter|] && (EndsCr(Toks(trace)) ==> chunk[contentBegin] != '\n')
      requires Played() && Disciplined(trace)
      modifies `part, `calls, `trace, `boundaryParseCounter, `parseTmp
      ensures Played() && Disciplined(trace) && boundaryParseCounter == 0 && parseTmp == ""
      ensures trace == old(trace) + Slice(chunk, contentBegin, pos - |delimiter|) + [Boundary]
      ensures var end := pos - |delimiter|;
              Toks(trace) == old(Toks(trace)) + Bytes(if contentBegin < end then chunk[contentBegin..end] else "") + [NewPart]
    {
      hide Fits, Disciplined, Play, PlayCalls, Slice;
      if contentBegin >= pos - |delimiter| {
        NoSlice(chunk, contentBegin, pos - |delimiter|);
      }
      assert trace + [] == trace;
      assert Toks(trace) + Bytes("") == Toks(trace);
      if pos < boundaryParseCounter {
        var tmpBoundaryStart := |parseTmp| - (boundaryParseCounter - pos);
        if tmpBoundaryStart > 0 {
          assert false;
        }
      } else if contentBegin < pos - boundaryParseCounter {
        EmitPlain(chunk, contentBegin, pos - boundaryParseCounter);
      }
      boundaryParseCounter := 0;
      parseTmp := "";
      StartNewPart();
    }

    // The match is broken at pos: what was held back is content.
    method BreakMatch(chunk: string, pos: nat, contentBegin: nat)
      requires contentBegin <= pos < |chunk| && Played() && Disciplined(trace)
      requires Matching(delimiter, fed, chunk, pos, contentBegin, boundaryParseCounter, parseTmp, Toks(trace))
      requires 0 < boundaryParseCounter < |delimiter| && chunk[pos] != delimiter[boundaryParseCounter]
      modifies `part, `calls, `trace, `boundaryParseCounter, `parseTmp
      ensures Played() && Disciplined(trace) && boundaryParseCounter == 0
      ensures Matching(delimiter, fed, chunk, pos, pos, 0, parseTmp, Toks(trace))
      ensures Ahead(chunk, pos, pos) == old(Ahead(chunk, pos, contentBegin))
    {
      hide Matching, Fits, Disciplined, Play, PlayCalls, RunPiece, Behind, Slice;
      RunBreaks(trace, delimiter, chunk, pos, contentBegin, boundaryParseCounter, parseTmp);
      MatchingBreaks(delimiter, fed, chunk, pos, contentBegin, boundaryParseCounter, parseTmp, Toks(trace));
      ghost var toks := Toks(trace);
      assert parseTmp[0..|parseTmp|] == parseTmp && toks + Bytes("") == toks;
      if parseTmp != "" {
        Emit(parseTmp, 0, |parseTmp|);
        parseTmp := "";
      } else {
        NoSlice(parseTmp, 0, |parseTmp|);
        assert trace + [] == trace;
      }
      Emit(chunk, contentBegin, pos);
      assert contentBegin == pos ==> chunk[contentBegin..pos] == "";
      boundaryParseCounter := 0;
    }

    // Behind the last byte of a piece: a pending match is held back.
    method FinishPiece(chunk: string, contentBegin: nat)
      requires contentBegin <= |chunk| && Delimiter(delimiter) && Initial(start) && Played() && Disciplined(trace)
      requires Matching(delimiter, fed, chunk, |chunk|, contentBegin, boundaryParseCounter, parseTmp, Toks(trace))
      requires boundaryParseCounter < |delimiter| && start.uploads == []
      modifies `part, `calls, `trace, `parseTmp, `fed
      ensures Valid() && fed == old(fed) + chunk
      ensures Piece(trace, boundaryParseCounter, parseTmp) == old(Ahead(chunk, |chunk|, contentBegin))
    {
      hide Fits, Matching, ScanAll, Disciplined, Play, PlayCalls, Delimiter, RunPiece, Behind, Slice, Toks, Held;
      RunEnds(trace, delimiter, chunk, contentBegin, boundaryParseCounter, parseTmp);
      assert trace + [] == trace;
      MatchingEnd(delimiter, fed, chunk, contentBegin, boundaryParseCounter, parseTmp, Toks(trace));
      var end := |chunk| - boundaryParseCounter;
      if boundaryParseCounter != 0 {
        EmitPlain(chunk, contentBegin, end);
        parseTmp := parseTmp + chunk[if end > 0 then end else 0..];
      } else if |chunk| != 0 {
        EmitPlain(chunk, contentBegin, end);
      } else {
        NoSlice(chunk, contentBegin, end);
        assert Toks(trace) + Bytes("") == Toks(trace);
      }
      fed := fed + chunk;
    }

    // Content without a CR.
    method EmitPlain(chunk: string, begin: nat, end: int)
      requires begin < end ==> end <= |chunk| && '\r' !in chunk[begin..end] && (EndsCr(Toks(trace)) ==> chunk[begin] != '\n')
      requires Played() && Disciplined(trace)
      modifies `part, `calls, `trace
      ensures Played() && Disciplined(trace) && trace == old(trace) + Slice(chunk, begin, end)
      ensures Toks(trace) == old(Toks(trace)) + Bytes(if begin < end then chunk[begin..end] else "")
    {
      hide Fits, Disciplined, Play, PlayCalls, Slice, Toks;
      if begin < end {
        PlainFits(Toks(trace), chunk[begin..end]);
      }
      Emit(chunk, begin, end);
    }

    // Nothing is matched: skips to the next CR, which starts a match.
    method SeekCR(chunk: string, from: nat, ghost contentBegin: nat) returns (pos: nat)
      requires boundaryParseCounter == 0
      requires Matching(delimiter, fed, chunk, from, contentBegin, 0, parseTmp, Toks(trace))
      modifies `boundaryParseCounter
      ensures contentBegin <= from <= pos <= |chunk| && (from < |chunk| ==> from < pos)
      ensures Matching(delimiter, fed, chunk, pos, contentBegin, boundaryParseCounter, parseTmp, Toks(trace))
      ensures pos < |chunk| ==> boundaryParseCounter > 0
      ensures boundaryParseCounter < |delimiter| && old(boundaryParseCounter) < |delimiter|
      ensures Ahead(chunk, pos, contentBegin) == old(Ahead(chunk, from, contentBegin))
    {
      hide Broken, Early, Here, ScanAll;
      pos := from;
      while pos < |chunk|
        invariant contentBegin <= from <= pos <= |chunk| && boundaryParseCounter == 0
        invariant Matching(delimiter, fed, chunk, pos, contentBegin, 0, parseTmp, Toks(trace)) && |delimiter| > 1
        invariant Ahead(chunk, pos, contentBegin) == old(Ahead(chunk, from, contentBegin))
      {
        MatchingIdle(delimiter, fed, chunk, pos, contentBegin, parseTmp, Toks(trace));
        if chunk[pos] != '\r' {
          pos := pos + 1;
        } else {
          pos := pos + 1;
          boundaryParseCounter := 1;
          break;
        }
      }
    }

    // The last byte of the delimiter.
    method MatchLast(chunk: string, pos: nat, contentBegin: nat)
      requires Played() && Disciplined(trace) && Delimiter(delimiter)
      requires contentBegin <= pos < |chunk| && 1 < boundaryParseCounter + 1 == |delimiter| && chunk[pos] == delimiter[boundaryParseCounter]
      requires Matching(delimiter, fed, chunk, pos, contentBegin, boundaryParseCounter, parseTmp, Toks(trace))
      modifies `part, `calls, `trace, `boundaryParseCounter, `parseTmp
      ensures Played() && Disciplined(trace) && boundaryParseCounter == 0
      ensures Matching(delimiter, fed, chunk, pos + 1, pos + 1, 0, parseTmp, Toks(trace))
      ensures Ahead(chunk, pos + 1, pos + 1) == old(Ahead(chunk, pos, contentBegin))
    {
      hide Matching, Fits, ScanAll, Disciplined, Play, PlayCalls, RunPiece, Behind, Slice, Toks, Bytes, Delimiter;
      MatchingFull(delimiter, fed, chunk, pos, contentBegin, boundaryParseCounter, parseTmp, Toks(trace));
      RunMatches(trace, delimiter, chunk, pos, contentBegin, boundaryParseCounter, parseTmp);
      boundaryParseCounter := boundaryParseCounter + 1;
      FullMatch(chunk, pos + 1, contentBegin);
    }

    // One more byte of the delimiter.
    method MatchByte(chunk: string, pos: nat, contentBegin: nat) returns (contentBegin': nat)
      requires Played() && Disciplined(trace) && Delimiter(delimiter)
      requires contentBegin <= pos < |chunk| && 0 < boundaryParseCounter < |delimiter| && chunk[pos] == delimiter[boundaryParseCounter]
      requires Matching(delimiter, fed, chunk, pos, contentBegin, boundaryParseCounter, parseTmp, Toks(trace))
      modifies `part, `calls, `trace, `boundaryParseCounter, `parseTmp
      ensures Played() && Disciplined(trace) && contentBegin' <= pos + 1
      ensures Matching(delimiter, fed, chunk, pos + 1, contentBegin', boundaryParseCounter, parseTmp, Toks(trace))
      ensures boundaryParseCounter < |delimiter| && Ahead(chunk, pos + 1, contentBegin') == old(Ahead(chunk, pos, contentBegin))
    {
      hide Matching, Fits, ScanAll, Disciplined, Play, PlayCalls, RunPiece, Behind, Delimiter;
      if boundaryParseCounter + 1 == |delimiter| {
        MatchLast(chunk, pos, contentBegin);
        contentBegin' := pos + 1;
      } else {
        MatchingNext(delimiter, fed, chunk, pos, contentBegin, boundaryParseCounter, parseTmp, Toks(trace));
        RunMatches(trace, delimiter, chunk, pos, contentBegin, boundaryParseCounter, parseTmp);
        boundaryParseCounter := boundaryParseCounter + 1;
        contentBegin' := contentBegin;
      }
    }

    // The loop over a piece. Returns where the content not passed on begins.
    method MatchPiece(chunk: string) returns (contentBegin: nat)
      requires Valid() && boundaryParseCounter < |delimiter|
      modifies `part, `calls, `trace, `boundaryParseCounter, `parseTmp
      ensures contentBegin <= |chunk| && Played() && Disciplined(trace)
      ensures Matching(delimiter, fed, chunk, |chunk|, contentBegin, boundaryParseCounter, parseTmp, Toks(trace))
      ensures boundaryParseCounter < |delimiter| && Ahead(chunk, |chunk|, contentBegin) == old(Ahead(chunk, 0, 0))
    {
      hide Matching, Fits, ScanAll, RunPiece, Disciplined, Play, PlayCalls;
      var pos: nat := 0;
      contentBegin := 0;
      MatchingStart(delimiter, fed, chunk, parseTmp, Toks(trace));
      while pos < |chunk|
        modifies `part, `calls, `trace, `boundaryParseCounter, `parseTmp
        invariant contentBegin <= pos <= |chunk|
        invariant Played() && Disciplined(trace)
        invariant Matching(delimiter, fed, chunk, pos, contentBegin, boundaryParseCounter, parseTmp, Toks(trace))
        invariant boundaryParseCounter < |delimiter| && Ahead(chunk, pos, contentBegin) == old(Ahead(chunk, 0, 0))
        decreases |chunk| - pos, boundaryParseCounter
      {
        if boundaryParseCounter == 0 {
          pos := SeekCR(chunk, pos, contentBegin);
          if pos == |chunk| {
            break;
          }
        }
        MatchingBounds(delimiter, fed, chunk, pos, contentBegin, boundaryParseCounter, parseTmp, Toks(trace));
        if chunk[pos] == delimiter[boundaryParseCounter] {
          contentBegin := MatchByte(chunk, pos, contentBegin);
          pos := pos + 1;
        } else {
          BreakMatch(chunk, pos, contentBegin);
          contentBegin := pos;
        }
      }
    }

    // Takes the next piece of the body.
    method AppendFormMultipart(chunk: string)
      requires Valid()
      modifies this
      ensures Valid() && fed == old(fed) + chunk
      ensures old(boundaryParseCounter) < |delimiter|
      ensures Piece(trace, boundaryParseCounter, parseTmp) == old(Ahead(chunk, 0, 0))
      ensures Grown(old(part.uploads), part.uploads)
    {
      hide Matching, Fits, ScanAll, RunPiece, Disciplined, Play, PlayCalls, Grown, Delimiter, Held;
      ghost var before := trace;
      ghost var more := RunPiece(delimiter, chunk, 0, 0, boundaryParseCounter, parseTmp).events;
      var contentBegin := MatchPiece(chunk);
      FinishPiece(chunk, contentBegin);
      UploadsGrow(surroundings, start, before, more);
    }
  }

  // In every state of the parser the calls of the upload helper are within the
  // protocol, and the uploads are what they say.
  lemma HelperCallsInProtocol(q: QueryParams)
    requires q.Valid()
    ensures ReplayAll([], q.calls) == Some(q.part.uploads) && UploadsOk(q.part)
  {
    hide Play, PlayCalls, ReplayAll, Disciplined;
    UploadProtocol(q.surroundings, q.start, q.trace);
  }
}
