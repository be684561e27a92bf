/**
 Where the part machine gives up, the cuts do matter: the code drops the rest of a
 block, but not the next block.
 */
module CutsMatter {
  import opened Common
  import opened HeaderFields
  import opened PrintedHeaders
  import opened BoundaryMatcher
  import opened PartMachine
  import opened QueryParams
  import opened MultipartForm

  // The byte c is refused behind a delimiter and u: neither a line break nor two
  // hyphens can follow.
  predicate Garbage(u: string, c: char) {
    if u == "" then c != '\r' && c != '-' else (u == "\r" || u == "-") && c != '\n' && c != '-'
  }

  // What makes the difference: it would be accepted at the start of a block.
  function Lure(u: string, c: char): string {
    if c == '\r' then "\nx" else if u == "" then "--" else "-"
  }

  lemma {:induction false} RunLead(d: string, w: string, i: nat)
    requires Delimiter(d) && i + 2 < |d|
    ensures RunPiece(d, d[2..] + w, i, 0, i + 2, "") == Behind([Boundary], RunPiece(d, d[2..] + w, |d| - 2, |d| - 2, 0, ""))
    decreases |d| - i
  {
    var chunk := d[2..] + w;
    assert chunk[i] == d[i + 2];
    if i + 3 < |d| {
      RunLead(d, w, i + 1);
    } else {
      assert Slice(chunk, 0, i + 1 - |d|) + [Boundary] == [Boundary];
    }
  }

  // What the parser does depends only on the bytes from the position on.
  lemma {:induction false} RunShift(d: string, y: string, n: nat, w: string, pos: nat, begin: nat, count: nat, tmp: string)
    requires n <= |y| && y[n..] == w && begin <= pos <= |w| && count < |d| && count <= pos
    ensures RunPiece(d, y, n + pos, n + begin, count, tmp) == RunPiece(d, w, pos, begin, count, tmp)
    decreases |w| - pos, count
  {
    hide Slice, Behind, RunPiece;
    RunUnfold(d, y, n + pos, n + begin, count, tmp);
    RunUnfold(d, w, pos, begin, count, tmp);
    if pos == |w| {
      SliceShift(y, n, w, begin, |w| - count);
      SliceTail(y, n, |y|, |w| - count);
    } else {
      assert y[n + pos] == y[n..][pos];
      if count == 0 {
        RunShift(d, y, n, w, pos + 1, begin, if w[pos] == '\r' && |d| > 1 then 1 else 0, tmp);
      } else if w[pos] != d[count] {
        SliceShift(y, n, w, begin, pos);
        RunShift(d, y, n, w, pos, pos, 0, "");
      } else if count + 1 < |d| {
        RunShift(d, y, n, w, pos + 1, begin, count + 1, tmp);
      } else {
        SliceShift(y, n, w, begin, pos + 1 - |d|);
        RunShift(d, y, n, w, pos + 1, pos + 1, 0, "");
      }
    }
  }

  // The definition, once.
  lemma RunUnfold(d: string, chunk: string, pos: nat, begin: nat, count: nat, tmp: string)
    requires begin <= pos <= |chunk| && count < |d|
    ensures RunPiece(d, chunk, pos, begin, count, tmp) ==
            if pos == |chunk| then
              var end := |chunk| - count;
              Piece(Slice(chunk, begin, end), count, if count == 0 then tmp else tmp + chunk[if end > 0 then end else 0..])
            else if count == 0 then
              RunPiece(d, chunk, pos + 1, begin, if chunk[pos] == '\r' && |d| > 1 then 1 else 0, tmp)
            else if chunk[pos] != d[count] then
              Behind(Slice(tmp, 0, |tmp|) + Slice(chunk, begin, pos), RunPiece(d, chunk, pos, pos, 0, ""))
            else if count + 1 < |d| then
              RunPiece(d, chunk, pos + 1, begin, count + 1, tmp)
            else
              Behind(Slice(chunk, begin, pos + 1 - |d|) + [Boundary], RunPiece(d, chunk, pos + 1, pos + 1, 0, ""))
  {
  }

  lemma SliceShift(y: string, n: nat, w: string, begin: nat, end: int)
    requires n <= |y| && y[n..] == w && end <= |w|
    ensures Slice(y, n + begin, n + end) == Slice(w, begin, end)
  {
    assert y[n..n + |w|] == w;
    if begin < end {
      SliceSlice(y, n, |w|, begin, end);
    }
  }

  // The first piece of a body, up to and behind its first delimiter.
  lemma FirstPiece(d: string, w: string)
    requires Delimiter(d)
    ensures RunPieces(d, [d[2..] + w]) == Behind([Boundary], RunPiece(d, w, 0, 0, 0, ""))
  {
    hide RunPiece;
    var chunk := d[2..] + w;
    var none: seq<string> := [];
    assert [chunk][..0] == none;
    RunLead(d, w, 0);
    assert chunk[|d| - 2..] == w;
    RunShift(d, chunk, |d| - 2, w, 0, 0, 0, "");
    assert Behind([], RunPiece(d, chunk, 0, 0, 2, "")) == RunPiece(d, chunk, 0, 0, 2, "");
  }

  lemma NextPiece(d: string, w: string, t: string)
    requires Delimiter(d)
    ensures var p := RunPiece(d, w, 0, 0, 0, "");
            && p.count < |d|
            && RunPieces(d, [d[2..] + w, t]) == Behind([Boundary] + p.events, RunPiece(d, t, 0, 0, p.count, p.tmp))
  {
    hide RunPiece;
    FirstPiece(d, w);
    var chunks := [d[2..] + w, t];
    assert chunks[..1] == [d[2..] + w];
  }

  lemma {:induction false} RunPlain(d: string, w: string, pos: nat, begin: nat)
    requires |d| > 1 && begin <= pos <= |w| && '\r' !in w[pos..]
    ensures RunPiece(d, w, pos, begin, 0, "") == Piece(Slice(w, begin, |w|), 0, "")
    decreases |w| - pos
  {
    if pos < |w| {
      assert w[pos] == w[pos..][0];
      RunPlain(d, w, pos + 1, begin);
    }
  }

  // A CR that the next byte does not continue ends a block in front of that byte.
  lemma RunLoneCr(d: string, w: string, pos: nat, begin: nat)
    requires Delimiter(d) && begin <= pos && pos + 1 < |w| && w[pos] == '\r' && w[pos + 1] != '\n'
    ensures RunPiece(d, w, pos, begin, 0, "") == Behind([Content(w[begin..pos + 1])], RunPiece(d, w, pos + 1, pos + 1, 0, ""))
  {
    assert d[1] == d[..4][1] == '\n';
    assert RunPiece(d, w, pos, begin, 0, "") == RunPiece(d, w, pos + 1, begin, 1, "");
    assert Slice("", 0, 0) + Slice(w, begin, pos + 1) == [Content(w[begin..pos + 1])];
  }

  // So does a CR LF.
  lemma RunCrLf(d: string, w: string, pos: nat, begin: nat)
    requires Delimiter(d) && begin <= pos && pos + 2 < |w| && w[pos] == '\r' && w[pos + 1] == '\n' && w[pos + 2] != '-'
    ensures RunPiece(d, w, pos, begin, 0, "") == Behind([Content(w[begin..pos + 2])], RunPiece(d, w, pos + 2, pos + 2, 0, ""))
  {
    assert d[1] == d[..4][1] == '\n' && d[2] == d[..4][2] == '-';
    assert RunPiece(d, w, pos, begin, 0, "") == RunPiece(d, w, pos + 1, begin, 1, "") == RunPiece(d, w, pos + 2, begin, 2, "");
    assert Slice("", 0, 0) + Slice(w, begin, pos + 2) == [Content(w[begin..pos + 2])];
  }

  // A CR at the end of a piece is held back.
  lemma RunLastCr(d: string, w: string, begin: nat)
    requires Delimiter(d) && begin < |w| && w[|w| - 1] == '\r'
    ensures RunPiece(d, w, |w| - 1, begin, 0, "") == Piece(Slice(w, begin, |w| - 1), 1, "\r")
  {
    assert w[|w| - 1..] == "\r" && "" + "\r" == "\r";
    assert RunPiece(d, w, |w| - 1, begin, 0, "") == RunPiece(d, w, |w|, begin, 1, "");
  }

  lemma RunHeldCr(d: string)
    requires Delimiter(d)
    ensures RunPiece(d, "\nx", 0, 0, 1, "\r").events == [Content("\r"), Content("\n"), Content("x")]
  {
    var t := "\nx";
    assert d[1] == d[..4][1] == '\n' && d[2] == d[..4][2] == '-';
    assert RunPiece(d, t, 0, 0, 1, "\r") == RunPiece(d, t, 1, 0, 2, "\r");
    assert t[1..2] == "x" && t[0..1] == "\n" && "\r"[0..1] == "\r";
    RunPlain(d, t, 1, 1);
  }

  lemma PlayCons(h: Surroundings, p: Part, e: Event, es: seq<Event>)
    ensures Play(h, p, [e] + es) == Play(h, PlayEvent(h, p, e), es)
  {
    hide PlayEvent;
    PlayConcat(h, p, [e], es);
    PlaySnoc(h, p, [], e);
    assert [] + [e] == [e];
  }

  // Blocks behind a delimiter, as far as they are refused.
  lemma StartBlocks(h: Surroundings, p: Part, s: string)
    requires p.phase.HeaderStart? && s != ""
    ensures p.counter == 0 && s[0] != '\r' && s[0] != '-' ==> Append(h, p, s) == p
    ensures p.counter == 1 && s[0] != '\n' && s[0] != '-' ==> Append(h, p, s) == p
    ensures p.counter == 0 && (s[0] == '\r' || s[0] == '-') && (|s| == 1 || (s[1] != '\n' && s[1] != '-')) ==>
              Append(h, p, s) == p.(counter := 1)
  {
    hide OnHeaders;
    if p.counter == 0 && (s[0] == '\r' || s[0] == '-') {
      assert AppendFrom(h, p, s, 0, 0) == AppendFrom(h, p.(counter := 1), s, 0, 1);
    }
  }

  lemma LureTaken(h: Surroundings, p: Part)
    ensures p.phase.HeaderStart? && p.counter == 0 ==> Append(h, p, "--").phase.Finished?
    ensures p.phase.HeaderStart? && p.counter == 1 ==> Append(h, p, "-").phase.Finished?
    ensures p.phase.HeaderStart? && p.counter == 1 ==> Append(h, Append(h, p, "\n"), "x").phase.HeadersEnd?
  {
    hide OnHeaders;
    var q := p.(counter := 1);
    if p.phase.HeaderStart? && p.counter == 0 {
      assert AppendFrom(h, p, "--", 0, 0) == AppendFrom(h, q, "--", 0, 1);
    }
    if p.phase.HeaderStart? && p.counter == 1 {
      var r := p.(counter := 0, phase := HeadersEnd, header := p.header + "");
      assert AppendFrom(h, p, "\n", 0, 0) == AppendFrom(h, p.(counter := 0, phase := HeadersEnd), "\n", 1, 1) == r by { assert "\n"[1..1] == ""; }
      assert AppendFrom(h, r, "x", 0, 0) == AppendFrom(h, r, "x", 0, 1);
    }
  }

  // Fed in one piece, the parser stays behind the delimiter.
  lemma GarbageWhole(h: Surroundings, p0: Part, d: string, u: string, c: char)
    requires Delimiter(d) && Initial(p0) && Garbage(u, c)
    ensures Play(h, p0, RunPieces(d, [d[2..] + (u + [c] + Lure(u, c))]).events).phase.HeaderStart?
  {
    hide RunPiece, RunPieces, Append, Play, Slice;
    var w, p := u + [c] + Lure(u, c), StartPart(p0);
    FirstPiece(d, w);
    var events := RunPiece(d, w, 0, 0, 0, "").events;
    PlayCons(h, p0, Boundary, events);
    GarbageBlocks(h, p, d, u, c);
  }

  lemma PlayNone(h: Surroundings, p: Part)
    ensures Play(h, p, []) == p
  {
  }

  lemma PlayOne(h: Surroundings, p: Part, s: string)
    ensures Play(h, p, [Content(s)]) == Append(h, p, s)
  {
    hide Append;
    PlayCons(h, p, Content(s), []);
    PlayNone(h, PlayEvent(h, p, Content(s)));
    assert [Content(s)] + [] == [Content(s)];
  }

  lemma PlayTwo(h: Surroundings, p: Part, s: string, t: string)
    ensures Play(h, p, [Content(s), Content(t)]) == Append(h, Append(h, p, s), t)
  {
    hide Append;
    PlayCons(h, p, Content(s), [Content(t)]);
    PlayOne(h, Append(h, p, s), t);
    assert [Content(s)] + [Content(t)] == [Content(s), Content(t)];
  }

  lemma SliceAll(s: string)
    requires s != ""
    ensures Slice(s, 0, |s|) == [Content(s)]
  {
    assert s[0..|s|] == s;
  }

  lemma GarbageBlocks(h: Surroundings, p: Part, d: string, u: string, c: char)
    requires Delimiter(d) && p.phase.HeaderStart? && p.counter == 0 && Garbage(u, c)
    ensures Play(h, p, RunPiece(d, u + [c] + Lure(u, c), 0, 0, 0, "").events).phase.HeaderStart?
  {
    hide RunPiece, Append, Play, Slice;
    var w := u + [c] + Lure(u, c);
    var q := p.(counter := 1);
    if c != '\r' && u != "\r" {
      RunPlain(d, w, 0, 0);
      SliceAll(w);
      PlayOne(h, p, w);
      StartBlocks(h, p, w);
    } else if c != '\r' {
      RunLoneCr(d, w, 0, 0);
      RunPlain(d, w, 1, 1);
      SliceTo(w, 1);
      assert [Content(w[0..1])] + [Content(w[1..])] == [Content(w[0..1]), Content(w[1..])];
      PlayTwo(h, p, w[0..1], w[1..]);
      StartBlocks(h, p, w[0..1]);
      StartBlocks(h, q, w[1..]);
    } else if u == "\r" {
      assert w == "\r\r\nx";
      RunLoneCr(d, w, 0, 0);
      RunCrLf(d, w, 1, 1);
      RunPlain(d, w, 3, 3);
      SliceTo(w, 3);
      assert [Content(w[0..1])] + ([Content(w[1..3])] + [Content(w[3..])]) == [Content(w[0..1])] + [Content(w[1..3]), Content(w[3..])];
      PlayCons(h, p, Content(w[0..1]), [Content(w[1..3]), Content(w[3..])]);
      PlayTwo(h, q, w[1..3], w[3..]);
      StartBlocks(h, p, w[0..1]);
      StartBlocks(h, q, w[1..3]);
      StartBlocks(h, q, w[3..]);
    } else {
      assert w == "-\r\nx";
      RunStep(d, w);
      RunCrLf(d, w, 1, 0);
      RunPlain(d, w, 3, 3);
      SliceTo(w, 3);
      assert [Content(w[0..3])] + [Content(w[3..])] == [Content(w[0..3]), Content(w[3..])];
      PlayTwo(h, p, w[0..3], w[3..]);
      StartBlocks(h, p, w[0..3]);
      StartBlocks(h, q, w[3..]);
    }
  }

  lemma SliceTo(w: string, i: nat)
    requires i < |w|
    ensures Slice(w, i, |w|) == [Content(w[i..])]
  {
    assert w[i..|w|] == w[i..];
  }

  lemma RunStep(d: string, w: string)
    requires |d| > 1 && w != "" && w[0] != '\r'
    ensures RunPiece(d, w, 0, 0, 0, "") == RunPiece(d, w, 1, 0, 0, "")
  {
  }

  // Cut behind the garbage, it does not.
  lemma GarbageCut(h: Surroundings, p0: Part, d: string, u: string, c: char)
    requires Delimiter(d) && Initial(p0) && Garbage(u, c)
    ensures !Play(h, p0, RunPieces(d, [d[2..] + (u + [c]), Lure(u, c)]).events).phase.HeaderStart?
  {
    hide RunPiece, RunPieces, Append, Play, Slice;
    var w, t, p := u + [c], Lure(u, c), StartPart(p0);
    NextPiece(d, w, t);
    var one := RunPiece(d, w, 0, 0, 0, "");
    var two := RunPiece(d, t, 0, 0, one.count, one.tmp).events;
    assert [Boundary] + one.events + two == [Boundary] + (one.events + two);
    PlayCons(h, p0, Boundary, one.events + two);
    PlayConcat(h, p, one.events, two);
    var q := p.(counter := if u == "" then 0 else 1);
    GarbageHead(h, p, d, u, c);
    LureTaken(h, q);
    if c == '\r' {
      RunHeldCr(d);
      PlayCons(h, q, Content("\r"), [Content("\n"), Content("x")]);
      assert [Content("\r")] + [Content("\n"), Content("x")] == [Content("\r"), Content("\n"), Content("x")];
      StartBlocks(h, q, "\r");
      PlayTwo(h, q, "\n", "x");
    } else {
      RunPlain(d, t, 0, 0);
      SliceAll(t);
      PlayOne(h, q, t);
    }
  }

  // The piece up to the garbage.
  lemma GarbageHead(h: Surroundings, p: Part, d: string, u: string, c: char)
    requires Delimiter(d) && p.phase.HeaderStart? && p.counter == 0 && Garbage(u, c)
    ensures var one := RunPiece(d, u + [c], 0, 0, 0, "");
            && Play(h, p, one.events) == p.(counter := if u == "" then 0 else 1)
            && (if c == '\r' then one.count == 1 && one.tmp == "\r" else one.count == 0 && one.tmp == "")
  {
    hide RunPiece, Append, Play, Slice;
    var w := u + [c];
    var q := p.(counter := 1);
    if c != '\r' && u != "\r" {
      RunPlain(d, w, 0, 0);
      SliceAll(w);
      PlayOne(h, p, w);
      StartBlocks(h, p, w);
      assert u == "" ==> p.(counter := 0) == p;
    } else if c != '\r' {
      RunLoneCr(d, w, 0, 0);
      RunPlain(d, w, 1, 1);
      SliceTo(w, 1);
      assert [Content(w[0..1])] + [Content(w[1..])] == [Content(w[0..1]), Content(w[1..])];
      PlayTwo(h, p, w[0..1], w[1..]);
      StartBlocks(h, p, w[0..1]);
      StartBlocks(h, q, w[1..]);
    } else if u == "\r" {
      RunLoneCr(d, w, 0, 0);
      RunLastCr(d, w, 1);
      NoSlice(w, 1, 1);
      assert [Content(w[0..1])] + [] == [Content(w[0..1])];
      PlayOne(h, p, w[0..1]);
      StartBlocks(h, p, w[0..1]);
    } else {
      RunStep(d, w);
      RunLastCr(d, w, 0);
      SliceFront(w);
      PlayOne(h, p, w[0..1]);
      StartBlocks(h, p, w[0..1]);
    }
  }

  lemma SliceFront(w: string)
    requires |w| >= 1
    ensures Slice(w, 0, 1) == [Content(w[0..1])]
  {
  }

  lemma SameBody(boundary: string, w: string, t: string)
    ensures var d := "\r\n--" + boundary;
            Flat([d[2..] + (w + t)]) == Flat([d[2..] + w, t]) == "--" + boundary + w + t
  {
    var start := ("\r\n--" + boundary)[2..];
    assert start == "--" + boundary;
    FlatFront([start + (w + t)]);
    FlatFront([start + w, t]);
    FlatFront([t]);
    assert [start + w, t][1..] == [t] && start + (w + t) == start + w + t;
  }

  // For every byte that the code refuses behind a delimiter there is a body that
  // leaves the parser behind that delimiter when it comes in one piece, and not
  // when it is cut behind that byte.
  method CutsMatterBehindGarbage(boundary: string, h: Surroundings, unsetCounter: nat, u: string, c: char)
    returns (one: seq<string>, two: seq<string>, p: Part, q: Part)
    requires '\r' !in boundary && Garbage(u, c)
    ensures Flat(one) == Flat(two) == "--" + boundary + u + [c] + Lure(u, c)
    ensures p.phase.HeaderStart? && !q.phase.HeaderStart?
  {
    hide Eaten, Play, RunPieces, ReplayAll, Lure;
    var d := "\r\n--" + boundary;
    DelimiterOf(boundary);
    one := [d[2..] + (u + [c] + Lure(u, c))];
    two := [d[2..] + (u + [c]), Lure(u, c)];
    SameBody(boundary, u + [c], Lure(u, c));
    assert "--" + boundary + u + [c] + Lure(u, c) == "--" + boundary + (u + [c]) + Lure(u, c);
    var calls;
    p, calls := FeedAll(boundary, h, unsetCounter, one);
    q, calls := FeedAll(boundary, h, unsetCounter, two);
    GarbageWhole(h, NewState(unsetCounter), d, u, c);
    GarbageCut(h, NewState(unsetCounter), d, u, c);
  }

  /* The same in the parameters. */

  lemma {:induction false} RunPlainTo(d: string, w: string, pos: nat, begin: nat, k: nat)
    requires |d| > 1 && begin <= pos <= k <= |w| && '\r' !in w[pos..k]
    ensures RunPiece(d, w, pos, begin, 0, "") == RunPiece(d, w, k, begin, 0, "")
    decreases k - pos
  {
    if pos < k {
      assert w[pos] == w[pos..k][0];
      assert w[pos + 1..k] == w[pos..k][1..];
      RunPlainTo(d, w, pos + 1, begin, k);
    }
  }

  // A line that no hyphen follows is a block of its own.
  lemma RunLine(d: string, w: string, begin: nat, k: nat)
    requires Delimiter(d) && begin <= k && k + 2 < |w| && '\r' !in w[begin..k]
    requires w[k] == '\r' && w[k + 1] == '\n' && w[k + 2] != '-'
    ensures RunPiece(d, w, begin, begin, 0, "") == Behind([Content(w[begin..k + 2])], RunPiece(d, w, k + 2, k + 2, 0, ""))
  {
    hide RunPiece;
    RunPlainTo(d, w, begin, begin, k);
    RunCrLf(d, w, k, begin);
  }

  // A line break and a single hyphen.
  lemma RunHyphen(d: string, w: string, k: nat)
    requires Delimiter(d) && k + 3 < |w| && w[k] == '\r' && w[k + 1] == '\n' && w[k + 2] == '-' && w[k + 3] != '-'
    ensures RunPiece(d, w, k, k, 0, "") == Behind([Content(w[k..k + 3])], RunPiece(d, w, k + 3, k + 3, 0, ""))
  {
    assert d[1] == d[..4][1] == '\n' && d[2] == d[..4][2] == '-' && d[3] == d[..4][3] == '-';
    assert RunPiece(d, w, k, k, 0, "") == RunPiece(d, w, k + 1, k, 1, "") == RunPiece(d, w, k + 2, k, 2, "")
        == RunPiece(d, w, k + 3, k, 3, "");
    assert Slice("", 0, 0) + Slice(w, k, k + 3) == [Content(w[k..k + 3])];
  }

  // A line break at the end of a piece is held back.
  lemma RunLastCrLf(d: string, w: string, k: nat)
    requires Delimiter(d) && k + 2 == |w| && w[k] == '\r' && w[k + 1] == '\n'
    ensures RunPiece(d, w, k, k, 0, "") == Piece([], 2, "\r\n")
  {
    assert d[1] == d[..4][1] == '\n';
    assert RunPiece(d, w, k, k, 0, "") == RunPiece(d, w, k + 1, k, 1, "") == RunPiece(d, w, k + 2, k, 2, "");
    assert w[k..] == "\r\n" && "" + "\r\n" == "\r\n";
  }

  // It is passed on by itself if a single hyphen follows.
  lemma RunHeldCrLf(d: string, t: string)
    requires Delimiter(d) && |t| >= 2 && t[0] == '-' && t[1] != '-'
    ensures RunPiece(d, t, 0, 0, 2, "\r\n") == Behind([Content("\r\n"), Content("-")], RunPiece(d, t, 1, 1, 0, ""))
  {
    assert d[2] == d[..4][2] == '-' && d[3] == d[..4][3] == '-';
    assert RunPiece(d, t, 0, 0, 2, "\r\n") == RunPiece(d, t, 1, 0, 3, "\r\n");
    assert "\r\n"[0..2] == "\r\n" && t[0..1] == "-";
    assert Slice("\r\n", 0, 2) + Slice(t, 0, 1) == [Content("\r\n"), Content("-")];
  }

  // A body with one part.
  function OnePart(d: string, x: string): string {
    x + d + "--\r\n"
  }

  lemma OnePartTokens(d: string, x: string)
    requires Delimiter(d) && Absent(d, x)
    ensures ScanAll(d, d[2..] + OnePart(d, x)).toks == [NewPart] + (Bytes(x) + [NewPart]) + Bytes("--")
  {
    hide Split, ScanAll, Absent;
    SplitBehind(d, x, "--\r\n");
    ClosingHasNoDelimiter(d);
    assert Bytes(x) + [NewPart] + [] == Bytes(x) + [NewPart];
    ClosedTokens(d, OnePart(d, x), Bytes(x) + [NewPart]);
  }

  // The first events are known, up to byte k of the part; the byte machine tells
  // the rest.
  lemma Finishes(h: Surroundings, p0: Part, d: string, x: string, k: nat, one: seq<Event>, two: seq<Event>, p: Part, q: Part)
    requires Delimiter(d) && TraceOf(d, one + two, d[2..] + OnePart(d, x)) && Absent(d, x) && k <= |x|
    requires Play(h, p0, one) == p && Toks(one) == [NewPart] + Bytes(x[..k]) && HeaderTail(p, Toks(one))
    requires EatAll(h, p, Bytes(x[k..]) + [NewPart]) == Some(q) && q.phase.HeaderStart? && q.counter == 0
    ensures Play(h, p0, one + two).params == q.params && Play(h, p0, one + two).phase.Finished?
  {
    hide Play, Toks, ScanAll, HeaderTail, EatAll, Disciplined, Absent, Continues, Bytes, OnePart, Delimiter;
    OnePartTokens(d, x);
    ToksConcat(one, two);
    TailToks(x, k, Toks(one), Toks(two));
    EatConcat(h, p, Bytes(x[k..]) + [NewPart], Bytes("--"));
    EatTwo(h, q, '-', '-', q.(counter := 1));
    DisciplinedBehind(one, two);
    PlayConcat(h, p0, one, two);
    TraceAgrees(h, p, p, Toks(one), two);
  }

  lemma TailToks(x: string, k: nat, one: seq<Tok>, two: seq<Tok>)
    requires k <= |x| && one == [NewPart] + Bytes(x[..k]) && one + two == [NewPart] + (Bytes(x) + [NewPart]) + Bytes("--")
    ensures two == Bytes(x[k..]) + [NewPart] + Bytes("--")
  {
    hide Bytes;
    var tail := Bytes(x[k..]) + [NewPart] + Bytes("--");
    BytesConcat(x[..k], x[k..]);
    assert x[..k] + x[k..] == x;
    assert one + two == one + tail;
    assert (one + two)[|one|..] == two && (one + tail)[|one|..] == tail;
  }

  // A part whose blank line comes where a part should start: its data is taken
  // for header lines and forgotten.
  lemma StrayEats(h: Surroundings, p: Part, value: string)
    requires p.phase.HeaderStart? && p.counter == 0 && p.header == "" && '\r' !in value
    ensures EatAll(h, p, Bytes("\r\n" + value) + [NewPart]) == Some(p)
  {
    hide EatAll;
    var p1 := p.(phase := HeadersEnd);
    EatTwo(h, p, '\r', '\n', p.(counter := 1));
    BytesConcat("\r\n", value);
    EatConcat(h, p, Bytes("\r\n"), Bytes(value));
    var p2 := p1.(header := value);
    if value == "" {
      assert Bytes(value) == [];
      EatNothing(h, p1);
    } else {
      PlainHeaderRun(h, p1, value);
      assert "" + value == value;
    }
    BoundaryAgrees(h, p, Bytes("\r\n" + value), p2);
  }

  // Behind a delimiter and a byte that is refused, a parameter is found or not,
  // depending on the cuts.
  method ParamsBehindGarbage(boundary: string, h: Surroundings, unsetCounter: nat, c: char, f: Field)
    returns (one: seq<string>, two: seq<string>, p: map<string, string>, q: map<string, string>)
    requires '\r' !in boundary && c != '\r' && c != '-'
    requires f == FormField(f.name, f.value) && Sendable("\r\n--" + boundary, f) && '\r' !in f.value
    ensures var d := "\r\n--" + boundary;
            Flat(one) == Flat(two) == d[2..] + OnePart(d, [c] + Section(f))
    ensures p == map[] && q == map[f.name := f.value]
  {
    hide Eaten, Play, RunPieces, ReplayAll, Section, Absent, TraceOf;
    var d := "\r\n--" + boundary;
    DelimiterOf(boundary);
    var rest := OnePart(d, Section(f));
    one, two := [d[2..] + ([c] + rest)], [d[2..] + [c], rest];
    CutBody(d[2..], [c], rest);
    assert [c] + rest == OnePart(d, [c] + Section(f));
    var part, calls := FeedAll(boundary, h, unsetCounter, one);
    p := part.params;
    part, calls := FeedAll(boundary, h, unsetCounter, two);
    q := part.params;
    GarbageWholeParams(h, unsetCounter, d, c, f);
    GarbageCutParams(h, unsetCounter, d, c, f);
  }

  lemma CutBody(a: string, b: string, c: string)
    ensures Flat([a + (b + c)]) == Flat([a + b, c]) == a + (b + c)
  {
    FlatFront([a + (b + c)]);
    FlatFront([a + b, c]);
    FlatFront([c]);
    assert [a + b, c][1..] == [c] && a + b + c == a + (b + c);
  }

  // The only header line of a plain field.
  function NameLine(f: Field): string {
    LineText(FieldLine(f.name))
  }

  lemma NameLineIs(f: Field)
    ensures NameLine(f) == LineText(FieldLine(f.name))
  {
  }

  lemma PlainField(f: Field)
    requires f == FormField(f.name, f.value) && Printable(f)
    ensures var line := NameLine(f); '\r' !in line && line != "" && line[0] != '-' && line[0] != '\0'
    ensures HeaderText(f) == NameLine(f) + "\r\n"
    ensures LineOk(FieldLine(f.name))
  {
    hide LineOk;
    assert FieldLine(f.name) in f.lines;
    LineIsPlain(FieldLine(f.name));
    FieldLineText(f.name);
    assert NameLine(f)[0] == 'C' by { assert "Content-Disposition: form-data; name=\""[0] == 'C'; }
  }

  lemma AbsentTail(d: string, x: string, t: string)
    requires d != "" && Absent(d, x + t)
    ensures Absent(d, t)
  {
    hide FirstAt, Absent;
    forall i | 0 <= i < |t|
      ensures !At(d, t, i)
    {
      AbsentMeans(d, x + t, |x| + i);
      AtBehind(d, x, t, i);
    }
    FirstAtIs(d, t, |t|);
    AbsentIf(d, t);
  }

  lemma GarbageAbsent(d: string, c: char, f: Field)
    requires Delimiter(d) && Sendable(d, f) && c != '\r'
    ensures Absent(d, [c] + Section(f))
  {
    hide FirstAt, Absent, Section;
    var t := Section(f);
    var x := [c] + t;
    forall i | 0 <= i < |x|
      ensures !At(d, x, i)
    {
      if i == 0 {
        AtChars(d, x, 0);
      } else {
        AbsentMeans(d, t, i - 1);
        AtBehind(d, [c], t, i - 1);
      }
    }
    FirstAtIs(d, x, |x|);
    AbsentIf(d, x);
  }

  lemma GarbageCutParams(h: Surroundings, unsetCounter: nat, d: string, c: char, f: Field)
    requires Delimiter(d) && c != '\r' && c != '-' && f == FormField(f.name, f.value) && Sendable(d, f)
    requires var x := [c] + Section(f);
             TraceOf(d, RunPieces(d, [d[2..] + [c], OnePart(d, Section(f))]).events, d[2..] + OnePart(d, x))
    ensures var events := RunPieces(d, [d[2..] + [c], OnePart(d, Section(f))]).events;
            Play(h, NewState(unsetCounter), events).params == map[f.name := f.value]
  {
    hide RunPiece, RunPieces, Play, TraceOf, Section, OnePart, Absent, Append, EatAll, Slice;
    var p0 := NewState(unsetCounter);
    var p, x, rest := StartPart(p0), [c] + Section(f), OnePart(d, Section(f));
    NextPiece(d, [c], rest);
    RunPlain(d, [c], 0, 0);
    SliceAll([c]);
    var one, two := [Boundary] + [Content([c])], RunPiece(d, rest, 0, 0, 0, "").events;
    PlayCons(h, p0, Boundary, [Content([c])]);
    PlayOne(h, p, [c]);
    StartBlocks(h, p, [c]);
    StartToks([Content([c])]);
    assert x[..1] == [c] && x[1..] == Section(f);
    ContentToks([c], []);
    GarbageAbsent(d, c, f);
    SectionEats(h, p, f);
    StoredParam(h, p, f);
    StoredAtPart(h, p, f);
    Finishes(h, p0, d, x, 1, one, two, p, Stored(h, p, f));
  }

  lemma StartToks(events: seq<Event>)
    ensures Toks([Boundary] + events) == [NewPart] + Toks(events)
  {
    hide Toks;
    ToksConcat([Boundary], events);
    ToksSnoc([], Boundary);
    NoToks();
    assert [] + [Boundary] == [Boundary] && [] + [NewPart] == [NewPart];
  }

  lemma ContentToks(s: string, events: seq<Event>)
    ensures Toks([Content(s)] + events) == Bytes(s) + Toks(events)
    ensures Toks([Content(s)]) == Bytes(s)
  {
    hide Toks, Bytes;
    ToksConcat([Content(s)], events);
    ToksSnoc([], Content(s));
    NoToks();
    assert [] + [Content(s)] == [Content(s)] && [] + Bytes(s) == Bytes(s);
  }

  // Where the bytes of a part with a garbage byte in front lie.
  lemma GarbageLayout(c: char, line: string, value: string, tail: string)
    requires line != ""
    ensures var n := |line|;
            var x := [c] + ("\r\n" + (line + "\r\n") + ("\r\n" + value));
            var w := x + tail;
            && |x| == n + 7 + |value|
            && w[0..1] == [c] && w[1] == '\r' && w[2] == '\n' && w[3] == line[0]
            && w[3..3 + n] == line && w[3 + n] == '\r' && w[4 + n] == '\n' && w[5 + n] == '\r'
            && w[0..3] == [c] + "\r\n" && w[3..5 + n] == line + "\r\n"
            && x[..5 + n] == [c] + "\r\n" + (line + "\r\n") && x[5 + n..] == "\r\n" + value
  {
  }

  lemma GarbageWholeEvents(d: string, c: char, line: string, value: string, tail: string)
    requires Delimiter(d) && c != '\r' && '\r' !in line && line != "" && line[0] != '-'
    ensures var w := [c] + ("\r\n" + (line + "\r\n") + ("\r\n" + value)) + tail;
            RunPiece(d, w, 0, 0, 0, "") ==
            Behind([Content([c] + "\r\n")], Behind([Content(line + "\r\n")], RunPiece(d, w, 5 + |line|, 5 + |line|, 0, "")))
  {
    hide RunPiece, Behind;
    GarbageLayout(c, line, value, tail);
    TwoLinesRun(d, [c] + ("\r\n" + (line + "\r\n") + ("\r\n" + value)) + tail, 1, 3 + |line|);
  }

  lemma TwoLinesRun(d: string, w: string, i: nat, j: nat)
    requires Delimiter(d) && i + 2 <= j && j + 2 < |w| && '\r' !in w[0..i] && '\r' !in w[i + 2..j]
    requires w[i] == '\r' && w[i + 1] == '\n' && w[i + 2] != '-' && w[j] == '\r' && w[j + 1] == '\n' && w[j + 2] != '-'
    ensures RunPiece(d, w, 0, 0, 0, "") ==
            Behind([Content(w[0..i + 2])], Behind([Content(w[i + 2..j + 2])], RunPiece(d, w, j + 2, j + 2, 0, "")))
  {
    hide RunPiece, Behind;
    RunLine(d, w, 0, i);
    RunLine(d, w, i + 2, j);
  }

  lemma {:induction false} GarbageWholeParams(h: Surroundings, unsetCounter: nat, d: string, c: char, f: Field)
    requires Delimiter(d) && c != '\r' && c != '-' && f == FormField(f.name, f.value) && Sendable(d, f) && '\r' !in f.value
    requires TraceOf(d, RunPieces(d, [d[2..] + OnePart(d, [c] + Section(f))]).events, d[2..] + OnePart(d, [c] + Section(f)))
    ensures Play(h, NewState(unsetCounter), RunPieces(d, [d[2..] + OnePart(d, [c] + Section(f))]).events).params == map[]
  {
    hide RunPiece, RunPieces, Play, TraceOf, Absent, Append, EatAll, Slice, NameLine, HeaderText, Section, FormField, Printable, Toks, Bytes;
    var p0 := NewState(unsetCounter);
    var p, x, line := StartPart(p0), [c] + Section(f), NameLine(f);
    var w, n, tail := OnePart(d, x), |line|, d + "--\r\n";
    PlainField(f);
    SectionParts(f);
    assert w == x + tail;
    GarbageLayout(c, line, f.value, tail);
    GarbageWholeEvents(d, c, line, f.value, tail);
    FirstPiece(d, w);
    var a, b, two := [c] + "\r\n", line + "\r\n", RunPiece(d, w, 5 + n, 5 + n, 0, "").events;
    var one := [Boundary] + [Content(a), Content(b)];
    ThreeEvents(a, b, two);
    GarbagePlays(h, p0, a, b);
    GarbageAbsent(d, c, f);
    StrayEats(h, p, f.value);
    Finishes(h, p0, d, x, 5 + n, one, two, p, p);
  }

  lemma {:induction false} ThreeEvents(a: string, b: string, two: seq<Event>)
    ensures [Boundary] + ([Content(a)] + ([Content(b)] + two)) == [Boundary] + [Content(a), Content(b)] + two
  {
  }

  // Neither block is taken behind the delimiter.
  lemma {:induction false} GarbagePlays(h: Surroundings, p0: Part, a: string, b: string)
    requires a != "" && b != "" && a[0] != '\r' && a[0] != '-' && b[0] != '\r' && b[0] != '-'
    ensures var one := [Boundary] + [Content(a), Content(b)];
            Play(h, p0, one) == StartPart(p0) && Toks(one) == [NewPart] + Bytes(a + b)
  {
    hide Play, Append, Toks, Bytes;
    var p := StartPart(p0);
    PlayCons(h, p0, Boundary, [Content(a), Content(b)]);
    PlayTwo(h, p, a, b);
    StartBlocks(h, p, a);
    StartBlocks(h, p, b);
    TwoToks(a, b);
  }

  lemma TwoToks(a: string, b: string)
    ensures Toks([Boundary] + [Content(a), Content(b)]) == [NewPart] + Bytes(a + b)
  {
    hide Toks, Bytes;
    StartToks([Content(a), Content(b)]);
    ContentToks(a, [Content(b)]);
    ContentToks(b, []);
    BytesConcat(a, b);
    assert [Content(a)] + [Content(b)] == [Content(a), Content(b)];
  }

  /* Behind a header block without a name. */

  // The header text of a part that has no name.
  predicate NoName(line: string) {
    line != "" && '\r' !in line && line[0] != '-' && ReadLines(NO_INFO, line + "\r\n").name == ""
  }

  // A part without a name, a hyphen, and what would be the rest of a part with one.
  function HyphenPart(line: string, f: Field): string {
    "\r\n" + (line + "\r\n") + "\r\n" + "-" + (HeaderText(f) + ("\r\n" + f.value))
  }

  // Behind a part without a name and a hyphen, a parameter is found or not,
  // depending on the cuts: the hyphen is dropped with the rest of the block, or
  // starts the next header line.
  method ParamsBehindHyphen(boundary: string, h: Surroundings, unsetCounter: nat, line: string, f: Field)
    returns (one: seq<string>, two: seq<string>, p: map<string, string>, q: map<string, string>)
    requires '\r' !in boundary && NoName(line)
    requires f == FormField(f.name, f.value) && Sendable("\r\n--" + boundary, f) && Quiet(f.value)
    ensures var d := "\r\n--" + boundary;
            Flat(one) == Flat(two) == d[2..] + OnePart(d, HyphenPart(line, f))
    ensures p == map[f.name := f.value] && q == map[]
  {
    hide Eaten, Play, RunPieces, ReplayAll, Absent, TraceOf, NoName, HeaderText;
    var d := "\r\n--" + boundary;
    DelimiterOf(boundary);
    var head := "\r\n" + (line + "\r\n") + "\r\n";
    var rest := "-" + (HeaderText(f) + ("\r\n" + f.value)) + d + "--\r\n";
    one, two := [d[2..] + (head + rest)], [d[2..] + head, rest];
    CutBody(d[2..], head, rest);
    assert head + rest == OnePart(d, HyphenPart(line, f));
    var part, calls := FeedAll(boundary, h, unsetCounter, one);
    p := part.params;
    part, calls := FeedAll(boundary, h, unsetCounter, two);
    q := part.params;
    HyphenWhole(h, unsetCounter, d, line, f);
    HyphenCut(h, unsetCounter, d, line, f);
  }

  // Data that does not look like the end of a header block when it is taken for one.
  predicate Quiet(value: string) {
    '\r' !in value && (value != "" ==> value[0] != '-' && value[0] != '\0')
  }

  lemma {:induction false} HyphenAbsent(d: string, line: string, f: Field)
    requires Delimiter(d) && NoName(line) && f == FormField(f.name, f.value) && Sendable(d, f)
    ensures Absent(d, HyphenPart(line, f))
  {
    hide Absent, FirstAt, NameLine, HeaderText, Printable, ReadLines, Section, HyphenPart, FormField;
    PlainField(f);
    var data, name := "\r\n" + f.value, "-" + NameLine(f);
    SectionParts(f);
    AbsentTail(d, "\r\n" + HeaderText(f), data);
    BlankAbsent(d, data);
    var blank := "\r\n" + data;
    assert (name + blank)[0] == '-' && (name + blank)[1] == NameLine(f)[0];
    LineAbsent(d, name, blank);
    var t := "\r\n" + name + blank;
    BlankAbsent(d, t);
    assert (line + ("\r\n" + t))[0] == line[0];
    LineAbsent(d, line, "\r\n" + t);
    HyphenParts(line, f, NameLine(f));
  }

  lemma {:induction false} SectionParts(f: Field)
    ensures Section(f) == "\r\n" + HeaderText(f) + ("\r\n" + f.value)
  {
  }

  lemma {:induction false} HyphenParts(line: string, f: Field, name: string)
    requires HeaderText(f) == name + "\r\n"
    ensures HyphenPart(line, f) == "\r\n" + line + ("\r\n" + ("\r\n" + ("-" + name) + ("\r\n" + ("\r\n" + f.value))))
  {
    hide HeaderText;
  }

  lemma {:induction false} BlankAbsent(d: string, t: string)
    requires Delimiter(d) && Absent(d, t) && t != "" && t[0] != '-'
    ensures Absent(d, "\r\n" + t)
  {
    hide Absent;
    assert "" + t == t && "\r\n" + "" == "\r\n";
    LineAbsent(d, "", t);
  }

  // The state behind the header block without a name.
  function Unnamed(p: Part): Part {
    p.(phase := HeadersEnd, counter := 4, header := "", target := NoTarget)
  }

  lemma NamelessBlocks(h: Surroundings, p: Part, line: string, last: string)
    requires p.phase.HeaderStart? && p.counter == 0 && p.header == "" && NoName(line) && (last == "\r\n" || last == "\r\n-")
    ensures Append(h, Append(h, Append(h, p, "\r\n"), line + "\r\n"), last) == Unnamed(p)
  {
    hide Append, ReadLines;
    var p1 := p.(phase := HeadersEnd);
    var p2 := p1.(counter := 2, header := line + "\r\n");
    FirstLine(h, p);
    NextLine(h, p1, line);
    LastLine(h, p2, last);
  }

  lemma FirstLine(h: Surroundings, p: Part)
    requires p.phase.HeaderStart? && p.counter == 0 && p.header == ""
    ensures Append(h, p, "\r\n") == p.(phase := HeadersEnd)
  {
    hide OnHeaders;
    var s := "\r\n";
    assert AppendFrom(h, p, s, 0, 0) == AppendFrom(h, p.(counter := 1), s, 0, 1)
        == AppendFrom(h, p.(phase := HeadersEnd), s, 2, 2);
    assert s[2..2] == "" && p.header + "" == "";
  }

  lemma NextLine(h: Surroundings, p: Part, line: string)
    requires p.phase.HeadersEnd? && p.counter == 0 && p.header == "" && line != "" && '\r' !in line
    ensures Append(h, p, line + "\r\n") == p.(counter := 2, header := line + "\r\n")
  {
    hide EatAll, Append;
    var s := line + "\r\n";
    LineEats(h, p, line);
    assert "" + s == s;
    LineFits(line);
    assert Bytes("") == [];
    AppendAgrees(h, [], s, p, p);
  }

  lemma LineFits(line: string)
    requires '\r' !in line
    ensures Fits([], line + "\r\n")
  {
    var s := line + "\r\n";
    forall j | 1 <= j < |s|
      ensures !EndsCrLf([] + Bytes(s[..j]))
    {
      var t := [] + Bytes(s[..j]);
      assert j >= 2 ==> t[|t| - 2] == Byte(s[j - 2]);
      assert t[|t| - 1] == Byte(s[j - 1]);
    }
  }

  lemma LastLine(h: Surroundings, p: Part, last: string)
    requires p.phase.HeadersEnd? && p.counter == 2 && ReadLines(NO_INFO, p.header).name == ""
    requires last == "\r\n" || last == "\r\n-"
    ensures Append(h, p, last) == Unnamed(p)
  {
    hide ReadLines;
    assert AppendFrom(h, p, last, 0, 0) == AppendFrom(h, p.(counter := 3), last, 0, 1);
  }

  lemma NamelessTail(h: Surroundings, p: Part, toks: seq<Tok>)
    ensures HeaderTail(Unnamed(p), toks)
    ensures toks != [] && toks[|toks| - 1] == Byte('-') ==> HeaderTail(Unnamed(p).(counter := 0, header := "-"), toks)
  {
    assert toks[|toks|..] == Bytes("");
    if toks != [] && toks[|toks| - 1] == Byte('-') {
      assert toks[|toks| - 1..] == Bytes("-");
    }
  }

  // Without the hyphen, the rest is a part with a name.
  lemma NamedEats(h: Surroundings, p: Part, f: Field)
    requires p.phase.HeaderStart? && p.counter == 0 && p.header == "" && !p.fileMode && f == FormField(f.name, f.value) && Printable(f)
    ensures var end := EatAll(h, Unnamed(p), Bytes(HeaderText(f) + ("\r\n" + f.value)) + [NewPart]);
            && end.Some? && end.value.phase.HeaderStart? && end.value.counter == 0
            && end.value.params == p.params[f.name := f.value]
  {
    hide EatAll, HeaderText, Deliver, ChooseTarget;
    var q := Unnamed(p);
    NamedHeader(h, q, f);
    var text := HeaderText(f);
    var q1 := q.(counter := 2, header := text);
    BlankLineEats(h, q1, f);
    var q2 := ChooseTarget(h, q1, InfoOf(f)).1.(phase := Reading, counter := 4, header := text + "\r\n");
    DeliverBytes(h, q2, f.value);
    NamedParams(h, q1, q2, f);
    BytesConcat(text, "\r\n" + f.value);
    BytesConcat("\r\n", f.value);
    EatConcat(h, q1, Bytes("\r\n"), Bytes(f.value));
    EatConcat(h, q, Bytes(text), Bytes("\r\n" + f.value));
    BoundaryAgrees(h, q, Bytes(text + ("\r\n" + f.value)), Deliver(q2, f.value));
  }

  lemma NamedHeader(h: Surroundings, q: Part, f: Field)
    requires q.phase.HeadersEnd? && q.counter == 4 && q.header == "" && f == FormField(f.name, f.value) && Printable(f)
    ensures EatAll(h, q, Bytes(HeaderText(f))) == Some(q.(counter := 2, header := HeaderText(f)))
  {
    hide EatAll, LineText;
    PlainField(f);
    LineEats(h, q, NameLine(f));
    assert "" + (NameLine(f) + "\r\n") == HeaderText(f);
  }

  lemma NamedParams(h: Surroundings, q1: Part, q2: Part, f: Field)
    requires f == FormField(f.name, f.value) && Printable(f) && q2.params == ChooseTarget(h, q1, InfoOf(f)).1.params
    requires q2.target == ChooseTarget(h, q1, InfoOf(f)).1.target
    ensures Deliver(q2, f.value).params == q1.params[f.name := f.value]
  {
    assert "" + f.value == f.value;
  }

  lemma HyphenWhole(h: Surroundings, unsetCounter: nat, d: string, line: string, f: Field)
    requires Delimiter(d) && NoName(line) && f == FormField(f.name, f.value) && Sendable(d, f)
    requires var w := OnePart(d, HyphenPart(line, f)); TraceOf(d, RunPieces(d, [d[2..] + w]).events, d[2..] + w)
    ensures var w := OnePart(d, HyphenPart(line, f));
            Play(h, NewState(unsetCounter), RunPieces(d, [d[2..] + w]).events).params == map[f.name := f.value]
  {
    hide RunPiece, RunPieces, Play, TraceOf, Absent, Append, EatAll, Slice, HeaderText, NoName, Unnamed, HeaderTail;
    var p0 := NewState(unsetCounter);
    var p, x, n := StartPart(p0), HyphenPart(line, f), |line|;
    var w, rest := OnePart(d, x), HeaderText(f) + ("\r\n" + f.value);
    NameFirst(f);
    HyphenEvents(d, line, rest, d + "--\r\n");
    assert w == "\r\n" + (line + "\r\n") + "\r\n" + "-" + rest + (d + "--\r\n");
    FirstPiece(d, w);
    var a, b, c, two := "\r\n", line + "\r\n", "\r\n-", RunPiece(d, w, n + 7, n + 7, 0, "").events;
    var one := [Boundary] + [Content(a), Content(b), Content(c)];
    assert [Boundary] + ([Content(a)] + ([Content(b)] + ([Content(c)] + two))) == one + two;
    ThreeBlocks(h, p0, a, b, c);
    NamelessBlocks(h, p, line, c);
    NamelessTail(h, p, Toks(one));
    assert x[..n + 7] == a + b + c && x[n + 7..] == rest;
    HyphenAbsent(d, line, f);
    NamedEats(h, p, f);
    Finishes(h, p0, d, x, n + 7, one, two, Unnamed(p), EatAll(h, Unnamed(p), Bytes(rest) + [NewPart]).value);
  }

  lemma ThreeBlocks(h: Surroundings, p0: Part, a: string, b: string, c: string)
    ensures var one := [Boundary] + [Content(a), Content(b), Content(c)];
            && Play(h, p0, one) == Append(h, Append(h, Append(h, StartPart(p0), a), b), c)
            && Toks(one) == [NewPart] + Bytes(a + b + c)
  {
    hide Play, Toks, Append, Bytes;
    var p := StartPart(p0);
    PlayCons(h, p0, Boundary, [Content(a), Content(b), Content(c)]);
    PlayCons(h, p, Content(a), [Content(b), Content(c)]);
    PlayTwo(h, Append(h, p, a), b, c);
    StartToks([Content(a), Content(b), Content(c)]);
    ContentToks(a, [Content(b), Content(c)]);
    ContentToks(b, [Content(c)]);
    ContentToks(c, []);
    BytesConcat(a, b);
    BytesConcat(a + b, c);
    assert [Content(a)] + [Content(b), Content(c)] == [Content(a), Content(b), Content(c)];
    assert [Content(b)] + [Content(c)] == [Content(b), Content(c)];
    assert Bytes(a) + (Bytes(b) + Bytes(c)) == Bytes(a) + Bytes(b) + Bytes(c);
  }

  lemma HyphenLayout(line: string, rest: string, tail: string)
    requires line != "" && rest != ""
    ensures var n := |line|;
            var w := "\r\n" + (line + "\r\n") + "\r\n" + "-" + rest + tail;
            && |w| > n + 7
            && w[0] == '\r' && w[1] == '\n' && w[2] == line[0] && w[2..2 + n] == line
            && w[n + 2] == '\r' && w[n + 3] == '\n' && w[n + 4] == '\r' && w[n + 5] == '\n' && w[n + 6] == '-' && w[n + 7] == rest[0]
            && w[0..2] == "\r\n" && w[2..n + 4] == line + "\r\n" && w[n + 4..n + 7] == "\r\n-"
  {
  }

  lemma HyphenEvents(d: string, line: string, rest: string, tail: string)
    requires Delimiter(d) && NoName(line) && rest != "" && rest[0] != '-'
    ensures var w, n := "\r\n" + (line + "\r\n") + "\r\n" + "-" + rest + tail, |line|;
            RunPiece(d, w, 0, 0, 0, "") ==
            Behind([Content("\r\n")], Behind([Content(line + "\r\n")], Behind([Content("\r\n-")], RunPiece(d, w, n + 7, n + 7, 0, ""))))
  {
    hide RunPiece, ReadLines;
    var w, n := "\r\n" + (line + "\r\n") + "\r\n" + "-" + rest + tail, |line|;
    HyphenLayout(line, rest, tail);
    assert w[0..0] == "";
    RunLine(d, w, 0, 0);
    RunLine(d, w, 2, n + 2);
    RunHyphen(d, w, n + 4);
  }

  // With the hyphen, the rest has no name either.
  lemma HiddenEats(h: Surroundings, p: Part, f: Field)
    requires p.phase.HeaderStart? && p.counter == 0 && p.header == "" && f == FormField(f.name, f.value) && Printable(f) && Quiet(f.value)
    ensures var q := Unnamed(p).(counter := 0, header := "-");
            var end := EatAll(h, q, Bytes(HeaderText(f) + ("\r\n" + f.value)) + [NewPart]);
            && end.Some? && end.value.phase.HeaderStart? && end.value.counter == 0 && end.value.params == p.params
  {
    hide EatAll, LineText, ReadLines;
    var q := Unnamed(p).(counter := 0, header := "-");
    var text := HeaderText(f);
    PlainField(f);
    LineEats(h, q, NameLine(f));
    var q1 := q.(counter := 2, header := "-" + text);
    HiddenBlank(h, q1, f);
    var q2 := Unnamed(q1);
    BytesConcat(text, "\r\n" + f.value);
    BytesConcat("\r\n", f.value);
    EatConcat(h, q1, Bytes("\r\n"), Bytes(f.value));
    EatConcat(h, q, Bytes(text), Bytes("\r\n" + f.value));
    var q3 := if f.value == "" then q2 else q2.(counter := 0, header := f.value);
    QuietEats(h, q2, f.value);
    BoundaryAgrees(h, q, Bytes(text + ("\r\n" + f.value)), q3);
  }

  lemma HiddenBlank(h: Surroundings, q: Part, f: Field)
    requires q.phase.HeadersEnd? && q.counter == 2 && f == FormField(f.name, f.value) && Printable(f) && q.header == "-" + HeaderText(f)
    ensures EatAll(h, q, Bytes("\r\n")) == Some(Unnamed(q))
  {
    hide EatAll, NameLine, HeaderText, Printable, FormField, ReadLines, LineOk;
    PlainField(f);
    EatTwo(h, q, '\r', '\n', q.(counter := 3, header := q.header + "\r"));
    var full := q.header + "\r" + "\n";
    assert full[..|full| - 2] == q.header == "-" + NameLine(f) + "\r\n";
    assert NameLine(f) == LineText(FieldLine(f.name)) by { NameLineIs(f); }
    HyphenHidesName(f.name);
  }

  lemma QuietEats(h: Surroundings, q: Part, value: string)
    requires q.phase.HeadersEnd? && q.counter == 4 && q.header == "" && Quiet(value)
    ensures EatAll(h, q, Bytes(value)) == Some(if value == "" then q else q.(counter := 0, header := value))
  {
    hide EatAll;
    if value == "" {
      assert Bytes(value) == [];
      EatNothing(h, q);
    } else {
      PlainHeaderRun(h, q, value);
      assert "" + value == value;
    }
  }

  lemma HyphenCut(h: Surroundings, unsetCounter: nat, d: string, line: string, f: Field)
    requires Delimiter(d) && NoName(line) && f == FormField(f.name, f.value) && Sendable(d, f) && Quiet(f.value)
    requires var head := "\r\n" + (line + "\r\n") + "\r\n";
             var rest := "-" + (HeaderText(f) + ("\r\n" + f.value)) + d + "--\r\n";
             TraceOf(d, RunPieces(d, [d[2..] + head, rest]).events, d[2..] + OnePart(d, HyphenPart(line, f)))
    ensures var head := "\r\n" + (line + "\r\n") + "\r\n";
            var rest := "-" + (HeaderText(f) + ("\r\n" + f.value)) + d + "--\r\n";
            Play(h, NewState(unsetCounter), RunPieces(d, [d[2..] + head, rest]).events).params == map[]
  {
    hide RunPiece, RunPieces, Play, TraceOf, Absent, Append, EatAll, Slice, HeaderText, NoName, HeaderTail;
    var p0 := NewState(unsetCounter);
    var p, x, n := StartPart(p0), HyphenPart(line, f), |line|;
    var head := "\r\n" + (line + "\r\n") + "\r\n";
    var tail := HeaderText(f) + ("\r\n" + f.value);
    var rest := "-" + tail + d + "--\r\n";
    HeadEvents(d, line);
    NextPiece(d, head, rest);
    NameFirst(f);
    RunHeldCrLf(d, rest);
    var a, b := "\r\n", line + "\r\n";
    var two := RunPiece(d, rest, 1, 1, 0, "").events;
    var one := [Boundary] + [Content(a), Content(b), Content(a)] + [Content("-")];
    assert [Boundary] + [Content(a), Content(b)] + ([Content(a), Content("-")] + two) == one + two;
    ThreeBlocks(h, p0, a, b, a);
    NamelessBlocks(h, p, line, a);
    HyphenBlock(h, p0, p, one[..4]);
    assert one == one[..4] + [Content("-")] && one[..4] == [Boundary] + [Content(a), Content(b), Content(a)];
    BytesConcat(a + b + a, "-");
    var q := Unnamed(p).(counter := 0, header := "-");
    NamelessTail(h, p, Toks(one));
    assert x[..n + 7] == a + b + a + "-" && x[n + 7..] == tail;
    HyphenAbsent(d, line, f);
    HiddenEats(h, p, f);
    Finishes(h, p0, d, x, n + 7, one, two, q, EatAll(h, q, Bytes(tail) + [NewPart]).value);
  }

  lemma NameFirst(f: Field)
    requires f == FormField(f.name, f.value) && Printable(f)
    ensures HeaderText(f) != "" && HeaderText(f)[0] == 'C'
  {
  }

  lemma {:induction false} HeadLayout(line: string)
    requires line != ""
    ensures var w, n := "\r\n" + (line + "\r\n") + "\r\n", |line|;
            && |w| == n + 6 && w[0..0] == "" && w[0..2] == "\r\n" && w[2..n + 2] == line && w[2..n + 4] == line + "\r\n"
            && w[0] == '\r' && w[1] == '\n' && w[2] == line[0]
            && w[n + 2] == '\r' && w[n + 3] == '\n' && w[n + 4] == '\r' && w[n + 5] == '\n'
  {
  }

  lemma {:induction false} HeadEvents(d: string, line: string)
    requires Delimiter(d) && NoName(line)
    ensures RunPiece(d, "\r\n" + (line + "\r\n") + "\r\n", 0, 0, 0, "") ==
            Piece([Content("\r\n"), Content(line + "\r\n")], 2, "\r\n")
  {
    hide RunPiece, ReadLines;
    var w, n := "\r\n" + (line + "\r\n") + "\r\n", |line|;
    HeadLayout(line);
    RunLine(d, w, 0, 0);
    RunLine(d, w, 2, n + 2);
    RunLastCrLf(d, w, n + 4);
    assert [Content("\r\n")] + ([Content(line + "\r\n")] + []) == [Content("\r\n"), Content(line + "\r\n")];
  }

  // Cut in front of it, the hyphen is a header line of its own.
  lemma HyphenBlock(h: Surroundings, p0: Part, p: Part, events: seq<Event>)
    requires Play(h, p0, events) == Unnamed(p)
    ensures Play(h, p0, events + [Content("-")]) == Unnamed(p).(counter := 0, header := "-")
    ensures Toks(events + [Content("-")]) == Toks(events) + Bytes("-")
  {
    hide Play, Toks;
    PlaySnoc(h, p0, events, Content("-"));
    ToksSnoc(events, Content("-"));
    var q := Unnamed(p);
    assert AppendFrom(h, q, "-", 0, 0) == AppendFrom(h, q.(counter := 0), "-", 0, 1);
    assert "-"[0..1] == "-" && "" + "-" == "-";
  }
}
