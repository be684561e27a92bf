/**
 The part machine of the multipart parser: it gets a body's content in blocks,
 looks for the end of each part's header block and stores the part's data.

 `Append` is what the code does with one block. `EatByte` is the same machine
 fed a byte at a time, on the whole header block; it is undefined where the
 code drops bytes or not depending on where the block ends: at a byte that can
 not follow a delimiter, and at a hyphen behind a header block without a name.
 */
module PartMachine {
  import opened Common
  import opened HeaderFields
  import opened BoundaryMatcher

  datatype Phase = HeaderStart | HeadersEnd | Reading | Finished

  datatype Target = NoTarget | ParamTarget(name: string) | FileTarget

  datatype File = File(mimeType: string, origFileName: string, path: string)

  // A file that the upload helper accepted, with the data passed on for it.
  datatype Upload = Upload(name: string, origFileName: string, mimeType: string, path: string, data: string, open: bool)

  datatype Part = Part(
    phase: Phase,
    counter: nat,
    header: string,
    params: map<string, string>,
    files: map<string, File>,
    target: Target,
    fileMode: bool,
    asked: nat,
    uploads: seq<Upload>)

  // A new parser. The counter is not set by the source.
  function NewState(unsetCounter: nat): Part {
    Part(HeaderStart, unsetCounter, "", map[], map[], NoTarget, false, 0, [])
  }

  // What the parser does not decide itself: the upload helper's answer to its n-th
  // OnNewFile, a path or a refusal, and what memory holds behind the text of the
  // blank line.
  datatype Surroundings = Surroundings(answer: nat -> Option<string>, behind: nat -> char)

  const BLANK_LINE := "\r\n\r\n"

  // The byte with which byte k behind a header line is compared. The counter can
  // run over the end of the text, which is followed by a NUL.
  function HeaderEndChar(h: Surroundings, k: nat): char {
    if k < 4 then BLANK_LINE[k] else if k == 4 then '\0' else h.behind(k - 5)
  }

  function StartPart(p: Part): Part {
    p.(phase := HeaderStart, counter := 0, header := "")
  }

  // OnFileEnd
  function CloseUpload(uploads: seq<Upload>): seq<Upload> {
    if uploads == [] then []
    else uploads[|uploads| - 1 := uploads[|uploads| - 1].(open := false)]
  }

  // The second half of ParseFMHeaders: choosing the target of the part's data.
  function ChooseTarget(h: Surroundings, p: Part, i: PartInfo): (bool, Part) {
    if i.name == "" then (false, p.(target := NoTarget))
    else
      var uploads := if p.fileMode then CloseUpload(p.uploads) else p.uploads;
      if i.hasFile then
        var mime := if i.contentType.Some? then i.contentType.value else "";
        var p' := p.(fileMode := true, asked := p.asked + 1, uploads := uploads);
        match h.answer(p.asked)
        case Some(path) =>
          (true, p'.(target := FileTarget, files := p'.files[i.name := File(mime, i.fileName, path)],
                     uploads := uploads + [Upload(i.name, i.fileName, mime, path, "", true)]))
        case None => (true, p'.(target := NoTarget))
      else
        (true, p.(fileMode := false, target := ParamTarget(i.name), params := p.params[i.name := ""], uploads := uploads))
  }

  function OnHeaders(h: Surroundings, p: Part, block: string): (bool, Part) {
    ChooseTarget(h, p, ReadLines(NO_INFO, block))
  }

  // Data of the current part.
  function Deliver(p: Part, data: string): Part {
    match p.target
    case NoTarget => p
    case ParamTarget(name) =>
      if name in p.params then p.(params := p.params[name := p.params[name] + data]) else p
    case FileTarget =>
      if p.uploads == [] then p
      else
        var k := |p.uploads| - 1;
        p.(uploads := p.uploads[k := p.uploads[k].(data := p.uploads[k].data + data)])
  }

  // AppendToCurrentPart from position i of the block on, where the header text
  // of this block starts at `orig`.
  function AppendFrom(h: Surroundings, p: Part, s: string, orig: nat, i: nat): Part
    requires orig <= i <= |s|
    decreases |s| - i
  {
    if i == |s| || p.phase.Reading? then
      match p.phase
      case Reading => Deliver(p, s[i..])
      case HeadersEnd => p.(header := p.header + s[orig..i])
      case _ => p
    else
      match p.phase
      case HeaderStart =>
        if p.counter == 0 then
          if s[i] == '\r' || s[i] == '-' then AppendFrom(h, p.(counter := 1), s, orig, i + 1) else p
        else if p.counter == 1 then
          if s[i] == '\n' then AppendFrom(h, p.(counter := 0, phase := HeadersEnd), s, i + 1, i + 1)
          else if s[i] == '-' then AppendFrom(h, p.(phase := Finished, uploads := CloseUpload(p.uploads)), s, orig, i + 1)
          else p
        else AppendFrom(h, p, s, orig, i + 1)
      case HeadersEnd =>
        if HeaderEndChar(h, p.counter) == s[i] then
          if p.counter + 1 == 4 then
            var header := if i - orig - 4 > 0 then p.header + s[orig..i + 1] else p.header;
            var (ok, p') := OnHeaders(h, p.(counter := 4, header := header), header);
            if ok then AppendFrom(h, p'.(phase := Reading), s, orig, i + 1) else p'.(header := "")
          else AppendFrom(h, p.(counter := p.counter + 1), s, orig, i + 1)
        else AppendFrom(h, p.(counter := 0), s, orig, i + 1)
      case Finished => p.(uploads := CloseUpload(p.uploads))
  }

  function Append(h: Surroundings, p: Part, s: string): Part {
    if s == "" || p.phase.Finished? then p else AppendFrom(h, p, s, 0, 0)
  }

  function PlayEvent(h: Surroundings, p: Part, e: Event): Part {
    match e
    case Content(block) => Append(h, p, block)
    case Boundary => StartPart(p)
  }

  function Play(h: Surroundings, p: Part, trace: seq<Event>): Part {
    if trace == [] then p
    else PlayEvent(h, Play(h, p, trace[..|trace| - 1]), trace[|trace| - 1])
  }

  lemma PlaySnoc(h: Surroundings, p: Part, trace: seq<Event>, e: Event)
    ensures Play(h, p, trace + [e]) == PlayEvent(h, Play(h, p, trace), e)
  {
  }

  /* The byte machine. */

  // A header block without a name was just read.
  predicate Nameless(p: Part) {
    p.phase.HeadersEnd? && p.counter == 4 && p.header == ""
  }

  function EatHeaderByte(h: Surroundings, p: Part, c: char): Option<Part> {
    var header := p.header + [c];
    if Nameless(p) && c == '-' then None
    else if HeaderEndChar(h, p.counter) != c then Some(p.(counter := 0, header := header))
    else if p.counter + 1 != 4 then Some(p.(counter := p.counter + 1, header := header))
    else
      var (ok, p') := OnHeaders(h, p.(counter := 4, header := header), if |header| >= 2 then header[..|header| - 2] else "");
      Some(if ok then p'.(phase := Reading) else p'.(header := ""))
  }

  function EatByte(h: Surroundings, p: Part, c: char): Option<Part> {
    match p.phase
    case HeaderStart =>
      if p.counter == 0 then
        if c == '\r' || c == '-' then Some(p.(counter := 1)) else None
      else if p.counter == 1 then
        if c == '\n' then Some(p.(counter := 0, phase := HeadersEnd))
        else if c == '-' then Some(p.(phase := Finished, uploads := CloseUpload(p.uploads)))
        else None
      else Some(p)
    case HeadersEnd => EatHeaderByte(h, p, c)
    case Reading => Some(Deliver(p, [c]))
    case Finished => Some(p)
  }

  function Eat(h: Surroundings, p: Part, t: Tok): Option<Part> {
    match t
    case NewPart => Some(StartPart(p))
    case Byte(c) => EatByte(h, p, c)
  }

  function EatAll(h: Surroundings, p: Part, toks: seq<Tok>): Option<Part> {
    if toks == [] then Some(p)
    else
      match EatAll(h, p, toks[..|toks| - 1])
      case None => None
      case Some(q) => Eat(h, q, toks[|toks| - 1])
  }

  lemma EatSnoc(h: Surroundings, p: Part, toks: seq<Tok>, t: Tok)
    ensures EatAll(h, p, toks + [t]) ==
            match EatAll(h, p, toks) case None => None case Some(q) => Eat(h, q, t)
  {
  }

  lemma {:induction false} EatConcat(h: Surroundings, p: Part, t: seq<Tok>, u: seq<Tok>)
    ensures EatAll(h, p, t + u) ==
            match EatAll(h, p, t) case None => None case Some(q) => EatAll(h, q, u)
  {
    if u == [] {
      assert t + u == t;
    } else {
      var n := |u| - 1;
      assert t + u == (t + u[..n]) + [u[n]];
      EatConcat(h, p, t, u[..n]);
      EatSnoc(h, p, t + u[..n], u[n]);
    }
  }

  /* The two machines agree on disciplined traces. */

  // The state before the first delimiter.
  ghost predicate Initial(p: Part) {
    p.phase.HeaderStart? && p.header == ""
  }

  // The header text is dead once the part's data is read.
  ghost predicate Same(p: Part, q: Part) {
    && p == q.(header := p.header)
    && (q.phase.HeaderStart? || q.phase.HeadersEnd? ==> p.header == q.header)
  }

  // The last k characters of s are the first k of CR LF CR LF.
  ghost predicate BlankTail(s: string, k: nat) {
    k <= |s| && k <= 4 && s[|s| - k..] == BLANK_LINE[..k]
  }

  lemma BlankTailGrows(s: string, k: nat, c: char)
    requires BlankTail(s, k) && k < 4 && BLANK_LINE[k] == c
    ensures BlankTail(s + [c], k + 1)
  {
    assert BLANK_LINE[..k + 1] == BLANK_LINE[..k] + [c];
  }

  // While a header block is read, its text is the end of the token stream, and
  // the counter says how much of the blank line was just seen. It is above three
  // only behind a block without a name.
  ghost predicate HeaderTail(p: Part, toks: seq<Tok>) {
    && (p.phase.HeaderStart? ==> p.header == "")
    && (p.phase.Finished? ==> CloseUpload(p.uploads) == p.uploads)
    && (p.phase.HeadersEnd? ==>
          && |p.header| <= |toks|
          && toks[|toks| - |p.header|..] == Bytes(p.header)
          && (p.counter <= 3 ==> BlankTail(p.header, p.counter)))
  }

  lemma {:induction false} HeaderTailKept(h: Surroundings, p: Part, before: seq<Tok>, toks: seq<Tok>)
    requires HeaderTail(p, before) && EatAll(h, p, toks).Some?
    ensures HeaderTail(EatAll(h, p, toks).value, before + toks)
  {
    hide HeaderTail, Eat;
    if toks == [] {
      assert before + toks == before;
    } else {
      var n := |toks| - 1;
      HeaderTailKept(h, p, before, toks[..n]);
      HeaderTailStep(h, EatAll(h, p, toks[..n]).value, before + toks[..n], toks[n]);
      assert before + toks[..n] + [toks[n]] == before + toks;
    }
  }

  lemma HeaderTailStep(h: Surroundings, q: Part, toks: seq<Tok>, t: Tok)
    requires HeaderTail(q, toks) && Eat(h, q, t).Some?
    ensures HeaderTail(Eat(h, q, t).value, toks + [t])
  {
    hide EatHeaderByte, BlankTail;
    if t.Byte? && q.phase.HeadersEnd? {
      HeaderByteStep(h, q, toks, t.c);
    } else {
      BlankTailNone(Eat(h, q, t).value.header);
    }
  }

  lemma {:induction false} HeaderByteStep(h: Surroundings, q: Part, toks: seq<Tok>, c: char)
    requires HeaderTail(q, toks) && q.phase.HeadersEnd? && EatHeaderByte(h, q, c).Some?
    ensures HeaderTail(EatHeaderByte(h, q, c).value, toks + [Byte(c)])
  {
    hide ReadLines, BlankTail, ChooseTarget;
    TailGrows(toks, q.header, c);
    BlankTailNone(q.header + [c]);
    var header := q.header + [c];
    ChooseFacts(h, q.(counter := 4, header := header), ReadLines(NO_INFO, if |header| >= 2 then header[..|header| - 2] else ""));
    if q.counter < 3 && HeaderEndChar(h, q.counter) == c {
      BlankTailGrows(q.header, q.counter, c);
    }
  }

  lemma BlankTailNone(s: string)
    ensures BlankTail(s, 0)
  {
  }

  lemma {:induction false} TailGrows(toks: seq<Tok>, s: string, c: char)
    requires |s| <= |toks| && toks[|toks| - |s|..] == Bytes(s)
    ensures var toks', s' := toks + [Byte(c)], s + [c]; toks'[|toks'| - |s'|..] == Bytes(s')
  {
  }

  // Reading many data bytes at once or one by one.
  lemma {:induction false} DeliverBytes(h: Surroundings, p: Part, s: string)
    requires p.phase.Reading?
    ensures EatAll(h, p, Bytes(s)) == Some(Deliver(p, s))
  {
    hide Deliver, EatByte, Bytes;
    if s == "" {
      DeliverNothing(p);
      assert Bytes(s) == [];
    } else {
      var n := |s| - 1;
      assert s == s[..n] + [s[n]];
      BytesConcat(s[..n], [s[n]]);
      DeliverBytes(h, p, s[..n]);
      EatSnoc(h, p, Bytes(s[..n]), Byte(s[n]));
      DeliverTwice(p, s[..n], [s[n]]);
      DeliverSame(p, p, s[..n]);
      EatReading(h, Deliver(p, s[..n]), s[n]);
    }
  }

  lemma EatReading(h: Surroundings, p: Part, c: char)
    requires p.phase.Reading?
    ensures EatByte(h, p, c) == Some(Deliver(p, [c])) && Bytes([c]) == [Byte(c)]
  {
  }

  lemma DeliverNothing(p: Part)
    ensures Deliver(p, "") == p
  {
    match p.target
    case NoTarget =>
    case ParamTarget(name) =>
      if name in p.params {
        assert p.params[name] + "" == p.params[name];
        assert p.params[name := p.params[name]] == p.params;
      }
    case FileTarget =>
      if p.uploads != [] {
        var u := p.uploads[|p.uploads| - 1];
        assert u.(data := u.data + "") == u;
      }
  }

  lemma DeliverTwice(p: Part, s: string, t: string)
    ensures Deliver(Deliver(p, s), t) == Deliver(p, s + t)
  {
    match p.target
    case NoTarget =>
    case ParamTarget(name) =>
      if name in p.params {
        assert p.params[name] + (s + t) == p.params[name] + s + t;
      }
    case FileTarget =>
      if p.uploads != [] {
        var u := p.uploads[|p.uploads| - 1];
        assert u.data + (s + t) == u.data + s + t;
      }
  }

  lemma EatPrefix(h: Surroundings, p: Part, t: seq<Tok>, u: seq<Tok>)
    requires EatAll(h, p, t + u).Some?
    ensures EatAll(h, p, t).Some?
    ensures EatAll(h, p, t + u) == EatAll(h, EatAll(h, p, t).value, u)
  {
    EatConcat(h, p, t, u);
  }

  lemma {:induction false} FinishedStays(h: Surroundings, p: Part, s: string)
    requires p.phase.Finished?
    ensures EatAll(h, p, Bytes(s)) == Some(p)
  {
    if s != "" {
      var n := |s| - 1;
      assert s == s[..n] + [s[n]];
      BytesConcat(s[..n], [s[n]]);
      FinishedStays(h, p, s[..n]);
      EatSnoc(h, p, Bytes(s[..n]), Byte(s[n]));
      assert Bytes([s[n]]) == [Byte(s[n])];
    }
  }

  ghost predicate SameButHeader(p: Part, q: Part) {
    p == q.(header := p.header)
  }

  lemma DeliverSame(p: Part, q: Part, s: string)
    requires SameButHeader(p, q)
    ensures SameButHeader(Deliver(p, s), Deliver(q, s)) && Deliver(q, s).phase == q.phase
  {
  }

  lemma ChooseSame(h: Surroundings, p: Part, q: Part, i: PartInfo)
    requires SameButHeader(p, q)
    ensures ChooseTarget(h, p, i).0 == ChooseTarget(h, q, i).0
    ensures SameButHeader(ChooseTarget(h, p, i).1, ChooseTarget(h, q, i).1)
  {
  }

  lemma BlankTailIs(s: string)
    requires BlankTail(s, 3)
    ensures |s| >= 3 && s[|s| - 3] == '\r' && s[|s| - 2] == '\n' && s[|s| - 1] == '\r'
  {
    var t := s[|s| - 3..];
    assert t[0] == s[|s| - 3] && t[1] == s[|s| - 2] && t[2] == s[|s| - 1];
  }

  lemma TailBytes(t: seq<Tok>, header: string, k: nat)
    requires k < |header| <= |t| && t[|t| - |header|..] == Bytes(header)
    ensures t[|t| - 1 - k] == Byte(header[|header| - 1 - k])
  {
  }

  lemma CrLfCrBefore(t: seq<Tok>, header: string)
    requires |header| <= |t| && t[|t| - |header|..] == Bytes(header) && BlankTail(header, 3)
    ensures |t| >= 3 && t[|t| - 3] == Byte('\r') && t[|t| - 2] == Byte('\n') && t[|t| - 1] == Byte('\r')
  {
    hide BlankTail, Bytes;
    BlankTailIs(header);
    TailBytes(t, header, 0);
    TailBytes(t, header, 1);
    TailBytes(t, header, 2);
  }

  lemma HeaderTailFacts(q: Part, t: seq<Tok>)
    requires HeaderTail(q, t) && q.phase.HeadersEnd? && q.counter == 3
    ensures |q.header| <= |t| && t[|t| - |q.header|..] == Bytes(q.header) && BlankTail(q.header, 3)
  {
  }

  // The matcher cuts behind a CR LF that no hyphen follows, so the block that
  // completes the blank line holds at most two bytes of it.
  lemma BlankLineIsCut(toks: seq<Tok>, s: string, i: nat, q: Part)
    requires i < |s| && Fits(toks, s) && HeaderTail(q, toks + Bytes(s[..i]))
    requires q.phase.HeadersEnd? && q.counter == 3 && s[i] == '\n'
    ensures i <= 1
    ensures i + 1 < |s| ==> s[i + 1] == '-'
  {
    hide HeaderTail, Fits, BlankTail;
    HeaderTailFacts(q, toks + Bytes(s[..i]));
    CrLfCrBefore(toks + Bytes(s[..i]), q.header);
    if i >= 2 {
      NoCrLfCrInside(toks, s, i);
    }
    if i + 1 < |s| {
      HyphenBehindCrLf(toks, s, i);
    }
  }

  lemma NoCrLfCrInside(toks: seq<Tok>, s: string, i: nat)
    requires 2 <= i < |s| && Fits(toks, s)
    ensures var t := toks + Bytes(s[..i]);
            |t| >= 3 ==> !(t[|t| - 3] == Byte('\r') && t[|t| - 2] == Byte('\n') && t[|t| - 1] == Byte('\r'))
  {
    var t, u := toks + Bytes(s[..i]), toks + Bytes(s[..i - 1]);
    assert t[..|t| - 1] == u && t[|t| - 1] == Byte(s[i - 1]);
    assert EndsCrLf(u) ==> s[i - 1] == '-';
  }

  lemma HyphenBehindCrLf(toks: seq<Tok>, s: string, i: nat)
    requires i + 1 < |s| && Fits(toks, s) && s[i] == '\n'
    requires var t := toks + Bytes(s[..i]); |t| >= 1 && t[|t| - 1] == Byte('\r')
    ensures s[i + 1] == '-'
  {
    var t, u := toks + Bytes(s[..i]), toks + Bytes(s[..i + 1]);
    assert s[..i + 1] == s[..i] + [s[i]];
    assert u == t + [Byte(s[i])];
    assert EndsCrLf(u);
  }

  // The header text the code parses lacks at most the last CR or CR LF.
  lemma ShortTailIsEnough(short: string, full: string, missing: nat)
    requires BlankTail(full, 3) && missing <= 1
    requires missing <= |full| && short == full[..|full| - missing]
    ensures |full| >= 3 && ReadLines(NO_INFO, short) == ReadLines(NO_INFO, full[..|full| - 1])
  {
    hide ReadLines, BlankTail;
    BlankTailIs(full);
    if missing == 0 {
      var cut := full[..|full| - 1];
      assert full == cut + "\r" && short == full;
      TrailingIgnored(NO_INFO, cut, "\r");
    }
  }

  // The code in the middle of a block, and the byte machine at the same byte.
  ghost predicate InStep(p: Part, q: Part, s: string, orig: nat, i: nat)
    requires orig <= i <= |s|
  {
    && SameButHeader(p, q)
    && (q.phase.HeaderStart? ==> p.header == q.header)
    && (q.phase.HeadersEnd? ==> q.header == p.header + s[orig..i])
  }

  // From byte i of a block on. The byte machine was in q0 in front of the block,
  // behind the tokens toks.
  lemma BlockAgrees(h: Surroundings, q0: Part, toks: seq<Tok>, s: string, orig: nat, i: nat, p: Part, q: Part)
    requires HeaderTail(q0, toks) && Fits(toks, s) && orig <= i <= |s|
    requires EatAll(h, q0, Bytes(s[..i])) == Some(q)
    requires EatAll(h, q0, Bytes(s)).Some?
    requires InStep(p, q, s, orig, i)
    ensures Same(AppendFrom(h, p, s, orig, i), EatAll(h, q0, Bytes(s)).value)
    decreases |s| - i
  {
    hide OnHeaders, Fits, BlankTail, Deliver, EatAll, EatHeaderByte;
    HeaderTailKept(h, q0, toks, Bytes(s[..i]));
    RestOfBlock(h, q0, s, i);
    if i == |s| {
      assert s[..i] == s && s[i..] == "";
      if q.phase.Reading? {
        DeliverNothing(p);
      }
    } else if q.phase.Reading? {
      DeliverBytes(h, q, s[i..]);
      DeliverSame(p, q, s[i..]);
    } else if q.phase.Finished? {
      FinishedStays(h, q, s[i..]);
    } else {
      var q' := NextByte(h, q0, s, i, q);
      if q.phase.HeaderStart? {
        StartAgrees(h, q0, toks, s, orig, i, p, q, q');
      } else {
        HeaderAgrees(h, q0, toks, s, orig, i, p, q, q');
      }
    }
  }

  lemma RestOfBlock(h: Surroundings, q0: Part, s: string, i: nat)
    requires i <= |s| && EatAll(h, q0, Bytes(s)).Some?
    ensures EatAll(h, q0, Bytes(s[..i])).Some?
    ensures EatAll(h, q0, Bytes(s)) == EatAll(h, EatAll(h, q0, Bytes(s[..i])).value, Bytes(s[i..]))
  {
    hide EatAll;
    assert s == s[..i] + s[i..];
    BytesConcat(s[..i], s[i..]);
    EatPrefix(h, q0, Bytes(s[..i]), Bytes(s[i..]));
  }

  lemma NextByte(h: Surroundings, q0: Part, s: string, i: nat, q: Part) returns (q': Part)
    requires i < |s| && EatAll(h, q0, Bytes(s)).Some? && EatAll(h, q0, Bytes(s[..i])) == Some(q)
    ensures EatByte(h, q, s[i]) == Some(q') && EatAll(h, q0, Bytes(s[..i + 1])) == Some(q')
  {
    hide EatAll, EatByte;
    assert s[..i + 1] == s[..i] + [s[i]];
    BytesConcat(s[..i], [s[i]]);
    assert Bytes([s[i]]) == [Byte(s[i])];
    EatSnoc(h, q0, Bytes(s[..i]), Byte(s[i]));
    RestOfBlock(h, q0, s, i + 1);
    q' := EatAll(h, q0, Bytes(s[..i + 1])).value;
  }

  lemma StartAgrees(h: Surroundings, q0: Part, toks: seq<Tok>, s: string, orig: nat, i: nat, p: Part, q: Part, q': Part)
    requires HeaderTail(q0, toks) && Fits(toks, s) && orig <= i < |s|
    requires EatByte(h, q, s[i]) == Some(q') && EatAll(h, q0, Bytes(s[..i + 1])) == Some(q')
    requires EatAll(h, q0, Bytes(s)).Some?
    requires InStep(p, q, s, orig, i) && q.phase.HeaderStart? && HeaderTail(q, toks + Bytes(s[..i]))
    ensures Same(AppendFrom(h, p, s, orig, i), EatAll(h, q0, Bytes(s)).value)
    decreases |s| - i, 0
  {
    hide OnHeaders, Fits, BlankTail, Deliver, EatAll;
    if q.counter == 0 {
      BlockAgrees(h, q0, toks, s, orig, i + 1, p.(counter := 1), q');
    } else if q.counter == 1 && s[i] == '\n' {
      assert s[i + 1..i + 1] == "";
      BlockAgrees(h, q0, toks, s, i + 1, i + 1, p.(counter := 0, phase := HeadersEnd), q');
    } else if q.counter == 1 {
      BlockAgrees(h, q0, toks, s, orig, i + 1, p.(phase := Finished, uploads := CloseUpload(p.uploads)), q');
    } else {
      BlockAgrees(h, q0, toks, s, orig, i + 1, p, q');
    }
  }

  lemma HeaderAgrees(h: Surroundings, q0: Part, toks: seq<Tok>, s: string, orig: nat, i: nat, p: Part, q: Part, q': Part)
    requires HeaderTail(q0, toks) && Fits(toks, s) && orig <= i < |s|
    requires EatByte(h, q, s[i]) == Some(q') && EatAll(h, q0, Bytes(s[..i + 1])) == Some(q')
    requires EatAll(h, q0, Bytes(s)).Some?
    requires InStep(p, q, s, orig, i) && q.phase.HeadersEnd? && HeaderTail(q, toks + Bytes(s[..i]))
    ensures Same(AppendFrom(h, p, s, orig, i), EatAll(h, q0, Bytes(s)).value)
    decreases |s| - i, 0
  {
    hide Fits, BlankTail, Deliver, EatAll, OnHeaders, HeaderTail;
    assert s[orig..i + 1] == s[orig..i] + [s[i]];
    assert p.header + s[orig..i + 1] == p.header + s[orig..i] + [s[i]];
    if HeaderEndChar(h, q.counter) != s[i] {
      BlockAgrees(h, q0, toks, s, orig, i + 1, p.(counter := 0), q');
    } else if q.counter + 1 != 4 {
      BlockAgrees(h, q0, toks, s, orig, i + 1, p.(counter := p.counter + 1), q');
    } else {
      BlankLineIsCut(toks, s, i, q);
      BlankLineAgrees(h, toks, s, orig, i, p, q, q');
      var r := OnHeaders(h, p.(counter := 4), p.header);
      if r.0 {
        BlockAgrees(h, q0, toks, s, orig, i + 1, r.1.(phase := Reading), q');
      } else if i + 1 < |s| {
        NamelessStops(h, q0, s, i, q');
      } else {
        assert s[..i + 1] == s;
      }
    }
  }

  // Both machines parse the same header.
  lemma BlankLineAgrees(h: Surroundings, toks: seq<Tok>, s: string, orig: nat, i: nat, p: Part, q: Part, q': Part)
    requires orig <= i < |s| && i <= 1 && InStep(p, q, s, orig, i) && q.phase.HeadersEnd? && q.counter == 3
    requires HeaderTail(q, toks + Bytes(s[..i])) && s[i] == '\n' && EatByte(h, q, s[i]) == Some(q')
    ensures var r := OnHeaders(h, p.(counter := 4), p.header);
            if r.0 then SameButHeader(r.1.(phase := Reading), q') && q'.phase.Reading?
            else r.1.(header := "") == q' && Nameless(q')
  {
    hide BlankTail, ReadLines, ChooseTarget;
    assert p.header == q.header[..|q.header| - (i - orig)];
    ShortTailIsEnough(p.header, q.header, i - orig);
    var full := q.header + [s[i]];
    assert full[..|full| - 2] == q.header[..|q.header| - 1];
    var info := ReadLines(NO_INFO, p.header);
    ChooseSame(h, p.(counter := 4), q.(counter := 4, header := full), info);
    ChooseFacts(h, p.(counter := 4), info);
  }

  lemma ChooseFacts(h: Surroundings, p: Part, i: PartInfo)
    ensures var r := ChooseTarget(h, p, i); r.1.phase == p.phase && r.1.counter == p.counter && r.1.header == p.header
  {
  }

  // The byte machine does not go over a hyphen behind a block without a name.
  lemma NamelessStops(h: Surroundings, q0: Part, s: string, i: nat, q: Part)
    requires i + 1 < |s| && EatAll(h, q0, Bytes(s[..i + 1])) == Some(q) && Nameless(q) && s[i + 1] == '-'
    ensures EatAll(h, q0, Bytes(s)).None?
  {
    hide EatAll;
    assert s[..i + 2] == s[..i + 1] + ['-'] && s == s[..i + 2] + s[i + 2..];
    BytesConcat(s[..i + 1], ['-']);
    BytesConcat(s[..i + 2], s[i + 2..]);
    assert Bytes(['-']) == [Byte('-')];
    EatSnoc(h, q0, Bytes(s[..i + 1]), Byte('-'));
    EatConcat(h, q0, Bytes(s[..i + 2]), Bytes(s[i + 2..]));
  }

  lemma AppendAgrees(h: Surroundings, toks: seq<Tok>, s: string, p: Part, q: Part)
    requires HeaderTail(q, toks) && Fits(toks, s) && Same(p, q) && EatAll(h, q, Bytes(s)).Some?
    ensures Same(Append(h, p, s), EatAll(h, q, Bytes(s)).value)
  {
    hide EatAll, AppendFrom;
    assert Bytes("") == [] && s[..0] == "" && s[0..0] == "" && s[0..] == s;
    EatNothing(h, q);
    if q.phase.Finished? {
      FinishedStays(h, q, s);
    } else {
      BlockAgrees(h, q, toks, s, 0, 0, p, q);
    }
  }

  lemma EatNothing(h: Surroundings, p: Part)
    ensures EatAll(h, p, []) == Some(p)
  {
  }

  // The heart of chunk independence: on a disciplined trace, the code ends in
  // the state that the byte machine reaches on the bare tokens. `before` are the
  // tokens in front of the trace.
  lemma {:induction false} TraceAgrees(h: Surroundings, p0: Part, q0: Part, before: seq<Tok>, trace: seq<Event>)
    requires HeaderTail(q0, before) && Same(p0, q0) && Continues(before, trace)
    requires EatAll(h, q0, Toks(trace)).Some?
    ensures Same(Play(h, p0, trace), EatAll(h, q0, Toks(trace)).value)
  {
    hide Append, Eat, Fits, HeaderTail;
    if trace != [] {
      var n := |trace| - 1;
      var toks := Toks(trace[..n]);
      EatPrefix(h, q0, toks, EventToks(trace[n]));
      TraceAgrees(h, p0, q0, before, trace[..n]);
      var q := EatAll(h, q0, toks).value;
      match trace[n]
      case Content(block) =>
        HeaderTailKept(h, q0, before, toks);
        AppendAgrees(h, before + toks, block, Play(h, p0, trace[..n]), q);
      case Boundary =>
        EatNewPart(h, q);
    }
  }

  lemma EatNewPart(h: Surroundings, q: Part)
    ensures EatAll(h, q, [NewPart]) == Some(StartPart(q))
  {
  }

  // From the first byte of a body on.
  lemma WholeTraceAgrees(h: Surroundings, p0: Part, trace: seq<Event>)
    requires Initial(p0) && Disciplined(trace) && EatAll(h, p0, Toks(trace)).Some?
    ensures Same(Play(h, p0, trace), EatAll(h, p0, Toks(trace)).value)
  {
    hide EatAll, Play, Toks;
    assert [] + trace == trace;
    NoToks();
    DisciplinedBehind([], trace);
    TraceAgrees(h, p0, p0, [], trace);
  }

  lemma BoundaryAgrees(h: Surroundings, p0: Part, toks: seq<Tok>, q: Part)
    requires EatAll(h, p0, toks) == Some(q)
    ensures EatAll(h, p0, toks + [NewPart]) == Some(StartPart(q))
  {
  }

  /* The calls of the upload helper. */

  datatype Call =
    | OnNewFile(name: string, origFileName: string, mimeType: string, answer: Option<string>)
    | OnFileData(data: string)
    | OnFileEnd

  // Those of ParseFMHeaders.
  function HeaderCalls(h: Surroundings, p: Part, i: PartInfo): seq<Call> {
    if i.name == "" then []
    else (if p.fileMode then [OnFileEnd] else [])
         + if i.hasFile then [OnNewFile(i.name, i.fileName, if i.contentType.Some? then i.contentType.value else "", h.answer(p.asked))] else []
  }

  function DataCalls(p: Part, data: string): seq<Call> {
    if p.target.FileTarget? then [OnFileData(data)] else []
  }

  // Those of AppendToCurrentPart, from position i of the block on.
  function CallsFrom(h: Surroundings, p: Part, s: string, orig: nat, i: nat): seq<Call>
    requires orig <= i <= |s|
    decreases |s| - i
  {
    if i == |s| || p.phase.Reading? then
      if p.phase.Reading? then DataCalls(p, s[i..]) else []
    else
      match p.phase
      case HeaderStart =>
        if p.counter == 0 then
          if s[i] == '\r' || s[i] == '-' then CallsFrom(h, p.(counter := 1), s, orig, i + 1) else []
        else if p.counter == 1 then
          if s[i] == '\n' then CallsFrom(h, p.(counter := 0, phase := HeadersEnd), s, i + 1, i + 1)
          else if s[i] == '-' then
            [OnFileEnd] + CallsFrom(h, p.(phase := Finished, uploads := CloseUpload(p.uploads)), s, orig, i + 1)
          else []
        else CallsFrom(h, p, s, orig, i + 1)
      case HeadersEnd =>
        if HeaderEndChar(h, p.counter) == s[i] then
          if p.counter + 1 == 4 then
            var header := if i - orig - 4 > 0 then p.header + s[orig..i + 1] else p.header;
            var r := OnHeaders(h, p.(counter := 4, header := header), header);
            HeaderCalls(h, p.(counter := 4, header := header), ReadLines(NO_INFO, header))
            + if r.0 then CallsFrom(h, r.1.(phase := Reading), s, orig, i + 1) else []
          else CallsFrom(h, p.(counter := p.counter + 1), s, orig, i + 1)
        else CallsFrom(h, p.(counter := 0), s, orig, i + 1)
      case Finished => [OnFileEnd]
  }

  function BlockCalls(h: Surroundings, p: Part, s: string): seq<Call> {
    if s == "" || p.phase.Finished? then [] else CallsFrom(h, p, s, 0, 0)
  }

  function PlayCalls(h: Surroundings, p: Part, trace: seq<Event>): seq<Call> {
    if trace == [] then []
    else
      var n := |trace| - 1;
      PlayCalls(h, p, trace[..n])
      + if trace[n].Content? then BlockCalls(h, Play(h, p, trace[..n]), trace[n].block) else []
  }

  lemma PlayCallsSnoc(h: Surroundings, p: Part, trace: seq<Event>, e: Event)
    ensures PlayCalls(h, p, trace + [e]) ==
            PlayCalls(h, p, trace) + if e.Content? then BlockCalls(h, Play(h, p, trace), e.block) else []
  {
    assert (trace + [e])[..|trace|] == trace;
  }

  /* The upload protocol, on every trace. */

  ghost predicate AllClosed(us: seq<Upload>) {
    forall i :: 0 <= i < |us| ==> !us[i].open
  }

  // What a call means for the uploads; no value where the protocol forbids it. A
  // file is announced only while none is open, and data goes to the open one.
  ghost function Replay(us: seq<Upload>, c: Call): Option<seq<Upload>> {
    match c
    case OnNewFile(name, origFileName, mimeType, answer) =>
      if !AllClosed(us) then None
      else if answer.None? then Some(us)
      else Some(us + [Upload(name, origFileName, mimeType, answer.value, "", true)])
    case OnFileData(data) =>
      if us == [] || !us[|us| - 1].open then None
      else Some(us[|us| - 1 := us[|us| - 1].(data := us[|us| - 1].data + data)])
    case OnFileEnd => Some(CloseUpload(us))
  }

  ghost function ReplayAll(us: seq<Upload>, cs: seq<Call>): Option<seq<Upload>>
    decreases |cs|
  {
    if cs == [] then Some(us)
    else
      match Replay(us, cs[0])
      case None => None
      case Some(vs) => ReplayAll(vs, cs[1..])
  }

  lemma {:induction false} ReplayConcat(us: seq<Upload>, cs: seq<Call>, ds: seq<Call>)
    requires ReplayAll(us, cs).Some?
    ensures ReplayAll(us, cs + ds) == ReplayAll(ReplayAll(us, cs).value, ds)
    decreases |cs|
  {
    hide Replay;
    if cs == [] {
      assert cs + ds == ds;
    } else {
      assert (cs + ds)[1..] == cs[1..] + ds;
      ReplayConcat(Replay(us, cs[0]).value, cs[1..], ds);
    }
  }

  lemma ReplayOne(us: seq<Upload>, c: Call)
    ensures ReplayAll(us, [c]) == Replay(us, c)
  {
    assert [c][1..] == [];
  }

  // Only the file announced last is open, and only while files are received;
  // data that goes to a file goes to that open file.
  ghost predicate UploadsOk(p: Part) {
    && (forall i :: 0 <= i < |p.uploads| - 1 ==> !p.uploads[i].open)
    && (p.uploads != [] && p.uploads[|p.uploads| - 1].open ==> p.fileMode)
    && (p.phase.Reading? && p.target.FileTarget? ==> p.uploads != [] && p.uploads[|p.uploads| - 1].open)
  }

  // The calls are allowed, and lead to the uploads of the state behind them.
  ghost predicate InProtocol(p: Part, cs: seq<Call>, q: Part) {
    UploadsOk(q) && ReplayAll(p.uploads, cs) == Some(q.uploads)
  }

  lemma HeaderCallsReplay(h: Surroundings, p: Part, i: PartInfo)
    requires UploadsOk(p)
    ensures ReplayAll(p.uploads, HeaderCalls(h, p, i)) == Some(ChooseTarget(h, p, i).1.uploads)
  {
    hide ReplayAll;
    var us := if p.fileMode then CloseUpload(p.uploads) else p.uploads;
    assert AllClosed(us);
    ReplayOne(p.uploads, OnFileEnd);
    ReplayNone(p.uploads);
    if i.hasFile {
      var c := OnNewFile(i.name, i.fileName, if i.contentType.Some? then i.contentType.value else "", h.answer(p.asked));
      ReplayOne(us, c);
      ReplayConcat(p.uploads, if p.fileMode then [OnFileEnd] else [], [c]);
    } else if p.fileMode {
      assert [OnFileEnd] + [] == [OnFileEnd];
    } else {
      assert HeaderCalls(h, p, i) == [];
    }
  }

  lemma ReplayNone(us: seq<Upload>)
    ensures ReplayAll(us, []) == Some(us)
  {
  }

  lemma HeadersInProtocol(h: Surroundings, p: Part, i: PartInfo, header: string)
    requires UploadsOk(p) && p.phase.HeadersEnd?
    ensures var r := ChooseTarget(h, p.(counter := 4, header := header), i);
            && InProtocol(p, HeaderCalls(h, p.(counter := 4, header := header), i), r.1)
            && UploadsOk(r.1.(header := "")) && (r.0 ==> UploadsOk(r.1.(phase := Reading)))
  {
    hide ReplayAll, HeaderCalls;
    HeaderCallsReplay(h, p.(counter := 4, header := header), i);
  }

  lemma DataInProtocol(p: Part, s: string)
    requires UploadsOk(p) && p.phase.Reading?
    ensures InProtocol(p, DataCalls(p, s), Deliver(p, s))
  {
    ReplayOne(p.uploads, OnFileData(s));
  }

  lemma CountingKeepsUploads(p: Part, n: nat, header: string)
    requires UploadsOk(p)
    ensures UploadsOk(p.(counter := n)) && UploadsOk(p.(header := header)) && UploadsOk(p.(counter := n, header := header))
    ensures UploadsOk(p.(counter := 0, phase := HeadersEnd))
  {
  }

  lemma EndInProtocol(p: Part)
    requires UploadsOk(p)
    ensures InProtocol(p, [OnFileEnd], p.(phase := Finished, uploads := CloseUpload(p.uploads)))
    ensures p.phase.Finished? ==> InProtocol(p, [OnFileEnd], p.(uploads := CloseUpload(p.uploads)))
  {
    ReplayOne(p.uploads, OnFileEnd);
  }

  lemma BlockInProtocol(h: Surroundings, p: Part, s: string, orig: nat, i: nat)
    requires UploadsOk(p) && orig <= i <= |s|
    ensures InProtocol(p, CallsFrom(h, p, s, orig, i), AppendFrom(h, p, s, orig, i))
    decreases |s| - i
  {
    hide OnHeaders, Deliver, DataCalls, UploadsOk, CloseUpload, Replay;
    CountingKeepsUploads(p, 1, p.header + s[orig..i]);
    if p.phase.Reading? {
      DataInProtocol(p, s[i..]);
    } else if i < |s| && p.phase.HeaderStart? {
      if p.counter == 0 {
        BlockInProtocol(h, p.(counter := 1), s, orig, i + 1);
      } else if p.counter > 1 {
        BlockInProtocol(h, p, s, orig, i + 1);
      } else if s[i] == '\n' {
        BlockInProtocol(h, p.(counter := 0, phase := HeadersEnd), s, i + 1, i + 1);
      } else if s[i] == '-' {
        var q := p.(phase := Finished, uploads := CloseUpload(p.uploads));
        EndInProtocol(p);
        BlockInProtocol(h, q, s, orig, i + 1);
        ReplayConcat(p.uploads, [OnFileEnd], CallsFrom(h, q, s, orig, i + 1));
      }
    } else if i < |s| && p.phase.HeadersEnd? {
      HeaderInProtocol(h, p, s, orig, i);
    } else if i < |s| {
      EndInProtocol(p);
    }
  }

  lemma HeaderInProtocol(h: Surroundings, p: Part, s: string, orig: nat, i: nat)
    requires UploadsOk(p) && orig <= i < |s| && p.phase.HeadersEnd?
    ensures InProtocol(p, CallsFrom(h, p, s, orig, i), AppendFrom(h, p, s, orig, i))
    decreases |s| - i, 0
  {
    hide ChooseTarget, HeaderCalls, ReadLines, UploadsOk, Replay, Deliver, DataCalls;
    if HeaderEndChar(h, p.counter) == s[i] && p.counter + 1 == 4 {
      var header := if i - orig - 4 > 0 then p.header + s[orig..i + 1] else p.header;
      var info := ReadLines(NO_INFO, header);
      HeadersInProtocol(h, p, info, header);
      var r := ChooseTarget(h, p.(counter := 4, header := header), info);
      var calls := HeaderCalls(h, p.(counter := 4, header := header), info);
      if r.0 {
        var q := r.1.(phase := Reading);
        BlockInProtocol(h, q, s, orig, i + 1);
        ReplayConcat(p.uploads, calls, CallsFrom(h, q, s, orig, i + 1));
      } else {
        assert calls + [] == calls;
      }
    } else {
      var n := if HeaderEndChar(h, p.counter) == s[i] then p.counter + 1 else 0;
      CountingKeepsUploads(p, n, "");
      BlockInProtocol(h, p.(counter := n), s, orig, i + 1);
    }
  }

  lemma EventInProtocol(h: Surroundings, p: Part, e: Event)
    requires UploadsOk(p)
    ensures InProtocol(p, if e.Content? then BlockCalls(h, p, e.block) else [], PlayEvent(h, p, e))
  {
    hide AppendFrom, CallsFrom;
    if e.Content? {
      BlockInProtocol(h, p, e.block, 0, 0);
    }
  }

  // For every trace, well-formed or not, and every answer of the helper: the
  // calls of the helper keep to the protocol, and the uploads are what they say.
  lemma {:induction false} UploadProtocol(h: Surroundings, p0: Part, trace: seq<Event>)
    requires UploadsOk(p0)
    ensures InProtocol(p0, PlayCalls(h, p0, trace), Play(h, p0, trace))
  {
    hide PlayEvent, BlockCalls, ReplayAll, UploadsOk;
    if trace == [] {
      NothingInProtocol(p0);
    } else {
      var n := |trace| - 1;
      UploadProtocol(h, p0, trace[..n]);
      var p, calls := Play(h, p0, trace[..n]), PlayCalls(h, p0, trace[..n]);
      EventInProtocol(h, p, trace[n]);
      ReplayConcat(p0.uploads, calls, if trace[n].Content? then BlockCalls(h, p, trace[n].block) else []);
    }
  }

  lemma NothingInProtocol(p: Part)
    requires UploadsOk(p)
    ensures InProtocol(p, [], p)
  {
  }

  // What the protocol is for: a file that was ended never changes, a file that is
  // open only grows at its end, and new files come behind.
  ghost predicate Grown(us: seq<Upload>, vs: seq<Upload>) {
    && |us| <= |vs|
    && (forall i :: 0 <= i < |us| ==> us[i].data <= vs[i].data && vs[i] == us[i].(data := vs[i].data, open := vs[i].open))
    && (forall i :: 0 <= i < |us| && !us[i].open ==> vs[i] == us[i])
  }

  lemma ReplayGrows(us: seq<Upload>, c: Call)
    requires Replay(us, c).Some?
    ensures Grown(us, Replay(us, c).value)
  {
  }

  lemma {:induction false} ProtocolGrows(us: seq<Upload>, cs: seq<Call>)
    requires ReplayAll(us, cs).Some?
    ensures Grown(us, ReplayAll(us, cs).value)
    decreases |cs|
  {
    hide Replay;
    if cs != [] {
      ReplayGrows(us, cs[0]);
      ProtocolGrows(Replay(us, cs[0]).value, cs[1..]);
    }
  }

  lemma {:induction false} PlayConcat(h: Surroundings, p: Part, t: seq<Event>, u: seq<Event>)
    ensures Play(h, p, t + u) == Play(h, Play(h, p, t), u)
  {
    hide PlayEvent;
    if u == [] {
      assert t + u == t;
    } else {
      var n := |u| - 1;
      assert (t + u)[..|t + u| - 1] == t + u[..n];
      PlayConcat(h, p, t, u[..n]);
    }
  }

  // Whatever comes behind a trace, its ended files stay as they are.
  lemma UploadsGrow(h: Surroundings, p0: Part, t: seq<Event>, u: seq<Event>)
    requires UploadsOk(p0)
    ensures Grown(Play(h, p0, t).uploads, Play(h, p0, t + u).uploads)
  {
    hide Play, PlayCalls, UploadsOk, ReplayAll, Grown;
    UploadProtocol(h, p0, t);
    var p := Play(h, p0, t);
    UploadProtocol(h, p, u);
    PlayConcat(h, p0, t, u);
    ProtocolGrows(p.uploads, PlayCalls(h, p, u));
  }
}
