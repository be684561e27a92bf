/**
 What the multipart parser is for: whatever the pieces in which a body arrives,
 the parameters are those of the form that was sent.
 */
module MultipartForm {
  import opened Common
  import opened HeaderFields
  import opened PrintedHeaders
  import opened BoundaryMatcher
  import opened PartMachine
  import opened QueryParams

  /* Chunk independence. */

  // What the byte machine makes of a body.
  function Eaten(h: Surroundings, unsetCounter: nat, boundary: string, body: string): Option<Part>
    requires '\r' !in boundary
  {
    DelimiterOf(boundary);
    EatAll(h, NewState(unsetCounter), ScanAll("\r\n--" + boundary, body).toks)
  }

  // The events are those of a parser that was fed the body in some pieces.
  ghost predicate TraceOf(d: string, events: seq<Event>, body: string) {
    Delimiter(d) && Disciplined(events) && Toks(events) == ScanAll(d, body).toks
  }

  // Feeds a body in the given pieces to a new parser.
  method FeedAll(boundary: string, h: Surroundings, unsetCounter: nat, chunks: seq<string>) returns (part: Part, calls: seq<Call>)
    requires '\r' !in boundary
    ensures part == Play(h, NewState(unsetCounter), RunPieces("\r\n--" + boundary, chunks).events)
    ensures ReplayAll([], calls) == Some(part.uploads)
    ensures TraceOf("\r\n--" + boundary, RunPieces("\r\n--" + boundary, chunks).events, Flat(chunks))
    ensures var end := Eaten(h, unsetCounter, boundary, Flat(chunks));
            end.Some? ==> Same(part, end.value)
  {
    hide EatAll, ScanAll, Play, Disciplined, RunPiece, ReplayAll;
    var q := new QueryParams(boundary, h, unsetCounter);
    for i := 0 to |chunks|
      invariant q.Valid() && fresh(q) && q.fed == Flat(chunks[..i])
      invariant Piece(q.trace, q.boundaryParseCounter, q.parseTmp) == RunPieces(q.delimiter, chunks[..i])
    {
      assert chunks[..i + 1][..i] == chunks[..i];
      q.AppendFormMultipart(chunks[i]);
    }
    assert chunks[..|chunks|] == chunks;
    part, calls := q.part, q.calls;
    HelperCallsInProtocol(q);
    if EatAll(h, q.start, Toks(q.trace)).Some? {
      WholeTraceAgrees(h, q.start, q.trace);
    }
  }

  // Two parsers that get the same body in different pieces end with the same
  // parameters, files and uploads, unless the part machine gives up on a block.
  method CutsDoNotMatter(boundary: string, h: Surroundings, unsetCounter: nat, one: seq<string>, two: seq<string>)
    returns (p: Part, q: Part)
    requires '\r' !in boundary && Flat(one) == Flat(two)
    ensures Eaten(h, unsetCounter, boundary, Flat(one)).Some? ==> SameButHeader(p, q)
  {
    hide Eaten, Play, RunPieces, ReplayAll;
    var calls;
    p, calls := FeedAll(boundary, h, unsetCounter, one);
    q, calls := FeedAll(boundary, h, unsetCounter, two);
  }

  // The part machine alone does depend on the cuts: a block that holds exactly
  // the blank line never reaches the header text, and the last header is lost.
  lemma PartAloneDependsOnCuts(h: Surroundings, p: Part)
    requires p.phase.HeadersEnd? && p.counter == 0 && '\n' !in p.header
    requires ReadLines(NO_INFO, p.header + "\r\n").name != ""
    ensures Append(h, p, "\r\n\r\n").phase.HeadersEnd?
    ensures Append(h, Append(h, p, "\r\n"), "\r\n").phase.Reading?
  {
    hide ReadLines;
    ReadLinesEnd(NO_INFO, p.header);
    var s := "\r\n\r\n";
    assert AppendFrom(h, p, s, 0, 0) == AppendFrom(h, p.(counter := 1), s, 0, 1)
        == AppendFrom(h, p.(counter := 2), s, 0, 2) == AppendFrom(h, p.(counter := 3), s, 0, 3);
    var t := "\r\n";
    var p2 := p.(counter := 2, header := p.header + t);
    assert AppendFrom(h, p, t, 0, 0) == AppendFrom(h, p.(counter := 1), t, 0, 1)
        == AppendFrom(h, p.(counter := 2), t, 0, 2) == p2 by { assert t[0..2] == t; }
    assert AppendFrom(h, p2, t, 0, 0) == AppendFrom(h, p2.(counter := 3), t, 0, 1);
  }

  /* Round trip. */

  // A part of a form: a parameter, or a file, with all its header lines.
  datatype Field =
    | Field(name: string, value: string, lines: seq<HeaderLine>)
    | FileField(name: string, fileName: string, mimeType: string, value: string, lines: seq<HeaderLine>)

  predicate Absent(d: string, x: string)
    requires d != ""
  {
    FirstAt(d, x) == |x|
  }

  // What section 5.1.1 of RFC 2046 asks of a sender: the delimiter does not
  // occur in a part.
  predicate Sendable(d: string, f: Field)
    requires d != ""
  {
    Printable(f) && Absent(d, Section(f))
  }

  // The header lines, in any order and among any others, give the name and, for
  // a file, its name and type.
  predicate Printable(f: Field) {
    && (forall l :: l in f.lines ==> LineOk(l))
    && var i := InfoOf(f);
    && i.name == f.name != "" && i.hasFile == f.FileField?
    && (f.FileField? ==> i.fileName == f.fileName && f.mimeType == OrElse(i.contentType, ""))
  }

  function HeaderText(f: Field): string {
    LinesText(f.lines)
  }

  function InfoOf(f: Field): PartInfo {
    AllTold(NO_INFO, f.lines)
  }

  // The parts that a browser sends.
  function FormField(name: string, value: string): Field {
    Field(name, value, [FieldLine(name)])
  }

  function FormFile(name: string, fileName: string, mimeType: string, value: string): Field {
    FileField(name, fileName, mimeType, value, [FileLine(name, fileName), TypeLine("Content-Type", mimeType)])
  }

  lemma {:induction false} BrowserFields(name: string, fileName: string, mimeType: string, value: string)
    requires FieldName(name) && FileName(fileName) && FileName(mimeType) && (mimeType != "" ==> mimeType[0] != ' ')
    ensures Printable(FormField(name, value)) && Printable(FormFile(name, fileName, mimeType, value))
  {
    hide LineOk, AllTold, Told;
    FieldLineOk(name);
    FileLineOk(name, fileName);
    TypeLineOk(mimeType);
    FieldLineTells(NO_INFO, name);
    FileLineTells(NO_INFO, name, fileName);
    var l, m := FileLine(name, fileName), TypeLine("Content-Type", mimeType);
    AllToldOf(NO_INFO, FieldLine(name), m);
    AllToldOf(NO_INFO, l, m);
    TypeTells(Told(NO_INFO, l), mimeType);
  }

  lemma TypeTells(i: PartInfo, mimeType: string)
    ensures Told(i, TypeLine("Content-Type", mimeType)) == i.(contentType := Some(mimeType))
  {
  }

  lemma AllToldOf(i: PartInfo, l: HeaderLine, m: HeaderLine)
    ensures AllTold(i, [l]) == Told(i, l) && AllTold(i, [l, m]) == Told(Told(i, l), m)
  {
    hide AllTold, Told;
    assert [l][1..] == [] && [m][1..] == [] && [l, m][1..] == [m];
    ToldFront(i, [l]);
    ToldFront(i, [l, m]);
    ToldFront(Told(i, l), [m]);
    NothingTold(Told(i, l));
    NothingTold(Told(Told(i, l), m));
  }

  lemma ToldFront(i: PartInfo, ls: seq<HeaderLine>)
    requires ls != []
    ensures AllTold(i, ls) == AllTold(Told(i, ls[0]), ls[1..])
  {
  }

  lemma NothingTold(i: PartInfo)
    ensures AllTold(i, []) == i
  {
  }

  function Section(f: Field): string {
    "\r\n" + HeaderText(f) + ("\r\n" + f.value)
  }

  function Sections(d: string, fields: seq<Field>): string {
    if fields == [] then "" else Section(fields[0]) + d + Sections(d, fields[1..])
  }

  // The body of a form: the first delimiter without its line break, the parts
  // with a delimiter behind each, and the closing hyphens.
  function FormBody(d: string, fields: seq<Field>): string
    requires |d| >= 2
  {
    d[2..] + (Sections(d, fields) + "--\r\n")
  }

  // The parameters of a form: the last value of each name.
  function LastWins(fields: seq<Field>): map<string, string> {
    if fields == [] then map[]
    else
      var f := fields[|fields| - 1];
      var before := LastWins(fields[..|fields| - 1]);
      if f.Field? then before[f.name := f.value] else before
  }

  // The files that the helper takes, from its k-th answer on: each is written in
  // full and ended.
  function UploadsOf(h: Surroundings, k: nat, fields: seq<Field>): seq<Upload>
    decreases fields
  {
    if fields == [] then []
    else
      match fields[0]
      case Field(_, _, _) => UploadsOf(h, k, fields[1..])
      case FileField(name, fileName, mimeType, value, _) =>
        (if h.answer(k).Some? then [Upload(name, fileName, mimeType, h.answer(k).value, value, false)] else []) + UploadsOf(h, k + 1, fields[1..])
  }

  // The last file of each name.
  function FilesOf(h: Surroundings, k: nat, fields: seq<Field>): map<string, File>
    decreases fields
  {
    if fields == [] then map[]
    else
      match fields[0]
      case Field(_, _, _) => FilesOf(h, k, fields[1..])
      case FileField(name, fileName, mimeType, _, _) =>
        (if h.answer(k).Some? then map[name := File(mimeType, fileName, h.answer(k).value)] else map[]) + FilesOf(h, k + 1, fields[1..])
  }

  /* The delimiters of a printed form are found where they were put. */

  // d occurs in x at i.
  predicate At(d: string, x: string, i: nat) {
    i + |d| <= |x| && x[i..i + |d|] == d
  }

  lemma AtTail(d: string, x: string, i: nat)
    requires 0 < |x|
    ensures At(d, x[1..], i) <==> At(d, x, i + 1)
  {
  }

  // FirstAt is the first index at which d occurs, or |x| if there is none.
  lemma {:induction false} FirstAtIs(d: string, x: string, k: nat)
    requires d != "" && (At(d, x, k) || k == |x|) && forall i :: 0 <= i < k ==> !At(d, x, i)
    ensures FirstAt(d, x) == k
    decreases |x|
  {
    if |x| >= |d| {
      assert x[0..0 + |d|] == x[..|d|];
      assert At(d, x, 0) <==> x[..|d|] == d;
      if k > 0 {
        AtTail(d, x, k - 1);
        forall i | 0 <= i < k - 1
          ensures !At(d, x[1..], i)
        {
          AtTail(d, x, i);
        }
        FirstAtIs(d, x[1..], k - 1);
      }
    }
  }

  lemma {:induction false} AbsentMeans(d: string, x: string, i: nat)
    requires d != "" && Absent(d, x)
    ensures !At(d, x, i)
    decreases |x|
  {
    if |x| >= |d| {
      assert x[0..0 + |d|] == x[..|d|];
      if i > 0 {
        AbsentMeans(d, x[1..], i - 1);
        AtTail(d, x, i - 1);
      }
    }
  }

  // Behind a text without d, the first occurrence is the d that was put there:
  // none can start earlier and reach into it, since d has no inner CR.
  lemma FirstBehind(d: string, x: string, rest: string)
    requires Delimiter(d) && Absent(d, x)
    ensures FirstAt(d, x + d + rest) == |x|
  {
    hide FirstAt, Absent;
    var y := x + d + rest;
    assert y[|x|..|x| + |d|] == d;
    assert d[..4][0] == '\r';
    forall i | 0 <= i < |x|
      ensures !At(d, y, i)
    {
      AbsentMeans(d, x, i);
      if i + |d| <= |x| {
        assert y[i..i + |d|] == x[i..i + |d|];
      } else if i + |d| <= |y| {
        assert y[i..i + |d|][|x| - i] == y[|x|] == d[0];
      }
    }
    FirstAtIs(d, y, |x|);
  }

  lemma SplitBehind(d: string, x: string, rest: string)
    requires Delimiter(d) && Absent(d, x)
    ensures Split(d, x + d + rest) == (Bytes(x) + [NewPart] + Split(d, rest).0, Split(d, rest).1)
  {
    hide Split, FirstAt, Absent;
    var y := x + d + rest;
    FirstBehind(d, x, rest);
    SplitAt(d, y, |x|);
    assert y[..|x|] == x && y[|x| + |d|..] == rest;
  }

  predicate TwoHyphens(s: string) {
    |s| >= 2 && s[0] == '-' && s[1] == '-'
  }

  // A line that does not start with two hyphens, in front of a text without the
  // delimiter.
  lemma LineAbsent(d: string, line: string, t: string)
    requires Delimiter(d) && Absent(d, t) && '\r' !in line && !TwoHyphens(line + t)
    ensures Absent(d, "\r\n" + line + t)
  {
    hide FirstAt, Absent;
    var head := "\r\n" + line;
    var x := head + t;
    forall i | 0 <= i < |x|
      ensures !At(d, x, i)
    {
      if i < |head| {
        LineNotAt(d, line, t, i);
      } else {
        AbsentMeans(d, t, i - |head|);
        AtBehind(d, head, t, i - |head|);
      }
    }
    FirstAtIs(d, x, |x|);
    assert Absent(d, x) by { AbsentIf(d, x); }
  }

  lemma LineNotAt(d: string, line: string, t: string, i: nat)
    requires Delimiter(d) && '\r' !in line && !TwoHyphens(line + t) && i < |line| + 2
    ensures !At(d, "\r\n" + line + t, i)
  {
    var x := "\r\n" + line + t;
    AtChars(d, x, i);
    if i == 0 {
      assert x == "\r\n" + (line + t);
      assert 3 < |x| ==> x[2] == (line + t)[0] && x[3] == (line + t)[1];
    } else if i >= 2 {
      assert x[i] == line[i - 2];
    }
  }

  lemma AtChars(d: string, x: string, i: nat)
    requires Delimiter(d)
    ensures At(d, x, i) ==> i + 3 < |x| && x[i] == '\r' && x[i + 2] == '-' && x[i + 3] == '-'
  {
    assert d[0] == d[..4][0] == '\r' && d[2] == d[..4][2] == '-' && d[3] == d[..4][3] == '-';
  }

  // A part is free of the delimiter if its data is, counting the line break in
  // front of it, and if no header line starts with two hyphens.
  lemma SectionAbsent(d: string, f: Field)
    requires Delimiter(d) && (forall l :: l in f.lines ==> LineOk(l) && (l.Other? ==> !TwoHyphens(l.text)))
    requires Absent(d, "\r\n" + f.value)
    ensures Absent(d, Section(f))
  {
    hide LineOk, Absent;
    LinesAbsent(d, f.lines, "\r\n" + f.value);
  }

  lemma {:induction false} LinesAbsent(d: string, ls: seq<HeaderLine>, t: string)
    requires Delimiter(d) && (forall l :: l in ls ==> LineOk(l) && (l.Other? ==> !TwoHyphens(l.text)))
    requires Absent(d, t) && t != "" && t[0] == '\r'
    ensures Absent(d, "\r\n" + LinesText(ls) + t)
  {
    hide FirstAt, Absent, LineText, LineOk;
    if ls == [] {
      LineAbsent(d, "", t);
    } else {
      assert ls[0] in ls;
      var line, behind := LineText(ls[0]), "\r\n" + LinesText(ls[1..]) + t;
      LinesAbsent(d, ls[1..], t);
      LineIsPlain(ls[0]);
      assert (line + behind)[0] == line[0] && (line + behind)[1] == if |line| > 1 then line[1] else '\r';
      LineAbsent(d, line, behind);
      assert "\r\n" + LinesText(ls) + t == "\r\n" + line + behind;
    }
  }

  lemma LineIsPlain(l: HeaderLine)
    requires LineOk(l)
    ensures var line := LineText(l); line != "" && '\r' !in line && (if l.Other? then line == l.text else line[0] != '-')
  {
    hide LineText, LineOk;
    LineIsLine(l);
    if l.Other? {
      assert LineText(l) == l.text by { OtherIsText(l); }
    } else {
      TitleFirst(l);
    }
  }

  lemma OtherIsText(l: HeaderLine)
    requires l.Other?
    ensures LineText(l) == l.text
  {
  }

  lemma AbsentIf(d: string, x: string)
    requires d != "" && FirstAt(d, x) == |x|
    ensures Absent(d, x)
  {
  }

  lemma AtBehind(d: string, x: string, t: string, i: nat)
    ensures At(d, x + t, |x| + i) <==> At(d, t, i)
  {
  }

  function FieldToks(fields: seq<Field>): seq<Tok> {
    if fields == [] then [] else Bytes(Section(fields[0])) + [NewPart] + FieldToks(fields[1..])
  }

  lemma {:induction false} SplitSections(d: string, fields: seq<Field>)
    requires Delimiter(d) && forall f :: f in fields ==> Sendable(d, f)
    ensures Split(d, Sections(d, fields) + "--\r\n") == (FieldToks(fields), "--\r\n")
  {
    hide Split, FirstAt, Absent, Section;
    if fields == [] {
      assert "" + "--\r\n" == "--\r\n";
      ClosingHasNoDelimiter(d);
    } else {
      assert fields[0] in fields;
      var rest := Sections(d, fields[1..]) + "--\r\n";
      assert Sections(d, fields) + "--\r\n" == Section(fields[0]) + d + rest;
      SplitBehind(d, Section(fields[0]), rest);
      SplitSections(d, fields[1..]);
    }
  }

  lemma ClosingHasNoDelimiter(d: string)
    requires Delimiter(d)
    ensures Split(d, "--\r\n") == ([], "--\r\n")
  {
    var x := "--\r\n";
    assert d[0] == d[..4][0] == '\r' && x[0] == '-';
    FirstAtIs(d, x, |x|);
    SplitNone(d, x);
  }

  // The scan of a closed body: its last line break is held back as a possible
  // delimiter.
  lemma ClosedTokens(d: string, rest: string, toks: seq<Tok>)
    requires Delimiter(d) && Split(d, rest) == (toks, "--\r\n")
    ensures ScanAll(d, d[2..] + rest).toks == [NewPart] + toks + Bytes("--")
  {
    hide Split, ScanAll, FirstAt, Pending;
    var body := d[2..] + rest;
    var m := ScanAll(d, body);
    assert d[..2] == d[..4][..2] == "\r\n";
    assert "\r\n" + body == "" + d + rest;
    EmptyIsAbsent(d);
    SplitBehind(d, "", rest);
    assert Bytes("") + [NewPart] + toks == [NewPart] + toks;
    ScanIsSplit(d, body);
    LeadKept(d, body);
    ClosingPending(d, m.count);
    assert d[2..] <= body;
    assert [] + m.toks + Bytes("\r\n") == m.toks + Bytes("\r\n");
    var t := [NewPart] + toks;
    BytesConcat("--", "\r\n");
    assert t + Bytes("--\r\n") == t + Bytes("--") + Bytes("\r\n");
    CancelRight(m.toks, t + Bytes("--"), Bytes("\r\n"));
  }

  lemma FormTokens(d: string, fields: seq<Field>)
    requires Delimiter(d) && forall f :: f in fields ==> Sendable(d, f)
    ensures ScanAll(d, FormBody(d, fields)).toks == [NewPart] + FieldToks(fields) + Bytes("--")
  {
    hide Split, ScanAll, Sections, FieldToks, Absent;
    SplitSections(d, fields);
    ClosedTokens(d, Sections(d, fields) + "--\r\n", FieldToks(fields));
  }

  lemma EmptyIsAbsent(d: string)
    requires d != ""
    ensures Absent(d, "")
  {
  }

  lemma ClosingPending(d: string, k: nat)
    requires Delimiter(d) && Pending(d, "--\r\n", k)
    ensures k == 2
  {
    var x := "--\r\n";
    assert d[..2] == d[..4][..2] == "\r\n" && x[2..] == "\r\n";
    assert EndsWith(x, d[..2]);
    assert d[0] == d[..4][0] == '\r';
  }

  /* The part machine on the tokens of a printed form. */

  lemma {:induction false} PlainHeaderRun(h: Surroundings, p: Part, s: string)
    requires p.phase.HeadersEnd? && '\r' !in s && s != ""
    requires p.counter == 0 || p.counter == 2 || (p.counter == 4 && s[0] != '-' && s[0] != '\0')
    ensures EatAll(h, p, Bytes(s)) == Some(p.(counter := 0, header := p.header + s))
  {
    hide OnHeaders;
    var n := |s| - 1;
    assert s == s[..n] + [s[n]];
    BytesConcat(s[..n], [s[n]]);
    assert Bytes([s[n]]) == [Byte(s[n])];
    EatSnoc(h, p, Bytes(s[..n]), Byte(s[n]));
    assert s[n] != '\r' && p.header + s[..n] + [s[n]] == p.header + s;
    if n == 0 {
      assert s[..n] == "" && Bytes("") == [] && p.header + "" == p.header;
      EatNothing(h, p);
    } else {
      PlainHeaderRun(h, p, s[..n]);
    }
  }

  lemma EatTwo(h: Surroundings, p: Part, a: char, b: char, q: Part)
    requires EatByte(h, p, a) == Some(q)
    ensures EatAll(h, p, Bytes([a, b])) == EatByte(h, q, b)
  {
    var t := Bytes([a, b]);
    assert t == [Byte(a)] + [Byte(b)];
    EatSnoc(h, p, [], Byte(a));
    assert [] + [Byte(a)] == [Byte(a)];
    EatSnoc(h, p, [Byte(a)], Byte(b));
  }

  // Behind a delimiter, ready for the next part. A file that is still open is
  // ended by the headers of that part.
  ghost predicate AtPart(p: Part) {
    p.phase.HeaderStart? && p.counter == 0 && p.header == "" && (p.fileMode || CloseUpload(p.uploads) == p.uploads)
  }

  // What a part leaves behind.
  function Stored(h: Surroundings, p: Part, f: Field): Part {
    Deliver(ChooseTarget(h, p, InfoOf(f)).1, f.value)
  }

  lemma LineEats(h: Surroundings, p: Part, line: string)
    requires p.phase.HeadersEnd? && '\r' !in line && line != ""
    requires p.counter == 0 || p.counter == 2 || (p.counter == 4 && line[0] != '-' && line[0] != '\0')
    ensures EatAll(h, p, Bytes(line + "\r\n")) == Some(p.(counter := 2, header := p.header + (line + "\r\n")))
  {
    hide EatAll, OnHeaders;
    PlainHeaderRun(h, p, line);
    var p1 := p.(counter := 0, header := p.header + line);
    EatTwo(h, p1, '\r', '\n', p1.(counter := 1, header := p1.header + "\r"));
    assert p1.header + "\r" + "\n" == p.header + (line + "\r\n");
    BytesConcat(line, "\r\n");
    EatConcat(h, p, Bytes(line), Bytes("\r\n"));
  }

  lemma {:induction false} LinesEat(h: Surroundings, p: Part, ls: seq<HeaderLine>)
    requires p.phase.HeadersEnd? && (p.counter == 0 || p.counter == 2) && forall l :: l in ls ==> LineOk(l)
    ensures EatAll(h, p, Bytes(LinesText(ls))) ==
            Some(p.(counter := if ls == [] then p.counter else 2, header := p.header + LinesText(ls)))
    decreases ls
  {
    hide EatAll, LineOk, LineText;
    if ls == [] {
      EatNothing(h, p);
      assert p.header + "" == p.header;
    } else {
      assert ls[0] in ls;
      var line, rest := LineText(ls[0]), LinesText(ls[1..]);
      LineIsPlain(ls[0]);
      LineEats(h, p, line);
      var q := p.(counter := 2, header := p.header + (line + "\r\n"));
      LinesEat(h, q, ls[1..]);
      BytesConcat(line + "\r\n", rest);
      EatConcat(h, p, Bytes(line + "\r\n"), Bytes(rest));
      assert p.header + (line + "\r\n") + rest == p.header + LinesText(ls);
    }
  }

  lemma HeaderEats(h: Surroundings, p: Part, f: Field)
    requires p.phase.HeadersEnd? && p.counter == 0 && p.header == "" && Printable(f)
    ensures EatAll(h, p, Bytes(HeaderText(f))) == Some(p.(counter := 2, header := HeaderText(f)))
  {
    hide EatAll, Bytes, LineOk, LinesText;
    LinesEat(h, p, f.lines);
    assert "" + HeaderText(f) == HeaderText(f);
  }

  lemma HeaderParses(f: Field)
    requires Printable(f)
    ensures ReadLines(NO_INFO, HeaderText(f)) == InfoOf(f)
  {
    hide ReadLines, LineOk, AllTold, LinesText;
    LinesParse(NO_INFO, f.lines);
  }

  lemma BlankLineEats(h: Surroundings, p: Part, f: Field)
    requires p.phase.HeadersEnd? && p.counter == 2 && p.header == HeaderText(f) && Printable(f)
    ensures var text := HeaderText(f) + "\r\n";
            EatAll(h, p, Bytes("\r\n")) ==
            Some(ChooseTarget(h, p, InfoOf(f)).1.(phase := Reading, counter := 4, header := text))
  {
    hide EatAll, ReadLines, HeaderText, ChooseTarget, Printable, InfoOf;
    var text := HeaderText(f);
    EatTwo(h, p, '\r', '\n', p.(counter := 3, header := text + "\r"));
    var full := text + "\r" + "\n";
    assert full == text + "\r\n" && full[..|full| - 2] == text;
    HeaderParses(f);
    NameIsGiven(h, p.(counter := 4, header := full), f);
    ChooseLater(h, p, p.(counter := 4, header := full), InfoOf(f));
  }

  lemma NameIsGiven(h: Surroundings, p: Part, f: Field)
    requires Printable(f)
    ensures ChooseTarget(h, p, InfoOf(f)).0
  {
  }

  lemma DataEats(h: Surroundings, p: Part, q: Part, f: Field)
    requires AtPart(p) && q == ChooseTarget(h, p, InfoOf(f)).1.(phase := Reading, counter := 4, header := q.header)
    ensures EatAll(h, q, Bytes(f.value)) == Some(Deliver(q, f.value))
    ensures StartPart(Deliver(q, f.value)) == Stored(h, p, f)
  {
    hide EatAll, ChooseTarget, InfoOf, Deliver;
    DeliverBytes(h, q, f.value);
    ChosenAtPart(h, p, InfoOf(f));
    DeliverLater(ChooseTarget(h, p, InfoOf(f)).1, q, f.value);
  }

  lemma ChosenAtPart(h: Surroundings, p: Part, i: PartInfo)
    requires AtPart(p)
    ensures var q := ChooseTarget(h, p, i).1; q.phase.HeaderStart? && q.counter == 0 && q.header == ""
  {
  }

  lemma DeliverLater(p: Part, q: Part, s: string)
    requires q == p.(phase := q.phase, counter := q.counter, header := q.header)
    ensures Deliver(q, s) == Deliver(p, s).(phase := q.phase, counter := q.counter, header := q.header)
    ensures Deliver(p, s).phase == p.phase && Deliver(p, s).counter == p.counter && Deliver(p, s).header == p.header
  {
  }

  // One part: what it holds is stored, and nothing else changes.
  lemma SectionEats(h: Surroundings, p: Part, f: Field)
    requires AtPart(p) && Printable(f)
    ensures EatAll(h, p, Bytes(Section(f)) + [NewPart]) == Some(Stored(h, p, f))
  {
    hide EatAll, HeaderText, Stored, ChooseTarget, Deliver;
    var p0 := p.(phase := HeadersEnd);
    EatTwo(h, p, '\r', '\n', p.(counter := 1));
    HeaderEats(h, p0, f);
    var text := HeaderText(f);
    var p1 := p0.(counter := 2, header := text);
    BlankLineEats(h, p1, f);
    var p2 := ChooseTarget(h, p1, InfoOf(f)).1.(phase := Reading, counter := 4, header := text + "\r\n");
    ChooseLater(h, p, p1, InfoOf(f));
    DataEats(h, p, p2, f);
    var p3 := Deliver(p2, f.value);
    BytesConcat("\r\n" + text, "\r\n" + f.value);
    BytesConcat("\r\n", text);
    BytesConcat("\r\n", f.value);
    EatConcat(h, p, Bytes("\r\n"), Bytes(text));
    EatConcat(h, p1, Bytes("\r\n"), Bytes(f.value));
    EatConcat(h, p, Bytes("\r\n" + text), Bytes("\r\n" + f.value));
    BoundaryAgrees(h, p, Bytes(Section(f)), p3);
  }

  lemma ChooseLater(h: Surroundings, p: Part, p1: Part, i: PartInfo)
    requires p1 == p.(phase := p1.phase, counter := p1.counter, header := p1.header)
    ensures var q, q1 := ChooseTarget(h, p, i).1, ChooseTarget(h, p1, i).1;
            q1 == q.(phase := p1.phase, counter := p1.counter, header := p1.header)
  {
  }

  lemma StoredAtPart(h: Surroundings, p: Part, f: Field)
    requires AtPart(p) && Printable(f)
    ensures AtPart(Stored(h, p, f))
  {
  }

  // The state after all parts of a form.
  function StoredAll(h: Surroundings, p: Part, fields: seq<Field>): Part
    decreases fields
  {
    if fields == [] then p else StoredAll(h, Stored(h, p, fields[0]), fields[1..])
  }

  lemma {:induction false} FieldsEat(h: Surroundings, p: Part, fields: seq<Field>)
    requires AtPart(p) && forall f :: f in fields ==> Printable(f)
    ensures EatAll(h, p, FieldToks(fields)) == Some(StoredAll(h, p, fields)) && AtPart(StoredAll(h, p, fields))
    decreases fields
  {
    hide EatAll, Section, Stored, Printable, AtPart;
    if fields == [] {
      EatNothing(h, p);
    } else {
      assert fields[0] in fields;
      SectionEats(h, p, fields[0]);
      StoredAtPart(h, p, fields[0]);
      FieldsEat(h, Stored(h, p, fields[0]), fields[1..]);
      EatConcat(h, p, Bytes(Section(fields[0])) + [NewPart], FieldToks(fields[1..]));
    }
  }

  lemma OneOf(h: Surroundings, k: nat, f: Field)
    ensures LastWins([f]) == if f.Field? then map[f.name := f.value] else map[]
    ensures FilesOf(h, k, [f]) ==
            if f.FileField? && h.answer(k).Some? then map[f.name := File(f.mimeType, f.fileName, h.answer(k).value)] else map[]
    ensures UploadsOf(h, k, [f]) ==
            if f.FileField? && h.answer(k).Some? then [Upload(f.name, f.fileName, f.mimeType, h.answer(k).value, f.value, false)] else []
  {
    assert [f][..0] == [] && [f][1..] == [];
  }

  lemma StoredParam(h: Surroundings, p: Part, f: Field)
    requires AtPart(p) && Printable(f) && f.Field?
    ensures var q := Stored(h, p, f);
            && q.params == p.params[f.name := f.value] && q.files == p.files && q.asked == p.asked
            && CloseUpload(q.uploads) == CloseUpload(p.uploads)
  {
    assert "" + f.value == f.value;
  }

  lemma StoredFile(h: Surroundings, p: Part, f: Field)
    requires AtPart(p) && Printable(f) && f.FileField?
    ensures var q, a := Stored(h, p, f), h.answer(p.asked);
            && q.params == p.params && q.asked == p.asked + 1
            && q.files == (if a.Some? then p.files[f.name := File(f.mimeType, f.fileName, a.value)] else p.files)
            && CloseUpload(q.uploads) == CloseUpload(p.uploads)
                                         + if a.Some? then [Upload(f.name, f.fileName, f.mimeType, a.value, f.value, false)] else []
  {
    assert "" + f.value == f.value;
  }

  // One part, on top of what is there.
  lemma StoredOne(h: Surroundings, p: Part, f: Field)
    requires AtPart(p) && Printable(f)
    ensures var q := Stored(h, p, f);
            && q.params == p.params + LastWins([f])
            && q.files == p.files + FilesOf(h, p.asked, [f])
            && q.asked == p.asked + (if f.FileField? then 1 else 0)
            && CloseUpload(q.uploads) == CloseUpload(p.uploads) + UploadsOf(h, p.asked, [f])
  {
    hide Stored, LastWins, FilesOf, UploadsOf, CloseUpload, AtPart, Printable;
    OneOf(h, p.asked, f);
    if f.Field? {
      StoredParam(h, p, f);
    } else {
      StoredFile(h, p, f);
    }
  }

  lemma {:induction false} StoredAllOf(h: Surroundings, p: Part, fields: seq<Field>)
    requires AtPart(p) && forall f :: f in fields ==> Printable(f)
    ensures var q := StoredAll(h, p, fields);
            && q.params == p.params + LastWins(fields)
            && q.files == p.files + FilesOf(h, p.asked, fields)
            && CloseUpload(q.uploads) == CloseUpload(p.uploads) + UploadsOf(h, p.asked, fields)
    decreases fields
  {
    hide LastWins, FilesOf, UploadsOf, Stored, CloseUpload, Printable, AtPart;
    NothingOf(h, p.asked);
    if fields != [] {
      var f, rest := fields[0], fields[1..];
      assert f in fields;
      var q := Stored(h, p, f);
      StoredOne(h, p, f);
      StoredAtPart(h, p, f);
      StoredAllOf(h, q, rest);
      FrontOf(h, p.asked, fields);
      MapAssoc(p.params, LastWins([f]), LastWins(rest));
      MapAssoc(p.files, FilesOf(h, p.asked, [f]), FilesOf(h, q.asked, rest));
      assert CloseUpload(p.uploads) + UploadsOf(h, p.asked, [f]) + UploadsOf(h, q.asked, rest)
          == CloseUpload(p.uploads) + (UploadsOf(h, p.asked, [f]) + UploadsOf(h, q.asked, rest));
    }
  }

  lemma NothingOf(h: Surroundings, k: nat)
    ensures LastWins([]) == map[] && FilesOf(h, k, []) == map[] && UploadsOf(h, k, []) == []
  {
  }

  lemma MapAssoc<K, V>(a: map<K, V>, b: map<K, V>, c: map<K, V>)
    ensures a + b + c == a + (b + c)
  {
  }

  lemma FrontOf(h: Surroundings, k: nat, fields: seq<Field>)
    requires fields != []
    ensures var f, rest := fields[0], fields[1..];
            var k' := k + if f.FileField? then 1 else 0;
            && LastWins(fields) == LastWins([f]) + LastWins(rest)
            && FilesOf(h, k, fields) == FilesOf(h, k, [f]) + FilesOf(h, k', rest)
            && UploadsOf(h, k, fields) == UploadsOf(h, k, [f]) + UploadsOf(h, k', rest)
  {
    LastWinsFront(fields);
    assert [fields[0]][1..] == [];
  }

  lemma {:induction false} LastWinsFront(fields: seq<Field>)
    requires fields != []
    ensures LastWins(fields) == LastWins([fields[0]]) + LastWins(fields[1..])
  {
    var n := |fields| - 1;
    if n == 0 {
      assert fields[1..] == [] && fields == [fields[0]];
    } else {
      LastWinsFront(fields[..n]);
      assert fields[..n][1..] == fields[1..][..n - 1];
    }
  }

  // The whole form: the parser ends finished, with the last value of each name
  // and with every file that the helper took.
  lemma FormEats(h: Surroundings, start: Part, d: string, fields: seq<Field>)
    requires Delimiter(d) && forall f :: f in fields ==> Sendable(d, f)
    requires Initial(start) && start.params == map[] && start.files == map[] && start.uploads == [] && start.asked == 0
    ensures var end := EatAll(h, start, ScanAll(d, FormBody(d, fields)).toks);
            && end.Some?
            && end.value.phase.Finished?
            && end.value.params == LastWins(fields)
            && end.value.files == FilesOf(h, 0, fields)
            && end.value.uploads == UploadsOf(h, 0, fields)
  {
    hide EatAll, ScanAll, FieldToks, StoredAll, Absent, UploadsOf, FilesOf, LastWins, Printable;
    FormTokens(d, fields);
    var p := StartPart(start);
    EatNothing(h, start);
    BoundaryAgrees(h, start, [], start);
    assert [] + [NewPart] == [NewPart];
    FieldsEat(h, p, fields);
    StoredAllOf(h, p, fields);
    assert map[] + LastWins(fields) == LastWins(fields) && map[] + FilesOf(h, 0, fields) == FilesOf(h, 0, fields);
    assert [] + UploadsOf(h, 0, fields) == UploadsOf(h, 0, fields);
    var q := StoredAll(h, p, fields);
    EatTwo(h, q, '-', '-', q.(counter := 1));
    EatConcat(h, start, [NewPart], FieldToks(fields));
    EatConcat(h, start, [NewPart] + FieldToks(fields), Bytes("--"));
  }

  // The round trip under any cutting: parameters, files, and their contents.
  method ParseForm(boundary: string, h: Surroundings, unsetCounter: nat, fields: seq<Field>, chunks: seq<string>)
    returns (params: map<string, string>, files: map<string, File>, uploads: seq<Upload>, calls: seq<Call>)
    requires '\r' !in boundary
    requires forall f :: f in fields ==> Sendable("\r\n--" + boundary, f)
    requires Flat(chunks) == FormBody("\r\n--" + boundary, fields)
    ensures params == LastWins(fields) && files == FilesOf(h, 0, fields) && uploads == UploadsOf(h, 0, fields)
    ensures ReplayAll([], calls) == Some(uploads)
  {
    hide EatAll, ScanAll, Absent, FormBody, RunPieces, Play, ReplayAll, LastWins, FilesOf, UploadsOf;
    DelimiterOf(boundary);
    FormEats(h, NewState(unsetCounter), "\r\n--" + boundary, fields);
    var part;
    part, calls := FeedAll(boundary, h, unsetCounter, chunks);
    params, files, uploads := part.params, part.files, part.uploads;
  }
}
