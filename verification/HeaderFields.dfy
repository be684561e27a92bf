/**
 Header lines: splitting a line into its name and value, the key=value machine
 used for header parameters, and what a part's header block says.
 Text is a `string` whose characters stand for bytes.
 */
module HeaderFields {
  import opened Common

  // The index of the first c in s, or |s|.
  function Find(s: string, c: char): (i: nat)
    ensures i <= |s|
    ensures c !in s[..i]
    ensures i < |s| ==> s[i] == c
  {
    if s == "" || s[0] == c then 0
    else
      var i := 1 + Find(s[1..], c);
      assert s[..i] == [s[0]] + s[1..][..i - 1];
      i
  }

  lemma FindIs(s: string, c: char, i: nat)
    requires i <= |s| && c !in s[..i] && (i < |s| ==> s[i] == c)
    ensures Find(s, c) == i
  {
  }

  // The C string at the start of s.
  function CString(s: string): string {
    s[..Find(s, '\0')]
  }

  function LowerChar(c: char): char {
    if 'A' <= c <= 'Z' then c - 'A' + 'a' else c
  }

  function Lower(s: string): (r: string)
    ensures |r| == |s|
    ensures forall i :: 0 <= i < |s| ==> r[i] == LowerChar(s[i])
  {
    seq(|s|, i requires 0 <= i < |s| => LowerChar(s[i]))
  }

  // The number of leading spaces.
  function Spaces(s: string): (i: nat)
    ensures i <= |s|
  {
    if s != "" && s[0] == ' ' then 1 + Spaces(s[1..]) else 0
  }

  // A header line, without its LF: the name in lower case up to the first ':',
  // and the value behind the spaces up to the first CR. A line that lacks either
  // mark has no recognised name.
  function Extract(line: string): Option<(string, string)> {
    var colon := Find(line, ':');
    if colon == |line| then None
    else
      var rest := line[colon + 1..];
      var text := rest[Spaces(rest)..];
      var cr := Find(text, '\r');
      if cr == |text| then None
      else Some((CString(Lower(line[..colon])), CString(text[..cr])))
  }

  // The bytes of a header line after it was extracted: the name in lower case,
  // and NULs in place of the ':' and of the CR behind the value.
  function Rewritten(line: string): (r: string)
    ensures |r| == |line|
  {
    var colon := Find(line, ':');
    if colon == |line| then Lower(line)
    else Lower(line[..colon]) + ['\0'] + ValueRewritten(line[colon + 1..])
  }

  function ValueRewritten(rest: string): (r: string)
    ensures |r| == |rest|
  {
    var value := Spaces(rest);
    var cr := value + Find(rest[value..], '\r');
    if cr == |rest| then rest else rest[cr := '\0']
  }

  // Header::ExtractHeader with ParseHeader's view of its result. The three loops
  // write the lower-case letters and the two terminating NULs over the line,
  // which lies at [begin, end) of a buffer.
  method ExtractHeader(line: array<char>, begin: nat, end: nat) returns (r: Option<(string, string)>)
    requires begin <= end <= line.Length
    modifies line
    ensures line[..begin] == old(line[..begin]) && line[end..] == old(line[end..])
    ensures line[begin..end] == Rewritten(old(line[begin..end]))
    ensures r == Extract(old(line[begin..end]))
  {
    hide Extract, Spaces, Find;
    ghost var text := line[begin..end];
    var colon := LowerName(line, begin, end);
    assert text[..colon - begin] == old(line[begin..colon]);
    if colon == end {
      NoColon(text);
      return None;
    }
    r := ExtractValue(line, begin, colon, end, text);
  }

  lemma NoColon(line: string)
    requires Find(line, ':') == |line|
    ensures Extract(line) == None && Rewritten(line) == Lower(line)
  {
  }

  // The first loop: up to the ':' or the end.
  method LowerName(line: array<char>, begin: nat, end: nat) returns (colon: nat)
    requires begin <= end <= line.Length
    modifies line
    ensures line[..begin] == old(line[..begin]) && line[end..] == old(line[end..])
    ensures begin <= colon <= end && colon - begin == Find(old(line[begin..end]), ':')
    ensures line[begin..colon] == Lower(old(line[begin..colon]))
    ensures colon < end ==> line[colon] == '\0' && line[colon + 1..end] == old(line[colon + 1..end])
  {
    hide Find, Lower;
    ghost var mem := line[..];
    colon := begin;
    while colon < end && line[colon] != ':'
      invariant begin <= colon <= end
      invariant forall i :: 0 <= i < line.Length && !(begin <= i < colon) ==> line[i] == mem[i]
      invariant forall i :: begin <= i < colon ==> line[i] == LowerChar(mem[i]) && mem[i] != ':'
    {
      var c := line[colon];
      if 'A' <= c <= 'Z' {
        line[colon] := c - 'A' + 'a';
      }
      colon := colon + 1;
    }
    if colon < end {
      line[colon] := '\0';
    }
    NameLowered(mem, line[..], begin, colon, end);
  }

  lemma NameLowered(mem: string, mem': string, begin: nat, colon: nat, end: nat)
    requires begin <= colon <= end <= |mem| == |mem'| && (colon < end ==> mem[colon] == ':')
    requires forall i :: 0 <= i < |mem| && !(begin <= i <= colon) ==> mem'[i] == mem[i]
    requires colon == end < |mem| ==> mem'[end] == mem[end]
    requires forall i :: begin <= i < colon ==> mem'[i] == LowerChar(mem[i]) && mem[i] != ':'
    ensures mem'[..begin] == mem[..begin] && mem'[end..] == mem[end..]
    ensures colon - begin == Find(mem[begin..end], ':') && mem'[begin..colon] == Lower(mem[begin..colon])
    ensures colon < end ==> mem'[colon + 1..end] == mem[colon + 1..end]
  {
    hide Find;
    FindIs(mem[begin..end], ':', colon - begin);
  }

  // The second loop.
  method SkipSpaces(line: array<char>, from: nat, end: nat) returns (pos: nat)
    requires from <= end <= line.Length
    ensures from <= pos <= end && pos - from == Spaces(line[from..end])
  {
    pos := from;
    while pos < end && line[pos] == ' '
      invariant from <= pos <= end
      invariant pos - from + Spaces(line[pos..end]) == Spaces(line[from..end])
    {
      assert line[pos..end][1..] == line[pos + 1..end];
      pos := pos + 1;
    }
  }

  // The third loop.
  method SeekCR(line: array<char>, from: nat, end: nat) returns (pos: nat)
    requires from <= end <= line.Length
    ensures from <= pos <= end && pos - from == Find(line[from..end], '\r')
  {
    pos := from;
    while pos < end && line[pos] != '\r'
      invariant from <= pos <= end
      invariant '\r' !in line[from..pos]
    {
      assert line[from..pos + 1] == line[from..pos] + [line[pos]];
      pos := pos + 1;
    }
    assert line[from..end][..pos - from] == line[from..pos];
    FindIs(line[from..end], '\r', pos - from);
  }

  method ExtractValue(line: array<char>, begin: nat, colon: nat, end: nat, ghost text: string) returns (r: Option<(string, string)>)
    requires begin <= colon < end <= line.Length && |text| == end - begin && Find(text, ':') == colon - begin
    requires line[begin..colon] == Lower(text[..colon - begin]) && line[colon] == '\0'
    requires line[colon + 1..end] == text[colon + 1 - begin..]
    modifies line
    ensures line[..begin] == old(line[..begin]) && line[end..] == old(line[end..])
    ensures line[begin..end] == Rewritten(text)
    ensures r == Extract(text)
  {
    hide CString, Spaces, Find, Lower, Extract, Rewritten;
    var valueBegin := SkipSpaces(line, colon + 1, end);
    var pos := SeekCR(line, valueBegin, end);
    ValueFacts(line[..], begin, colon, end, text, valueBegin, pos);
    if pos == end {
      return None;
    }
    var name, value := Terminate(line, begin, end, valueBegin, pos);
    r := Some((name, value));
  }

  lemma {:induction false} ValueFacts(mem: string, begin: nat, colon: nat, end: nat, text: string, value: nat, pos: nat)
    requires begin <= colon < value <= pos <= end <= |mem| && |text| == end - begin && Find(text, ':') == colon - begin
    requires mem[begin..colon] == Lower(text[..colon - begin]) && mem[colon] == '\0'
    requires mem[colon + 1..end] == text[colon + 1 - begin..]
    requires value - (colon + 1) == Spaces(mem[colon + 1..end]) && pos - value == Find(mem[value..end], '\r')
    ensures pos == end ==> mem[begin..end] == Rewritten(text) && Extract(text) == None
    ensures pos < end ==>
              var line := mem[begin..end][pos - begin := '\0'];
              line == Rewritten(text) && Extract(text) == Some((CString(line), CString(line[value - begin..])))
  {
    hide CString, Spaces, Find, Lower, Extract, Rewritten;
    ValueInPlace(mem, begin, colon, end, text, value);
    LineFacts(text, mem[begin..end], colon - begin, value - begin, pos - begin);
  }

  lemma {:induction false} LineFacts(text: string, line: string, c: nat, v: nat, k: nat)
    requires c < v <= k <= |text| && Find(text, ':') == c && line == Lower(text[..c]) + ['\0'] + text[c + 1..]
    requires v - (c + 1) == Spaces(text[c + 1..]) && k - v == Find(text[v..], '\r')
    ensures |line| == |text|
    ensures k == |text| ==> line == Rewritten(text) && Extract(text) == None
    ensures k < |text| ==> line[k := '\0'] == Rewritten(text)
    ensures k < |text| ==> Extract(text) == Some((CString(line[k := '\0']), CString(line[k := '\0'][v..])))
  {
    hide CString, Spaces, Find, Lower, Extract, Rewritten;
    ValueRewrites(text, line, c, v, k);
    ValueReads(text, line, c, v, k);
  }

  // Ends the value with a NUL; the results are the C strings at the name and at
  // the value.
  method Terminate(line: array<char>, begin: nat, end: nat, valueBegin: nat, pos: nat) returns (name: string, value: string)
    requires begin <= valueBegin <= pos < end <= line.Length
    modifies line
    ensures line[..begin] == old(line[..begin]) && line[end..] == old(line[end..])
    ensures line[begin..end] == old(line[begin..end])[pos - begin := '\0']
    ensures name == CString(line[begin..end]) && value == CString(line[begin..end][valueBegin - begin..])
  {
    hide CString;
    ghost var mem := line[..];
    line[pos] := '\0';
    Terminated(mem, line[..], begin, end, valueBegin, pos);
    name, value := CString(line[begin..end]), CString(line[valueBegin..end]);
  }

  lemma {:induction false} ValueInPlace(mem: string, begin: nat, colon: nat, end: nat, text: string, value: nat)
    requires begin <= colon < value <= end <= |mem| && |text| == end - begin
    requires mem[begin..colon] == Lower(text[..colon - begin]) && mem[colon] == '\0'
    requires mem[colon + 1..end] == text[colon + 1 - begin..]
    ensures mem[begin..end] == Lower(text[..colon - begin]) + ['\0'] + text[colon + 1 - begin..]
    ensures mem[value..end] == text[value - begin..]
  {
    hide Lower;
    SliceAt(mem, begin, colon, end);
    SliceTail(mem, colon + 1, end, value - (colon + 1));
    SliceTail(text, colon + 1 - begin, |text|, value - (colon + 1));
  }

  lemma {:induction false} Terminated(mem: string, mem': string, begin: nat, end: nat, value: nat, pos: nat)
    requires begin <= value <= pos < end <= |mem| && mem' == mem[pos := '\0']
    ensures mem'[..begin] == mem[..begin] && mem'[end..] == mem[end..]
    ensures mem'[begin..end] == mem[begin..end][pos - begin := '\0']
    ensures mem'[value..end] == mem[begin..end][pos - begin := '\0'][value - begin..]
  {
    SliceUpdate(mem, begin, end, pos, '\0');
    SliceTail(mem', begin, end, value - begin);
  }

  // The line in memory, with the ':' at c, the value at v and the CR at k.
  lemma {:induction false} ValueRewrites(text: string, line: string, c: nat, v: nat, k: nat)
    requires c < v <= k <= |text| && Find(text, ':') == c && line == Lower(text[..c]) + ['\0'] + text[c + 1..]
    requires v - (c + 1) == Spaces(text[c + 1..]) && k - v == Find(text[v..], '\r')
    ensures |line| == |text| && Rewritten(text) == if k == |text| then line else line[k := '\0']
  {
    hide Spaces, Find, Lower, ValueRewritten;
    var rest, front := text[c + 1..], Lower(text[..c]) + ['\0'];
    SliceTail(text, c + 1, |text|, v - (c + 1));
    ValueRewrittenAt(rest, v - (c + 1), k - (c + 1));
    if k < |text| {
      UpdateBehind(front, rest, k - (c + 1), '\0');
    }
  }

  lemma {:induction false} ValueRewrittenAt(rest: string, v: nat, k: nat)
    requires v == Spaces(rest) && v <= k <= |rest| && k - v == Find(rest[v..], '\r')
    ensures ValueRewritten(rest) == if k == |rest| then rest else rest[k := '\0']
  {
  }

  lemma {:induction false} UpdateBehind(front: string, rest: string, k: nat, x: char)
    requires k < |rest|
    ensures (front + rest)[|front| + k := x] == front + rest[k := x]
  {
  }

  lemma {:induction false} ValueReads(text: string, line: string, c: nat, v: nat, k: nat)
    requires c < v <= k <= |text| && Find(text, ':') == c && line == Lower(text[..c]) + ['\0'] + text[c + 1..]
    requires v - (c + 1) == Spaces(text[c + 1..]) && k - v == Find(text[v..], '\r')
    ensures |line| == |text|
    ensures Extract(text) == if k == |text| then None else Some((CString(line[k := '\0']), CString(line[k := '\0'][v..])))
  {
    hide CString, Spaces, Find, Lower;
    var rest, name := text[c + 1..], Lower(text[..c]);
    SliceTail(text, c + 1, |text|, v - (c + 1));
    if k < |text| {
      var mem := (name + ['\0'] + rest)[k := '\0'];
      assert mem[..c] == name;
      TerminatedAt(mem, name);
      var upTo := text[v..][..k - v];
      assert mem[v..][..|upTo|] == upTo;
      TerminatedAt(mem[v..], upTo);
    }
  }

  // A NUL behind a text ends its C string there.
  lemma TerminatedAt(s: string, t: string)
    requires |t| < |s| && s[..|t|] == t && s[|t|] == '\0'
    ensures CString(s) == CString(t)
  {
  }

  /* ParseDelimitedKeyValue: key=value pairs separated by ';'. */

  predicate IsNewLine(c: char) {
    c == '\r' || c == '\n'
  }

  predicate IsWS(c: char) {
    IsNewLine(c) || c == ' ' || c == '\t'
  }

  // One call of the consumer: a key with or without a value.
  datatype Pair = Pair(key: string, value: Option<string>)

  datatype KeyState =
    | Zero
    | Key(key: string)
    | SepSearch(key: string)
    | ValSearch(key: string)
    | Val(key: string, text: string)
    | QuotedVal(key: string, text: string)

  // The state behind one more character, with the pairs it completes.
  function KeyStep(k: KeyState, c: char): (KeyState, seq<Pair>) {
    match k
    case Zero =>
      if !IsWS(c) && c != ';' then (Key([c]), []) else (Zero, [])
    case Key(key) =>
      if IsWS(c) then (SepSearch(key), [])
      else if c == '=' then (ValSearch(key), [])
      else if c == ';' then (Zero, [Pair(key, None)])
      else (Key(key + [c]), [])
    case SepSearch(key) =>
      if c == '=' then (ValSearch(key), [])
      else if c == ';' then (Zero, [Pair(key, None)])
      else if !IsWS(c) then (Key([c]), [])
      else (k, [])
    case ValSearch(key) =>
      if !IsWS(c) then (if c == '"' then QuotedVal(key, "") else Val(key, [c]), [])
      else if IsNewLine(c) then (Zero, [Pair(key, Some(""))])
      else (k, [])
    case Val(key, text) =>
      if IsWS(c) || c == ';' then (Zero, [Pair(key, Some(text))])
      else (Val(key, text + [c]), [])
    case QuotedVal(key, text) =>
      if c == '"' then (Zero, [Pair(key, Some(text))])
      else (QuotedVal(key, text + [c]), [])
  }

  function KeyEnd(k: KeyState): seq<Pair> {
    match k
    case Val(key, text) => [Pair(key, Some(text))]
    case QuotedVal(key, text) => [Pair(key, Some(text))]
    case _ => []
  }

  function PairsFrom(k: KeyState, s: string): seq<Pair>
    decreases |s|
  {
    if s == "" then KeyEnd(k)
    else
      var (k', out) := KeyStep(k, s[0]);
      out + PairsFrom(k', s[1..])
  }

  // The pairs of a whole text.
  function Pairs(s: string): seq<Pair> {
    PairsFrom(Zero, s)
  }

  datatype ParseState = PsZero | PsKey | PsSepSearch | PsValSearch | PsVal | PsQuotedVal

  // What the positions of the loop stand for.
  ghost function KeyView(s: string, state: ParseState, keyBegin: int, keyEnd: int, valueBegin: int, pos: int): (k: Option<KeyState>) {
    if state.PsZero? then Some(Zero)
    else if state.PsKey? && 0 <= keyBegin < pos <= |s| then Some(Key(s[keyBegin..pos]))
    else if 0 <= keyBegin <= keyEnd <= pos <= |s| then
      if state.PsSepSearch? then Some(SepSearch(s[keyBegin..keyEnd]))
      else if state.PsValSearch? then Some(ValSearch(s[keyBegin..keyEnd]))
      else if state.PsVal? && 0 <= valueBegin < pos then Some(Val(s[keyBegin..keyEnd], s[valueBegin..pos]))
      else if state.PsQuotedVal? && 0 <= valueBegin < pos then Some(QuotedVal(s[keyBegin..keyEnd], s[valueBegin + 1..pos]))
      else None
    else None
  }

  // One round of the loop.
  method KeyRound(source: string, pos: nat, state: ParseState, keyBegin: nat, keyEnd: nat, valueBegin: nat)
    returns (state': ParseState, keyBegin': nat, keyEnd': nat, valueBegin': nat, call: seq<Pair>)
    requires pos < |source| && KeyView(source, state, keyBegin, keyEnd, valueBegin, pos).Some?
    ensures var k := KeyView(source, state, keyBegin, keyEnd, valueBegin, pos).value;
            (KeyView(source, state', keyBegin', keyEnd', valueBegin', pos + 1), call)
            == (Some(KeyStep(k, source[pos]).0), KeyStep(k, source[pos]).1)
  {
    var c := source[pos];
    assert source[pos..pos + 1] == [c] && source[pos + 1..pos + 1] == "";
    state', keyBegin', keyEnd', valueBegin', call := state, keyBegin, keyEnd, valueBegin, [];
    match state {
      case PsZero =>
        if !IsWS(c) && c != ';' {
          keyBegin' := pos;
          state' := PsKey;
        }
      case PsKey =>
        assert source[keyBegin..pos + 1] == source[keyBegin..pos] + [c];
        if IsWS(c) {
          keyEnd' := pos;
          state' := PsSepSearch;
        } else if c == '=' {
          keyEnd' := pos;
          state' := PsValSearch;
        } else if c == ';' {
          call := [Pair(source[keyBegin..pos], None)];
          state' := PsZero;
        }
      case PsSepSearch =>
        if c == '=' {
          state' := PsValSearch;
        } else if c == ';' {
          call := [Pair(source[keyBegin..keyEnd], None)];
          state' := PsZero;
        } else if !IsWS(c) {
          keyBegin' := pos;
          state' := PsKey;
        }
      case PsValSearch =>
        if !IsWS(c) {
          valueBegin' := pos;
          state' := if c == '"' then PsQuotedVal else PsVal;
        } else if IsNewLine(c) {
          call := [Pair(source[keyBegin..keyEnd], Some(""))];
          state' := PsZero;
        }
      case PsVal =>
        assert source[valueBegin..pos + 1] == source[valueBegin..pos] + [c];
        if IsWS(c) || c == ';' {
          call := [Pair(source[keyBegin..keyEnd], Some(source[valueBegin..pos]))];
          state' := PsZero;
        }
      case PsQuotedVal =>
        assert source[valueBegin + 1..pos + 1] == source[valueBegin + 1..pos] + [c];
        if c == '"' {
          call := [Pair(source[keyBegin..keyEnd], Some(source[valueBegin + 1..pos]))];
          state' := PsZero;
        }
    }
  }

  lemma PairsAt(k: KeyState, s: string, pos: nat)
    requires pos < |s|
    ensures PairsFrom(k, s[pos..]) == KeyStep(k, s[pos]).1 + PairsFrom(KeyStep(k, s[pos]).0, s[pos + 1..])
  {
  }

  lemma PairsEnd(k: KeyState)
    ensures PairsFrom(k, "") == KeyEnd(k)
  {
  }

  method ParseDelimitedKeyValue(source: string) returns (calls: seq<Pair>)
    ensures calls == Pairs(CString(source))
  {
    hide KeyStep, PairsFrom;
    var pos, keyBegin, keyEnd, valueBegin := 0, 0, 0, 0;
    var state := PsZero;
    calls := [];
    ghost var s := CString(source);
    assert s[0..] == s;
    while pos < |source| && source[pos] != '\0'
      invariant 0 <= pos <= |s| && '\0' !in source[..pos]
      invariant KeyView(source, state, keyBegin, keyEnd, valueBegin, pos).Some?
      invariant Pairs(s) == calls + PairsFrom(KeyView(source, state, keyBegin, keyEnd, valueBegin, pos).value, s[pos..])
    {
      assert source[..pos + 1] == source[..pos] + [source[pos]];
      ghost var k := KeyView(source, state, keyBegin, keyEnd, valueBegin, pos).value;
      PairsAt(k, s, pos);
      var call;
      state, keyBegin, keyEnd, valueBegin, call := KeyRound(source, pos, state, keyBegin, keyEnd, valueBegin);
      assert calls + (call + PairsFrom(KeyStep(k, source[pos]).0, s[pos + 1..]))
          == calls + call + PairsFrom(KeyStep(k, source[pos]).0, s[pos + 1..]);
      calls := calls + call;
      pos := pos + 1;
    }
    FindIs(source, '\0', pos);
    assert s[pos..] == "";
    PairsEnd(KeyView(source, state, keyBegin, keyEnd, valueBegin, pos).value);
    match state {
      case PsVal =>
        calls := calls + [Pair(source[keyBegin..keyEnd], Some(source[valueBegin..pos]))];
      case PsQuotedVal =>
        calls := calls + [Pair(source[keyBegin..keyEnd], Some(source[valueBegin + 1..pos]))];
      case _ =>
    }
  }

  /* The header block of a multipart part. */

  datatype PartInfo = PartInfo(name: string, fileName: string, hasFile: bool, contentType: Option<string>)

  const NO_INFO := PartInfo("", "", false, None)

  // ContentDisposExtractor
  function TakePair(i: PartInfo, p: Pair): PartInfo {
    if p.value.None? then i
    else if p.key == "name" then i.(name := p.value.value)
    else if p.key == "filename" then i.(fileName := p.value.value, hasFile := true)
    else i
  }

  function TakePairs(i: PartInfo, ps: seq<Pair>): PartInfo
    decreases |ps|
  {
    if ps == [] then i else TakePairs(TakePair(i, ps[0]), ps[1..])
  }

  function OnLine(i: PartInfo, line: string): PartInfo {
    match Extract(line)
    case None => i
    case Some((name, value)) =>
      if name == "content-disposition" then TakePairs(i.(hasFile := false), Pairs(value))
      else if name == "content-type" then i.(contentType := Some(value))
      else i
  }

  // Every line that ends with LF counts; text behind the last LF does not.
  function ReadLines(i: PartInfo, s: string): PartInfo
    decreases |s|
  {
    var lf := Find(s, '\n');
    if lf == |s| then i else ReadLines(OnLine(i, s[..lf]), s[lf + 1..])
  }

  lemma {:induction false} ReadLinesStep(i: PartInfo, s: string, lf: nat)
    requires lf < |s| && s[lf] == '\n' && '\n' !in s[..lf]
    ensures ReadLines(i, s) == ReadLines(OnLine(i, s[..lf]), s[lf + 1..])
  {
    hide OnLine, Find;
    FindIs(s, '\n', lf);
  }

  lemma ReadLinesEnd(i: PartInfo, s: string)
    requires '\n' !in s
    ensures ReadLines(i, s) == i
  {
  }

  // The header loop of ParseFMHeaders.
  method ParsePartHeaders(block: string) returns (i: PartInfo)
    ensures i == ReadLines(NO_INFO, block)
  {
    hide ReadLines, OnLine;
    i := NO_INFO;
    var hBegin, pos := 0, 0;
    assert block[0..] == block;
    while pos < |block|
      invariant 0 <= hBegin <= pos <= |block|
      invariant '\n' !in block[hBegin..pos]
      invariant ReadLines(NO_INFO, block) == ReadLines(i, block[hBegin..])
    {
      if block[pos] == '\n' {
        assert block[hBegin..][..pos - hBegin] == block[hBegin..pos];
        ReadLinesStep(i, block[hBegin..], pos - hBegin);
        assert block[hBegin..][pos - hBegin + 1..] == block[pos + 1..];
        i := ParsePartHeader(i, block[hBegin..pos]);
        hBegin := pos + 1;
        assert block[hBegin..hBegin] == "";
      } else {
        assert block[hBegin..pos + 1] == block[hBegin..pos] + [block[pos]];
      }
      pos := pos + 1;
    }
    assert block[hBegin..] == block[hBegin..pos];
    ReadLinesEnd(i, block[hBegin..]);
  }

  method ParsePartHeader(i: PartInfo, text: string) returns (i': PartInfo)
    ensures i' == OnLine(i, text)
  {
    hide Extract, Rewritten, CString, TakePairs, Pairs;
    var line := new char[|text|](k requires 0 <= k < |text| => text[k]);
    assert line[..] == text;
    var header := ExtractHeader(line, 0, line.Length);
    assert text[0..|text|] == text;
    i' := i;
    if header.Some? {
      var (name, value) := header.value;
      if name == "content-disposition" {
        ExtractedIsCString(text);
        i' := TakeDisposition(i', value);
      } else if name == "content-type" {
        i' := i'.(contentType := Some(value));
      }
    }
  }

  method TakeDisposition(i: PartInfo, value: string) returns (i': PartInfo)
    requires CString(value) == value
    ensures i' == TakePairs(i.(hasFile := false), Pairs(value))
  {
    hide Pairs;
    var pairs := ParseDelimitedKeyValue(value);
    i' := i.(hasFile := false);
    assert pairs[0..] == pairs;
    for k := 0 to |pairs|
      invariant TakePairs(i', pairs[k..]) == TakePairs(i.(hasFile := false), pairs)
    {
      assert pairs[k..][1..] == pairs[k + 1..];
      i' := TakePair(i', pairs[k]);
    }
  }

  lemma ExtractedIsCString(line: string)
    ensures Extract(line).Some? ==> CString(Extract(line).value.1) == Extract(line).value.1
  {
  }

  lemma {:induction false} TrailingIgnored(i: PartInfo, s: string, t: string)
    requires '\n' !in t && (s == "" || s[|s| - 1] == '\n')
    ensures ReadLines(i, s + t) == ReadLines(i, s)
    decreases |s|
  {
    if s == "" {
      assert s + t == t;
      FindIs(t, '\n', |t|);
    } else {
      var lf := Find(s, '\n');
      assert lf < |s| by {
        assert s[|s| - 1] in s[..|s|];
      }
      assert (s + t)[..lf] == s[..lf];
      FindIs(s + t, '\n', lf);
      assert (s + t)[lf + 1..] == s[lf + 1..] + t;
      TrailingIgnored(OnLine(i, s[..lf]), s[lf + 1..], t);
    }
  }

  /* GetContentType. */

  datatype ContentType = UnknownType | UrlEncoded | FormMultipart

  const MULTIPART := "multipart/form-data"
  const URL_ENCODED := "application/x-www-form-urlencoded"

  // SingleKeyExtractor: the last value of a key, on top of what is there.
  function LastValue(key: string, target: string, ps: seq<Pair>): string {
    if ps == [] then target
    else
      var last := ps[|ps| - 1];
      if last.value.Some? && last.key == key then last.value.value else LastValue(key, target, ps[..|ps| - 1])
  }

  // The type that the value of a Content-Type header stands for, and the boundary.
  function TypeOf(value: string, boundary: string): (ContentType, string) {
    var sc := Find(value, ';');
    if sc < |value| && Lower(value[..sc]) == MULTIPART then
      var found := LastValue("boundary", "", Pairs(value[sc..]));
      (if found != "" then FormMultipart else UnknownType, found)
    else (if Lower(value[..sc]) == URL_ENCODED then UrlEncoded else UnknownType, boundary)
  }

  // CmpI against a constant in lower case: zero for texts that differ in case only.
  method CmpI(op1: string, op2: string) returns (r: int)
    requires Lower(op1) == op1
    ensures r == 0 <==> op1 == Lower(op2)
  {
    hide Lower;
    var i := 0;
    while i < |op1| && i < |op2|
      invariant 0 <= i <= |op1| && i <= |op2|
      invariant forall k :: 0 <= k < i ==> op1[k] == LowerChar(op2[k])
    {
      assert Lower(op2)[i] == LowerChar(op2[i]) && op1[i] == Lower(op1)[i] == LowerChar(op1[i]);
      if LowerChar(op1[i]) < LowerChar(op2[i]) {
        return -1;
      }
      if LowerChar(op1[i]) > LowerChar(op2[i]) {
        return 1;
      }
      i := i + 1;
    }
    if i == |op1| {
      return if i == |op2| then 0 else -1;
    }
    return 1;
  }

  // The value is a C string.
  method GetContentType(value: string, boundary: string) returns (t: ContentType, outBoundary: string)
    requires CString(value) == value
    ensures (t, outBoundary) == TypeOf(value, boundary)
  {
    hide Pairs, Find, Lower;
    LowerConstants();
    outBoundary := boundary;
    var sc := Find(value, ';');
    if sc < |value| {
      var cmp := CmpI(MULTIPART, value[..sc]);
      if cmp == 0 {
        TailIsCString(value, sc);
        var pairs := ParseDelimitedKeyValue(value[sc..]);
        outBoundary := "";
        for k := 0 to |pairs|
          invariant outBoundary == LastValue("boundary", "", pairs[..k])
        {
          assert pairs[..k + 1][..k] == pairs[..k];
          if pairs[k].value.Some? && pairs[k].key == "boundary" {
            outBoundary := pairs[k].value.value;
          }
        }
        assert pairs[..|pairs|] == pairs;
        return if outBoundary != "" then FormMultipart else UnknownType, outBoundary;
      }
      cmp := CmpI(URL_ENCODED, value[..sc]);
      if cmp == 0 {
        return UrlEncoded, boundary;
      }
    } else {
      assert value[..sc] == value;
      var cmp := CmpI(URL_ENCODED, value);
      if cmp == 0 {
        return UrlEncoded, boundary;
      }
    }
    return UnknownType, boundary;
  }

  lemma LowerConstants()
    ensures Lower(MULTIPART) == MULTIPART && Lower(URL_ENCODED) == URL_ENCODED
  {
  }

  lemma TailIsCString(s: string, k: nat)
    requires CString(s) == s && k <= |s|
    ensures CString(s[k..]) == s[k..]
  {
    assert '\0' !in s;
    FindIs(s[k..], '\0', |s| - k);
  }
}
