/**
 Header lines as a sender writes them, and what the parsers of HeaderFields read
 back from them.
 */
module PrintedHeaders {
  import opened Common
  import opened HeaderFields

  const WS := " \t\r\n"

  /* Letter case. */

  // 'A' to 'Z' become the letters 32 codes above, and nothing else changes.
  lemma Lowered(s: string, i: nat)
    requires i < |s|
    ensures var c, r := s[i] as int, Lower(s)[i] as int;
            && r == (if 65 <= c <= 90 then c + 32 else c)
            && !(65 <= r <= 90)
  {
  }

  /* One line. */

  function Blanks(n: nat): (s: string)
    ensures |s| == n
  {
    seq(n, i => ' ')
  }

  lemma {:induction false} SpacesSkipped(n: nat, text: string)
    requires text == "" || text[0] != ' '
    ensures Spaces(Blanks(n) + text) == n
    decreases n
  {
    if n == 0 {
      assert Blanks(n) + text == text;
    } else {
      assert (Blanks(n) + text)[1..] == Blanks(n - 1) + text;
      SpacesSkipped(n - 1, text);
    }
  }

  // A name, a colon, any number of spaces and a value up to the first CR.
  lemma {:induction false} ExtractParts(title: string, n: nat, value: string, behind: string)
    requires ':' !in title && '\r' !in value && (value != "" ==> value[0] != ' ')
    ensures Extract(title + ":" + (Blanks(n) + (value + "\r" + behind))) == Some((CString(Lower(title)), CString(value)))
  {
    hide Spaces, Find, CString, Blanks;
    var text := value + "\r" + behind;
    var rest := Blanks(n) + text;
    var line := title + ":" + rest;
    assert line[..|title|] == title && line[|title|] == ':';
    FindIs(line, ':', |title|);
    assert line[|title| + 1..] == rest;
    SpacesSkipped(n, text);
    assert rest[n..] == text && text[..|value|] == value && text[|value|] == '\r';
    FindIs(text, '\r', |value|);
  }

  // A line is read if and only if there is a CR behind its first colon.
  lemma ExtractsIff(line: string)
    ensures Extract(line).Some? <==> exists i, j :: 0 <= i < j < |line| && line[i] == ':' && line[j] == '\r' && ':' !in line[..i]
  {
    hide Lower, CString, Find, Spaces;
    var colon := Find(line, ':');
    if colon < |line| {
      var rest := line[colon + 1..];
      SpacesAreSpaces(rest);
      var text := rest[Spaces(rest)..];
      var cr := Find(text, '\r');
      if cr < |text| {
        assert line[colon + 1 + Spaces(rest) + cr] == '\r';
      } else {
        forall j | colon < j < |line|
          ensures line[j] != '\r'
        {
          assert line[j] == rest[j - colon - 1];
          assert j - colon - 1 >= Spaces(rest) ==> rest[j - colon - 1] == text[..cr][j - colon - 1 - Spaces(rest)];
        }
        forall i | 0 <= i < |line| && line[i] == ':' && ':' !in line[..i]
          ensures i == colon
        {
          FirstIsOne(line, ':', i, colon);
        }
      }
    }
  }

  lemma FirstIsOne(s: string, c: char, i: nat, j: nat)
    requires i < |s| && j < |s| && s[i] == s[j] == c && c !in s[..i] && c !in s[..j]
    ensures i == j
  {
  }

  lemma {:induction false} SpacesAreSpaces(s: string)
    ensures forall i :: 0 <= i < Spaces(s) ==> s[i] == ' '
  {
    if s != "" && s[0] == ' ' {
      SpacesAreSpaces(s[1..]);
      assert forall i :: 0 < i < Spaces(s) ==> s[i] == s[1..][i - 1];
    }
  }

  lemma NoNul(s: string)
    requires '\0' !in s
    ensures CString(s) == s
  {
  }

  /* key=value texts. */

  predicate PlainKey(key: string) {
    key != "" && forall c :: c in key ==> c !in WS && c != '=' && c != ';'
  }

  // A value that needs no quotes.
  predicate PlainValue(value: string) {
    value != "" && value[0] != '"' && forall c :: c in value ==> c !in WS && c != ';'
  }

  predicate Gap(s: string) {
    forall c :: c in s ==> c in WS
  }

  lemma PairsStep(k: KeyState, c: char, rest: string)
    ensures PairsFrom(k, [c] + rest) == KeyStep(k, c).1 + PairsFrom(KeyStep(k, c).0, rest)
  {
  }

  lemma FrontStep(k: KeyState, s: string, rest: string)
    requires s != ""
    ensures s[0] in s && PairsFrom(k, s + rest) == KeyStep(k, s[0]).1 + PairsFrom(KeyStep(k, s[0]).0, s[1..] + rest)
  {
    assert s + rest == [s[0]] + (s[1..] + rest);
    PairsStep(k, s[0], s[1..] + rest);
  }

  lemma {:induction false} KeyRun(key: string, s: string, rest: string)
    requires forall c :: c in s ==> c !in WS && c != '=' && c != ';'
    ensures PairsFrom(Key(key), s + rest) == PairsFrom(Key(key + s), rest)
    decreases |s|
  {
    hide PairsFrom;
    if s == "" {
      assert s + rest == rest && key + s == key;
    } else {
      FrontStep(Key(key), s, rest);
      KeyRun(key + [s[0]], s[1..], rest);
      assert key + [s[0]] + s[1..] == key + s;
    }
  }

  lemma {:induction false} ValRun(key: string, text: string, s: string, rest: string)
    requires forall c :: c in s ==> c !in WS && c != ';'
    ensures PairsFrom(Val(key, text), s + rest) == PairsFrom(Val(key, text + s), rest)
    decreases |s|
  {
    hide PairsFrom;
    if s == "" {
      assert s + rest == rest && text + s == text;
    } else {
      FrontStep(Val(key, text), s, rest);
      ValRun(key, text + [s[0]], s[1..], rest);
      assert text + [s[0]] + s[1..] == text + s;
    }
  }

  lemma {:induction false} QuotedRun(key: string, text: string, s: string, rest: string)
    requires '"' !in s
    ensures PairsFrom(QuotedVal(key, text), s + rest) == PairsFrom(QuotedVal(key, text + s), rest)
    decreases |s|
  {
    hide PairsFrom;
    if s == "" {
      assert s + rest == rest && text + s == text;
    } else {
      FrontStep(QuotedVal(key, text), s, rest);
      QuotedRun(key, text + [s[0]], s[1..], rest);
      assert text + [s[0]] + s[1..] == text + s;
    }
  }

  // White space in a state that stays there.
  lemma {:induction false} GapRun(k: KeyState, gap: string, rest: string)
    requires Gap(gap) && (k.SepSearch? || k.Zero? || (k.ValSearch? && '\r' !in gap && '\n' !in gap))
    ensures PairsFrom(k, gap + rest) == PairsFrom(k, rest)
    decreases |gap|
  {
    hide PairsFrom;
    if gap == "" {
      assert gap + rest == rest;
    } else {
      FrontStep(k, gap, rest);
      GapRun(k, gap[1..], rest);
    }
  }

  // What is in front of a key is skipped.
  lemma LeadSkipped(c: char, rest: string)
    requires c in WS || c == ';'
    ensures Pairs([c] + rest) == Pairs(rest)
  {
    hide PairsFrom;
    PairsStep(Zero, c, rest);
  }

  lemma {:induction false} KeyStarts(key: string, gap: string, rest: string)
    requires PlainKey(key) && Gap(gap)
    ensures Pairs(key + (gap + rest)) == if gap == "" then PairsFrom(Key(key), rest) else PairsFrom(SepSearch(key), rest)
  {
    hide PairsFrom;
    FrontStep(Zero, key, gap + rest);
    KeyRun([key[0]], key[1..], gap + rest);
    assert [key[0]] + key[1..] == key;
    if gap == "" {
      assert gap + rest == rest;
    } else {
      FrontStep(Key(key), gap, rest);
      GapRun(SepSearch(key), gap[1..], rest);
    }
  }

  // A key without '=' counts if a ';' follows. Another key in its place is read
  // instead of it.
  lemma {:induction false} BareKey(key: string, gap: string, rest: string)
    requires PlainKey(key) && Gap(gap)
    ensures Pairs(key + (gap + (";" + rest))) == [Pair(key, None)] + Pairs(rest)
    ensures Pairs(key + (gap + "")) == []
    ensures gap != "" && rest != "" && PlainKey(rest[..1]) ==> Pairs(key + (gap + rest)) == Pairs(rest)
  {
    hide PairsFrom;
    KeyStarts(key, gap, ";" + rest);
    KeyStarts(key, gap, "");
    KeyStarts(key, gap, rest);
    PairsStep(if gap == "" then Key(key) else SepSearch(key), ';', rest);
    PairsEnd(if gap == "" then Key(key) else SepSearch(key));
    if gap != "" && rest != "" && PlainKey(rest[..1]) {
      assert rest[0] in rest[..1] && rest == [rest[0]] + rest[1..];
      PairsStep(SepSearch(key), rest[0], rest[1..]);
      PairsStep(Zero, rest[0], rest[1..]);
    }
  }

  // Behind the '=', white space up to the end of the line is skipped.
  lemma {:induction false} ValueStarts(key: string, gap: string, gap2: string, rest: string)
    requires PlainKey(key) && Gap(gap) && Gap(gap2) && '\r' !in gap2 && '\n' !in gap2
    ensures Pairs(key + (gap + ("=" + (gap2 + rest)))) == PairsFrom(ValSearch(key), rest)
  {
    hide PairsFrom;
    KeyStarts(key, gap, "=" + (gap2 + rest));
    PairsStep(if gap == "" then Key(key) else SepSearch(key), '=', gap2 + rest);
    GapRun(ValSearch(key), gap2, rest);
  }

  // key=value, up to white space, a ';' or the end.
  lemma {:induction false} PlainPair(key: string, gap: string, gap2: string, value: string, c: char, rest: string)
    requires PlainKey(key) && Gap(gap) && Gap(gap2) && '\r' !in gap2 && '\n' !in gap2 && PlainValue(value)
    requires c in WS || c == ';'
    ensures Pairs(key + (gap + ("=" + (gap2 + (value + ""))))) == [Pair(key, Some(value))]
    ensures Pairs(key + (gap + ("=" + (gap2 + (value + ([c] + rest)))))) == [Pair(key, Some(value))] + Pairs(rest)
  {
    hide PairsFrom;
    forall t
      ensures Pairs(key + (gap + ("=" + (gap2 + (value + t))))) == PairsFrom(Val(key, value), t)
    {
      ValueStarts(key, gap, gap2, value + t);
      FrontStep(ValSearch(key), value, t);
      ValRun(key, [value[0]], value[1..], t);
      assert [value[0]] + value[1..] == value;
    }
    PairsEnd(Val(key, value));
    PairsStep(Val(key, value), c, rest);
  }

  // key="value", up to the quote or, if it is missing, the end.
  lemma {:induction false} QuotedPair(key: string, gap: string, gap2: string, value: string, rest: string)
    requires PlainKey(key) && Gap(gap) && Gap(gap2) && '\r' !in gap2 && '\n' !in gap2 && '"' !in value
    ensures Pairs(key + (gap + ("=" + (gap2 + ("\"" + (value + "")))))) == [Pair(key, Some(value))]
    ensures Pairs(key + (gap + ("=" + (gap2 + ("\"" + (value + ("\"" + rest))))))) == [Pair(key, Some(value))] + Pairs(rest)
  {
    hide PairsFrom;
    forall t
      ensures Pairs(key + (gap + ("=" + (gap2 + ("\"" + (value + t)))))) == PairsFrom(QuotedVal(key, value), t)
    {
      ValueStarts(key, gap, gap2, "\"" + (value + t));
      PairsStep(ValSearch(key), '"', value + t);
      QuotedRun(key, "", value, t);
      assert "" + value == value;
    }
    PairsEnd(QuotedVal(key, value));
    PairsStep(QuotedVal(key, value), '"', rest);
  }

  // key= and the end of a line: an empty value. At the end of the text, nothing.
  lemma {:induction false} EmptyPair(key: string, gap: string, gap2: string, c: char, rest: string)
    requires PlainKey(key) && Gap(gap) && Gap(gap2) && '\r' !in gap2 && '\n' !in gap2 && (c == '\r' || c == '\n')
    ensures Pairs(key + (gap + ("=" + (gap2 + ([c] + rest))))) == [Pair(key, Some(""))] + Pairs(rest)
    ensures Pairs(key + (gap + ("=" + (gap2 + "")))) == []
  {
    hide PairsFrom;
    ValueStarts(key, gap, gap2, [c] + rest);
    ValueStarts(key, gap, gap2, "");
    PairsStep(ValSearch(key), c, rest);
    PairsEnd(ValSearch(key));
  }

  /* Parameters behind a header's value: each behind "; ". */

  datatype Param = Bare(key: string) | Plain(key: string, value: string) | Quoted(key: string, value: string)

  predicate ParamOk(p: Param) {
    PlainKey(p.key) && (p.Plain? ==> PlainValue(p.value)) && (p.Quoted? ==> '"' !in p.value)
  }

  function ParamText(p: Param): string {
    match p
    case Bare(key) => key
    case Plain(key, value) => key + ("=" + value)
    case Quoted(key, value) => key + ("=\"" + (value + "\""))
  }

  function ParamsText(ps: seq<Param>): string {
    if ps == [] then "" else "; " + (ParamText(ps[0]) + ParamsText(ps[1..]))
  }

  // The last value that is given for a key.
  function Given(key: string, ps: seq<Param>): Option<string> {
    if ps == [] then None
    else
      var last := ps[|ps| - 1];
      if !last.Bare? && last.key == key then Some(last.value) else Given(key, ps[..|ps| - 1])
  }

  function PairOf(p: Param): Pair {
    Pair(p.key, if p.Bare? then None else Some(p.value))
  }

  // A key without a value is not reported at the very end.
  function PairsOf(ps: seq<Param>): seq<Pair> {
    if ps == [] || (|ps| == 1 && ps[0].Bare?) then [] else [PairOf(ps[0])] + PairsOf(ps[1..])
  }

  lemma {:induction false} ParamFound(p: Param, rest: string)
    requires ParamOk(p)
    ensures Pairs(ParamText(p) + (";" + rest)) == [PairOf(p)] + Pairs(";" + rest)
    ensures Pairs(ParamText(p) + "") == if p.Bare? then [] else [PairOf(p)]
  {
    hide Pairs, PlainKey, PlainValue, Gap;
    LeadSkipped(';', rest);
    NoGap();
    match p
    case Bare(key) =>
      BareKey(key, "", rest);
      assert key + ("" + (";" + rest)) == key + (";" + rest) && key + ("" + "") == key + "";
    case Plain(key, value) =>
      PlainPair(key, "", "", value, ';', rest);
      assert key + ("" + ("=" + ("" + (value + "")))) == ParamText(p) + "";
      assert key + ("" + ("=" + ("" + (value + ([';'] + rest))))) == ParamText(p) + (";" + rest);
    case Quoted(key, value) =>
      QuotedPair(key, "", "", value, ";" + rest);
      QuotedPair(key, "", "", value, "");
      NoPairs();
      assert key + ("" + ("=" + ("" + ("\"" + (value + ("\"" + (";" + rest))))))) == ParamText(p) + (";" + rest);
      assert key + ("" + ("=" + ("" + ("\"" + (value + ("\"" + "")))))) == ParamText(p) + "";
      assert [PairOf(p)] + [] == [PairOf(p)];
  }

  lemma NoGap()
    ensures Gap("")
  {
  }

  lemma NoPairs()
    ensures Pairs("") == []
  {
  }

  lemma {:induction false} ParamsFound(ps: seq<Param>)
    requires forall p :: p in ps ==> ParamOk(p)
    ensures Pairs(ParamsText(ps)) == PairsOf(ps)
  {
    hide Pairs, ParamOk, ParamText, PairOf;
    NoPairs();
    if ps != [] {
      assert ps[0] in ps;
      ParamsFound(ps[1..]);
      var more := ParamsText(ps[1..]);
      var text := ParamText(ps[0]) + more;
      assert ParamsText(ps) == [';'] + ([' '] + text);
      LeadSkipped(';', [' '] + text);
      LeadSkipped(' ', text);
      if |ps| == 1 {
        ParamFound(ps[0], "");
        assert more == "" && [PairOf(ps[0])] + [] == [PairOf(ps[0])];
      } else {
        assert more == ";" + more[1..];
        ParamFound(ps[0], more[1..]);
      }
    }
  }

  // The same behind a first word, which is reported as a key if anything follows.
  lemma {:induction false} WordAndParams(kind: string, ps: seq<Param>)
    requires PlainKey(kind) && forall p :: p in ps ==> ParamOk(p)
    ensures Pairs(kind + ParamsText(ps)) == if ps == [] then [] else [Pair(kind, None)] + PairsOf(ps)
  {
    hide Pairs, PlainKey, ParamOk, ParamText, PairsOf;
    NoGap();
    var text := ParamsText(ps);
    if ps == [] {
      BareKey(kind, "", "");
      assert kind + ("" + "") == kind + text;
    } else {
      assert text == ";" + text[1..];
      BareKey(kind, "", text[1..]);
      assert kind + ("" + (";" + text[1..])) == kind + text;
      LeadSkipped(';', text[1..]);
      ParamsFound(ps);
    }
  }

  /* The boundary of a multipart POST. */

  function AllPairs(ps: seq<Param>): (r: seq<Pair>)
    ensures |r| == |ps| && forall i :: 0 <= i < |ps| ==> r[i] == PairOf(ps[i])
  {
    if ps == [] then [] else [PairOf(ps[0])] + AllPairs(ps[1..])
  }

  lemma {:induction false} PairsOfAll(ps: seq<Param>)
    ensures PairsOf(ps) == if ps != [] && ps[|ps| - 1].Bare? then AllPairs(ps)[..|ps| - 1] else AllPairs(ps)
  {
    if |ps| > 1 {
      PairsOfAll(ps[1..]);
      assert ps[1..][|ps| - 2] == ps[|ps| - 1];
    }
  }

  lemma {:induction false} LastOfAll(key: string, target: string, ps: seq<Param>)
    ensures LastValue(key, target, AllPairs(ps)) == (match Given(key, ps) case Some(v) => v case None => target)
  {
    hide AllPairs;
    if ps != [] {
      var n := |ps| - 1;
      LastOfAll(key, target, ps[..n]);
      assert AllPairs(ps)[..n] == AllPairs(ps[..n]);
    }
  }

  lemma {:induction false} LastValueIs(key: string, target: string, ps: seq<Param>)
    ensures LastValue(key, target, PairsOf(ps)) == (match Given(key, ps) case Some(v) => v case None => target)
  {
    hide AllPairs, PairsOf;
    PairsOfAll(ps);
    LastOfAll(key, target, ps);
    if ps != [] && ps[|ps| - 1].Bare? {
      assert AllPairs(ps)[|ps| - 1].value.None?;
    }
  }

  // A printed Content-Type is a form with a boundary if and only if its first
  // word says so in any case and a boundary that is not empty is given.
  lemma {:induction false} BoundaryFound(kind: string, ps: seq<Param>, boundary: string)
    requires PlainKey(kind) && forall p :: p in ps ==> ParamOk(p)
    ensures var r := TypeOf(kind + ParamsText(ps), boundary);
            if Lower(kind) == "multipart/form-data" && ps != [] then
              match Given("boundary", ps)
              case Some(b) => r == (if b != "" then FormMultipart else UnknownType, b)
              case None => r == (UnknownType, "")
            else r == (if Lower(kind) == "application/x-www-form-urlencoded" then UrlEncoded else UnknownType, boundary)
  {
    hide Pairs, ParamOk, ParamText, PairsOf, Lower, Find;
    var text := ParamsText(ps);
    assert kind + text == kind + text && (kind + text)[..|kind|] == kind && (kind + text)[|kind|..] == text;
    assert ';' !in kind;
    FindIs(kind + text, ';', |kind|);
    ParamsFound(ps);
    LastValueIs("boundary", "", ps);
  }

  /* The header lines of a part of a form. */

  // A title may be in any case. The other lines are those that say nothing: without
  // a colon, or with another name in front of it.
  datatype HeaderLine =
    | Disposition(title: string, kind: string, params: seq<Param>)
    | TypeLine(title: string, mimeType: string)
    | Other(text: string)

  function LineText(l: HeaderLine): string {
    match l
    case Disposition(title, kind, params) => title + ": " + (kind + ParamsText(params))
    case TypeLine(title, mimeType) => title + ": " + mimeType
    case Other(text) => text
  }

  predicate OneLine(s: string) {
    '\r' !in s && '\n' !in s
  }

  predicate LineOk(l: HeaderLine) {
    match l
    case Disposition(title, kind, params) =>
      && Lower(title) == "content-disposition" && PlainKey(kind) && (forall p :: p in params ==> ParamOk(p))
      && OneLine(kind + ParamsText(params)) && '\0' !in kind + ParamsText(params)
    case TypeLine(title, mimeType) =>
      Lower(title) == "content-type" && OneLine(mimeType) && '\0' !in mimeType && (mimeType != "" ==> mimeType[0] != ' ')
    case Other(text) =>
      && text != "" && OneLine(text)
      && (':' in text ==> CString(Lower(text[..Find(text, ':')])) != "content-disposition"
                          && CString(Lower(text[..Find(text, ':')])) != "content-type")
  }

  function OrElse(o: Option<string>, s: string): string {
    match o
    case Some(t) => t
    case None => s
  }

  // What a line tells.
  function Told(i: PartInfo, l: HeaderLine): PartInfo {
    match l
    case Disposition(_, _, params) =>
      PartInfo(OrElse(Given("name", params), i.name), OrElse(Given("filename", params), i.fileName),
               Given("filename", params).Some?, i.contentType)
    case TypeLine(_, mimeType) => i.(contentType := Some(mimeType))
    case Other(_) => i
  }

  function LinesText(ls: seq<HeaderLine>): string {
    if ls == [] then "" else LineText(ls[0]) + "\r\n" + LinesText(ls[1..])
  }

  function AllTold(i: PartInfo, ls: seq<HeaderLine>): PartInfo
    decreases |ls|
  {
    if ls == [] then i else AllTold(Told(i, ls[0]), ls[1..])
  }

  lemma {:induction false} TakePairsSnoc(i: PartInfo, ps: seq<Pair>, p: Pair)
    ensures TakePairs(i, ps + [p]) == TakePair(TakePairs(i, ps), p)
    decreases |ps|
  {
    if ps == [] {
      assert ps + [p] == [p] && [p][1..] == [];
    } else {
      assert (ps + [p])[1..] == ps[1..] + [p];
      TakePairsSnoc(TakePair(i, ps[0]), ps[1..], p);
    }
  }

  lemma {:induction false} AllTaken(i: PartInfo, ps: seq<Param>)
    ensures TakePairs(i, AllPairs(ps)) ==
            PartInfo(OrElse(Given("name", ps), i.name), OrElse(Given("filename", ps), i.fileName),
                     i.hasFile || Given("filename", ps).Some?, i.contentType)
  {
    hide AllPairs;
    if ps == [] {
      assert AllPairs(ps) == [];
    } else {
      var n := |ps| - 1;
      AllTaken(i, ps[..n]);
      assert AllPairs(ps) == AllPairs(ps[..n]) + [PairOf(ps[n])];
      TakePairsSnoc(i, AllPairs(ps[..n]), PairOf(ps[n]));
    }
  }

  lemma {:induction false} ParamsTaken(i: PartInfo, kind: string, ps: seq<Param>)
    ensures TakePairs(i, PairsOf(ps)) == TakePairs(i, AllPairs(ps))
    ensures TakePairs(i, [Pair(kind, None)] + PairsOf(ps)) == TakePairs(i, PairsOf(ps))
  {
    hide AllPairs, PairsOf;
    PairsOfAll(ps);
    if ps != [] && ps[|ps| - 1].Bare? {
      var n := |ps| - 1;
      assert AllPairs(ps) == AllPairs(ps)[..n] + [PairOf(ps[n])];
      TakePairsSnoc(i, AllPairs(ps)[..n], PairOf(ps[n]));
    }
    assert ([Pair(kind, None)] + PairsOf(ps))[1..] == PairsOf(ps);
  }

  lemma NotInTitle(title: string, c: char)
    requires c !in Lower(title) && !('A' <= c <= 'Z')
    ensures c !in title
  {
    forall i | 0 <= i < |title|
      ensures title[i] != c
    {
      assert Lower(title)[i] in Lower(title);
    }
  }

  predicate TitleChars(s: string) {
    ':' !in s && OneLine(s) && '\0' !in s
  }

  lemma TitlesArePlain()
    ensures TitleChars("content-disposition") && TitleChars("content-type")
    ensures "content-disposition" != "content-type"
  {
    assert |"content-disposition"| != |"content-type"|;
  }

  lemma {:induction false} TitleExtracts(title: string, value: string)
    requires TitleChars(Lower(title)) && '\r' !in value && '\0' !in value && (value != "" ==> value[0] != ' ')
    ensures Extract(title + ": " + value + "\r") == Some((Lower(title), value))
  {
    hide Lower, Extract;
    NotInTitle(title, ':');
    ExtractParts(title, 1, value, "");
    assert title + ":" + (Blanks(1) + (value + "\r" + "")) == title + ": " + value + "\r";
    NoNul(Lower(title));
    NoNul(value);
  }

  lemma {:induction false} LineTells(i: PartInfo, l: HeaderLine)
    requires LineOk(l)
    ensures OnLine(i, LineText(l) + "\r") == Told(i, l)
  {
    hide Extract, Lower, Pairs, TakePairs, ParamsText, PairsOf, Find, CString, ParamOk, TitleChars;
    TitlesArePlain();
    match l
    case Disposition(title, kind, params) =>
      var value := kind + ParamsText(params);
      assert kind[0] in kind;
      TitleExtracts(title, value);
      WordAndParams(kind, params);
      ParamsTaken(i.(hasFile := false), kind, params);
      AllTaken(i.(hasFile := false), params);
      NothingTaken(i.(hasFile := false), params);
    case TypeLine(title, mimeType) =>
      TitleExtracts(title, mimeType);
    case Other(text) =>
      OtherExtracts(text);
  }

  lemma NothingTaken(i: PartInfo, ps: seq<Param>)
    ensures TakePairs(i, []) == i && (ps == [] ==> PairsOf(ps) == [])
  {
  }

  lemma {:induction false} OtherExtracts(text: string)
    ensures var line := text + "\r";
            if ':' in text then Extract(line).Some? ==> Extract(line).value.0 == CString(Lower(text[..Find(text, ':')]))
            else Extract(line) == None
  {
    hide Lower, CString, Find, Spaces;
    var line, colon := text + "\r", Find(text, ':');
    if colon < |text| {
      assert line[..colon] == text[..colon];
      FindIs(line, ':', colon);
    } else {
      assert ':' !in line;
      FindIs(line, ':', |line|);
    }
  }

  lemma LineIsLine(l: HeaderLine)
    requires LineOk(l)
    ensures OneLine(LineText(l)) && LineText(l) != ""
  {
    hide ParamsText, ParamOk, Lower, PlainKey, OneLine, TitleChars;
    TitlesArePlain();
    match l
    case Disposition(title, kind, params) => TitledIsLine(title, kind + ParamsText(params));
    case TypeLine(title, mimeType) => TitledIsLine(title, mimeType);
    case Other(_) =>
  }

  lemma TitledIsLine(title: string, value: string)
    requires TitleChars(Lower(title)) && OneLine(value)
    ensures OneLine(title + ": " + value)
  {
    hide Lower;
    NotInTitle(title, '\r');
    NotInTitle(title, '\n');
  }

  // The lines are read one by one, whatever their order.
  lemma {:induction false} LinesParse(i: PartInfo, ls: seq<HeaderLine>)
    requires forall l :: l in ls ==> LineOk(l)
    ensures ReadLines(i, LinesText(ls)) == AllTold(i, ls)
    decreases |ls|
  {
    hide ReadLines, OnLine, Told, LineText, LineOk;
    if ls == [] {
      ReadLinesEnd(i, "");
    } else {
      assert ls[0] in ls;
      var line, rest := LineText(ls[0]) + "\r", LinesText(ls[1..]);
      LineIsLine(ls[0]);
      LineTells(i, ls[0]);
      LinesParse(Told(i, ls[0]), ls[1..]);
      var s := LinesText(ls);
      assert s == line + ("\n" + rest);
      assert s[..|line|] == line && s[|line|] == '\n' && s[|line| + 1..] == rest;
      ReadLinesStep(i, s, |line|);
    }
  }

  // A line that says nothing can stand anywhere.
  lemma {:induction false} OtherIsIgnored(i: PartInfo, before: seq<HeaderLine>, l: HeaderLine, behind: seq<HeaderLine>)
    requires l.Other?
    ensures AllTold(i, before + [l] + behind) == AllTold(i, before + behind)
    decreases |before|
  {
    var all := before + [l] + behind;
    if before == [] {
      assert all[0] == l && all[1..] == behind && before + behind == behind;
    } else {
      assert all[1..] == before[1..] + [l] + behind && (before + behind)[1..] == before[1..] + behind;
      OtherIsIgnored(Told(i, before[0]), before[1..], l, behind);
    }
  }

  /* The lines that a browser sends. */

  predicate FieldName(name: string) {
    name != "" && '"' !in name && OneLine(name) && '\0' !in name
  }

  predicate FileName(name: string) {
    '"' !in name && OneLine(name) && '\0' !in name
  }

  function FieldLine(name: string): HeaderLine {
    Disposition("Content-Disposition", "form-data", [Quoted("name", name)])
  }

  function FileLine(name: string, fileName: string): HeaderLine {
    Disposition("Content-Disposition", "form-data", [Quoted("name", name), Quoted("filename", fileName)])
  }

  // The plain line of a form field.
  lemma {:induction false} DispositionParses(name: string)
    requires FieldName(name)
    ensures ReadLines(NO_INFO, "Content-Disposition: form-data; name=\"" + name + "\"\r\n") == PartInfo(name, "", false, None)
  {
    hide ReadLines, LineOk, LineText;
    FieldLineOk(name);
    FieldLineText(name);
    LinesParse(NO_INFO, [FieldLine(name)]);
    assert [FieldLine(name)][1..] == [];
    FieldLineTells(NO_INFO, name);
    assert AllTold(NO_INFO, [FieldLine(name)]) == Told(NO_INFO, FieldLine(name));
  }

  lemma GivenSnoc(key: string, ps: seq<Param>, p: Param)
    ensures Given(key, ps + [p]) == if !p.Bare? && p.key == key then Some(p.value) else Given(key, ps)
    ensures Given(key, []) == None
  {
  }

  lemma FieldLineTells(i: PartInfo, name: string)
    ensures Told(i, FieldLine(name)) == i.(name := name, hasFile := false)
  {
    hide Given;
    assert |"name"| != |"filename"| && [] + [Quoted("name", name)] == [Quoted("name", name)];
    GivenSnoc("name", [], Quoted("name", name));
    GivenSnoc("filename", [], Quoted("name", name));
  }

  lemma FileLineTells(i: PartInfo, name: string, fileName: string)
    ensures Told(i, FileLine(name, fileName)) == i.(name := name, fileName := fileName, hasFile := true)
  {
    hide Given;
    var one, two := Quoted("name", name), Quoted("filename", fileName);
    assert |"name"| != |"filename"| && [] + [one] == [one] && [one] + [two] == [one, two];
    GivenSnoc("name", [], one);
    GivenSnoc("name", [one], two);
    GivenSnoc("filename", [one], two);
  }

  lemma OneParam(p: Param)
    ensures ParamsText([p]) == "; " + ParamText(p)
  {
    assert [p][1..] == [];
  }

  lemma {:induction false} FieldValue(name: string)
    ensures "form-data" + ParamsText([Quoted("name", name)]) == "form-data; name=\"" + name + "\""
  {
    hide ParamsText;
    OneParam(Quoted("name", name));
    assert "form-data" + "; " + "name" + "=\"" == "form-data; name=\"";
  }

  lemma {:induction false} FieldLineText(name: string)
    ensures LineText(FieldLine(name)) == "Content-Disposition: form-data; name=\"" + name + "\""
    ensures LinesText([FieldLine(name)]) == "Content-Disposition: form-data; name=\"" + name + "\"\r\n"
  {
    hide ParamsText;
    FieldValue(name);
    FieldLineParts();
    var front := "Content-Disposition: form-data; name=\"";
    assert front == "Content-Disposition" + ": " + "form-data; name=\"";
    assert LineText(FieldLine(name)) == front + name + "\"";
    assert [FieldLine(name)][1..] == [];
  }

  lemma FieldLineParts()
    ensures "Content-Disposition: form-data; name=\"" == "Content-Disposition" + ": " + "form-data; name=\""
    ensures "\"\r\n" == "\"" + "\r\n"
  {
  }

  // A character that the printer does not write itself comes from a key or value.
  lemma {:induction false} ParamsLack(ps: seq<Param>, c: char)
    requires c !in "; =\"" && forall p :: p in ps ==> c !in p.key && (p.Bare? || c !in p.value)
    ensures c !in ParamsText(ps)
  {
    if ps != [] {
      assert ps[0] in ps;
      ParamsLack(ps[1..], c);
    }
  }

  lemma {:induction false} QuotedLineOk(ps: seq<Param>)
    requires forall p :: p in ps ==> p.Quoted? && PlainKey(p.key) && '\0' !in p.key && FileName(p.value)
    ensures LineOk(Disposition("Content-Disposition", "form-data", ps))
  {
    hide ParamsText, Lower, PlainKey;
    LowerTitle();
    BrowserWords();
    KeysAreLines(ps);
    ParamsLack(ps, '\r');
    ParamsLack(ps, '\n');
    ParamsLack(ps, '\0');
    assert OneLine("form-data") && '\0' !in "form-data";
  }

  lemma KeysAreLines(ps: seq<Param>)
    requires forall p :: p in ps ==> PlainKey(p.key)
    ensures forall p :: p in ps ==> OneLine(p.key)
  {
    assert '\r' in WS && '\n' in WS;
  }

  lemma {:induction false} FieldLineOk(name: string)
    requires FieldName(name)
    ensures LineOk(FieldLine(name))
  {
    hide LineOk, PlainKey;
    BrowserWords();
    QuotedLineOk([Quoted("name", name)]);
  }

  lemma {:induction false} FileLineOk(name: string, fileName: string)
    requires FieldName(name) && FileName(fileName)
    ensures LineOk(FileLine(name, fileName))
  {
    hide LineOk, PlainKey;
    BrowserWords();
    QuotedLineOk([Quoted("name", name), Quoted("filename", fileName)]);
  }

  lemma TypeLineOk(mimeType: string)
    requires FileName(mimeType) && (mimeType != "" ==> mimeType[0] != ' ')
    ensures LineOk(TypeLine("Content-Type", mimeType))
  {
    LowerTitle();
  }

  lemma LowerTitle()
    ensures Lower("Content-Disposition") == "content-disposition" && Lower("Content-Type") == "content-type"
  {
  }

  lemma BrowserWords()
    ensures PlainKey("form-data") && PlainKey("name") && PlainKey("filename")
    ensures '\0' !in "form-data" && '\0' !in "name" && '\0' !in "filename"
  {
  }

  // A line with a title starts with the letter of that title.
  lemma TitleFirst(l: HeaderLine)
    requires LineOk(l) && !l.Other?
    ensures LineText(l) != "" && LineText(l)[0] != '-'
  {
    hide ParamsText, PlainKey, ParamOk, OneLine;
    assert Lower(l.title)[0] == 'c';
    var value := if l.Disposition? then l.kind + ParamsText(l.params) else l.mimeType;
    assert LineText(l) == l.title + ": " + value;
  }

  // A hyphen in front of the line hides the name.
  lemma {:induction false} HyphenHidesName(name: string)
    requires LineOk(FieldLine(name))
    ensures ReadLines(NO_INFO, "-" + LineText(FieldLine(name)) + "\r\n") == NO_INFO
  {
    hide ReadLines, LineOk, LineText, OneLine;
    var text := "-" + LineText(FieldLine(name));
    HyphenLineOk(FieldLine(name));
    LinesParse(NO_INFO, [Other(text)]);
    OtherText(text);
    assert AllTold(NO_INFO, [Other(text)]) == NO_INFO by {
      assert [Other(text)][1..] == [];
    }
  }

  lemma OtherText(text: string)
    ensures LinesText([Other(text)]) == text + "\r\n"
  {
    assert [Other(text)][1..] == [];
  }

  lemma {:induction false} HyphenLineOk(l: HeaderLine)
    requires LineOk(l) && l.Disposition?
    ensures LineOk(Other("-" + LineText(l)))
  {
    hide Lower, CString, Find, ParamsText, ParamOk, PlainKey, TitleChars;
    LineIsLine(l);
    TitlesArePlain();
    HyphenTitle(l.title);
    HyphenText(l.title, l.kind + ParamsText(l.params));
  }

  lemma {:induction false} HyphenText(title: string, value: string)
    requires ':' !in "-" + title
    ensures var text := "-" + (title + ": " + value);
            ':' in text && Find(text, ':') == 1 + |title| && text[..1 + |title|] == "-" + title
  {
    hide Find;
    var text := "-" + (title + ": " + value);
    assert text[..1 + |title|] == "-" + title && text[1 + |title|] == ':';
    FindIs(text, ':', 1 + |title|);
  }

  lemma HyphenTitle(title: string)
    requires TitleChars(Lower(title))
    ensures ':' !in "-" + title
    ensures var t := CString(Lower("-" + title)); t != "content-disposition" && t != "content-type"
  {
    NotInTitle(title, ':');
    var s := Lower("-" + title);
    assert s[0] == '-';
    HyphenFirst(s);
  }

  lemma HyphenFirst(s: string)
    requires s != "" && s[0] == '-'
    ensures CString(s) != "content-disposition" && CString(s) != "content-type"
  {
    assert Find(s, '\0') > 0 && CString(s)[0] == '-';
  }
}
