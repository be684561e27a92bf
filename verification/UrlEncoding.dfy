/**
 URL-encoded parameters: one pass over the text that decodes while it looks for
 the delimiters, against a split at the delimiters and a decoding of the pieces.
 */
module UrlEncoding {
  import opened Common
  import opened HeaderFields

  // The characters that the first character of s takes: an escape takes three.
  function Size(s: string): (n: nat)
    requires s != []
    ensures 0 < n <= |s|
  {
    if s[0] == '%' && |s| >= 3 then 3 else 1
  }

  // What they stand for.
  function First(s: string): char
    requires s != []
  {
    if s[0] == '+' then ' '
    else if s[0] == '%' && |s| >= 3 then (HexVal(s[1]) * 16 + HexVal(s[2])) as char
    else s[0]
  }

  function Decode(s: string): string {
    if s == [] then [] else [First(s)] + Decode(s[Size(s)..])
  }

  // No escape is cut off by the end of the text. A percent sign at the very end
  // stands for itself.
  predicate Complete(s: string)
    decreases |s|
  {
    s == [] || ((s[0] == '%' && |s| > 1 ==> |s| >= 3) && Complete(s[Size(s)..]))
  }

  // Every percent sign has two characters behind it.
  predicate Closed(s: string)
    decreases |s|
  {
    s == [] || ((s[0] == '%' ==> |s| >= 3) && Closed(s[Size(s)..]))
  }

  // The text up to the escape that is cut off, if there is one.
  function Whole(s: string): string {
    if Complete(s) || |s| < 2 then s else s[..|s| - 2]
  }

  // Only the last two characters can be such an escape.
  lemma {:induction false} CutOff(s: string)
    requires !Complete(s)
    ensures |s| >= 2 && s[|s| - 2] == '%' && Closed(s[..|s| - 2])
    decreases |s|
  {
    if s[0] != '%' || |s| >= 3 {
      var n, t := Size(s), s[..|s| - 2];
      var rest := s[n..];
      CutOff(rest);
      assert t[n..] == rest[..|rest| - 2] && t[0] == s[0] && Size(t) == n;
    }
  }

  lemma {:induction false} ClosedIsComplete(s: string)
    requires Closed(s)
    ensures Complete(s)
    decreases |s|
  {
    if s != [] {
      ClosedIsComplete(s[Size(s)..]);
    }
  }

  // From a position in the whole text t of s on, the loop sees the same escapes
  // in both.
  ghost predicate Within(s: string, t: string, begin: nat) {
    && begin <= |t| && t <= s && Complete(t[begin..])
    && (t == s || (|s| == |t| + 2 && s[|t|] == '%' && Closed(t[begin..])))
  }

  lemma WholeWithin(s: string)
    ensures Within(s, Whole(s), 0) && (Whole(s) == s <==> Complete(s))
  {
    hide Closed, Complete;
    assert Whole(s)[0..] == Whole(s);
    if !Complete(s) {
      CutOff(s);
      ClosedIsComplete(Whole(s));
    }
  }

  lemma WithinStep(s: string, t: string, begin: nat)
    requires Within(s, t, begin) && begin < |t|
    ensures var rest := t[begin..];
            && Within(s, t, begin + Size(rest)) && s[begin] == rest[0]
            && (if s[begin] == '%' && |s| - begin > 1
                then begin + 3 <= |t| && Size(rest) == 3 && First(rest) == (HexVal(s[begin + 1]) * 16 + HexVal(s[begin + 2])) as char
                else Size(rest) == 1 && First(rest) == if s[begin] == '+' then ' ' else s[begin])
  {
    hide HexVal;
    var rest := t[begin..];
    SliceTail(t, begin, |t|, Size(rest));
    assert t[begin + Size(rest)..] == rest[Size(rest)..];
  }

  // DecodeURLEncoded. It leaves its text exactly if an escape is cut off by the
  // end: the second digit is read behind the end, and the loop misses the end.
  method DecodeURLEncoded(target: string, s: string) returns (r: string, overrun: bool)
    ensures overrun <==> !Complete(s)
    ensures r == target + Decode(Whole(s))
  {
    hide Complete, Closed, Whole, First, Size;
    ghost var t := Whole(s);
    WholeWithin(s);
    r := target;
    var begin := 0;
    assert t[0..] == t;
    while begin != |s|
      invariant Within(s, t, begin)
      invariant r + Decode(t[begin..]) == target + Decode(t)
      decreases |s| - begin
    {
      ghost var rest := t[begin..];
      if begin < |t| {
        WithinStep(s, t, begin);
        assert rest[Size(rest)..] == t[begin + Size(rest)..];
        assert r + Decode(rest) == r + [First(rest)] + Decode(rest[Size(rest)..]);
      }
      var currVal := s[begin];
      begin := begin + 1;
      if currVal == '+' {
        r := r + [' '];
      } else if currVal == '%' && |s| - begin > 0 {
        if |s| - begin == 1 {
          return r, true;
        }
        r := r + [(HexVal(s[begin]) * 16 + HexVal(s[begin + 1])) as char];
        begin := begin + 2;
      } else {
        r := r + [currVal];
      }
    }
    return r, false;
  }

  /* Splitting first. */

  // The next c that is not part of an escape.
  function Next(s: string, c: char): (i: nat)
    ensures i <= |s| && (i < |s| ==> s[i] == c)
    decreases |s|
  {
    if s == [] || s[0] == c then 0 else Size(s) + Next(s[Size(s)..], c)
  }

  // The parameters in s, whose first name starts with `name`: a name ends at the
  // next '=', its value at the '&' behind it. A name without '=' is dropped.
  function ParamsFrom(name: string, s: string): seq<(string, string)>
    decreases |s|
  {
    var i := Next(s, '=');
    if i == |s| then [] else ValueFrom(name + Decode(s[..i]), [], s[i + 1..])
  }

  function ValueFrom(name: string, value: string, s: string): seq<(string, string)>
    decreases |s|
  {
    var i := Next(s, '&');
    [(name, value + Decode(s[..i]))] + if i == |s| then [] else ParamsFrom([], s[i + 1..])
  }

  // One assignment after the other: the last value of a name stays.
  function Assigned(m: map<string, string>, ps: seq<(string, string)>): map<string, string>
    decreases |ps|
  {
    if ps == [] then m else Assigned(m[ps[0].0 := ps[0].1], ps[1..])
  }

  // A character that is not a delimiter belongs to the piece.
  lemma {:induction false} PieceStep(s: string, c: char)
    requires s != [] && s[0] != c
    ensures var n, i, rest := Size(s), Next(s, c), s[Size(s)..];
            && i == n + Next(rest, c)
            && Decode(s[..i]) == [First(s)] + Decode(rest[..Next(rest, c)])
            && s[i..] == rest[Next(rest, c)..]
  {
    hide HexVal;
    DecodeStep(s, Next(s, c));
  }

  // A piece that reaches behind its first character.
  lemma {:induction false} DecodeStep(s: string, i: nat)
    requires s != [] && Size(s) <= i <= |s|
    ensures var rest := s[Size(s)..];
            Decode(s[..i]) == [First(s)] + Decode(rest[..i - Size(s)]) && s[i..] == rest[i - Size(s)..]
  {
    hide HexVal;
    var n, piece := Size(s), s[..i];
    assert piece[0] == s[0] && Size(piece) == n;
    assert piece[n..] == s[n..][..i - n];
  }

  lemma ParamsStep(name: string, s: string)
    requires s != [] && s[0] != '='
    ensures ParamsFrom(name, s) == ParamsFrom(name + [First(s)], s[Size(s)..])
  {
    hide First, Size, ValueFrom, Next, Decode;
    PieceStep(s, '=');
    var i, rest := Next(s, '='), s[Size(s)..];
    var j := Next(rest, '=');
    if i < |s| {
      assert s[i + 1..] == s[i..][1..] == rest[j..][1..] == rest[j + 1..];
      assert name + ([First(s)] + Decode(rest[..j])) == name + [First(s)] + Decode(rest[..j]);
    }
  }

  lemma ValueStep(name: string, value: string, s: string)
    requires s != [] && s[0] != '&'
    ensures ValueFrom(name, value, s) == ValueFrom(name, value + [First(s)], s[Size(s)..])
  {
    hide First, Size, ParamsFrom, Next, Decode;
    PieceStep(s, '&');
    var i, rest := Next(s, '&'), s[Size(s)..];
    var j := Next(rest, '&');
    assert value + ([First(s)] + Decode(rest[..j])) == value + [First(s)] + Decode(rest[..j]);
    if i < |s| {
      assert s[i + 1..] == s[i..][1..] == rest[j..][1..] == rest[j + 1..];
    }
  }

  lemma NameEnds(name: string, s: string)
    requires s != [] && s[0] == '='
    ensures ParamsFrom(name, s) == ValueFrom(name, [], s[1..])
  {
    assert name + Decode(s[..0]) == name;
  }

  lemma ValueEnds(name: string, value: string, s: string)
    requires s == [] || s[0] == '&'
    ensures ValueFrom(name, value, s) == [(name, value)] + if s == [] then [] else ParamsFrom([], s[1..])
  {
    hide ParamsFrom;
    assert value + Decode(s[..0]) == value;
  }

  lemma AssignedFront(m: map<string, string>, name: string, value: string, ps: seq<(string, string)>)
    ensures Assigned(m, [(name, value)] + ps) == Assigned(m[name := value], ps)
  {
  }

  /* One pass. */

  datatype ParseState = ParamEnd | ValueEnd

  class UrlParams {
    var paramMap: map<string, string>
    var parseTmp: string

    constructor ()
      ensures paramMap == map[]
    {
      paramMap := map[];
      parseTmp := [];
    }

    // What the rest of the text still adds.
    ghost function Final(state: ParseState, target: string, rest: string): map<string, string>
      requires state.ValueEnd? ==> target in paramMap
      reads this
    {
      match state
      case ParamEnd => Assigned(paramMap, ParamsFrom(parseTmp, rest))
      case ValueEnd => Assigned(paramMap, ValueFrom(target, paramMap[target], rest))
    }

    // In the state ValueEnd, the characters go straight to the value in the map.
    method Append(state: ParseState, target: string, c: char, ghost rest: string)
      requires state.ValueEnd? ==> target in paramMap
      requires rest != [] && c == First(rest)
      requires state.ParamEnd? ==> rest[0] != '='
      requires state.ValueEnd? ==> rest[0] != '&'
      modifies this
      ensures state.ValueEnd? ==> target in paramMap
      ensures Final(state, target, rest[Size(rest)..]) == old(Final(state, target, rest))
    {
      hide Assigned, ParamsFrom, ValueFrom, First, Size, Complete;
      match state
      case ParamEnd =>
        ParamsStep(parseTmp, rest);
        parseTmp := parseTmp + [c];
      case ValueEnd =>
        ValueStep(target, paramMap[target], rest);
        OverwriteValue(paramMap, target, paramMap[target] + [c], rest[Size(rest)..]);
        paramMap := paramMap[target := paramMap[target] + [c]];
    }

    // The one pass assigns exactly the parameters that the split finds. As in
    // DecodeURLEncoded, it leaves its text exactly if an escape is cut off.
    method AddURLEncoded(text: Option<string>) returns (ok: bool, overrun: bool)
      modifies this
      ensures ok <==> text.Some? && Complete(text.value)
      ensures overrun <==> text.Some? && !Complete(text.value)
      ensures paramMap == if text.None? then old(paramMap) else Assigned(old(paramMap), ParamsFrom([], Whole(text.value)))
    {
      hide Assigned, ParamsFrom, ValueFrom, First, Size, Complete, Closed, Whole;
      if text.None? {
        return false, false;
      }
      var s := text.value;
      ghost var t := Whole(s);
      WholeWithin(s);
      var state, target, begin := ParamEnd, [], 0;
      parseTmp := [];
      assert t[0..] == t;
      while begin != |s|
        invariant Within(s, t, begin)
        invariant state.ValueEnd? ==> target in paramMap
        invariant Final(state, target, t[begin..]) == Assigned(old(paramMap), ParamsFrom([], t))
        decreases |s| - begin
      {
        ghost var rest := t[begin..];
        if begin < |t| {
          WithinStep(s, t, begin);
          assert rest[Size(rest)..] == t[begin + Size(rest)..];
        }
        var currVal := s[begin];
        begin := begin + 1;
        if currVal == '+' {
          Append(state, target, ' ', rest);
        } else if currVal == '%' && |s| - begin > 0 {
          if |s| - begin == 1 {
            Finished(state, target);
            return false, true;
          }
          Append(state, target, (HexVal(s[begin]) * 16 + HexVal(s[begin + 1])) as char, rest);
          begin := begin + 2;
        } else if state == ParamEnd && currVal == '=' {
          NameEnds(parseTmp, rest);
          OverwriteValue(paramMap, parseTmp, [], rest[1..]);
          paramMap := paramMap[parseTmp := []];
          state, target := ValueEnd, parseTmp;
        } else if state == ValueEnd && currVal == '&' {
          ValueEnds(target, paramMap[target], rest);
          AssignedFront(paramMap, target, paramMap[target], ParamsFrom([], rest[1..]));
          assert paramMap[target := paramMap[target]] == paramMap;
          parseTmp := [];
          state := ParamEnd;
        } else {
          Append(state, target, currVal, rest);
        }
      }
      Finished(state, target);
      return true, false;
    }

    // At the end of the text nothing is added.
    lemma Finished(state: ParseState, target: string)
      requires state.ValueEnd? ==> target in paramMap
      ensures Final(state, target, []) == paramMap
    {
      hide Assigned, ParamsFrom, ValueFrom;
      if state == ParamEnd {
        NoParams(parseTmp, paramMap);
      } else {
        ValueEnds(target, paramMap[target], []);
        AssignedFront(paramMap, target, paramMap[target], []);
        assert [(target, paramMap[target])] + [] == [(target, paramMap[target])];
        assert paramMap[target := paramMap[target]] == paramMap;
        NoParams([], paramMap);
      }
    }
  }

  lemma NoParams(name: string, m: map<string, string>)
    ensures ParamsFrom(name, []) == [] && Assigned(m, []) == m
  {
  }

  // The value of the current name is assigned again anyway.
  lemma OverwriteValue(m: map<string, string>, name: string, value: string, s: string)
    ensures Assigned(m[name := value], ValueFrom(name, value, s)) == Assigned(m, ValueFrom(name, value, s))
  {
    hide ParamsFrom, Assigned;
    var i := Next(s, '&');
    var v := value + Decode(s[..i]);
    var ps := if i == |s| then [] else ParamsFrom([], s[i + 1..]);
    assert ValueFrom(name, value, s) == [(name, v)] + ps;
    AssignedFront(m, name, v, ps);
    AssignedFront(m[name := value], name, v, ps);
    assert m[name := value][name := v] == m[name := v];
  }

  /* The round trip. */

  // A spelling of one character: itself, '+' for a space, or an escape.
  datatype Unit = Raw(c: char) | Plus | Escape(hi: char, lo: char)

  function UnitText(u: Unit): string {
    match u
    case Raw(c) => [c]
    case Plus => "+"
    case Escape(hi, lo) => ['%', hi, lo]
  }

  function UnitChar(u: Unit): char {
    match u
    case Raw(c) => c
    case Plus => ' '
    case Escape(hi, lo) => (16 * HexVal(hi) + HexVal(lo)) as char
  }

  // Only the character that ends the piece needs an escape, and '+' and '%'.
  predicate UnitOk(u: Unit, stop: char) {
    u.Raw? ==> u.c != '+' && u.c != '%' && u.c != stop
  }

  predicate AllOk(us: seq<Unit>, stop: char) {
    forall u :: u in us ==> UnitOk(u, stop)
  }

  function Texts(us: seq<Unit>): string {
    if us == [] then [] else UnitText(us[0]) + Texts(us[1..])
  }

  function Chars(us: seq<Unit>): (s: string)
    ensures |s| == |us|
  {
    if us == [] then [] else [UnitChar(us[0])] + Chars(us[1..])
  }

  datatype Spelled = Spelled(name: seq<Unit>, value: seq<Unit>)

  predicate SpelledOk(ps: seq<Spelled>) {
    forall p :: p in ps ==> AllOk(p.name, '=') && AllOk(p.value, '&')
  }

  // name=value&name=value
  function SpelledForm(ps: seq<Spelled>): string {
    if ps == [] then []
    else Texts(ps[0].name) + "=" + Texts(ps[0].value) + if |ps| == 1 then [] else "&" + SpelledForm(ps[1..])
  }

  function Meant(ps: seq<Spelled>): seq<(string, string)> {
    if ps == [] then [] else [(Chars(ps[0].name), Chars(ps[0].value))] + Meant(ps[1..])
  }

  lemma UnitFirst(u: Unit, stop: char, t: string)
    requires UnitOk(u, stop) && stop != '%' && stop != '+'
    ensures var s := UnitText(u) + t;
            && s != [] && s[0] != stop && First(s) == UnitChar(u) && s[Size(s)..] == t
            && (Complete(s) <==> Complete(t)) && (Closed(s) <==> Closed(t))
  {
    hide HexVal;
  }

  // The first unit, apart.
  lemma {:induction false} UnitsFront(us: seq<Unit>, stop: char, t: string)
    requires us != [] && AllOk(us, stop)
    ensures Texts(us) + t == UnitText(us[0]) + (Texts(us[1..]) + t) && Chars(us) == [UnitChar(us[0])] + Chars(us[1..])
    ensures UnitOk(us[0], stop) && AllOk(us[1..], stop)
  {
    hide UnitText, UnitOk, UnitChar;
    assert us[0] in us;
  }

  lemma NoUnits(t: string)
    ensures Texts([]) + t == t && Chars([]) == [] && t + Chars([]) == t
  {
  }

  lemma {:induction false} UnitsComplete(us: seq<Unit>, stop: char, t: string)
    requires AllOk(us, stop) && stop != '%' && stop != '+'
    ensures (Complete(Texts(us) + t) <==> Complete(t)) && (Closed(Texts(us) + t) <==> Closed(t))
  {
    hide Complete, Closed, UnitText, UnitOk, AllOk, Texts;
    NoUnits(t);
    if us != [] {
      UnitsFront(us, stop, t);
      UnitsComplete(us[1..], stop, t);
      UnitFirst(us[0], stop, Texts(us[1..]) + t);
    }
  }

  // An escape that is cut off by the end behind any spelling leaves the text; a
  // lone percent sign does not, and stands for itself.
  lemma {:induction false} CutEscapes(us: seq<Unit>, stop: char, c: char)
    requires AllOk(us, stop) && stop != '%' && stop != '+'
    ensures Complete(Texts(us)) && Complete(Texts(us) + "%") && !Complete(Texts(us) + ['%', c])
    ensures Decode(Texts(us) + "%") == Chars(us) + "%" && Decode(Texts(us)) == Chars(us)
  {
    hide Complete, Closed, UnitText, UnitOk, Decode, Chars, Texts;
    UnitsComplete(us, stop, "");
    UnitsComplete(us, stop, "%");
    UnitsComplete(us, stop, ['%', c]);
    UnitsDecode(us, stop, "");
    UnitsDecode(us, stop, "%");
    Ends(c);
    assert Texts(us) + "" == Texts(us) && Chars(us) + "" == Chars(us);
  }

  lemma Ends(c: char)
    ensures Complete("") && Complete("%") && !Complete(['%', c]) && Decode("%") == "%" && Decode("") == ""
  {
  }

  lemma {:induction false} UnitsDecode(us: seq<Unit>, stop: char, t: string)
    requires AllOk(us, stop) && stop != '%' && stop != '+'
    ensures Decode(Texts(us) + t) == Chars(us) + Decode(t)
  {
    hide UnitText, UnitOk, First, Size, UnitChar, AllOk, Texts, Chars;
    NoUnits(t);
    if us == [] {
      assert Chars(us) + Decode(t) == Decode(t);
    } else {
      UnitsFront(us, stop, t);
      UnitsDecode(us[1..], stop, t);
      UnitFirst(us[0], stop, Texts(us[1..]) + t);
      assert Chars(us) + Decode(t) == [UnitChar(us[0])] + (Chars(us[1..]) + Decode(t));
    }
  }

  lemma {:induction false} NameDecodes(name: string, us: seq<Unit>, t: string)
    requires AllOk(us, '=')
    ensures ParamsFrom(name, Texts(us) + t) == ParamsFrom(name + Chars(us), t)
    decreases us
  {
    hide UnitText, UnitOk, UnitChar, ParamsFrom, First, Size, AllOk, Texts, Chars;
    NoUnits(t);
    NoUnits(name);
    if us != [] {
      UnitsFront(us, '=', t);
      var rest := Texts(us[1..]) + t;
      UnitFirst(us[0], '=', rest);
      ParamsStep(name, UnitText(us[0]) + rest);
      NameDecodes(name + [UnitChar(us[0])], us[1..], t);
      assert name + [UnitChar(us[0])] + Chars(us[1..]) == name + ([UnitChar(us[0])] + Chars(us[1..]));
    }
  }

  lemma {:induction false} ValueDecodes(name: string, value: string, us: seq<Unit>, t: string)
    requires AllOk(us, '&')
    ensures ValueFrom(name, value, Texts(us) + t) == ValueFrom(name, value + Chars(us), t)
    decreases us
  {
    hide UnitText, UnitOk, UnitChar, ValueFrom, First, Size, AllOk, Texts, Chars;
    NoUnits(t);
    NoUnits(value);
    if us != [] {
      UnitsFront(us, '&', t);
      var rest := Texts(us[1..]) + t;
      UnitFirst(us[0], '&', rest);
      ValueStep(name, value, UnitText(us[0]) + rest);
      ValueDecodes(name, value + [UnitChar(us[0])], us[1..], t);
      assert value + [UnitChar(us[0])] + Chars(us[1..]) == value + ([UnitChar(us[0])] + Chars(us[1..]));
    }
  }

  // A plain character in front.
  lemma CompleteCons(c: char, t: string)
    requires c != '%' && Complete(t)
    ensures Complete([c] + t) && ([c] + t)[1..] == t
  {
  }

  // One parameter in front of the end or of others.
  lemma PairDecodes(p: Spelled, more: string)
    requires AllOk(p.name, '=') && AllOk(p.value, '&') && Complete(more) && (more == [] || more[0] == '&')
    ensures var s := Texts(p.name) + ("=" + (Texts(p.value) + more));
            && Complete(s)
            && ParamsFrom([], s) == [(Chars(p.name), Chars(p.value))] + if more == [] then [] else ParamsFrom([], more[1..])
  {
    hide AllOk, Complete, Closed, Texts, Chars, ParamsFrom, ValueFrom;
    var name, value := Chars(p.name), Chars(p.value);
    var behind := Texts(p.value) + more;
    UnitsComplete(p.value, '&', more);
    CompleteCons('=', behind);
    UnitsComplete(p.name, '=', "=" + behind);
    NameDecodes([], p.name, "=" + behind);
    assert [] + name == name && [] + value == value;
    NameEnds(name, "=" + behind);
    ValueDecodes(name, [], p.value, more);
    ValueEnds(name, value, more);
  }

  lemma TailDropped(tail: seq<Unit>)
    requires AllOk(tail, '=')
    ensures ParamsFrom([], Texts(tail)) == [] && Complete(Texts(tail))
  {
    hide AllOk, Complete, Closed, Texts, ParamsFrom;
    NameDecodes([], tail, "");
    UnitsComplete(tail, '=', "");
    assert Texts(tail) + "" == Texts(tail);
    NoParams([] + Chars(tail), map[]);
    NothingComplete();
  }

  // The parameters, and behind them text that is not read.
  function Behind(ps: seq<Spelled>, last: string): string {
    if ps == [] then last
    else
      var more := Behind(ps[1..], last);
      Texts(ps[0].name) + ("=" + (Texts(ps[0].value) + (if |ps| == 1 then last else "&" + more)))
  }

  lemma {:induction false} FormIsBehind(ps: seq<Spelled>, last: string)
    ensures SpelledForm(ps) + last == Behind(ps, last)
    decreases |ps|
  {
    hide Texts;
    if ps == [] {
      assert SpelledForm(ps) + last == last;
    } else {
      FormIsBehind(ps[1..], last);
      var n, v := Texts(ps[0].name), Texts(ps[0].value);
      if |ps| == 1 {
        assert n + "=" + v + [] + last == n + ("=" + (v + last));
      } else {
        FourParts(n, v, SpelledForm(ps[1..]), last);
      }
    }
  }

  lemma FourParts(n: string, v: string, form: string, last: string)
    ensures n + "=" + v + ("&" + form) + last == n + ("=" + (v + ("&" + (form + last))))
  {
  }

  lemma {:induction false} BehindDecodes(ps: seq<Spelled>, last: string)
    requires SpelledOk(ps) && ps != [] && Complete(last) && (last == "" || (last[0] == '&' && ParamsFrom([], last[1..]) == []))
    ensures Complete(Behind(ps, last)) && ParamsFrom([], Behind(ps, last)) == Meant(ps)
    decreases |ps|
  {
    hide AllOk, Complete, Closed, Texts, Chars, ParamsFrom;
    assert ps[0] in ps;
    if |ps| == 1 {
      PairDecodes(ps[0], last);
      assert Meant(ps) == [(Chars(ps[0].name), Chars(ps[0].value))] + [];
    } else {
      BehindDecodes(ps[1..], last);
      CompleteCons('&', Behind(ps[1..], last));
      PairDecodes(ps[0], "&" + Behind(ps[1..], last));
    }
  }

  // Every spelling of a list of parameters is read as that list. What follows
  // them without a '=' is dropped.
  lemma {:induction false} AnySpelling(ps: seq<Spelled>, tail: seq<Unit>)
    requires SpelledOk(ps) && AllOk(tail, '=')
    ensures Complete(SpelledForm(ps)) && ParamsFrom([], SpelledForm(ps)) == Meant(ps)
    ensures ps != [] ==> ParamsFrom([], SpelledForm(ps) + ("&" + Texts(tail))) == Meant(ps)
  {
    hide AllOk, Complete, Closed, Texts, ParamsFrom, SpelledForm, Behind, SpelledOk;
    NothingComplete();
    if ps == [] {
      NoParams([], map[]);
      NothingSpelled();
    } else {
      var last := "&" + Texts(tail);
      TailDropped(tail);
      CompleteCons('&', Texts(tail));
      FormIsBehind(ps, "");
      FormIsBehind(ps, last);
      BehindDecodes(ps, "");
      BehindDecodes(ps, last);
      assert SpelledForm(ps) + "" == SpelledForm(ps);
    }
  }

  lemma NothingSpelled()
    ensures SpelledForm([]) == [] && Meant([]) == []
  {
  }

  /* The spelling of a browser. */

  predicate Plain(c: char) {
    '0' <= c <= '9' || 'A' <= c <= 'Z' || 'a' <= c <= 'z' || c in "-._~"
  }

  // The percent encoding of a byte.
  function Encoded(c: char): Unit
    requires c < 256 as char
  {
    if Plain(c) then Raw(c)
    else if c == ' ' then Plus
    else Escape("0123456789ABCDEF"[c as nat / 16], "0123456789ABCDEF"[c as nat % 16])
  }

  predicate Bytes(s: string) {
    forall i :: 0 <= i < |s| ==> s[i] < 256 as char
  }

  function Encode(s: string): (us: seq<Unit>)
    requires Bytes(s)
    ensures |us| == |s|
  {
    if s == [] then [] else [Encoded(s[0])] + Encode(s[1..])
  }

  predicate Sendable(ps: seq<(string, string)>) {
    forall p :: p in ps ==> Bytes(p.0) && Bytes(p.1)
  }

  function EncodeAll(ps: seq<(string, string)>): seq<Spelled>
    requires Sendable(ps)
  {
    if ps == [] then []
    else
      assert ps[0] in ps;
      [Spelled(Encode(ps[0].0), Encode(ps[0].1))] + EncodeAll(ps[1..])
  }

  function Form(ps: seq<(string, string)>): string
    requires Sendable(ps)
  {
    SpelledForm(EncodeAll(ps))
  }

  lemma EncodedMeans(c: char, stop: char)
    requires c < 256 as char && (stop == '=' || stop == '&')
    ensures UnitOk(Encoded(c), stop) && UnitChar(Encoded(c)) == c
  {
    hide HexVal;
    HexValIs(c as nat / 16);
    HexValIs(c as nat % 16);
  }

  lemma {:induction false} EncodeMeans(s: string, stop: char)
    requires Bytes(s) && (stop == '=' || stop == '&')
    ensures AllOk(Encode(s), stop) && Chars(Encode(s)) == s
  {
    hide Encoded, UnitOk, UnitChar;
    if s != [] {
      EncodedMeans(s[0], stop);
      EncodeMeans(s[1..], stop);
    }
  }

  lemma {:induction false} EncodeAllMeans(ps: seq<(string, string)>)
    requires Sendable(ps)
    ensures SpelledOk(EncodeAll(ps)) && Meant(EncodeAll(ps)) == ps
    decreases |ps|
  {
    hide Bytes, Encode, AllOk, Chars;
    if ps != [] {
      assert ps[0] in ps;
      EncodeMeans(ps[0].0, '=');
      EncodeMeans(ps[0].1, '&');
      EncodeAllMeans(ps[1..]);
    }
  }

  lemma FormRoundTrip(ps: seq<(string, string)>)
    requires Sendable(ps)
    ensures Complete(Form(ps)) && ParamsFrom([], Form(ps)) == ps
  {
    hide Bytes, Complete, EncodeAll, SpelledForm, Meant, SpelledOk, ParamsFrom, Sendable;
    EncodeAllMeans(ps);
    AnySpelling(EncodeAll(ps), []);
  }

  lemma NothingComplete()
    ensures Complete([])
  {
  }

  lemma NoTail()
    ensures AllOk([], '=')
  {
  }

  // Any list of parameters, in any spelling, is parsed into its last-wins map.
  method ParseQuery(ps: seq<Spelled>) returns (params: map<string, string>)
    requires SpelledOk(ps)
    ensures params == Assigned(map[], Meant(ps))
  {
    hide SpelledForm, SpelledOk, ParamsFrom, Complete, Assigned, Meant;
    var q := new UrlParams();
    NoTail();
    AnySpelling(ps, []);
    WholeWithin(SpelledForm(ps));
    var ok, overrun := q.AddURLEncoded(Some(SpelledForm(ps)));
    params := q.paramMap;
  }

  // A name has the last of its values.
  lemma {:induction false} LastWins(m: map<string, string>, ps: seq<(string, string)>, i: nat)
    requires i < |ps| && forall j :: i < j < |ps| ==> ps[j].0 != ps[i].0
    ensures ps[i].0 in Assigned(m, ps) && Assigned(m, ps)[ps[i].0] == ps[i].1
    decreases |ps|
  {
    if i == 0 {
      AssignedKeeps(m[ps[0].0 := ps[0].1], ps[1..], ps[0].0);
    } else {
      LastWins(m[ps[0].0 := ps[0].1], ps[1..], i - 1);
    }
  }

  lemma {:induction false} AssignedKeeps(m: map<string, string>, ps: seq<(string, string)>, name: string)
    requires name in m && forall j :: 0 <= j < |ps| ==> ps[j].0 != name
    ensures name in Assigned(m, ps) && Assigned(m, ps)[name] == m[name]
    decreases |ps|
  {
    if ps != [] {
      AssignedKeeps(m[ps[0].0 := ps[0].1], ps[1..], name);
    }
  }

  /* A plain split, which does not know about escapes. */

  function PlainParams(name: string, s: string): seq<(string, string)>
    decreases |s|
  {
    var i := Find(s, '=');
    if i == |s| then [] else PlainValue(name + Decode(s[..i]), [], s[i + 1..])
  }

  function PlainValue(name: string, value: string, s: string): seq<(string, string)>
    decreases |s|
  {
    var i := Find(s, '&');
    [(name, value + Decode(s[..i]))] + if i == |s| then [] else PlainParams([], s[i + 1..])
  }

  // No escape of the first piece takes the c that ends it.
  predicate Clear(s: string, c: char)
    decreases |s|
  {
    s == [] || s[0] == c || (c !in s[..Size(s)] && Clear(s[Size(s)..], c))
  }

  // No escape of a name takes a '=', none of a value a '&'.
  predicate Escaped(state: ParseState, s: string)
    decreases |s|
  {
    match state
    case ParamEnd => Clear(s, '=') && var i := Next(s, '='); i == |s| || Escaped(ValueEnd, s[i + 1..])
    case ValueEnd => Clear(s, '&') && var i := Next(s, '&'); i == |s| || Escaped(ParamEnd, s[i + 1..])
  }

  lemma {:induction false} ClearFinds(s: string, c: char)
    requires Clear(s, c)
    ensures Find(s, c) == Next(s, c)
    decreases |s|
  {
    hide Find;
    if s == [] || s[0] == c {
      FindIs(s, c, 0);
    } else {
      ClearFinds(s[Size(s)..], c);
      FindBehind(s, Size(s), c);
    }
  }

  // An escape with a delimiter in it does not stand for a percent sign.
  lemma NotPercent(s: string, c: char)
    requires |s| >= 3 && s[0] == '%' && (s[1] == c || s[2] == c) && (c == '=' || c == '&')
    ensures First(s) != '%'
  {
    var a, b := HexVal(s[1]), HexVal(s[2]);
    assert a == 0 || b == 0;
  }

  // If an escape takes the c, the plain split ends the piece in that escape, with
  // a percent sign where the escape stands for something else.
  lemma {:induction false} SwallowedDiffers(s: string, c: char)
    requires Complete(s) && !Clear(s, c) && (c == '=' || c == '&')
    ensures Find(s, c) < |s| && Decode(s[..Find(s, c)]) != Decode(s[..Next(s, c)])
    decreases |s|
  {
    hide Find, Decode, First, Next;
    var n, rest := Size(s), s[Size(s)..];
    PieceStep(s, c);
    if c in s[..n] {
      SwallowedHere(s, c);
    } else {
      SwallowedDiffers(rest, c);
      FindBehind(s, n, c);
      DecodeStep(s, Find(s, c));
      Prepended([First(s)], Decode(rest[..Find(rest, c)]), Decode(rest[..Next(rest, c)]));
    }
  }

  lemma FindBehind(s: string, n: nat, c: char)
    requires n <= |s| && c !in s[..n]
    ensures Find(s, c) == n + Find(s[n..], c)
  {
    hide Find;
    var j := Find(s[n..], c);
    assert s[..n + j] == s[..n] + s[n..][..j];
    FindIs(s, c, n + j);
  }

  lemma SwallowedHere(s: string, c: char)
    requires s != [] && s[0] != c && c in s[..Size(s)] && (c == '=' || c == '&')
    ensures Find(s, c) < |s| && Decode(s[..Find(s, c)]) != [] && Decode(s[..Find(s, c)])[0] != First(s)
  {
    hide Find, Decode, First;
    var i := if s[1] == c then 1 else 2;
    assert c !in s[..i];
    FindIs(s, c, i);
    NotPercent(s, c);
    CutEscape(s, i);
  }

  lemma CutEscape(s: string, i: nat)
    requires |s| >= 3 && s[0] == '%' && 1 <= i <= 2
    ensures Decode(s[..i]) != [] && Decode(s[..i])[0] == '%'
  {
    assert s[..i][0] == '%';
  }

  lemma {:induction false} CompleteBehind(s: string, c: char)
    requires Complete(s) && Next(s, c) < |s| && c != '%'
    ensures Complete(s[Next(s, c) + 1..])
    decreases |s|
  {
    if s[0] != c {
      CompleteBehind(s[Size(s)..], c);
      assert s[Next(s, c) + 1..] == s[Size(s)..][Next(s[Size(s)..], c) + 1..];
    }
  }

  // The plain split finds the same parameters if and only if no escape of a name
  // takes a '=' and none of a value a '&'.
  lemma {:induction false} PlainSplitIff(name: string, s: string)
    requires Complete(s)
    ensures PlainParams(name, s) == ParamsFrom(name, s) <==> Escaped(ParamEnd, s)
    decreases |s|
  {
    hide Find, Decode, Next, Clear, Complete, PlainValue, ValueFrom;
    var i := Next(s, '=');
    if Clear(s, '=') {
      ClearFinds(s, '=');
      if i < |s| {
        CompleteBehind(s, '=');
        PlainValueIff(name + Decode(s[..i]), [], s[i + 1..]);
      }
    } else {
      SwallowedDiffers(s, '=');
      var j := Find(s, '=');
      FirstNames(name + Decode(s[..j]), s[j + 1..]);
      if i < |s| {
        FirstNames(name + Decode(s[..i]), s[i + 1..]);
        Prepended(name, Decode(s[..j]), Decode(s[..i]));
      }
    }
  }

  lemma FirstNames(name: string, s: string)
    ensures PlainValue(name, [], s) != [] && PlainValue(name, [], s)[0].0 == name
    ensures ValueFrom(name, [], s) != [] && ValueFrom(name, [], s)[0].0 == name
  {
  }

  lemma Prepended(a: string, b: string, c: string)
    ensures a + b == a + c <==> b == c
  {
    assert (a + b)[|a|..] == b && (a + c)[|a|..] == c;
  }

  lemma {:induction false} PlainValueIff(name: string, value: string, s: string)
    requires Complete(s)
    ensures PlainValue(name, value, s) == ValueFrom(name, value, s) <==> Escaped(ValueEnd, s)
    decreases |s|
  {
    hide Find, Decode, Next, Clear, Complete;
    var i := Next(s, '&');
    assert ValueFrom(name, value, s)[0].1 == value + Decode(s[..i]);
    if Clear(s, '&') {
      ClearFinds(s, '&');
      if i < |s| {
        CompleteBehind(s, '&');
        PlainSplitIff([], s[i + 1..]);
        assert PlainValue(name, value, s)[1..] == PlainParams([], s[i + 1..]);
        assert ValueFrom(name, value, s)[1..] == ParamsFrom([], s[i + 1..]);
      }
    } else {
      SwallowedDiffers(s, '&');
      var j := Find(s, '&');
      assert PlainValue(name, value, s)[0].1 == value + Decode(s[..j]);
      Prepended(value, Decode(s[..j]), Decode(s[..i]));
    }
  }

  // Every percent sign starts a valid triplet.
  predicate Triplets(s: string)
    decreases |s|
  {
    s == [] || ((s[0] == '%' ==> |s| >= 3 && IsHex(s[1]) && IsHex(s[2])) && Triplets(s[Size(s)..]))
  }

  lemma TripletUnit(s: string, c: char)
    requires s != [] && Triplets(s) && (c == '=' || c == '&') && s[0] != c
    ensures c !in s[..Size(s)] && (s[0] == '%' ==> |s| >= 3)
  {
  }

  lemma {:induction false} TripletsClear(s: string, c: char)
    requires Triplets(s) && (c == '=' || c == '&')
    ensures Complete(s) && Clear(s, c)
    decreases |s|
  {
    hide IsHex;
    if s != [] {
      TripletsClear(s[Size(s)..], c);
      if s[0] != c {
        TripletUnit(s, c);
      }
    }
  }

  lemma {:induction false} TripletsBehind(s: string, c: char)
    requires Triplets(s) && Next(s, c) < |s| && c != '%'
    ensures Triplets(s[Next(s, c) + 1..])
    decreases |s|
  {
    hide IsHex, Next, Size;
    NextAtFirst(s, c);
    if s[0] != c {
      var rest := s[Size(s)..];
      PieceStep(s, c);
      TripletsBehind(rest, c);
      assert s[Next(s, c) + 1..] == s[Next(s, c)..][1..] == rest[Next(rest, c)..][1..] == rest[Next(rest, c) + 1..];
    } else {
      PlainSize(s);
    }
  }

  lemma NextAtFirst(s: string, c: char)
    requires s != []
    ensures s[0] == c ==> Next(s, c) == 0
  {
  }

  lemma PlainSize(s: string)
    requires s != [] && s[0] != '%'
    ensures Size(s) == 1
  {
  }

  // Then the one pass is the plain split.
  lemma {:induction false} TripletsEscaped(state: ParseState, s: string)
    requires Triplets(s)
    ensures Complete(s) && Escaped(state, s)
    decreases |s|
  {
    hide Clear, Next, Triplets, Complete;
    var c := if state.ParamEnd? then '=' else '&';
    TripletsClear(s, c);
    if Next(s, c) < |s| {
      TripletsBehind(s, c);
      TripletsEscaped(if state.ParamEnd? then ValueEnd else ParamEnd, s[Next(s, c) + 1..]);
    }
  }
}
