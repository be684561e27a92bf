/**
 Finding the delimiter CR LF "--" boundary in a body that arrives byte by byte.

 A body is read as if CR LF stood in front of it, so that it can start with its
 first delimiter. `Scan` follows one byte at a time; `Split` is the plain
 definition by first occurrences. No CR occurs inside the delimiter, which is
 why a broken match can restart at the byte that broke it.
 */
module BoundaryMatcher {

  // What the matcher passes on: content bytes, and the delimiters between them.
  datatype Tok = Byte(c: char) | NewPart

  predicate Delimiter(d: string) {
    |d| >= 4 && d[..4] == "\r\n--" && forall i :: 1 <= i < |d| ==> d[i] != '\r'
  }

  function Bytes(s: string): (r: seq<Tok>)
    ensures |r| == |s|
    ensures forall i :: 0 <= i < |s| ==> r[i] == Byte(s[i])
  {
    seq(|s|, i requires 0 <= i < |s| => Byte(s[i]))
  }

  lemma BytesConcat(s: string, t: string)
    ensures Bytes(s + t) == Bytes(s) + Bytes(t)
  {
  }

  // `count` bytes of the delimiter are matched; while `lead`, the first two of
  // them are the imagined CR LF in front of the body.
  datatype Scan = Scan(count: nat, lead: bool, toks: seq<Tok>)
  {
    ghost predicate Ok(d: string) {
      count < |d| && (lead ==> 2 <= count)
    }
  }

  // The bytes of the body that are held back as a possible delimiter.
  function Held(d: string, m: Scan): string
    requires m.count <= |d| && (m.lead ==> 2 <= m.count)
  {
    if m.lead then d[2..m.count] else d[..m.count]
  }

  function ScanByte(d: string, m: Scan, c: char): (m': Scan)
    requires Delimiter(d) && m.Ok(d)
    ensures m'.Ok(d)
  {
    if c == d[m.count] then
      if m.count + 1 == |d| then Scan(0, false, m.toks + [NewPart])
      else m.(count := m.count + 1)
    else
      var toks := m.toks + Bytes(Held(d, m));
      if c == '\r' then Scan(1, false, toks) else Scan(0, false, toks + [Byte(c)])
  }

  function ScanAll(d: string, s: string): (m: Scan)
    requires Delimiter(d)
    ensures m.Ok(d)
  {
    if s == "" then Scan(2, true, [])
    else ScanByte(d, ScanAll(d, s[..|s| - 1]), s[|s| - 1])
  }

  lemma ScanSnoc(d: string, s: string, c: char)
    requires Delimiter(d)
    ensures ScanAll(d, s + [c]) == ScanByte(d, ScanAll(d, s), c)
  {
  }

  predicate EndsCrLf(toks: seq<Tok>) {
    |toks| >= 2 && toks[|toks| - 2] == Byte('\r') && toks[|toks| - 1] == Byte('\n')
  }

  predicate EndsCr(toks: seq<Tok>) {
    |toks| >= 1 && toks[|toks| - 1] == Byte('\r')
  }

  // A CR always starts a match of its own, and CR LF is always part of a match:
  // with nothing matched, the content does not end in CR or CR LF.
  lemma {:induction false} IdleScan(d: string, s: string)
    requires Delimiter(d)
    ensures var m := ScanAll(d, s); m.count == 0 ==> !EndsCr(m.toks) && !EndsCrLf(m.toks)
    ensures ScanAll(d, s).lead ==> ScanAll(d, s).toks == []
  {
    if s != "" {
      var n := |s| - 1;
      IdleScan(d, s[..n]);
      var m := ScanAll(d, s[..n]);
      assert ScanAll(d, s) == ScanByte(d, m, s[n]);
      assert d[..4][0] == '\r' && d[..4][1] == '\n';
      if s[n] == '\n' && s[n] != d[m.count] {
        assert m.count != 1;
        var held := Held(d, m);
        assert held != "" ==> held[|held| - 1] == d[m.count - 1];
      }
    }
  }

  /* The calls of the part machine: blocks of content, and boundaries. */

  datatype Event = Content(block: string) | Boundary

  function EventToks(e: Event): seq<Tok> {
    match e
    case Content(block) => Bytes(block)
    case Boundary => [NewPart]
  }

  function Toks(trace: seq<Event>): seq<Tok> {
    if trace == [] then [] else Toks(trace[..|trace| - 1]) + EventToks(trace[|trace| - 1])
  }

  // Behind CR LF in a block only a hyphen can follow.
  ghost predicate Fits(before: seq<Tok>, block: string) {
    && block != ""
    && forall j :: 1 <= j < |block| && EndsCrLf(before + Bytes(block[..j])) ==> block[j] == '-'
  }

  ghost predicate Disciplined(trace: seq<Event>) {
    trace != [] ==>
      var n := |trace| - 1;
      && Disciplined(trace[..n])
      && (trace[n].Content? ==> Fits(Toks(trace[..n]), trace[n].block))
  }

  // The same for events behind others, of which the tokens are given.
  ghost predicate Continues(before: seq<Tok>, trace: seq<Event>) {
    trace != [] ==>
      var n := |trace| - 1;
      && Continues(before, trace[..n])
      && (trace[n].Content? ==> Fits(before + Toks(trace[..n]), trace[n].block))
  }

  lemma ToksSnoc(trace: seq<Event>, e: Event)
    ensures Toks(trace + [e]) == Toks(trace) + EventToks(e)
    ensures Disciplined(trace) && (e.Content? ==> Fits(Toks(trace), e.block)) ==> Disciplined(trace + [e])
  {
    assert (trace + [e])[..|trace|] == trace;
  }

  lemma {:induction false} ToksConcat(t: seq<Event>, u: seq<Event>)
    ensures Toks(t + u) == Toks(t) + Toks(u)
  {
    hide Toks, EventToks;
    if u == [] {
      assert t + u == t;
      NoToks();
    } else {
      var n := |u| - 1;
      assert t + u == t + u[..n] + [u[n]] && u == u[..n] + [u[n]];
      ToksConcat(t, u[..n]);
      ToksSnoc(t + u[..n], u[n]);
      ToksSnoc(u[..n], u[n]);
    }
  }

  lemma NoToks()
    ensures Toks([]) == []
  {
  }

  lemma {:induction false} DisciplinedBehind(t: seq<Event>, u: seq<Event>)
    requires Disciplined(t + u)
    ensures Continues(Toks(t), u)
  {
    hide Fits, Toks;
    if u != [] {
      var n := |u| - 1;
      assert (t + u)[..|t + u| - 1] == t + u[..n];
      DisciplinedBehind(t, u[..n]);
      ToksConcat(t, u[..n]);
    }
  }

  // A block with a CR at most at its start.
  lemma PlainFits(before: seq<Tok>, block: string)
    requires block != "" && '\r' !in block[1..]
    requires |block| > 2 && block[0] == '\r' && block[1] == '\n' ==> block[2] == '-'
    requires |block| > 1 && EndsCr(before) && block[0] == '\n' ==> block[1] == '-'
    ensures Fits(before, block)
  {
    forall j | 1 <= j < |block|
      ensures EndsCrLf(before + Bytes(block[..j])) ==> block[j] == '-'
    {
      var toks := before + Bytes(block[..j]);
      assert toks[|toks| - 1] == Byte(block[j - 1]);
      if j >= 2 {
        assert toks[|toks| - 2] == Byte(block[j - 2]);
        assert j > 2 ==> block[j - 2] == block[1..][j - 3];
      }
    }
  }

  // Content, and behind it the start of a delimiter.
  lemma BrokenFits(before: seq<Tok>, content: string, held: string)
    requires '\r' !in content && held != "" && held[0] == '\r' && '\r' !in held[1..]
    requires |held| > 1 ==> held[1] == '\n'
    requires |held| > 2 ==> held[2] == '-'
    requires content != "" ==> !EndsCrLf(before + Bytes(content)) && (EndsCr(before) ==> content[0] != '\n')
    ensures Fits(before, content + held)
  {
    var block, n := content + held, |content|;
    forall j | 1 <= j < |block|
      ensures EndsCrLf(before + Bytes(block[..j])) ==> block[j] == '-'
    {
      var toks := before + Bytes(block[..j]);
      assert toks[|toks| - 1] == Byte(block[j - 1]);
      if j == n {
        assert block[..j] == content;
      } else if j >= 2 {
        assert toks[|toks| - 2] == Byte(block[j - 2]);
        assert j > n + 2 ==> block[j - 2] == held[1..][j - 3 - n];
      }
    }
  }

  /* The plain definition: split at successive first occurrences. */

  // The index of the first occurrence of d in x, or |x|.
  function FirstAt(d: string, x: string): (i: nat)
    requires d != ""
    ensures i <= |x| && (i < |x| ==> i + |d| <= |x|)
  {
    if |x| < |d| then |x|
    else if x[..|d|] == d then 0
    else 1 + FirstAt(d, x[1..])
  }

  // The tokens up to the last delimiter, and the text behind it.
  function Split(d: string, x: string): (r: (seq<Tok>, string))
    requires d != ""
    decreases |x|
  {
    var i := FirstAt(d, x);
    if i == |x| then ([], x)
    else
      var rest := Split(d, x[i + |d|..]);
      (Bytes(x[..i]) + [NewPart] + rest.0, rest.1)
  }

  predicate EndsWith(s: string, t: string) {
    |t| <= |s| && s[|s| - |t|..] == t
  }

  lemma FirstAtShort(d: string, x: string, c: char)
    requires |x| < |d|
    ensures FirstAt(d, x) == |x|
    ensures FirstAt(d, x + [c]) == if EndsWith(x + [c], d) then |x| + 1 - |d| else |x| + 1
  {
    var y := x + [c];
    if |y| == |d| {
      assert y[..|d|] == y && y[0..] == y;
      assert |y[1..]| < |d|;
    }
  }

  lemma {:induction false} FirstAtSnoc(d: string, x: string, c: char)
    requires d != ""
    ensures FirstAt(d, x + [c]) ==
            if FirstAt(d, x) < |x| then FirstAt(d, x)
            else if EndsWith(x + [c], d) then |x| + 1 - |d|
            else |x| + 1
  {
    var y := x + [c];
    if |x| < |d| {
      FirstAtShort(d, x, c);
    } else {
      assert y[..|d|] == x[..|d|];
      if x[..|d|] != d {
        assert y[1..] == x[1..] + [c];
        FirstAtSnoc(d, x[1..], c);
        EndsTail(y, d);
      }
    }
  }

  lemma EndsTail(y: string, d: string)
    requires |d| < |y|
    ensures EndsWith(y[1..], d) <==> EndsWith(y, d)
  {
  }

  // The split behind one more byte.
  function SplitByte(d: string, r: (seq<Tok>, string), c: char): (seq<Tok>, string) {
    var last := r.1 + [c];
    if EndsWith(last, d) then (r.0 + (Bytes(last[..|last| - |d|]) + [NewPart]), "") else (r.0, last)
  }

  lemma {:induction false} SplitSnoc(d: string, x: string, c: char)
    requires d != ""
    ensures Split(d, x + [c]) == SplitByte(d, Split(d, x), c)
    decreases |x|
  {
    hide FirstAt, EndsWith;
    var y := x + [c];
    FirstAtSnoc(d, x, c);
    var i := FirstAt(d, x);
    if i < |x| {
      var rest := x[i + |d|..];
      assert y[..i] == x[..i] && y[i + |d|..] == rest + [c];
      SplitSnoc(d, rest, c);
      SplitByteFront(d, Bytes(x[..i]) + [NewPart], Split(d, rest), c);
    } else {
      SplitFirst(d, x, c);
    }
  }

  // Nothing was split off yet.
  lemma SplitFirst(d: string, x: string, c: char)
    requires d != "" && FirstAt(d, x) == |x|
    requires FirstAt(d, x + [c]) == if EndsWith(x + [c], d) then |x| + 1 - |d| else |x| + 1
    ensures Split(d, x + [c]) == SplitByte(d, ([], x), c)
  {
    hide FirstAt, Split;
    var y := x + [c];
    if EndsWith(y, d) {
      var i := |y| - |d|;
      SplitAt(d, y, i);
      assert y[i + |d|..] == "";
      SplitEmpty(d);
      Neutral(Bytes(y[..i]) + [NewPart]);
    } else {
      SplitNone(d, y);
    }
  }

  lemma Neutral<T>(a: seq<T>)
    ensures a + [] == a && [] + a == a
  {
  }

  lemma SplitAt(d: string, y: string, i: nat)
    requires d != "" && i < |y| && FirstAt(d, y) == i
    ensures Split(d, y) == (Bytes(y[..i]) + [NewPart] + Split(d, y[i + |d|..]).0, Split(d, y[i + |d|..]).1)
  {
  }

  lemma SplitNone(d: string, y: string)
    requires d != "" && FirstAt(d, y) == |y|
    ensures Split(d, y) == ([], y)
  {
  }

  lemma SplitEmpty(d: string)
    requires d != ""
    ensures Split(d, "") == ([], "")
  {
  }

  lemma SplitByteFront(d: string, front: seq<Tok>, r: (seq<Tok>, string), c: char)
    ensures SplitByte(d, (front + r.0, r.1), c) == (front + SplitByte(d, r, c).0, SplitByte(d, r, c).1)
  {
    var last := r.1 + [c];
    if EndsWith(last, d) {
      var more := Bytes(last[..|last| - |d|]) + [NewPart];
      assert front + (r.0 + more) == front + r.0 + more;
    }
  }

  // Exactly the first k bytes of d are pending at the end of y: no longer
  // prefix of d, and not d itself, ends there.
  ghost predicate Pending(d: string, y: string, k: nat) {
    k < |d| && EndsWith(y, d[..k]) && forall j :: k < j <= |d| ==> !EndsWith(y, d[..j])
  }

  lemma EndsSnoc(y: string, c: char, t: string)
    requires t != ""
    ensures EndsWith(y + [c], t) <==> EndsWith(y, t[..|t| - 1]) && c == t[|t| - 1]
  {
  }

  // Two prefixes of d that end at the same place: the longer has no inner CR.
  lemma OnlyOneCr(d: string, y: string, j: nat, k: nat)
    requires Delimiter(d) && 0 < j < k <= |d| && EndsWith(y, d[..k])
    ensures !EndsWith(y, d[..j])
  {
    assert y[|y| - j] == y[|y| - k..][k - j] == d[..k][k - j] == d[k - j];
    assert d[..4][0] == '\r' && d[..j][0] == d[0];
  }

  lemma PendingStep(d: string, y: string, k: nat, c: char)
    requires Delimiter(d) && Pending(d, y, k)
    ensures EndsWith(y + [c], d) <==> c == d[k] && k + 1 == |d|
    ensures !EndsWith(y + [c], d) ==> Pending(d, y + [c], if c == d[k] then k + 1 else if c == '\r' then 1 else 0)
  {
    assert d[..|d|] == d && d[..4][0] == '\r';
    forall j | 1 <= j <= |d|
      ensures EndsWith(y + [c], d[..j]) <==> c == d[j - 1] && (j - 1 == k || j == 1)
    {
      assert d[..j][..j - 1] == d[..j - 1];
      EndsSnoc(y, c, d[..j]);
      if 0 < j - 1 < k {
        OnlyOneCr(d, y, j - 1, k);
      }
      assert j == 1 ==> EndsWith(y, d[..0]);
    }
    assert EndsWith(y + [c], d[..0]);
  }

  // The imagined CR LF is content unless the body starts with its delimiter.
  function LeadToks(d: string, body: string): seq<Tok>
    requires |d| >= 2
  {
    if d[2..] <= body then [] else Bytes("\r\n")
  }

  // The scan leads exactly while the body is a proper part of the first delimiter.
  ghost predicate LeadIs(d: string, body: string, m: Scan)
    requires |d| >= 2
  {
    && (m.lead <==> |body| < |d| - 2 && body <= d[2..])
    && (m.lead ==> m.count == |body| + 2 && m.toks == [])
  }

  lemma PrefixSnoc(body: string, c: char, t: string)
    ensures body + [c] <= t <==> body <= t && |body| < |t| && c == t[|body|]
    ensures t <= body + [c] <==> t <= body || (|t| == |body| + 1 && t == body + [c])
  {
  }

  lemma {:induction false} LeadKept(d: string, body: string)
    requires Delimiter(d)
    ensures LeadIs(d, body, ScanAll(d, body))
  {
    if body == "" {
      assert "" <= d[2..];
    } else {
      var n := |body| - 1;
      LeadKept(d, body[..n]);
      PrefixSnoc(body[..n], body[n], d[2..]);
      assert body == body[..n] + [body[n]];
    }
  }

  lemma LeadToksStep(d: string, body: string, c: char, m: Scan)
    requires Delimiter(d) && m.Ok(d) && LeadIs(d, body, m)
    ensures LeadToks(d, body + [c]) ==
            if m.lead && c == d[m.count] && m.count + 1 == |d| then [] else LeadToks(d, body)
  {
  }

  // What was passed on and what is held back make up the split.
  ghost predicate Covers(d: string, lead: seq<Tok>, m: Scan, r: (seq<Tok>, string))
    requires m.Ok(d)
  {
    lead + m.toks + Bytes(Held(d, m)) == r.0 + Bytes(r.1)
  }

  lemma CoversNext(d: string, lead: seq<Tok>, m: Scan, r: (seq<Tok>, string), c: char)
    requires Delimiter(d) && m.Ok(d) && Covers(d, lead, m, r)
    requires c == d[m.count] && m.count + 1 < |d|
    ensures Covers(d, lead, m.(count := m.count + 1), (r.0, r.1 + [c]))
  {
    var held := Held(d, m);
    assert Held(d, m.(count := m.count + 1)) == held + [c];
    BytesConcat(held, [c]);
    BytesConcat(r.1, [c]);
    assert lead + m.toks + (Bytes(held) + Bytes([c])) == r.0 + Bytes(r.1) + Bytes([c]);
  }

  lemma CoversBroken(d: string, lead: seq<Tok>, m: Scan, r: (seq<Tok>, string), c: char)
    requires Delimiter(d) && m.Ok(d) && Covers(d, lead, m, r) && c != d[m.count]
    ensures Covers(d, lead, ScanByte(d, m, c), (r.0, r.1 + [c]))
  {
    var m' := ScanByte(d, m, c);
    assert d[..1] == d[..4][..1] == "\r";
    BytesConcat(r.1, [c]);
    var all := lead + m.toks + Bytes(Held(d, m));
    assert Bytes([c]) == [Byte(c)];
    if c == '\r' {
      assert Held(d, m') == [c];
      assert lead + m'.toks + Bytes([c]) == all + Bytes([c]);
    } else {
      assert Held(d, m') == "" && Bytes("") == [];
      assert lead + m'.toks + [] == all + [Byte(c)];
    }
  }

  lemma CoversFull(d: string, lead: seq<Tok>, m: Scan, r: (seq<Tok>, string), c: char)
    requires Delimiter(d) && m.Ok(d) && Covers(d, lead, m, r)
    requires m.count + 1 == |d| && c == d[m.count] && EndsWith(r.1, d[..m.count]) && EndsWith(r.1 + [c], d)
    requires m.lead ==> m.toks == [] && lead == Bytes("\r\n")
    ensures Covers(d, if m.lead then [] else lead, Scan(0, false, m.toks + [NewPart]), SplitByte(d, r, c))
  {
    var last := r.1 + [c];
    var z := last[..|last| - |d|];
    var head := d[..m.count];
    assert r.1 == z + head;
    BytesConcat(z, head);
    var lead' := if m.lead then [] else lead;
    assert lead' + m.toks == r.0 + Bytes(z) by {
      if m.lead {
        assert head == "\r\n" + d[2..m.count] by { assert d[..2] == d[..4][..2]; }
        BytesConcat("\r\n", d[2..m.count]);
        assert [] + Bytes(head) == (r.0 + Bytes(z)) + Bytes(head);
        CancelRight([], r.0 + Bytes(z), Bytes(head));
      } else {
        assert (lead + m.toks) + Bytes(head) == (r.0 + Bytes(z)) + Bytes(head);
        CancelRight(lead + m.toks, r.0 + Bytes(z), Bytes(head));
      }
    }
    assert Held(d, Scan(0, false, m.toks + [NewPart])) == "" && Bytes("") == [];
    assert lead' + (m.toks + [NewPart]) + [] == lead' + m.toks + [NewPart];
    assert r.0 + (Bytes(z) + [NewPart]) + [] == r.0 + Bytes(z) + [NewPart];
  }

  lemma CancelRight<T>(a: seq<T>, b: seq<T>, s: seq<T>)
    requires a + s == b + s
    ensures a == b
  {
    assert |a| == |b|;
    assert a == (a + s)[..|a|];
    assert b == (b + s)[..|b|];
  }

  // The scan against the plain definition: what was passed on and what is held
  // back are together the split of CR LF + body; the held bytes are the pending
  // match, and no longer match is pending.
  lemma {:induction false} ScanIsSplit(d: string, body: string)
    requires Delimiter(d)
    ensures Covers(d, LeadToks(d, body), ScanAll(d, body), Split(d, "\r\n" + body))
    ensures Pending(d, Split(d, "\r\n" + body).1, ScanAll(d, body).count)
  {
    hide Covers, Pending, Split, SplitByte, LeadToks, LeadIs;
    var x := "\r\n" + body;
    if body == "" {
      SplitOfNothing(d);
      assert x == "\r\n";
    } else {
      var n := |body| - 1;
      var c := body[n];
      assert body == body[..n] + [c] && x == "\r\n" + body[..n] + [c];
      ScanIsSplit(d, body[..n]);
      LeadKept(d, body[..n]);
      SplitSnoc(d, "\r\n" + body[..n], c);
      ScanSplitStep(d, body[..n], c, ScanAll(d, body[..n]), Split(d, "\r\n" + body[..n]));
    }
  }

  lemma SplitOfNothing(d: string)
    requires Delimiter(d)
    ensures Covers(d, LeadToks(d, ""), Scan(2, true, []), Split(d, "\r\n"))
    ensures Pending(d, Split(d, "\r\n").1, 2)
  {
  }

  lemma ScanSplitStep(d: string, body: string, c: char, m: Scan, r: (seq<Tok>, string))
    requires Delimiter(d) && m.Ok(d) && LeadIs(d, body, m)
    requires Covers(d, LeadToks(d, body), m, r) && Pending(d, r.1, m.count)
    ensures Covers(d, LeadToks(d, body + [c]), ScanByte(d, m, c), SplitByte(d, r, c))
    ensures Pending(d, SplitByte(d, r, c).1, ScanByte(d, m, c).count)
  {
    hide Covers;
    PendingStep(d, r.1, m.count, c);
    LeadToksStep(d, body, c, m);
    if c != d[m.count] {
      CoversBroken(d, LeadToks(d, body), m, r, c);
    } else if m.count + 1 < |d| {
      CoversNext(d, LeadToks(d, body), m, r, c);
    } else {
      CoversFull(d, LeadToks(d, body), m, r, c);
      NothingPending(d);
    }
  }

  lemma NothingPending(d: string)
    requires Delimiter(d)
    ensures Pending(d, "", 0)
  {
  }
}
