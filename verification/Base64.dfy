/**
 Base64 with an accumulator of at most six bits, against the groups of section 4
 of RFC 4648.
 */
module Base64 {
  import opened Common

  function Bin6ToBase64(d: nat): char
    requires d < 64
  {
    if d < 26 then 'A' + d as char
    else if d < 52 then 'a' + (d - 26) as char
    else if d < 62 then '0' + (d - 52) as char
    else if d == 62 then '+'
    else '/'
  }

  // Table 1 of RFC 4648.
  lemma Alphabet(d: nat)
    requires d < 64
    ensures Bin6ToBase64(d) == ("ABCDEFGHIJKLMNOPQRSTUVWXYZ" + "abcdefghijklmnopqrstuvwxyz" + "0123456789+/")[d]
  {
  }

  /* Section 4: 24 bits are four digits. */

  // Digit i of a group of three bytes.
  function Digit(a: nat, b: nat, c: nat, i: nat): (d: nat)
    requires a < 256 && b < 256 && c < 256 && i < 4
    ensures d < 64
  {
    var n := a * 0x1_0000 + b * 0x100 + c;
    if i == 0 then n / 0x4_0000
    else if i == 1 then n / 0x1000 % 64
    else if i == 2 then n / 64 % 64
    else n % 64
  }

  function Group(a: nat, b: nat, c: nat, n: nat): (r: string)
    requires a < 256 && b < 256 && c < 256 && n <= 4
    ensures |r| == n
  {
    seq(n, i requires 0 <= i < n => Bin6ToBase64(Digit(a, b, c, i)))
  }

  // The last group is filled up with zero bits and padded.
  function Encoded(s: seq<UInt8>): string {
    if s == [] then ""
    else if |s| == 1 then Group(s[0], 0, 0, 2) + "=="
    else if |s| == 2 then Group(s[0], s[1], 0, 3) + "="
    else Group(s[0], s[1], s[2], 4) + Encoded(s[3..])
  }

  lemma {:induction false} EncodedLength(s: seq<UInt8>)
    ensures |Encoded(s)| == (|s| + 2) / 3 * 4
  {
    hide Group;
    if |s| >= 3 {
      EncodedLength(s[3..]);
    }
  }

  // Whole groups in front.
  lemma {:induction false} EncodedConcat(s: seq<UInt8>, t: seq<UInt8>)
    requires |s| % 3 == 0
    ensures Encoded(s + t) == Encoded(s) + Encoded(t)
  {
    hide Group;
    if s == [] {
      assert s + t == t;
    } else {
      EncodedConcat(s[3..], t);
      assert (s + t)[3..] == s[3..] + t;
    }
  }

  /* Decoding. */

  function Value(c: char): nat {
    if 'A' <= c <= 'Z' then c as nat - 'A' as nat
    else if 'a' <= c <= 'z' then c as nat - 'a' as nat + 26
    else if '0' <= c <= '9' then c as nat - '0' as nat + 52
    else if c == '+' then 62
    else if c == '/' then 63
    else 0
  }

  function Bytes(t: string): (r: seq<UInt8>)
    requires |t| == 4
    ensures |r| == 3
  {
    var n := Value(t[0]) * 0x4_0000 + Value(t[1]) * 0x1000 + Value(t[2]) * 64 + Value(t[3]);
    [n / 0x1_0000 % 256, n / 0x100 % 256, n % 256]
  }

  function Decoded(t: string): seq<UInt8> {
    if |t| < 4 then []
    else if t[2] == '=' then Bytes(t[..4])[..1]
    else if t[3] == '=' then Bytes(t[..4])[..2]
    else Bytes(t[..4]) + Decoded(t[4..])
  }

  lemma ByteParts(a: UInt8, b: UInt8, c: UInt8)
    ensures var n := a * 0x1_0000 + b * 0x100 + c;
            n / 0x1_0000 % 256 == a && n / 0x100 % 256 == b && n % 256 == c
  {
  }

  lemma DigitParts(n: nat)
    requires n < 0x100_0000
    ensures n / 0x4_0000 * 0x4_0000 + n / 0x1000 % 64 * 0x1000 + n / 64 % 64 * 64 + n % 64 == n
  {
    var p := n / 64;
    var q := p / 64;
    assert q == n / 0x1000 && q / 64 == n / 0x4_0000;
    assert n == 64 * p + n % 64 && p == 64 * q + p % 64 && q == 64 * (q / 64) + q % 64;
  }

  // A group of four digits is its three bytes again.
  lemma GroupRoundTrip(a: UInt8, b: UInt8, c: UInt8, t: string)
    requires |t| == 4 && forall i :: 0 <= i < 4 ==> Value(t[i]) == Digit(a, b, c, i)
    ensures Bytes(t) == [a, b, c]
  {
    hide Value;
    ByteParts(a, b, c);
    DigitParts(a * 0x1_0000 + b * 0x100 + c);
    assert Value(t[0]) == Digit(a, b, c, 0) && Value(t[1]) == Digit(a, b, c, 1)
        && Value(t[2]) == Digit(a, b, c, 2) && Value(t[3]) == Digit(a, b, c, 3);
  }

  lemma GroupDigits(a: UInt8, b: UInt8, c: UInt8, n: nat)
    requires n <= 4
    ensures forall i :: 0 <= i < n ==> Value(Group(a, b, c, n)[i]) == Digit(a, b, c, i) && Group(a, b, c, n)[i] != '='
  {
  }

  // Zero bits fill up the digits of a short group.
  lemma FillDigits(a: UInt8, b: UInt8)
    ensures Digit(a, b, 0, 3) == 0 && Digit(a, 0, 0, 2) == 0 && Digit(a, 0, 0, 3) == 0 && Value('=') == 0
  {
    hide Digit;
    DigitBits(a, b, 0);
    DigitBits(a, 0, 0);
  }

  lemma {:induction false} RoundTrip(s: seq<UInt8>)
    ensures Decoded(Encoded(s)) == s
  {
    hide Group, Value, Digit, Bytes;
    if s != [] {
      var t := Encoded(s);
      var b, c := if |s| > 1 then s[1] else 0, if |s| > 2 then s[2] else 0;
      FillDigits(s[0], b);
      GroupDigits(s[0], b, c, if |s| == 1 then 2 else if |s| == 2 then 3 else 4);
      GroupRoundTrip(s[0], b, c, t[..4]);
      if |s| >= 3 {
        RoundTrip(s[3..]);
        assert t[4..] == Encoded(s[3..]);
        assert s == [s[0], s[1], s[2]] + s[3..];
      }
    }
  }

  /* The encoder. Shifts and masks of bytes are quotients and remainders; the
     parts that are or-ed have no bit in common. */

  lemma Quotients(a: nat, b: nat, c: nat, q: nat, r: nat, u: nat, v: nat)
    requires a == 4 * q + r && r < 4 && b == 16 * u + v && u < 16 && v < 16 && c < 256
    ensures var n := a * 0x1_0000 + b * 0x100 + c;
            n / 0x4_0000 == q && n / 0x1000 == 64 * q + (16 * r + u)
  {
  }

  lemma LowerQuotient(a: nat, u: nat, v: nat, q: nat, r: nat)
    requires r < 64
    ensures var n := a * 0x1_0000 + (16 * u + v) * 0x100 + (64 * q + r);
            n / 64 == 64 * (16 * a + u) + (4 * v + q) && n % 64 == r
  {
  }

  lemma Remainder(x: nat, y: nat)
    requires y < 64
    ensures (64 * x + y) % 64 == y
  {
  }

  lemma UpperBits(a: UInt8, b: UInt8, c: UInt8)
    ensures Digit(a, b, c, 0) == a / 4 && Digit(a, b, c, 1) == a % 4 * 16 + b / 16
  {
    Quotients(a, b, c, a / 4, a % 4, b / 16, b % 16);
    Remainder(a / 4, 16 * (a % 4) + b / 16);
  }

  lemma LowerBits(a: UInt8, b: UInt8, c: UInt8)
    ensures Digit(a, b, c, 2) == b % 16 * 4 + c / 64 && Digit(a, b, c, 3) == c % 64
  {
    LowerQuotient(a, b / 16, b % 16, c / 64, c % 64);
    Remainder(16 * a + b / 16, 4 * (b % 16) + c / 64);
  }

  lemma DigitBits(a: UInt8, b: UInt8, c: UInt8)
    ensures Digit(a, b, c, 0) == a / 4 && Digit(a, b, c, 1) == a % 4 * 16 + b / 16
    ensures Digit(a, b, c, 2) == b % 16 * 4 + c / 64 && Digit(a, b, c, 3) == c % 64
  {
    hide Digit;
    UpperBits(a, b, c);
    LowerBits(a, b, c);
  }

  // The digits that are complete in the last group.
  ghost function Begun(last: seq<UInt8>): string
    requires |last| < 3
  {
    if last == [] then "" else if |last| == 1 then Group(last[0], 0, 0, 1) else Group(last[0], last[1], 0, 2)
  }

  // The bits left over in the last group.
  ghost function Bits(last: seq<UInt8>): (n: nat)
    requires |last| < 3
    ensures n < 64
  {
    if last == [] then 0 else if |last| == 1 then last[0] % 4 * 16 else last[1] % 16 * 4
  }

  // What is written after the bytes s, and the bits that are left over.
  ghost function Written(s: seq<UInt8>): string {
    Encoded(s[..|s| / 3 * 3]) + Begun(s[|s| / 3 * 3..])
  }

  ghost function LeftOver(s: seq<UInt8>): (n: nat)
    ensures n < 64
  {
    Bits(s[|s| / 3 * 3..])
  }

  lemma Thirds(n: nat)
    ensures n == n / 3 * 3 + n % 3 && n / 3 * 3 % 3 == 0
    ensures (n + 2) % 3 == (if n % 3 == 0 then 2 else n % 3 - 1)
    ensures (n + 1) % 3 == (if n % 3 == 2 then 0 else n % 3 + 1)
  {
  }

  lemma WholeThirds(w: nat, l: nat)
    requires w % 3 == 0 && l < 3
    ensures (w + l) / 3 * 3 == w
  {
  }

  lemma {:induction false} WrittenParts(whole: seq<UInt8>, last: seq<UInt8>)
    requires |whole| % 3 == 0 && |last| < 3
    ensures Written(whole + last) == Encoded(whole) + Begun(last) && LeftOver(whole + last) == Bits(last)
  {
    hide Encoded, Begun, Bits;
    WholeThirds(|whole|, |last|);
    assert (whole + last)[..|whole|] == whole && (whole + last)[|whole|..] == last;
  }

  // A further byte in the last group.
  lemma {:induction false} BegunNext(last: seq<UInt8>, v: UInt8)
    requires |last| < 2
    ensures Bits(last) + v / (if last == [] then 4 else 16) < 64
    ensures Begun(last + [v]) == Begun(last) + [Bin6ToBase64(Bits(last) + v / if last == [] then 4 else 16)]
    ensures Bits(last + [v]) == if last == [] then v % 4 * 16 else v % 16 * 4
  {
    hide Bin6ToBase64, Digit;
    DigitBits(v, 0, 0);
    if |last| == 1 {
      DigitBits(last[0], 0, 0);
      DigitBits(last[0], v, 0);
      assert Group(last[0], v, 0, 2) == Group(last[0], 0, 0, 1) + [Bin6ToBase64(Bits(last) + v / 16)];
    }
  }

  // The byte that completes it.
  lemma {:induction false} BegunFull(last: seq<UInt8>, v: UInt8)
    requires |last| == 2
    ensures Bits(last) + v / 64 < 64
    ensures Encoded(last + [v]) == Begun(last) + [Bin6ToBase64(Bits(last) + v / 64), Bin6ToBase64(v % 64)]
  {
    hide Bin6ToBase64, Digit;
    var a, b := last[0], last[1];
    DigitBits(a, b, 0);
    DigitBits(a, b, v);
    EncodedGroup(a, b, v);
    assert last + [v] == [a, b, v];
    assert Group(a, b, v, 4) == Group(a, b, 0, 2) + [Bin6ToBase64(Bits(last) + v / 64), Bin6ToBase64(v % 64)];
  }

  lemma EncodedGroup(a: UInt8, b: UInt8, c: UInt8)
    ensures Encoded([a, b, c]) == Group(a, b, c, 4)
  {
  }

  // A byte behind s, by its place in its group.
  lemma {:induction false} WrittenNext(s: seq<UInt8>, v: UInt8)
    ensures |s| % 3 == 0 ==> Written(s + [v]) == Written(s) + [Bin6ToBase64(v / 4)] && LeftOver(s + [v]) == v % 4 * 16
    ensures |s| % 3 == 1 ==>
              && LeftOver(s) + v / 16 < 64 && LeftOver(s + [v]) == v % 16 * 4
              && Written(s + [v]) == Written(s) + [Bin6ToBase64(LeftOver(s) + v / 16)]
    ensures |s| % 3 == 2 ==>
              && LeftOver(s) + v / 64 < 64
              && Written(s + [v]) == Written(s) + [Bin6ToBase64(LeftOver(s) + v / 64), Bin6ToBase64(v % 64)]
  {
    hide Bin6ToBase64, Encoded, Written, LeftOver, Begun, Bits;
    var k := |s| / 3 * 3;
    Thirds(|s|);
    var whole, last := s[..k], s[k..];
    assert s == whole + last && s + [v] == whole + (last + [v]);
    WrittenParts(whole, last);
    NothingBegun();
    if |last| < 2 {
      BegunNext(last, v);
      WrittenParts(whole, last + [v]);
    } else {
      BegunFull(last, v);
      EncodedConcat(whole, last + [v]);
      WrittenParts(s + [v], []);
      assert s + [v] + [] == s + [v];
    }
  }

  lemma NothingBegun()
    ensures Begun([]) == "" && Bits([]) == 0 && Encoded([]) == ""
  {
  }

  function Padding(n: nat): string {
    if n == 1 then "==" else "="
  }

  lemma {:induction false} LastGroup(last: seq<UInt8>)
    requires 0 < |last| < 3
    ensures Encoded(last) == Begun(last) + ([Bin6ToBase64(Bits(last))] + Padding(|last|))
  {
    hide Bin6ToBase64, Digit;
    if |last| == 1 {
      DigitBits(last[0], 0, 0);
      assert Group(last[0], 0, 0, 2) == Group(last[0], 0, 0, 1) + [Bin6ToBase64(Bits(last))];
    } else {
      DigitBits(last[0], last[1], 0);
      assert Group(last[0], last[1], 0, 3) == Group(last[0], last[1], 0, 2) + [Bin6ToBase64(Bits(last))];
    }
  }

  // The end of the text.
  lemma {:induction false} WrittenEnd(s: seq<UInt8>)
    ensures Encoded(s) == Written(s) + if |s| % 3 == 0 then "" else [Bin6ToBase64(LeftOver(s))] + Padding(|s| % 3)
  {
    hide Bin6ToBase64, Encoded, Written, LeftOver, Begun, Bits, Padding;
    var k := |s| / 3 * 3;
    Thirds(|s|);
    var whole, last := s[..k], s[k..];
    assert s == whole + last;
    EncodedConcat(whole, last);
    WrittenParts(whole, last);
    NothingBegun();
    if last != [] {
      LastGroup(last);
    }
  }

  method Put(target: array<char>, at: nat, text: string) returns (end: nat)
    requires at + |text| <= target.Length
    modifies target
    ensures end == at + |text| && target[..end] == old(target[..at]) + text
    ensures target[end..] == old(target[end..])
  {
    forall i | 0 <= i < |text| {
      target[at + i] := text[i];
    }
    end := at + |text|;
  }

  lemma {:induction false} WrittenLength(s: seq<UInt8>)
    ensures |Written(s)| == |s| + |s| / 3
  {
    hide Group, Encoded;
    Thirds(|s|);
    EncodedLength(s[..|s| / 3 * 3]);
  }

  // The state of the loop behind the bytes s.
  ghost predicate Encoding(s: seq<UInt8>, text: string, acc: nat, mod3: int) {
    && text == Written(s)
    && mod3 == (if s == [] then -1 else (|s| + 2) % 3)
    && (|s| % 3 != 0 || s == [] ==> acc == LeftOver(s))
  }

  // One round of the loop: the digits to write and the bits left over.
  method Next(currVal: UInt8, acc: nat, mod3: int, ghost s: seq<UInt8>, ghost text: string)
    returns (digits: string, acc': nat, mod3': int)
    requires Encoding(s, text, acc, mod3)
    ensures Encoding(s + [currVal], text + digits, acc', mod3')
  {
    hide Written, LeftOver, Bin6ToBase64;
    Thirds(|s|);
    Thirds(|s| + 1);
    WrittenNext(s, currVal);
    mod3' := mod3 + 1;
    acc' := acc;
    if mod3' == 3 || mod3' == 0 {
      mod3' := 0;
      digits := [Bin6ToBase64(currVal / 4)];
      acc' := currVal % 4 * 16;
    } else if mod3' == 1 {
      acc' := acc' + currVal / 16;
      digits := [Bin6ToBase64(acc')];
      acc' := currVal % 16 * 4;
    } else {
      acc' := acc' + currVal / 64;
      digits := [Bin6ToBase64(acc'), Bin6ToBase64(currVal % 64)];
    }
  }

  // For every text but the empty one, the result is the encoding. For the empty
  // one, the counter is still below zero and two characters are written.
  method Base64Encode(src: seq<UInt8>, target: array<char>) returns (n: nat)
    requires target.Length >= (|src| + 2) / 3 * 4 && target.Length >= 2
    modifies target
    ensures n <= target.Length && target[n..] == old(target[n..])
    ensures target[..n] == if src == [] then "A=" else Encoded(src)
    ensures target[..n] == Encoded(src) <==> src != []
  {
    hide Encoded, Written, LeftOver, Bin6ToBase64;
    var acc: nat, mod3, pos: nat := 0, -1, 0;
    NothingWritten();
    ghost var before := target[..];
    for x := 0 to |src|
      invariant pos <= target.Length && target[pos..] == before[pos..]
      invariant Encoding(src[..x], target[..pos], acc, mod3)
    {
      assert src[..x + 1] == src[..x] + [src[x]];
      WrittenLength(src[..x + 1]);
      var digits;
      digits, acc, mod3 := Next(src[x], acc, mod3, src[..x], target[..pos]);
      pos := Put(target, pos, digits);
    }
    assert src[..|src|] == src;
    EncodedLength(src);
    var tail := Ending(acc, mod3, src, target[..pos]);
    n := Put(target, pos, tail);
  }

  // What is written behind the loop.
  method Ending(acc: nat, mod3: int, ghost src: seq<UInt8>, ghost text: string) returns (tail: string)
    requires Encoding(src, text, acc, mod3)
    ensures text + tail == if src == [] then "A=" else Encoded(src)
  {
    hide Encoded, Written, LeftOver, Bin6ToBase64;
    NothingWritten();
    WrittenEnd(src);
    Thirds(|src|);
    tail := "";
    if mod3 != 2 {
      tail := [Bin6ToBase64(acc)];
      if mod3 == 0 {
        tail := tail + "==";
      } else {
        tail := tail + "=";
      }
    }
  }

  lemma NothingWritten()
    ensures Written([]) == "" && LeftOver([]) == 0 && Bin6ToBase64(0) == 'A' && Encoded([]) == ""
  {
  }
}
