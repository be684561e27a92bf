/**
 Unmasking a WebSocket payload in place, a 32-bit word at a time, on a machine
 that stores words with the low byte first.
 */
module Unmasking {

  // A word of memory, and the bytes it is made of.
  function Word(b0: bv8, b1: bv8, b2: bv8, b3: bv8): bv32 {
    (b0 as bv32) | (b1 as bv32 << 8) | (b2 as bv32 << 16) | (b3 as bv32 << 24)
  }

  function Xor(a: bv8, b: bv8): bv8 {
    a ^ b
  }

  function XorWords(a: bv32, b: bv32): bv32 {
    a ^ b
  }

  function Shift(w: bv32): bv32 {
    w >> 8
  }

  function Low(w: bv32): bv8 {
    (w & 0xFF) as bv8
  }

  // The key after i bytes of the tail.
  function Shifted(w: bv32, i: nat): bv32 {
    if i == 0 then w else Shift(Shifted(w, i - 1))
  }

  function ByteOf(w: bv32, i: nat): bv8 {
    Low(Shifted(w, i))
  }

  lemma LowXor(a: bv32, b: bv32)
    ensures Low(XorWords(a, b)) == Xor(Low(a), Low(b))
  {
  }

  lemma ShiftXor(a: bv32, b: bv32)
    ensures Shift(XorWords(a, b)) == XorWords(Shift(a), Shift(b))
  {
  }

  lemma {:induction false} ByteXor(a: bv32, b: bv32, i: nat)
    ensures Shifted(XorWords(a, b), i) == XorWords(Shifted(a, i), Shifted(b, i))
    ensures ByteOf(XorWords(a, b), i) == Xor(ByteOf(a, i), ByteOf(b, i))
  {
    hide Xor, XorWords, Shift, Low;
    if i > 0 {
      ByteXor(a, b, i - 1);
      ShiftXor(Shifted(a, i - 1), Shifted(b, i - 1));
    }
    LowXor(Shifted(a, i), Shifted(b, i));
  }

  lemma WordBytes(b0: bv8, b1: bv8, b2: bv8, b3: bv8)
    ensures var w := Word(b0, b1, b2, b3);
            ByteOf(w, 0) == b0 && ByteOf(w, 1) == b1 && ByteOf(w, 2) == b2 && ByteOf(w, 3) == b3
  {
  }

  // Section 5.3 of RFC 6455: byte i is combined with byte i modulo 4 of the key.
  function Masked(s: seq<bv8>, key: bv32): (r: seq<bv8>)
    ensures |r| == |s|
  {
    seq(|s|, i requires 0 <= i < |s| => Xor(s[i], ByteOf(key, i % 4)))
  }

  // Masking twice gives the payload back.
  lemma MaskedTwice(s: seq<bv8>, key: bv32)
    ensures Masked(Masked(s, key), key) == s
  {
  }

  // What the word loop writes back for one word.
  lemma XorWord(b0: bv8, b1: bv8, b2: bv8, b3: bv8, key: bv32)
    ensures var w := XorWords(Word(b0, b1, b2, b3), key);
            && ByteOf(w, 0) == Xor(b0, ByteOf(key, 0)) && ByteOf(w, 1) == Xor(b1, ByteOf(key, 1))
            && ByteOf(w, 2) == Xor(b2, ByteOf(key, 2)) && ByteOf(w, 3) == Xor(b3, ByteOf(key, 3))
  {
    hide Word, Low, Shifted, Xor, XorWords, ByteOf;
    WordBytes(b0, b1, b2, b3);
    ByteXor(Word(b0, b1, b2, b3), key, 0);
    ByteXor(Word(b0, b1, b2, b3), key, 1);
    ByteXor(Word(b0, b1, b2, b3), key, 2);
    ByteXor(Word(b0, b1, b2, b3), key, 3);
  }

  // Positions from..pos are unmasked, the rest up to the end is still as received.
  ghost predicate Partly(mem: seq<bv8>, payload: seq<bv8>, from: nat, pos: nat, key: bv32) {
    && from <= pos <= from + |payload| <= |mem|
    && (forall i :: from <= i < pos ==> mem[i] == Xor(payload[i - from], ByteOf(key, (i - from) % 4)))
    && (forall i :: pos <= i < from + |payload| ==> mem[i] == payload[i - from])
  }

  method StoreWord(buff: array<bv8>, at: nat, w: bv32)
    requires at + 4 <= buff.Length
    modifies buff
    ensures forall i :: 0 <= i < buff.Length ==> buff[i] == if at <= i < at + 4 then ByteOf(w, i - at) else old(buff[i])
  {
    hide ByteOf;
    buff[at] := ByteOf(w, 0);
    buff[at + 1] := ByteOf(w, 1);
    buff[at + 2] := ByteOf(w, 2);
    buff[at + 3] := ByteOf(w, 3);
  }

  lemma WordStep(mem: seq<bv8>, mem': seq<bv8>, payload: seq<bv8>, from: nat, pos: nat, key: bv32)
    requires Partly(mem, payload, from, pos, key) && (pos - from) % 4 == 0 && pos + 4 < from + |payload| && |mem'| == |mem|
    requires forall i :: 0 <= i < |mem| ==>
               mem'[i] == if pos <= i < pos + 4
                          then ByteOf(XorWords(Word(mem[pos], mem[pos + 1], mem[pos + 2], mem[pos + 3]), key), i - pos)
                          else mem[i]
    ensures Partly(mem', payload, from, pos + 4, key)
  {
    hide ByteOf, Xor, XorWords, Word;
    XorWord(mem[pos], mem[pos + 1], mem[pos + 2], mem[pos + 3], key);
    forall i | pos <= i < pos + 4
      ensures mem'[i] == Xor(payload[i - from], ByteOf(key, (i - from) % 4))
    {
      assert (i - from) % 4 == i - pos;
      assert mem[i] == payload[i - from];
      assert i == pos || i == pos + 1 || i == pos + 2 || i == pos + 3;
    }
  }

  // Unmasks buff[from..end) in place: whole words as long as more than a word is
  // left, then a tail of at most four bytes with a shifted key.
  method Unmask(buff: array<bv8>, from: nat, end: nat, key: bv32)
    requires from <= end <= buff.Length
    modifies buff
    ensures forall i :: 0 <= i < buff.Length && !(from <= i < end) ==> buff[i] == old(buff[i])
    ensures buff[from..end] == Masked(old(buff[from..end]), key)
  {
    hide Low, Shift, Shifted, Word, ByteOf, Xor, XorWords;
    ghost var payload := buff[from..end];
    var pos := from;
    if end - from >= 4 {
      while pos + 4 < end
        invariant pos < end && (pos - from) % 4 == 0
        invariant Partly(buff[..], payload, from, pos, key)
        invariant forall i :: 0 <= i < buff.Length && !(from <= i < end) ==> buff[i] == old(buff[i])
      {
        ghost var mem := buff[..];
        StoreWord(buff, pos, XorWords(Word(buff[pos], buff[pos + 1], buff[pos + 2], buff[pos + 3]), key));
        WordStep(mem, buff[..], payload, from, pos, key);
        pos := pos + 4;
      }
    }
    UnmaskTail(buff, from, pos, end, key, payload);
    assert forall i :: from <= i < end ==> buff[i] == buff[..][i];
  }

  method UnmaskTail(buff: array<bv8>, from: nat, tail: nat, end: nat, key: bv32, ghost payload: seq<bv8>)
    requires Partly(buff[..], payload, from, tail, key) && (tail - from) % 4 == 0 && end == from + |payload| <= tail + 4
    modifies buff
    ensures forall i :: 0 <= i < buff.Length && !(tail <= i < end) ==> buff[i] == old(buff[i])
    ensures Partly(buff[..], payload, from, end, key)
  {
    hide Low, Shift, Xor;
    var pos, rest := tail, key;
    while pos != end
      invariant tail <= pos <= end && rest == Shifted(key, pos - tail)
      invariant forall i :: 0 <= i < buff.Length && !(tail <= i < end) ==> buff[i] == old(buff[i])
      invariant Partly(buff[..], payload, from, pos, key)
    {
      assert (pos - from) % 4 == pos - tail;
      buff[pos] := Xor(buff[pos], Low(rest));
      rest := Shift(rest);
      pos := pos + 1;
    }
  }
}
