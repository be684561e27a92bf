/**
 What several components share.
 */
module Common {

  datatype Option<+T> = None | Some(value: T)

  // A byte as a number.
  type UInt8 = n: int | 0 <= n < 256

  predicate IsHex(c: char) {
    '0' <= c <= '9' || 'A' <= c <= 'F' || 'a' <= c <= 'f'
  }

  // GetHexVal: the value of a hex digit, and zero for any other character.
  function HexVal(c: char): (v: nat)
    ensures v < 16
  {
    if '0' <= c <= '9' then c as nat - '0' as nat
    else if 'A' <= c <= 'F' then c as nat - 'A' as nat + 10
    else if 'a' <= c <= 'f' then c as nat - 'a' as nat + 10
    else 0
  }

  lemma HexValIs(d: nat)
    requires d < 16
    ensures var lower, upper := "0123456789abcdef"[d], "0123456789ABCDEF"[d];
            HexVal(lower) == HexVal(upper) == d && IsHex(lower) && IsHex(upper)
  {
  }

  lemma NoHexVal(c: char)
    requires c !in "0123456789" && c !in "abcdef" && c !in "ABCDEF"
    ensures HexVal(c) == 0 && !IsHex(c)
  {
    if IsHex(c) {
      HexIsListed(c);
    }
  }

  lemma HexIsListed(c: char)
    requires IsHex(c)
    ensures c in "0123456789" || c in "abcdef" || c in "ABCDEF"
  {
    if c <= '9' {
      assert c == "0123456789"[c as int - '0' as int];
    } else if c <= 'F' {
      assert c == "ABCDEF"[c as int - 'A' as int];
    } else {
      assert c == "abcdef"[c as int - 'a' as int];
    }
  }

  function Min(a: nat, b: nat): nat {
    if a <= b then a else b
  }

  function Max(a: nat, b: nat): nat {
    if a <= b then b else a
  }

  function Sum(sizes: seq<nat>): nat {
    if sizes == [] then 0 else Sum(sizes[..|sizes| - 1]) + sizes[|sizes| - 1]
  }

  lemma SumSnoc(sizes: seq<nat>, n: nat)
    ensures Sum(sizes + [n]) == Sum(sizes) + n
  {
  }

  // ROUNDUP_POWEROFTWO: the next multiple of a unit.
  function RoundUp(n: nat, unit: nat): (r: nat)
    requires unit > 0
    ensures n <= r < n + unit
  {
    if n % unit == 0 then n else n + unit - n % unit
  }

  // The concatenation of a sequence of blocks.
  function Flat<T>(blocks: seq<seq<T>>): seq<T> {
    if blocks == [] then [] else Flat(blocks[..|blocks| - 1]) + blocks[|blocks| - 1]
  }

  lemma FlatSnoc<T>(blocks: seq<seq<T>>, b: seq<T>)
    ensures Flat(blocks + [b]) == Flat(blocks) + b
  {
  }

  lemma FlatNone<T>()
    ensures Flat<T>([]) == []
  {
  }

  lemma {:induction false} FlatConcat<T>(xs: seq<seq<T>>, ys: seq<seq<T>>)
    ensures Flat(xs + ys) == Flat(xs) + Flat(ys)
  {
    hide Flat;
    if ys == [] {
      FlatNone<T>();
      assert xs + ys == xs;
    } else {
      var n := |ys| - 1;
      assert xs + ys == (xs + ys[..n]) + [ys[n]] && ys == ys[..n] + [ys[n]];
      FlatSnoc(xs + ys[..n], ys[n]);
      FlatSnoc(ys[..n], ys[n]);
      FlatConcat(xs, ys[..n]);
    }
  }

  lemma FlatFront<T>(blocks: seq<seq<T>>)
    requires blocks != []
    ensures Flat(blocks) == blocks[0] + Flat(blocks[1..])
  {
    FlatConcat([blocks[0]], blocks[1..]);
    FlatSnoc([], blocks[0]);
    assert [] + [blocks[0]] == [blocks[0]] && [blocks[0]] + blocks[1..] == blocks;
  }

  lemma SliceTail<T>(mem: seq<T>, from: nat, end: nat, k: nat)
    requires from + k <= end <= |mem|
    ensures mem[from..end][k..] == mem[from + k..end]
  {
  }

  lemma SliceUpdate<T>(mem: seq<T>, from: nat, end: nat, i: nat, x: T)
    requires from <= i < end <= |mem|
    ensures mem[i := x][from..end] == mem[from..end][i - from := x]
  {
  }

  lemma SliceAt<T>(mem: seq<T>, from: nat, i: nat, end: nat)
    requires from <= i < end <= |mem|
    ensures mem[from..end] == mem[from..i] + [mem[i]] + mem[i + 1..end]
  {
  }

  lemma SliceSlice<T>(mem: seq<T>, from: nat, n: nat, a: nat, b: nat)
    requires a <= b <= n && from + n <= |mem|
    ensures mem[from..from + n][a..b] == mem[from + a..from + b]
  {
    var s, t := mem[from..from + n][a..b], mem[from + a..from + b];
    forall i | 0 <= i < b - a
      ensures s[i] == t[i]
    {
    }
    assert s == t;
  }

  lemma SliceJoin<T>(mem: seq<T>, a: nat, b: nat, c: nat)
    requires a <= b <= c <= |mem|
    ensures mem[a..b] + mem[b..c] == mem[a..c]
  {
  }
}
