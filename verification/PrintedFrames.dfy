/**
 WebSocket frames as a sender writes them (section 5.2 of RFC 6455), with header
 bytes as numbers, and what a connection makes of a stream of them.
 */
module PrintedFrames {
  import opened Common
  import opened Unmasking
  import opened WebSocketFrames
  import opened WebSocketConnection
  import opened StreamReadBuffs

  /* Printing. */

  // The byte with the value n.
  function Octet(n: nat): (b: bv8)
    requires n < 256
    ensures b as nat == n
  {
    if n == 0 then 0
    else
      var b := Octet(n - 1);
      NextByte(b);
      b + 1
  }

  lemma NextByte(b: bv8)
    requires b as nat < 255
    ensures (b + 1) as nat == b as nat + 1
  {
  }

  // The k bytes of a number, the highest first.
  function BytesOf(n: nat, k: nat): (s: seq<bv8>)
    ensures |s| == k
  {
    if k == 0 then [] else BytesOf(n / 256, k - 1) + [Octet(n % 256)]
  }

  // A key of four bytes, or no masking.
  predicate KeyOk(key: Option<seq<bv8>>) {
    key.Some? ==> |key.value| == 4
  }

  function MaskBit(key: Option<seq<bv8>>): nat {
    if key.Some? then 128 else 0
  }

  function LengthBytes(n: nat, mask: nat): seq<bv8>
    requires mask <= 128
  {
    if n <= 125 then [Octet(mask + n)]
    else if n <= 65535 then [Octet(mask + 126), Octet(n / 256), Octet(n % 256)]
    else [Octet(mask + 127)] + BytesOf(n, 8)
  }

  function KeyBytes(key: Option<seq<bv8>>): seq<bv8> {
    if key.Some? then key.value else []
  }

  function PayloadBytes(payload: seq<bv8>, key: Option<seq<bv8>>): seq<bv8>
    requires KeyOk(key)
  {
    if key.Some? then seq(|payload|, i requires 0 <= i < |payload| => payload[i] ^ key.value[i % 4]) else payload
  }

  predicate FrameOk(f: Frame) {
    f.opCode < 16 && |f.payload| < 0x1_0000_0000_0000_0000
  }

  function Printed(f: Frame, key: Option<seq<bv8>>): seq<bv8>
    requires FrameOk(f) && KeyOk(key)
  {
    [Octet((if f.fin then 128 else 0) + f.opCode)]
    + (LengthBytes(|f.payload|, MaskBit(key)) + (KeyBytes(key) + PayloadBytes(f.payload, key)))
  }

  /* Parsing. */

  // The fields of a header byte, as numbers.
  lemma LowFour(b: bv8)
    ensures OpCode(b) == b as nat % 16
  {
  }

  lemma LowSeven(b: bv8)
    ensures Marker(b) == b as nat % 128
  {
  }

  lemma High(b: bv8)
    ensures HighBit(b) <==> b as nat >= 128
  {
  }

  lemma FirstByte(fin: bool, opCode: nat)
    requires opCode < 16
    ensures var b := Octet((if fin then 128 else 0) + opCode); HighBit(b) == fin && OpCode(b) == opCode
  {
    hide HighBit, OpCode, Octet;
    var b := Octet((if fin then 128 else 0) + opCode);
    LowFour(b);
    High(b);
  }

  lemma SecondByte(marker: nat, mask: nat)
    requires marker < 128 && (mask == 0 || mask == 128)
    ensures var b := Octet(mask + marker); HighBit(b) == (mask == 128) && Marker(b) == marker
  {
    hide HighBit, Marker, Octet;
    var b := Octet(mask + marker);
    LowSeven(b);
    High(b);
  }

  lemma {:induction false} BytesBack(n: nat, k: nat)
    requires n < Power(k)
    ensures BigEndian(BytesOf(n, k)) == n
  {
    hide Octet;
    if k > 0 {
      assert n / 256 < Power(k - 1);
      BytesBack(n / 256, k - 1);
      assert BytesOf(n, k)[..k - 1] == BytesOf(n / 256, k - 1);
    }
  }

  function Power(k: nat): nat {
    if k == 0 then 1 else 256 * Power(k - 1)
  }

  lemma EightBytes()
    ensures Power(8) == 0x1_0000_0000_0000_0000
  {
    assert Power(4) == 0x1_0000_0000;
  }

  // Where the parts of a printed frame lie.
  lemma {:induction false} Layout(first: bv8, length: seq<bv8>, key: seq<bv8>, payload: seq<bv8>)
    requires length != []
    ensures var s, n := [first] + (length + (key + payload)), 1 + |length|;
            && |s| == n + |key| + |payload| && s[0] == first && s[1] == length[0]
            && s[1..n] == length && s[n..n + |key|] == key && s[n + |key|..] == payload
            && s[2..n] == length[1..]
  {
  }

  // s starts with a length field for n.
  ghost predicate HasLength(s: seq<bv8>, n: nat, mask: nat)
    requires mask == 0 || mask == 128
  {
    var length := LengthBytes(n, mask);
    |s| >= 1 + |length| && s[1] == length[0] && s[2..1 + |length|] == length[1..]
  }

  // The size of the header up to the payload.
  function FieldSize(n: nat): nat {
    if n <= 125 then 2 else if n <= 65535 then 4 else 10
  }

  lemma {:induction false} SizeFound(s: seq<bv8>, n: nat, mask: nat)
    requires (mask == 0 || mask == 128) && HasLength(s, n, mask)
    ensures |s| >= FieldSize(n) >= 2 && HighBit(s[1]) == (mask == 128)
    ensures Marker(s[1]) == LengthMarker(n)
    ensures HeaderSize(s[1]) == FieldSize(n) + if mask == 128 then 4 else 0
  {
    hide Marker, HighBit, BigEndian, LengthBytes, Octet;
    FirstOfLength(n, mask);
    SecondByte(LengthMarker(n), mask);
  }

  function LengthMarker(n: nat): nat {
    if n <= 125 then n else if n <= 65535 then 126 else 127
  }

  lemma FirstOfLength(n: nat, mask: nat)
    requires mask == 0 || mask == 128
    ensures |LengthBytes(n, mask)| == FieldSize(n) - 1 && LengthBytes(n, mask)[0] == Octet(mask + LengthMarker(n))
  {
    hide Octet, BytesOf;
  }

  lemma {:induction false} LengthFound(s: seq<bv8>, n: nat, mask: nat)
    requires (mask == 0 || mask == 128) && HasLength(s, n, mask) && n < 0x1_0000_0000_0000_0000
    ensures |s| >= 2 && HighBit(s[1]) == (mask == 128)
    ensures HeaderSize(s[1]) == FieldSize(n) + if mask == 128 then 4 else 0
    ensures RfcLength(s) == Known(HeaderSize(s[1]) + n)
    ensures n <= 65535 ==> CodeLength(s) == RfcLength(s) && Short(s)
    ensures n > 65535 ==> CodeLength(s) == Known((HeaderSize(s[1]) + n - 6) % 0x1_0000_0000_0000_0000)
  {
    hide Marker, HighBit, BigEndian, HasLength;
    SizeFound(s, n, mask);
    if 125 < n <= 65535 {
      TwoByteLength(s, n, mask);
    } else if n > 65535 {
      EightByteLength(s, n, mask);
    }
  }

  lemma {:induction false} TwoByteLength(s: seq<bv8>, n: nat, mask: nat)
    requires (mask == 0 || mask == 128) && HasLength(s, n, mask) && 125 < n <= 65535
    ensures |s| >= 4 && BigEndian(s[2..4]) == n
  {
    hide BigEndian, BytesOf, Octet;
    var two := LengthBytes(n, mask)[1..];
    assert s[2..4] == two == [Octet(n / 256), Octet(n % 256)];
    assert two[..2] == two;
    TwoBytes(two);
  }

  lemma {:induction false} EightByteLength(s: seq<bv8>, n: nat, mask: nat)
    requires (mask == 0 || mask == 128) && HasLength(s, n, mask) && 65535 < n < 0x1_0000_0000_0000_0000
    ensures |s| >= 10 && BigEndian(s[2..10]) == n
  {
    hide BigEndian, BytesOf, Octet;
    assert s[2..10] == LengthBytes(n, mask)[1..] == BytesOf(n, 8);
    EightBytes();
    BytesBack(n, 8);
  }

  lemma {:induction false} PrintedHasLength(f: Frame, key: Option<seq<bv8>>)
    requires FrameOk(f) && KeyOk(key)
    ensures var s, n := Printed(f, key), |f.payload|;
            && HasLength(s, n, MaskBit(key))
            && |s| == FieldSize(n) + |KeyBytes(key)| + n && |PayloadBytes(f.payload, key)| == n
            && s[0] == Octet((if f.fin then 128 else 0) + f.opCode)
            && s[FieldSize(n)..FieldSize(n) + |KeyBytes(key)|] == KeyBytes(key)
            && s[FieldSize(n) + |KeyBytes(key)|..] == PayloadBytes(f.payload, key)
  {
    hide BytesOf, Octet;
    var length := LengthBytes(|f.payload|, MaskBit(key));
    Layout(Octet((if f.fin then 128 else 0) + f.opCode), length, KeyBytes(key), PayloadBytes(f.payload, key));
  }

  // The length of a printed frame is found, in the code exactly if it has no
  // 64-bit length field; otherwise the code comes out six bytes short.
  lemma {:induction false} PrintedLength(f: Frame, key: Option<seq<bv8>>)
    requires FrameOk(f) && KeyOk(key)
    ensures var s := Printed(f, key);
            && |s| >= 2 && HeaderSize(s[1]) + |f.payload| == |s|
            && RfcLength(s) == Known(|s|)
            && (|f.payload| <= 65535 ==> CodeLength(s) == Known(|s|) && Short(s))
            && (|f.payload| > 65535 ==> CodeLength(s) == Known((|s| - 6) % 0x1_0000_0000_0000_0000))
  {
    hide HasLength, HeaderSize, RfcLength, CodeLength, Short, Printed, PayloadBytes;
    PrintedHasLength(f, key);
    LengthFound(Printed(f, key), |f.payload|, MaskBit(key));
  }

  lemma XorTwice(a: bv8, b: bv8)
    ensures Xor(a ^ b, b) == a
  {
  }

  lemma KeyByte(key: seq<bv8>, i: nat)
    requires |key| == 4
    ensures ByteOf(Word(key[0], key[1], key[2], key[3]), i % 4) == key[i % 4]
  {
    hide Word, ByteOf;
    WordBytes(key[0], key[1], key[2], key[3]);
    assert i % 4 == 0 || i % 4 == 1 || i % 4 == 2 || i % 4 == 3;
  }

  lemma PayloadBack(payload: seq<bv8>, key: seq<bv8>)
    requires |key| == 4
    ensures Masked(PayloadBytes(payload, Some(key)), Word(key[0], key[1], key[2], key[3])) == payload
  {
    hide Word, ByteOf, Xor;
    var w := Word(key[0], key[1], key[2], key[3]);
    var r := Masked(PayloadBytes(payload, Some(key)), w);
    forall i | 0 <= i < |payload|
      ensures r[i] == payload[i]
    {
      KeyByte(key, i);
      XorTwice(payload[i], key[i % 4]);
    }
  }

  // A printed frame is read as that frame, masked or not.
  lemma {:induction false} PrintedParses(f: Frame, key: Option<seq<bv8>>)
    requires FrameOk(f) && KeyOk(key)
    ensures Whole(Printed(f, key)) && ParseWhole(Printed(f, key)) == f
  {
    hide HasLength, HeaderSize, RfcLength, CodeLength, Short, Printed, PayloadBytes, Word, Masked, HighBit, OpCode;
    PrintedHasLength(f, key);
    PrintedLength(f, key);
    var s, at := Printed(f, key), FieldSize(|f.payload|);
    LengthFound(s, |f.payload|, MaskBit(key));
    FirstByte(f.fin, f.opCode);
    WholeParses(s);
    ParsedPayload(s);
    if key.Some? {
      KeyBytesAt(s, at, key.value);
      PayloadBack(f.payload, key.value);
    } else {
      UnmaskedIs(f.payload);
    }
  }

  lemma KeyBytesAt(s: seq<bv8>, at: nat, key: seq<bv8>)
    requires |key| == 4 && at + 4 <= |s| && s[at..at + 4] == key
    ensures s[at] == key[0] && s[at + 1] == key[1] && s[at + 2] == key[2] && s[at + 3] == key[3]
  {
    assert s[at..at + 4][0] == s[at] && s[at..at + 4][1] == s[at + 1];
  }

  lemma UnmaskedIs(payload: seq<bv8>)
    ensures PayloadBytes(payload, None) == payload
  {
  }

  /* A stream of printed frames. */

  // Each frame with its key.
  predicate AllOk(fs: seq<Frame>, keys: seq<Option<seq<bv8>>>) {
    |keys| == |fs| && forall i :: 0 <= i < |fs| ==> FrameOk(fs[i]) && KeyOk(keys[i])
  }

  function AllPrinted(fs: seq<Frame>, keys: seq<Option<seq<bv8>>>): (r: seq<seq<bv8>>)
    requires AllOk(fs, keys)
    ensures |r| == |fs| && forall i :: 0 <= i < |fs| ==> r[i] == Printed(fs[i], keys[i])
  {
    seq(|fs|, i requires 0 <= i < |fs| => Printed(fs[i], keys[i]))
  }

  lemma {:induction false} PrintedFramesFound(fs: seq<Frame>, keys: seq<Option<seq<bv8>>>)
    requires AllOk(fs, keys)
    ensures Frames(Flat(AllPrinted(fs, keys))) == (AllPrinted(fs, keys), [])
    ensures forall f :: f in AllPrinted(fs, keys) ==> Whole(f)
  {
    hide Frames, Whole, Printed, FrameOk, KeyOk;
    var all := AllPrinted(fs, keys);
    forall f | f in all
      ensures Whole(f)
    {
      var i :| 0 <= i < |all| && all[i] == f;
      PrintedParses(fs[i], keys[i]);
    }
    FramesOf(all, []);
    NoFrames();
    assert Flat(all) + [] == Flat(all) && all + [] == all;
  }

  lemma NoFrames()
    ensures Frames([]) == ([], [])
  {
  }

  lemma {:induction false} ParsedBack(fs: seq<Frame>, keys: seq<Option<seq<bv8>>>, n: nat)
    requires AllOk(fs, keys) && n <= |fs| && forall f :: f in AllPrinted(fs, keys)[..n] ==> Whole(f)
    ensures Parsed(AllPrinted(fs, keys)[..n]) == fs[..n]
  {
    hide Whole, Printed, ParseWhole, FrameOk, KeyOk;
    var all := AllPrinted(fs, keys);
    if n > 0 {
      assert all[..n][..n - 1] == all[..n - 1] && all[..n] == all[..n - 1] + [all[n - 1]];
      assert forall f :: f in all[..n - 1] ==> f in all[..n];
      ParsedBack(fs, keys, n - 1);
      assert all[n - 1] in all[..n];
      PrintedParses(fs[n - 1], keys[n - 1]);
      ParsedSnoc(all[..n - 1], all[n - 1]);
    }
  }

  // The frames served from such a stream are the first ones that were sent.
  lemma {:induction false} ServedAreSent(fs: seq<Frame>, keys: seq<Option<seq<bv8>>>, frames: seq<seq<bv8>>, rest: seq<bv8>,
                                         session: Session, r: Reason)
    requires AllOk(fs, keys) && Served(Flat(AllPrinted(fs, keys)), frames, rest, session, r)
    ensures |frames| <= |fs| && Parsed(frames) == fs[..|frames|]
  {
    hide Whole, Printed, Frames, AllOk, HandleAll;
    PrintedFramesFound(fs, keys);
    ServedPrefix(Flat(AllPrinted(fs, keys)), frames, rest, session, r);
    ParsedBack(fs, keys, |frames|);
  }

  /* Messages in any fragments. */

  // Opcode 1 is text; all other data opcodes are taken as binary.
  datatype Sent = Sent(opCode: nat, parts: seq<seq<bv8>>)

  predicate SentOk(m: Sent) {
    0 < m.opCode < 8 && m.parts != [] && |Flat(m.parts)| <= MAX_FRAGMENTED_SIZE
  }

  // The first frame has the opcode, the others continue it, the last is final.
  function PartFrame(m: Sent, i: nat): Frame
    requires i < |m.parts|
  {
    Frame(i == |m.parts| - 1, if i > 0 then 0 else m.opCode, m.parts[i])
  }

  function PartFrames(m: Sent): (fs: seq<Frame>)
    ensures |fs| == |m.parts| && forall i :: 0 <= i < |fs| ==> fs[i] == PartFrame(m, i)
  {
    seq(|m.parts|, i requires 0 <= i < |m.parts| => PartFrame(m, i))
  }

  function SentFrames(ms: seq<Sent>): seq<Frame> {
    if ms == [] then [] else PartFrames(ms[0]) + SentFrames(ms[1..])
  }

  function Received(ms: seq<Sent>): (r: seq<Message>)
    ensures |r| == |ms| && forall i :: 0 <= i < |ms| ==> r[i] == Message(ms[i].opCode == 1, Flat(ms[i].parts))
  {
    seq(|ms|, i requires 0 <= i < |ms| => Message(ms[i].opCode == 1, Flat(ms[i].parts)))
  }

  function Finals(fs: seq<Frame>): (n: nat)
    ensures n <= |fs|
  {
    if fs == [] then 0 else Finals(fs[..|fs| - 1]) + if fs[|fs| - 1].fin then 1 else 0
  }

  lemma {:induction false} FinalsConcat(fs: seq<Frame>, gs: seq<Frame>)
    ensures Finals(fs + gs) == Finals(fs) + Finals(gs)
  {
    if gs == [] {
      assert fs + gs == fs;
    } else {
      assert (fs + gs)[..|fs + gs| - 1] == fs + gs[..|gs| - 1];
      FinalsConcat(fs, gs[..|gs| - 1]);
    }
  }

  lemma {:induction false} NoFinals(fs: seq<Frame>)
    requires forall i :: 0 <= i < |fs| ==> !fs[i].fin
    ensures Finals(fs) == 0
  {
    if fs != [] {
      NoFinals(fs[..|fs| - 1]);
    }
  }

  lemma {:induction false} PayloadsOfParts(m: Sent, k: nat)
    requires k <= |m.parts|
    ensures Payloads(PartFrames(m)[..k]) == Flat(m.parts[..k])
  {
    if k > 0 {
      PayloadsOfParts(m, k - 1);
      assert PartFrames(m)[..k] == PartFrames(m)[..k - 1] + [PartFrame(m, k - 1)];
      assert m.parts[..k] == m.parts[..k - 1] + [m.parts[k - 1]];
      PayloadsSnoc(PartFrames(m)[..k - 1], PartFrame(m, k - 1));
      FlatSnoc(m.parts[..k - 1], m.parts[k - 1]);
    }
  }

  lemma {:induction false} FlatGrows<T>(xs: seq<seq<T>>, k: nat)
    requires k <= |xs|
    ensures |Flat(xs[..k])| <= |Flat(xs)|
  {
    FlatConcat(xs[..k], xs[k..]);
    assert xs == xs[..k] + xs[k..];
  }

  // The first parts of a message, without the last one.
  lemma {:induction false} PartsStart(m: Sent, k: nat)
    requires SentOk(m) && 0 < k < |m.parts|
    ensures Started(PartFrames(m)[..k])
  {
    hide Flat, Payloads;
    var head := PartFrames(m)[..k];
    forall i | 1 <= i < k
      ensures !Breaks(head, i)
    {
      assert head[..i + 1] == PartFrames(m)[..i + 1];
      PayloadsOfParts(m, i + 1);
      FlatGrows(m.parts, i + 1);
    }
  }

  // A whole message in front of other frames.
  lemma {:induction false} WholeMessage(m: Sent, rest: seq<Frame>)
    requires SentOk(m)
    ensures Messages(PartFrames(m) + rest) ==
            ([Message(m.opCode == 1, Flat(m.parts))] + Messages(rest).0, Messages(rest).1)
  {
    hide Flat, Payloads, Messages, Started;
    var fs, n := PartFrames(m), |m.parts| - 1;
    PayloadsOfParts(m, n + 1);
    assert fs[..n + 1] == fs && m.parts[..n + 1] == m.parts;
    if n == 0 {
      assert fs == [fs[0]];
      SingleFrame(fs[0], rest);
      FirstPayload(fs[0]);
    } else {
      PartsStart(m, n);
      assert fs == fs[..n] + [fs[n]];
      MessageEnds(fs[..n], fs[n], rest);
    }
  }

  lemma FirstPayload(f: Frame)
    ensures Payloads([f]) == f.payload
  {
    assert [f][..0] == [];
  }

  // What any first frames of the messages come to: the messages whose last frame
  // is among them.
  lemma {:induction false} SentMessages(ms: seq<Sent>, k: nat)
    requires (forall m :: m in ms ==> SentOk(m)) && k <= |SentFrames(ms)|
    ensures var n := Finals(SentFrames(ms)[..k]);
            n <= |ms| && Messages(SentFrames(ms)[..k]) == (Received(ms)[..n], NoReason)
    decreases |ms|
  {
    hide Messages, SentOk, Received;
    NoMessages();
    if k == 0 {
      assert SentFrames(ms)[..0] == [] && Received(ms)[..0] == [];
    } else {
      var fs, rest := PartFrames(ms[0]), SentFrames(ms[1..]);
      assert ms[0] in ms;
      if k < |fs| {
        assert SentFrames(ms)[..k] == fs[..k] && Received(ms)[..0] == [];
        PartsStart(ms[0], k);
        MessageOpen(fs[..k]);
        NoFinals(fs[..k]);
      } else {
        var j := k - |fs|;
        assert SentFrames(ms)[..k] == fs + rest[..j];
        SentMessages(ms[1..], j);
        SentIsOk(ms[0]);
        WholeMessage(ms[0], rest[..j]);
        FinalsConcat(fs, rest[..j]);
        OneFinal(ms[0]);
        ReceivedFront(ms, Finals(rest[..j]));
      }
    }
  }

  lemma SentIsOk(m: Sent)
    requires SentOk(m)
    ensures m.parts != []
  {
  }

  lemma OneFinal(m: Sent)
    requires m.parts != []
    ensures Finals(PartFrames(m)) == 1
  {
    var fs := PartFrames(m);
    NoFinals(fs[..|fs| - 1]);
  }

  lemma ReceivedFront(ms: seq<Sent>, n: nat)
    requires ms != [] && n <= |ms| - 1
    ensures Received(ms)[..n + 1] == [Message(ms[0].opCode == 1, Flat(ms[0].parts))] + Received(ms[1..])[..n]
  {
  }

  /* Sent messages over a connection. */

  lemma {:induction false} DataPrefix(fs: seq<Frame>, n: nat)
    requires n <= |fs|
    ensures |DataOf(fs[..n])| <= |DataOf(fs)| && DataOf(fs[..n]) == DataOf(fs)[..|DataOf(fs[..n])|]
    decreases n
  {
    if n > 0 {
      DataPrefix(fs[1..], n - 1);
      assert fs[..n][1..] == fs[1..][..n - 1];
    } else {
      assert fs[..0] == [];
    }
  }

  lemma {:induction false} StreamIsShort(fs: seq<Frame>, keys: seq<Option<seq<bv8>>>)
    requires AllOk(fs, keys) && forall f :: f in fs ==> |f.payload| <= 65535
    ensures ShortFrames(Flat(AllPrinted(fs, keys)))
  {
    hide Frames, Short, Printed, FrameOk, KeyOk;
    PrintedFramesFound(fs, keys);
    var all := AllPrinted(fs, keys);
    forall f | f in all
      ensures Short(f)
    {
      var i :| 0 <= i < |all| && all[i] == f;
      assert fs[i] in fs;
      PrintedLength(fs[i], keys[i]);
    }
    assert Short([]) by { NothingIsShort(); }
  }

  lemma NothingIsShort()
    ensures Short([])
  {
  }

  // What is left behind the first n frames does not start with a long one.
  lemma {:induction false} RestIsSmall(fs: seq<Frame>, keys: seq<Option<seq<bv8>>>, n: nat, rest: seq<bv8>)
    requires AllOk(fs, keys) && (forall f :: f in fs ==> |f.payload| <= 65535) && n <= |fs|
    requires Flat(AllPrinted(fs, keys)) == Flat(AllPrinted(fs, keys)[..n]) + rest
    ensures RfcLength(rest).Known? ==> RfcLength(rest).n <= MAX_FRAME_SIZE
  {
    hide Printed, FrameOk, KeyOk, RfcLength, HeaderSize;
    var all := AllPrinted(fs, keys);
    FlatConcat(all[..n], all[n..]);
    assert all == all[..n] + all[n..];
    assert rest == Flat(all)[|Flat(all[..n])|..] == Flat(all[n..]);
    if n == |fs| {
      NothingHasLength();
    } else {
      FlatFront(all[n..]);
      assert fs[n] in fs;
      PrintedLength(fs[n], keys[n]);
      HeaderIsSmall(Printed(fs[n], keys[n])[1]);
      RfcStays(Printed(fs[n], keys[n]), Flat(all[n..][1..]));
    }
  }

  lemma NothingHasLength()
    ensures RfcLength([]).NeedMore?
  {
  }

  lemma HeaderIsSmall(b: bv8)
    ensures HeaderSize(b) <= 14
  {
  }

  lemma {:induction false} AllFlow(fs: seq<Frame>)
    requires forall f :: f in fs ==> Flows(f)
    ensures FirstStop(fs) == |fs|
  {
    hide Flows;
    assert forall i :: 0 <= i < |fs| ==> fs[i] in fs;
  }

  // What was sent and what a connection has done with the frames served.
  ghost predicate Delivered(ms: seq<Sent>, fs: seq<Frame>, n: nat, session: Session) {
    && n <= |fs| && Finals(DataOf(fs[..n])) <= |ms|
    && MessagesIn(session.events) == Log(Received(ms)[..Finals(DataOf(fs[..n]))])
    && Pongs(session.events) == Pings(fs[..n])
    && session.alive
  }

  lemma {:induction false} SentAreDelivered(ms: seq<Sent>, fs: seq<Frame>, keys: seq<Option<seq<bv8>>>, frames: seq<seq<bv8>>,
                                            rest: seq<bv8>, session: Session, r: Reason)
    requires AllOk(fs, keys) && (forall f :: f in fs ==> Flows(f)) && (forall m :: m in ms ==> SentOk(m))
    requires DataOf(fs) == SentFrames(ms)
    requires Served(Flat(AllPrinted(fs, keys)), frames, rest, session, r)
    ensures Delivered(ms, fs, |frames|, session) && session.alive && r.NoReason?
  {
    hide Whole, Printed, Flat, HandleAll, Messages, DataOf, MessagesIn, ClosesIn, Log, Flows, IsClose, Pings, Pongs, Received, SentOk, SentFrames, AllOk;
    ServedAreSent(fs, keys, frames, rest, session, r);
    var n := |frames|;
    assert forall f :: f in fs[..n] ==> f in fs;
    AllFlow(fs[..n]);
    assert fs[..n][..n] == fs[..n];
    DataPrefix(fs, n);
    SentMessages(ms, |DataOf(fs[..n])|);
    ServedMessages(Flat(AllPrinted(fs, keys)), frames, rest, session, r);
    PongsAnswerPings(START, fs[..n]);
    assert Pongs([]) == 0 by { NoPongs(); }
  }

  lemma NoPongs()
    ensures Pongs([]) == 0
  {
  }

  // Messages in any fragments, with pings and pongs anywhere, masked or not, over
  // a stream in any pieces: the handler gets the messages in order, as far as
  // their last frame was handled, and every ping handled is answered.
  method ServeSent(size: nat, ms: seq<Sent>, fs: seq<Frame>, keys: seq<Option<seq<bv8>>>, pieces: seq<nat>)
    returns (session: Session, r: Reason, sizes: seq<nat>, ghost counts: seq<nat>)
    requires AllOk(fs, keys) && (forall f :: f in fs ==> Flows(f) && |f.payload| <= 65535) && (forall m :: m in ms ==> SentOk(m))
    requires DataOf(fs) == SentFrames(ms)
    ensures r.NoReason? && Paced(Flat(AllPrinted(fs, keys)), sizes, counts) && Sum(sizes) == |Flat(AllPrinted(fs, keys))|
    ensures Delivered(ms, fs, counts[|sizes|], session)
    ensures counts[|sizes|] == |fs| ==> MessagesIn(session.events) == Log(Received(ms))
  {
    hide Flat, Ended, Served, Paced, KeepsTo, Frames, ShortFrames, AllOk, Flows, SentOk, SentFrames, DataOf, AllPrinted, Delivered, RfcLength;
    StreamIsShort(fs, keys);
    ghost var stream := Flat(AllPrinted(fs, keys));
    var rest;
    session, r, rest, sizes, counts := Serve(size, Flat(AllPrinted(fs, keys)), pieces);
    ghost var n := counts[|sizes|];
    ghost var frames := Frames(stream).0[..n];
    FoundServed(fs, keys, frames, rest, session, r);
    SentAreDelivered(ms, fs, keys, frames, rest, session, r);
    AllDelivered(ms, fs, n, session);
  }

  lemma {:induction false} FoundServed(fs: seq<Frame>, keys: seq<Option<seq<bv8>>>, frames: seq<seq<bv8>>, rest: seq<bv8>,
                                       session: Session, r: Reason)
    requires AllOk(fs, keys) && (forall f :: f in fs ==> |f.payload| <= 65535)
    requires Ended(Flat(AllPrinted(fs, keys)), frames, rest, session, r)
    ensures Served(Flat(AllPrinted(fs, keys)), frames, rest, session, r)
  {
    hide Flat, Frames, AllOk, RfcLength, HandleAll, Parsed, Whole, ClosesLast;
    var stream := Flat(AllPrinted(fs, keys));
    if !Served(stream, frames, rest, session, r) {
      PrintedFramesFound(fs, keys);
      ServedPrefix(stream, frames, rest, session, NoReason);
      RestIsSmall(fs, keys, |frames|, rest);
      assert false;
    }
  }

  lemma {:induction false} AllDelivered(ms: seq<Sent>, fs: seq<Frame>, n: nat, session: Session)
    requires (forall m :: m in ms ==> SentOk(m)) && DataOf(fs) == SentFrames(ms)
    requires Delivered(ms, fs, n, session)
    ensures n == |fs| ==> MessagesIn(session.events) == Log(Received(ms))
  {
    hide Received, SentOk, DataOf, SentFrames, MessagesIn, Log, Pings, Pongs;
    if n == |fs| {
      assert fs[..n] == fs;
      AllFinal(ms);
      assert Received(ms)[..|ms|] == Received(ms) by { ReceivedSize(ms); }
    }
  }

  lemma ReceivedSize(ms: seq<Sent>)
    ensures |Received(ms)| == |ms|
  {
  }

  lemma {:induction false} AllFinal(ms: seq<Sent>)
    requires forall m :: m in ms ==> SentOk(m)
    ensures Finals(SentFrames(ms)) == |ms|
  {
    if ms != [] {
      assert ms[0] in ms;
      AllFinal(ms[1..]);
      OneFinal(ms[0]);
      FinalsConcat(PartFrames(ms[0]), SentFrames(ms[1..]));
    }
  }
}
