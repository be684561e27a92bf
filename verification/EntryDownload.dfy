/**
 A deflated zip entry as the body of a response with its announced length.
 */
module EntryDownload {
  import opened Common
  import opened WriteBuffQueues
  import opened ResponseBody
  import opened GzipEnvelope

  // Bytes as the write queue holds them.
  function Text(bytes: seq<UInt8>): (s: string)
    ensures |s| == |bytes|
    ensures forall i :: 0 <= i < |bytes| ==> s[i] == bytes[i] as char
  {
    seq(|bytes|, i requires 0 <= i < |bytes| => bytes[i] as char)
  }

  lemma TextConcat(a: seq<UInt8>, b: seq<UInt8>)
    ensures Text(a + b) == Text(a) + Text(b)
  {
  }

  lemma {:induction false} DataPrefix(script: seq<ReadResult>, r: ReadResult, k: nat)
    requires k <= |script|
    ensures ResponseBody.Data(script + [r], k) == ResponseBody.Data(script, k)
  {
    if k > 0 {
      DataPrefix(script, r, k - 1);
    }
  }

  // The answers so far have yielded the first n bytes, and none was the last.
  ghost predicate Reading(script: seq<ReadResult>, all: seq<UInt8>, n: nat) {
    && n < |all| && ResponseBody.Data(script, |script|) == Text(all[..n])
    && (forall r :: r in script ==> |r.data| <= WRITE_BUFF_SIZE)
    && (forall j :: 0 <= j < |script| ==> GoesOn(script, |all|, j))
  }

  // They have yielded all, and the last one was the last.
  ghost predicate Done(script: seq<ReadResult>, all: seq<UInt8>) {
    && script != [] && ResponseBody.Data(script, |script|) == Text(all)
    && (forall r :: r in script ==> |r.data| <= WRITE_BUFF_SIZE)
    && (forall j :: 0 <= j < |script| - 1 ==> GoesOn(script, |all|, j))
    && script[|script| - 1].finished
  }

  lemma NextAnswer(script: seq<ReadResult>, all: seq<UInt8>, n: nat, m: nat, finished: bool)
    requires Reading(script, all, n) && n <= m <= |all| && m - n <= WRITE_BUFF_SIZE && (finished <==> m == |all|)
    ensures var script' := script + [ReadResult(Text(all[n..m]), finished)];
            if finished then Done(script', all) else Reading(script', all, m)
  {
    hide Text;
    var r := ReadResult(Text(all[n..m]), finished);
    var script' := script + [r];
    TextConcat(all[..n], all[n..m]);
    assert all[..n] + all[n..m] == all[..m] && all[..|all|] == all;
    DataPrefix(script, r, |script|);
    assert ResponseBody.Data(script', |script'|) == Text(all[..m]);
    forall j | 0 <= j < |script|
      ensures GoesOn(script', |all|, j)
    {
      assert GoesOn(script, |all|, j);
      DataPrefix(script, r, j + 1);
    }
    if !finished {
      TextLength(all[..m]);
      assert GoesOn(script', |all|, |script|);
    }
  }

  lemma TextLength(bytes: seq<UInt8>)
    ensures |Text(bytes)| == |bytes|
  {
  }

  // The answers of the response to reads of a whole write buffer.
  method Answers(z: ZipResponse) returns (script: seq<ReadResult>)
    requires z.Valid() && z.Clean() && z.modified && z.cState.CsHeader?
    modifies z
    ensures Done(script, z.Envelope())
  {
    hide Done, Reading, Text, ZipResponse.Envelope;
    ghost var all := z.Envelope();
    EnvelopeStart(z);
    script := [];
    var finished := false;
    ReadingStart(all);
    while !finished
      invariant z.Valid() && z.Clean() && z.Position() <= |all|
      invariant z.Sound(WRITE_BUFF_SIZE)
      invariant if finished then Done(script, all) else Reading(script, all, z.Position())
      decreases !finished, |all| - z.Position()
    {
      ghost var from := z.Position();
      var target := new UInt8[WRITE_BUFF_SIZE];
      var n;
      ReadingBound(script, all, from);
      n, finished := z.Read(target, WRITE_BUFF_SIZE);
      NextAnswer(script, all, from, z.Position(), finished);
      script := script + [ReadResult(Text(target[..n]), finished)];
    }
  }

  lemma ReadingStart(all: seq<UInt8>)
    requires |all| > 0
    ensures Reading([], all, 0)
  {
  }

  lemma ReadingBound(script: seq<ReadResult>, all: seq<UInt8>, n: nat)
    requires Reading(script, all, n)
    ensures n < |all|
  {
  }

  // The loop stops with the last answer.
  lemma StopsWithLast(script: seq<ReadResult>, all: seq<UInt8>, k: nat)
    requires Done(script, all) && |all| > 0 && StopsAt(script, |all|, k)
    ensures k == |script|
  {
    assert !GoesOn(script, |all|, |script| - 1);
  }

  // Announced with its own length, an entry arrives whole, as a gzip member, and
  // the connection is kept.
  method ServeEntry(data: seq<UInt8>, crc32: nat, size: nat, behind: seq<UInt8>) returns (sent: string, length: nat, keep: bool)
    requires crc32 < 0x1_0000_0000 && size < 0x1_0000_0000 && |behind| >= 10
    ensures sent == Text(GzipFile(data, crc32, size)) && length == |sent| && keep
  {
    hide Text, GzipFile, Done, StopsAt, State.Good, Flat;
    var z := new ZipResponse(data, crc32, size, 1, 0, behind);
    length := z.GetLength();
    EnvelopeStart(z);
    var script := Answers(z);
    ghost var all := z.Envelope();
    DoneFacts(script, all);
    var q := new WriteBuffQueue<char>(WRITE_BUFF_SIZE);
    var wire := new Wire();
    EmptyQueue();
    var total, k;
    total, keep, k := SendFixed(q, wire, script, length);
    StopsWithLast(script, all, k);
    sent := wire.sent;
    assert sent == [] + [] + Text(all);
  }

  lemma DoneFacts(script: seq<ReadResult>, all: seq<UInt8>)
    requires Done(script, all)
    ensures ResponseBody.Data(script, |script|) == Text(all) && |Text(all)| == |all| && script != []
    ensures Answer(script, |script| - 1).finished && forall r :: r in script ==> |r.data| <= WRITE_BUFF_SIZE
  {
  }
}
