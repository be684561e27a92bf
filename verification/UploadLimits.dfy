/**
 The default upload helper, which writes uploaded files to a temporary directory
 within two limits. Sizes do not wrap around.
 */
module UploadLimits {
  import opened Common

  // How the attempt to open a file ends.
  datatype Outcome = Opens | Fails | Throws

  // CurrFileS: a stream object is there even if its file could not be opened.
  datatype Stream = NoStream | NotOpen | Open

  datatype Call = NewFile(outcome: Outcome) | FileData(data: string) | FileEnd

  /* What the calls come to, without the helper's counters. */

  datatype Limits = Limits(file: nat, total: nat)

  function StreamAfter(l: Limits, calls: seq<Call>): Stream {
    if calls == [] then NoStream
    else
      match calls[|calls| - 1]
      case NewFile(outcome) =>
        if l.file == 0 || l.total == 0 || outcome == Throws then NoStream
        else if outcome == Fails then NotOpen else Open
      case FileData(_) => StreamAfter(l, calls[..|calls| - 1])
      case FileEnd => NoStream
  }

  // The bytes offered to any file, whether they were taken or not.
  function Offered(l: Limits, calls: seq<Call>): nat {
    if calls == [] then 0
    else
      var before, last := calls[..|calls| - 1], calls[|calls| - 1];
      Offered(l, before) + if last.FileData? && !StreamAfter(l, before).NoStream? then |last.data| else 0
  }

  // The bytes offered to the current file.
  function OfferedToFile(l: Limits, calls: seq<Call>): nat {
    if calls == [] then 0
    else
      var before, last := calls[..|calls| - 1], calls[|calls| - 1];
      if last.NewFile? then 0
      else OfferedToFile(l, before) + if last.FileData? && !StreamAfter(l, before).NoStream? then |last.data| else 0
  }

  // Data is taken while all data offered so far, to whatever file, stays within
  // the smaller of the two limits.
  predicate Taken(l: Limits, before: seq<Call>, data: string) {
    StreamAfter(l, before).Open? && Offered(l, before) + |data| <= Min(l.file, l.total)
  }

  // The contents of the files, in the order in which they were opened.
  function Files(l: Limits, calls: seq<Call>): seq<string> {
    if calls == [] then []
    else
      var before := calls[..|calls| - 1];
      var files := Files(l, before);
      match calls[|calls| - 1]
      case NewFile(_) => if StreamAfter(l, calls).Open? then files + [""] else files
      case FileData(data) =>
        if Taken(l, before, data) && files != [] then files[|files| - 1 := files[|files| - 1] + data] else files
      case FileEnd => files
  }

  function Total(files: seq<string>): nat {
    if files == [] then 0 else Total(files[..|files| - 1]) + |files[|files| - 1]|
  }

  /* The helper. */

  class TempFileUploadHelper {
    const limits: Limits
    var currFileS: Stream
    var currFileSize: nat
    var totalFileSize: nat
    // The files on disk; an open stream writes to the last one.
    var files: seq<string>

    constructor (limits: Limits)
      ensures this.limits == limits && After([])
    {
      this.limits := limits;
      currFileS := NoStream;
      currFileSize := 0;
      totalFileSize := 0;
      files := [];
    }

    // The state after these calls. The total counts only what passed the first
    // limit, so it is exact as long as that limit is kept.
    ghost predicate After(calls: seq<Call>)
      reads this
    {
      && currFileS == StreamAfter(limits, calls)
      && currFileSize == Offered(limits, calls)
      && totalFileSize <= currFileSize
      && (currFileSize <= limits.file ==> totalFileSize == currFileSize)
      && files == Files(limits, calls)
      && (currFileS.Open? ==> files != [])
    }

    method OnNewFile(outcome: Outcome, ghost calls: seq<Call>) returns (ok: bool)
      requires After(calls)
      modifies this
      ensures After(calls + [NewFile(outcome)]) && (ok <==> currFileS.Open?)
    {
      assert (calls + [NewFile(outcome)])[..|calls|] == calls;
      currFileS := NoStream;
      if limits.file == 0 || limits.total == 0 || outcome == Throws {
        return false;
      }
      currFileS := if outcome == Opens then Open else NotOpen;
      if outcome == Opens {
        files := files + [""];
      }
      return outcome == Opens;
    }

    method OnFileData(data: string, ghost calls: seq<Call>) returns (ok: bool)
      requires After(calls)
      modifies this
      ensures After(calls + [FileData(data)]) && (ok <==> Taken(limits, calls, data))
    {
      assert (calls + [FileData(data)])[..|calls|] == calls;
      if currFileS.NoStream? {
        return false;
      }
      currFileSize := currFileSize + |data|;
      if currFileSize > limits.file {
        return false;
      }
      totalFileSize := totalFileSize + |data|;
      if totalFileSize > limits.total {
        return false;
      }
      if currFileS.Open? {
        files := files[|files| - 1 := files[|files| - 1] + data];
      }
      return currFileS.Open?;
    }

    method OnFileEnd(ghost calls: seq<Call>)
      requires After(calls)
      modifies this
      ensures After(calls + [FileEnd])
    {
      assert (calls + [FileEnd])[..|calls|] == calls;
      currFileS := NoStream;
    }
  }

  // Any sequence of calls.
  method Run(limits: Limits, calls: seq<Call>) returns (files: seq<string>, answers: seq<bool>)
    ensures files == Files(limits, calls) && Total(files) <= Min(limits.file, limits.total)
    ensures |answers| == |calls|
    ensures forall i :: 0 <= i < |calls| ==>
              (calls[i].FileData? ==> (answers[i] <==> Taken(limits, calls[..i], calls[i].data)))
              && (calls[i].NewFile? ==> (answers[i] <==> StreamAfter(limits, calls[..i + 1]).Open?))
  {
    hide Taken, Files, StreamAfter, Offered;
    var h := new TempFileUploadHelper(limits);
    answers := [];
    for i := 0 to |calls|
      invariant h.After(calls[..i]) && h.limits == limits && |answers| == i
      invariant forall j :: 0 <= j < i ==>
                  (calls[j].FileData? ==> (answers[j] <==> Taken(limits, calls[..j], calls[j].data)))
                  && (calls[j].NewFile? ==> (answers[j] <==> StreamAfter(limits, calls[..j + 1]).Open?))
    {
      assert calls[..i + 1] == calls[..i] + [calls[i]];
      var ok := true;
      match calls[i] {
        case NewFile(outcome) => ok := h.OnNewFile(outcome, calls[..i]);
        case FileData(data) => ok := h.OnFileData(data, calls[..i]);
        case FileEnd => h.OnFileEnd(calls[..i]);
      }
      answers := answers + [ok];
    }
    assert calls[..|calls|] == calls;
    files := h.files;
    WithinLimits(limits, calls);
  }

  lemma TotalSnoc(files: seq<string>, s: string)
    ensures Total(files + [s]) == Total(files) + |s|
  {
  }

  // All files together stay within both limits.
  lemma {:induction false} WithinLimits(l: Limits, calls: seq<Call>)
    ensures Total(Files(l, calls)) <= Min(l.file, l.total) && Total(Files(l, calls)) <= Offered(l, calls)
  {
    if calls != [] {
      var before := calls[..|calls| - 1];
      WithinLimits(l, before);
      var files := Files(l, before);
      TotalSnoc(files, "");
      if files != [] && calls[|calls| - 1].FileData? {
        var n := |files| - 1;
        var f := files[n] + calls[|calls| - 1].data;
        assert files == files[..n] + [files[n]] && files[n := f] == files[..n] + [f];
        TotalSnoc(files[..n], files[n]);
        TotalSnoc(files[..n], f);
      }
    }
  }

  /* The first limit is documented as one for a single file. */

  // Data for an open file is taken exactly when the file stays within the first
  // limit and all files together within the second.
  ghost predicate AsDocumented(l: Limits, before: seq<Call>, data: string) {
    StreamAfter(l, before).Open? ==>
      (Taken(l, before, data) <==> OfferedToFile(l, before) + |data| <= l.file && Offered(l, before) + |data| <= l.total)
  }

  lemma {:induction false} FileWithinOffered(l: Limits, calls: seq<Call>)
    ensures OfferedToFile(l, calls) <= Offered(l, calls)
  {
    if calls != [] {
      FileWithinOffered(l, calls[..|calls| - 1]);
    }
  }

  // The size of the current file is never reset, so the helper does what is
  // documented if and only if the total limit is not above the file limit, or
  // no file is taken at all.
  lemma DocumentedIffTotalFirst(l: Limits)
    ensures (forall before, data :: AsDocumented(l, before, data)) <==> l.total <= l.file || l.file == 0
  {
    if l.file == 0 {
      forall before, data
        ensures AsDocumented(l, before, data)
      {
        NothingOpens(l, before);
      }
    } else if l.total <= l.file {
      forall before, data
        ensures AsDocumented(l, before, data)
      {
        FileWithinOffered(l, before);
      }
    } else {
      SecondFileRefused(l);
    }
  }

  // What is offered to a file that could not be opened counts, but not what is
  // offered after the attempt has thrown.
  lemma FailedFileCounts(l: Limits, outcome: Outcome, first: string, second: string)
    requires l.file > 0 && l.total > 0
    ensures Taken(l, [NewFile(outcome), FileData(first), FileEnd, NewFile(Opens)], second) <==>
            (if outcome == Throws then 0 else |first|) + |second| <= Min(l.file, l.total)
  {
    var c1 := [NewFile(outcome)];
    var c2 := c1 + [FileData(first)];
    var c3 := c2 + [FileEnd];
    var c4 := c3 + [NewFile(Opens)];
    assert c1[..0] == [] && c2[..1] == c1 && c3[..2] == c2 && c4[..3] == c3;
    assert c4 == [NewFile(outcome), FileData(first), FileEnd, NewFile(Opens)];
    assert StreamAfter(l, c1) == if outcome == Opens then Open else if outcome == Fails then NotOpen else NoStream;
    assert Offered(l, c1) == 0;
    assert Offered(l, c2) == Offered(l, c3) == Offered(l, c4) == if outcome == Throws then 0 else |first|;
    assert StreamAfter(l, c4).Open?;
  }

  lemma {:induction false} NothingOpens(l: Limits, calls: seq<Call>)
    requires l.file == 0
    ensures StreamAfter(l, calls).NoStream?
  {
    if calls != [] {
      NothingOpens(l, calls[..|calls| - 1]);
    }
  }

  // A first file as large as allowed leaves no room for a second one.
  lemma SecondFileRefused(l: Limits)
    requires 0 < l.file < l.total
    ensures exists before, data :: !AsDocumented(l, before, data)
  {
    var full := seq(l.file, i => 'x');
    var c1 := [NewFile(Opens)];
    var c2 := c1 + [FileData(full)];
    var c3 := c2 + [FileEnd];
    var c4 := c3 + [NewFile(Opens)];
    assert c1[..0] == [] && c2[..1] == c1 && c3[..2] == c2 && c4[..3] == c3;
    assert StreamAfter(l, c1).Open? && Offered(l, c1) == 0;
    assert Offered(l, c2) == Offered(l, c3) == Offered(l, c4) == l.file;
    assert StreamAfter(l, c4).Open? && OfferedToFile(l, c4) == 0;
    assert !AsDocumented(l, c4, "x");
  }
}
