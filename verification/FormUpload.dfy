/**
 A posted form whose files go to the default upload helper: what is on disk at
 the end.
 */
module FormUpload {
  import opened Common
  import opened PartMachine
  import opened MultipartForm
  import UploadLimits

  // The parser's calls as the helper sees them. An accepted file is one that
  // could be opened.
  function Seen(c: Call): UploadLimits.Call {
    match c
    case OnNewFile(_, _, _, answer) => UploadLimits.NewFile(if answer.Some? then UploadLimits.Opens else UploadLimits.Fails)
    case OnFileData(data) => UploadLimits.FileData(data)
    case OnFileEnd => UploadLimits.FileEnd
  }

  function AllSeen(calls: seq<Call>): (r: seq<UploadLimits.Call>)
    ensures |r| == |calls| && forall i :: 0 <= i < |calls| ==> r[i] == Seen(calls[i])
  {
    if calls == [] then [] else AllSeen(calls[..|calls| - 1]) + [Seen(calls[|calls| - 1])]
  }

  // The data of the uploads.
  function Contents(us: seq<Upload>): (r: seq<string>)
    ensures |r| == |us|
  {
    if us == [] then [] else Contents(us[..|us| - 1]) + [us[|us| - 1].data]
  }

  // The pieces of data, in the order of the calls.
  function Pieces(calls: seq<Call>): seq<string> {
    if calls == [] then []
    else Pieces(calls[..|calls| - 1]) + if calls[|calls| - 1].OnFileData? then [calls[|calls| - 1].data] else []
  }

  // The most bytes within the limit that some first pieces have together.
  function Kept(limit: nat, pieces: seq<string>): (n: nat)
    ensures n <= limit && n <= UploadLimits.Total(pieces)
    ensures UploadLimits.Total(pieces) <= limit ==> n == UploadLimits.Total(pieces)
  {
    if UploadLimits.Total(pieces) <= limit then UploadLimits.Total(pieces)
    else Kept(limit, pieces[..|pieces| - 1])
  }

  // The first n bytes of some files that follow each other.
  function Clip(contents: seq<string>, n: nat): (r: seq<string>)
    ensures |r| == |contents|
  {
    if contents == [] then []
    else
      var before, last := contents[..|contents| - 1], contents[|contents| - 1];
      Clip(before, n) + [Start(last, n - UploadLimits.Total(before))]
  }

  function Start(s: string, n: int): string {
    if n <= 0 then "" else if n < |s| then s[..n] else s
  }

  function Limit(l: UploadLimits.Limits): nat {
    Min(l.file, l.total)
  }

  /* Sequences of files. */

  lemma ClipSnoc(contents: seq<string>, x: string, n: nat)
    ensures Clip(contents + [x], n) == Clip(contents, n) + [Start(x, n - UploadLimits.Total(contents))]
  {
    assert (contents + [x])[..|contents|] == contents;
  }

  lemma {:induction false} ClipAll(contents: seq<string>, n: nat)
    requires n >= UploadLimits.Total(contents)
    ensures Clip(contents, n) == contents
  {
    if contents != [] {
      ClipAll(contents[..|contents| - 1], n);
    }
  }

  lemma ContentsSnoc(us: seq<Upload>, u: Upload)
    ensures Contents(us + [u]) == Contents(us) + [u.data]
  {
    assert (us + [u])[..|us|] == us;
  }

  // The last file, seen apart.
  lemma {:induction false} ContentsLast(us: seq<Upload>, u: Upload)
    requires us != []
    ensures Contents(us) == Contents(us[..|us| - 1]) + [us[|us| - 1].data]
    ensures Contents(us[|us| - 1 := u]) == Contents(us[..|us| - 1]) + [u.data]
  {
    ContentsSnoc(us[..|us| - 1], u);
    assert us[|us| - 1 := u] == us[..|us| - 1] + [u];
  }

  lemma KeptSnoc(limit: nat, pieces: seq<string>, x: string)
    ensures Kept(limit, pieces + [x]) ==
            if UploadLimits.Total(pieces) + |x| <= limit then UploadLimits.Total(pieces) + |x| else Kept(limit, pieces)
  {
    UploadLimits.TotalSnoc(pieces, x);
    assert (pieces + [x])[..|pieces|] == pieces;
  }

  // A file that grows behind the first n bytes.
  lemma ClipGrown(before: seq<string>, x: string, data: string, n: nat)
    requires n <= UploadLimits.Total(before) + |x|
    ensures Clip(before + [x + data], n) == Clip(before + [x], n)
  {
    hide Clip;
    ClipSnoc(before, x, n);
    ClipSnoc(before, x + data, n);
    StartGrown(x, data, n - UploadLimits.Total(before));
  }

  lemma StartGrown(x: string, data: string, k: int)
    requires k <= |x|
    ensures Start(x + data, k) == Start(x, k)
  {
    if k > 0 {
      assert (x + data)[..k] == x[..k];
    }
  }

  /* The helper behind the parser's calls. */

  // The helper accepts nothing if a limit is zero.
  ghost predicate Answers(l: UploadLimits.Limits, calls: seq<Call>) {
    forall c :: c in calls && c.OnNewFile? && c.answer.Some? ==> Limit(l) > 0
  }

  ghost predicate LastOpen(us: seq<Upload>) {
    us != [] && us[|us| - 1].open
  }

  // What the helper holds after calls that replay to the uploads us.
  ghost predicate Holds(l: UploadLimits.Limits, calls: seq<Call>, us: seq<Upload>) {
    var seen := AllSeen(calls);
    && (UploadLimits.StreamAfter(l, seen).Open? <==> LastOpen(us))
    && UploadLimits.Offered(l, seen) == UploadLimits.Total(Contents(us)) == UploadLimits.Total(Pieces(calls))
    && UploadLimits.Files(l, seen) == Clip(Contents(us), Kept(Limit(l), Pieces(calls)))
  }

  lemma SeenSnoc(calls: seq<Call>, c: Call)
    ensures AllSeen(calls + [c]) == AllSeen(calls) + [Seen(c)]
    ensures Pieces(calls + [c]) == Pieces(calls) + if c.OnFileData? then [c.data] else []
  {
    assert (calls + [c])[..|calls|] == calls;
  }

  // One more call, as the helper takes it.
  lemma HelperSnoc(l: UploadLimits.Limits, before: seq<UploadLimits.Call>, c: UploadLimits.Call)
    ensures var open := UploadLimits.StreamAfter(l, before).Open?;
            UploadLimits.StreamAfter(l, before + [c]).Open? <==>
            if c.NewFile? then Limit(l) > 0 && c.outcome.Opens? else c.FileData? && open
    ensures UploadLimits.StreamAfter(l, before).Open? ==>
              UploadLimits.Offered(l, before + [c]) == UploadLimits.Offered(l, before) + if c.FileData? then |c.data| else 0
    ensures !c.FileData? ==> UploadLimits.Offered(l, before + [c]) == UploadLimits.Offered(l, before)
    ensures var files := UploadLimits.Files(l, before);
            UploadLimits.Files(l, before + [c]) ==
            if c.NewFile? then if Limit(l) > 0 && c.outcome.Opens? then files + [""] else files
            else if c.FileData? && UploadLimits.Taken(l, before, c.data) && files != [] then
              files[|files| - 1 := files[|files| - 1] + c.data]
            else files
  {
    assert (before + [c])[..|before|] == before;
  }

  lemma FileHolds(l: UploadLimits.Limits, calls: seq<Call>, c: Call, us: seq<Upload>)
    requires Holds(l, calls, us) && c.OnNewFile? && Answers(l, [c]) && Replay(us, c).Some?
    ensures Holds(l, calls + [c], Replay(us, c).value)
  {
    hide AllSeen, UploadLimits.StreamAfter, UploadLimits.Offered, UploadLimits.Files, UploadLimits.Total, Kept, Clip, Contents, Pieces;
    SeenSnoc(calls, c);
    HelperSnoc(l, AllSeen(calls), Seen(c));
    assert Pieces(calls) + [] == Pieces(calls);
    assert c in [c];
    if c.answer.Some? {
      var u := Upload(c.name, c.origFileName, c.mimeType, c.answer.value, "", true);
      ContentsSnoc(us, u);
      UploadLimits.TotalSnoc(Contents(us), "");
      ClipSnoc(Contents(us), "", Kept(Limit(l), Pieces(calls)));
    } else if us != [] {
      assert !us[|us| - 1].open;
    }
  }

  lemma EndHolds(l: UploadLimits.Limits, calls: seq<Call>, us: seq<Upload>)
    requires Holds(l, calls, us)
    ensures Holds(l, calls + [OnFileEnd], CloseUpload(us))
  {
    hide AllSeen, UploadLimits.StreamAfter, UploadLimits.Offered, UploadLimits.Files, UploadLimits.Total, Kept, Clip, Contents, Pieces;
    SeenSnoc(calls, OnFileEnd);
    HelperSnoc(l, AllSeen(calls), UploadLimits.FileEnd);
    assert Pieces(calls) + [] == Pieces(calls);
    if us != [] {
      ContentsLast(us, us[|us| - 1].(open := false));
    }
  }

  lemma DataHolds(l: UploadLimits.Limits, calls: seq<Call>, data: string, us: seq<Upload>)
    requires Holds(l, calls, us) && LastOpen(us)
    ensures Holds(l, calls + [OnFileData(data)], us[|us| - 1 := us[|us| - 1].(data := us[|us| - 1].data + data)])
  {
    hide AllSeen, UploadLimits.StreamAfter, UploadLimits.Offered, UploadLimits.Files, UploadLimits.Total, Kept, Clip, Contents, Pieces;
    SeenSnoc(calls, OnFileData(data));
    HelperSnoc(l, AllSeen(calls), UploadLimits.FileData(data));
    var u := us[|us| - 1];
    ContentsLast(us, u.(data := u.data + data));
    var before, kept := Contents(us[..|us| - 1]), Kept(Limit(l), Pieces(calls));
    UploadLimits.TotalSnoc(Pieces(calls), data);
    UploadLimits.TotalSnoc(before, u.data);
    UploadLimits.TotalSnoc(before, u.data + data);
    KeptSnoc(Limit(l), Pieces(calls), data);
    if UploadLimits.Total(Pieces(calls)) + |data| <= Limit(l) {
      ClipAll(Contents(us), kept);
      ClipAll(before + [u.data + data], kept + |data|);
    } else {
      ClipGrown(before, u.data, data, kept);
    }
  }

  // After every sequence of calls within the protocol, the files on disk are the
  // accepted ones, and they hold the first bytes of the uploads, up to the end of
  // the last piece that keeps all of them within the limits.
  lemma {:induction false} OnDisk(l: UploadLimits.Limits, calls: seq<Call>)
    requires ReplayAll([], calls).Some? && Answers(l, calls)
    ensures Holds(l, calls, ReplayAll([], calls).value)
  {
    hide Holds, ReplayAll, Replay;
    ReplayNone([]);
    if calls == [] {
      NothingHolds(l);
    } else {
      var n := |calls| - 1;
      var before, c := calls[..n], calls[n];
      assert calls == before + [c];
      ReplayPrefix([], before, [c]);
      var us := ReplayAll([], before).value;
      ReplayConcat([], before, [c]);
      ReplayOne(us, c);
      OnDisk(l, before);
      CallHolds(l, before, c, us);
    }
  }

  lemma CallHolds(l: UploadLimits.Limits, calls: seq<Call>, c: Call, us: seq<Upload>)
    requires Holds(l, calls, us) && Answers(l, [c]) && Replay(us, c).Some?
    ensures Holds(l, calls + [c], Replay(us, c).value)
  {
    hide Holds;
    match c
    case OnNewFile(_, _, _, _) => FileHolds(l, calls, c, us);
    case OnFileData(data) => DataHolds(l, calls, data, us);
    case OnFileEnd => EndHolds(l, calls, us);
  }

  lemma NothingHolds(l: UploadLimits.Limits)
    ensures Holds(l, [], [])
  {
  }

  lemma {:induction false} ReplayPrefix(us: seq<Upload>, cs: seq<Call>, ds: seq<Call>)
    requires ReplayAll(us, cs + ds).Some?
    ensures ReplayAll(us, cs).Some?
    decreases |cs|
  {
    hide Replay;
    if cs != [] {
      assert (cs + ds)[1..] == cs[1..] + ds;
      ReplayPrefix(Replay(us, cs[0]).value, cs[1..], ds);
    }
  }

  // The files are whole if and only if all of them together are within the limits.
  lemma WholeIff(l: UploadLimits.Limits, calls: seq<Call>)
    requires ReplayAll([], calls).Some? && Answers(l, calls)
    ensures var contents := Contents(ReplayAll([], calls).value);
            UploadLimits.Files(l, AllSeen(calls)) == contents <==> UploadLimits.Total(contents) <= Limit(l)
  {
    hide ReplayAll, AllSeen, UploadLimits.Files, UploadLimits.Total, Clip;
    OnDisk(l, calls);
    UploadLimits.WithinLimits(l, AllSeen(calls));
    var contents := Contents(ReplayAll([], calls).value);
    if UploadLimits.Total(contents) <= Limit(l) {
      ClipAll(contents, Kept(Limit(l), Pieces(calls)));
    }
  }

  // If nothing was uploaded, nothing was accepted.
  lemma {:induction false} NothingAccepted(l: UploadLimits.Limits, us: seq<Upload>, calls: seq<Call>)
    requires ReplayAll(us, calls) == Some([])
    ensures Answers(l, calls)
    decreases |calls|
  {
    hide Replay;
    if calls != [] {
      var vs := Replay(us, calls[0]).value;
      NothingAccepted(l, vs, calls[1..]);
      ProtocolGrows(vs, calls[1..]);
      AcceptedStays(us, calls[0]);
      assert calls == [calls[0]] + calls[1..];
    }
  }

  lemma AcceptedStays(us: seq<Upload>, c: Call)
    requires Replay(us, c) == Some([])
    ensures c.OnNewFile? ==> c.answer.None?
  {
  }

  lemma {:induction false} NoUploads(h: Surroundings, k: nat, fields: seq<Field>)
    requires forall i :: h.answer(i).None?
    ensures UploadsOf(h, k, fields) == []
    decreases fields
  {
    if fields != [] {
      NoUploads(h, k, fields[1..]);
      NoUploads(h, k + 1, fields[1..]);
    }
  }

  // A form, in any pieces, whose files go to the helper. The answers that the
  // parser got are those of the helper; what is on disk are the first bytes of
  // the accepted files, all of them exactly if they are within the limits.
  method UploadForm(boundary: string, h: Surroundings, unsetCounter: nat, fields: seq<Field>, chunks: seq<string>, l: UploadLimits.Limits)
    returns (files: seq<string>, kept: nat, calls: seq<Call>, answers: seq<bool>)
    requires '\r' !in boundary
    requires forall f :: f in fields ==> Sendable("\r\n--" + boundary, f)
    requires Flat(chunks) == FormBody("\r\n--" + boundary, fields)
    requires Limit(l) == 0 ==> forall i :: h.answer(i).None?
    ensures ReplayAll([], calls) == Some(UploadsOf(h, 0, fields)) && |answers| == |calls|
    ensures forall i :: 0 <= i < |calls| && calls[i].OnNewFile? ==> (answers[i] <==> calls[i].answer.Some?)
    ensures var contents := Contents(UploadsOf(h, 0, fields));
            && files == Clip(contents, kept) && kept == Kept(Limit(l), Pieces(calls))
            && (files == contents <==> UploadLimits.Total(contents) <= Limit(l))
  {
    hide ReplayAll, FormBody, LastWins, FilesOf, UploadsOf, Clip, Contents, Kept, Pieces, AllSeen, Absent;
    hide UploadLimits.Files, UploadLimits.Total, UploadLimits.StreamAfter, UploadLimits.Offered, UploadLimits.Taken;
    var params, stored, uploads;
    params, stored, uploads, calls := ParseForm(boundary, h, unsetCounter, fields, chunks);
    if Limit(l) == 0 {
      NoUploads(h, 0, fields);
      NothingAccepted(l, [], calls);
    }
    files, answers := UploadLimits.Run(l, AllSeen(calls));
    kept := Kept(Limit(l), Pieces(calls));
    OnDisk(l, calls);
    WholeIff(l, calls);
    forall i | 0 <= i < |calls| && calls[i].OnNewFile?
      ensures answers[i] <==> calls[i].answer.Some?
    {
      assert calls[i] in calls;
      AnswersAgree(l, calls, i);
    }
  }

  lemma AnswersAgree(l: UploadLimits.Limits, calls: seq<Call>, i: nat)
    requires Answers(l, calls) && i < |calls| && calls[i].OnNewFile?
    ensures UploadLimits.StreamAfter(l, AllSeen(calls)[..i + 1]).Open? <==> calls[i].answer.Some?
  {
    hide AllSeen;
    assert AllSeen(calls)[..i + 1][|AllSeen(calls)[..i + 1]| - 1] == Seen(calls[i]);
    assert calls[i] in calls;
  }
}
