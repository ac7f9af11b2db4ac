/** What one check may hold in memory: validation of the manuscript and the loop over the
    reference files. */
module Uploads {
  import opened Executor
  import opened Matches
  import opened Sorting

  datatype Upload = Upload(name: string, supported: bool, data: seq<bv8>)

  datatype Settings = Settings(maxFileBytes: nat, maxRequestBytes: nat, maxReferenceFiles: nat)

  datatype Refusal = Unsupported | EmptyFile | FileTooLarge | NothingToCompare | RequestTooLarge

  datatype Outcome =
    | Refused(reason: Refusal)
    | Accepted(total: nat, refs: seq<Upload>, warnings: nat)

  predicate Usable(c: Settings, f: Upload) {
    f.supported && 0 < |f.data| <= c.maxFileBytes
  }

  function Usables(c: Settings, files: seq<Upload>): (r: seq<Upload>)
    ensures |r| <= |files|
  {
    if files == [] then []
    else Usables(c, files[..|files| - 1])
         + (if Usable(c, files[|files| - 1]) then [files[|files| - 1]] else [])
  }

  function Size(files: seq<Upload>): nat {
    if files == [] then 0 else Size(files[..|files| - 1]) + |files[|files| - 1].data|
  }

  function Considered(c: Settings, files: seq<Upload>): seq<Upload> {
    if |files| <= c.maxReferenceFiles then files else files[..c.maxReferenceFiles]
  }

  /** The decision, without the loop. */
  function Decide(c: Settings, paper: Upload, files: seq<Upload>, academic: bool): Outcome {
    var seen := Considered(c, files);
    var refs := Usables(c, seen);
    if !paper.supported then Refused(Unsupported)
    else if paper.data == [] then Refused(EmptyFile)
    else if |paper.data| > c.maxFileBytes then Refused(FileTooLarge)
    else if files == [] && !academic then Refused(NothingToCompare)
    else if refs != [] && |paper.data| + Size(refs) > c.maxRequestBytes then Refused(RequestTooLarge)
    else Accepted(|paper.data| + Size(refs), refs, |seen| - |refs| + (if |files| > |seen| then 1 else 0))
  }

  lemma {:induction false} UsablesOfPrefix(c: Settings, files: seq<Upload>, n: nat)
    requires n <= |files|
    ensures Size(Usables(c, files[..n])) <= Size(Usables(c, files))
    ensures |Usables(c, files[..n])| <= |Usables(c, files)|
    decreases |files|
  {
    if n < |files| {
      var init := files[..|files| - 1];
      assert files[..n] == init[..n];
      UsablesOfPrefix(c, init, n);
      SizeOfUsables(c, files);
    } else {
      assert files[..n] == files;
    }
  }

  lemma SizeOfUsables(c: Settings, files: seq<Upload>)
    requires files != []
    ensures var init, last := files[..|files| - 1], files[|files| - 1];
            Size(Usables(c, files)) == Size(Usables(c, init)) + (if Usable(c, last) then |last.data| else 0)
  {
    var init, last := files[..|files| - 1], files[|files| - 1];
    var u := Usables(c, init);
    assert (u + [last])[..|u|] == u;
    assert u + [] == u;
  }

  /** The endpoint's own loop: it stops at the first reference that pushes the total over. */
  method ReadUploads(c: Settings, paper: Upload, files: seq<Upload>, academic: bool) returns (r: Outcome)
    ensures r == Decide(c, paper, files, academic)
  {
    if !paper.supported { return Refused(Unsupported); }
    if paper.data == [] { return Refused(EmptyFile); }
    if |paper.data| > c.maxFileBytes { return Refused(FileTooLarge); }
    if files == [] && !academic { return Refused(NothingToCompare); }
    var seen := Considered(c, files);
    var ok, refs, skipped := ReadReferences(c, |paper.data|, seen);
    if !ok { return Refused(RequestTooLarge); }
    return Accepted(|paper.data| + Size(refs), refs, skipped + (if |files| > |seen| then 1 else 0));
  }

  lemma UsablesStep(c: Settings, seen: seq<Upload>, n: nat)
    requires n < |seen|
    ensures Usables(c, seen[..n + 1]) == Usables(c, seen[..n]) + (if Usable(c, seen[n]) then [seen[n]] else [])
    ensures Size(Usables(c, seen[..n + 1])) == Size(Usables(c, seen[..n])) + (if Usable(c, seen[n]) then |seen[n].data| else 0)
  {
    assert seen[..n + 1][..n] == seen[..n];
    SizeOfUsables(c, seen[..n + 1]);
  }

  method ReadReferences(c: Settings, paperBytes: nat, seen: seq<Upload>) returns (ok: bool, refs: seq<Upload>, skipped: nat)
    ensures ok <==> Usables(c, seen) == [] || paperBytes + Size(Usables(c, seen)) <= c.maxRequestBytes
    ensures ok ==> refs == Usables(c, seen) && skipped == |seen| - |refs|
  {
    hide Usables, Size;
    var total := paperBytes;
    refs, skipped := [], 0;
    NoUsables(c, seen);
    for n := 0 to |seen|
      invariant refs == Usables(c, seen[..n])
      invariant total == paperBytes + Size(refs)
      invariant refs != [] ==> total <= c.maxRequestBytes
      invariant skipped == n - |refs|
    {
      UsablesStep(c, seen, n);
      if !Usable(c, seen[n]) {
        skipped := skipped + 1;
      } else {
        total := total + |seen[n].data|;
        if total > c.maxRequestBytes {
          UsablesOfPrefix(c, seen, n + 1);
          return false, refs, skipped;
        }
        refs := refs + [seen[n]];
      }
    }
    assert seen[..|seen|] == seen;
    return true, refs, skipped;
  }

  lemma NoUsables(c: Settings, seen: seq<Upload>)
    ensures Usables(c, seen[..0]) == [] && Size([]) == 0
  {}

  // ---------------------------------------------------------------- the decision, file by file

  /** Reference `i` is among those looked at, of a known type, not empty and not too large. */
  ghost predicate Readable(c: Settings, files: seq<Upload>, i: nat) {
    i < |files| && i < c.maxReferenceFiles && files[i].supported && 1 <= |files[i].data| && |files[i].data| <= c.maxFileBytes
  }

  /** `at` lists the readable references' places from the front. */
  ghost predicate ReadableAt(c: Settings, files: seq<Upload>, at: seq<nat>) {
    Increasing(at) && forall i: nat :: i in at <==> Readable(c, files, i)
  }

  ghost predicate TakenFrom(files: seq<Upload>, at: seq<nat>, refs: seq<Upload>) {
    |refs| == |at| && forall k :: 0 <= k < |at| ==> at[k] < |files| && refs[k] == files[at[k]]
  }

  /** The bytes of the files, each named by its file and its place in it. */
  ghost function BytesOf(files: seq<Upload>): set<(int, int)> {
    set i, x | 0 <= i < |files| && 0 <= x < |files[i].data| :: (i, x)
  }

  lemma {:induction false} OneFilesBytes(i: int, n: nat)
    ensures |set x | 0 <= x < n :: (i, x)| == n
  {
    if n > 0 {
      OneFilesBytes(i, n - 1);
      assert (set x | 0 <= x < n :: (i, x)) == (set x | 0 <= x < n - 1 :: (i, x)) + {(i, n - 1)};
    }
  }

  lemma {:induction false} SizeCountsBytes(files: seq<Upload>)
    ensures Size(files) == |BytesOf(files)|
  {
    if files != [] {
      var init, last := files[..|files| - 1], files[|files| - 1];
      SizeCountsBytes(init);
      OneFilesBytes(|init|, |last.data|);
      var more := set x | 0 <= x < |last.data| :: (|init|, x);
      assert BytesOf(files) == BytesOf(init) + more;
      assert BytesOf(init) * more == {};
    }
  }

  lemma {:induction false} UsablesAt(c: Settings, files: seq<Upload>, n: nat) returns (at: seq<nat>)
    requires n <= |files| && n <= c.maxReferenceFiles
    ensures Increasing(at) && forall i: nat :: i in at <==> i < n && Readable(c, files, i)
    ensures TakenFrom(files, at, Usables(c, files[..n]))
    decreases n
  {
    at := [];
    if n > 0 {
      var init := UsablesAt(c, files, n - 1);
      assert files[..n][..n - 1] == files[..n - 1];
      at := init;
      if Readable(c, files, n - 1) {
        at := init + [n - 1];
        IncreasingAppend(init, n - 1);
      }
    }
  }

  /** When a check is refused, for which reason, and what an accepted one holds: the readable
      references in order, the bytes of manuscript and references together, and one warning for
      every reference passed over and one more when some were not looked at. */
  lemma OutcomeMeaning(c: Settings, paper: Upload, files: seq<Upload>, academic: bool) returns (at: seq<nat>, refs: seq<Upload>)
    ensures ReadableAt(c, files, at) && TakenFrom(files, at, refs)
    ensures var r := Decide(c, paper, files, academic);
            var fits := paper.supported && 0 < |paper.data| && |paper.data| <= c.maxFileBytes;
            var bytes := |paper.data| + |BytesOf(refs)|;
            var unseen := if |files| > c.maxReferenceFiles then 1 else 0;
            var passedOver := (if unseen == 1 then c.maxReferenceFiles else |files|) - |at|;
            && (r == Refused(Unsupported) <==> !paper.supported)
            && (r == Refused(EmptyFile) <==> paper.supported && |paper.data| == 0)
            && (r == Refused(FileTooLarge) <==> paper.supported && |paper.data| > 0 && |paper.data| > c.maxFileBytes)
            && (r == Refused(NothingToCompare) <==> fits && |files| == 0 && !academic)
            && (r == Refused(RequestTooLarge) <==> fits && |at| > 0 && bytes > c.maxRequestBytes)
            && (r.Accepted? <==> fits && (|files| > 0 || academic) && (|at| == 0 || bytes <= c.maxRequestBytes))
            && (r.Accepted? ==> r.refs == refs && r.total == bytes && r.warnings == passedOver + unseen)
  {
    var seen := Considered(c, files);
    at := UsablesAt(c, files, |seen|);
    assert files[..|seen|] == seen;
    refs := Usables(c, seen);
    SizeCountsBytes(refs);
    hide Usables, Size, BytesOf;
  }

  /** No accepted check exceeds the per-request cap, exactly when a single file may not exceed
      it: the manuscript alone is held to the per-file limit only. */
  lemma RequestCapHolds(c: Settings)
    ensures c.maxFileBytes <= c.maxRequestBytes <==>
            forall paper, files, academic ::
              var r := Decide(c, paper, files, academic); r.Accepted? ==> r.total <= c.maxRequestBytes
  {
    if c.maxFileBytes > c.maxRequestBytes {
      var paper := Upload("paper", true, seq(c.maxFileBytes, i => 0));
      assert Usables(c, Considered(c, [])) == [];
      var r := Decide(c, paper, [], true);
      assert r == Accepted(c.maxFileBytes, [], 0);
    }
  }

  // ---------------------------------------------------------------- the largest accepted check

  /** The most bytes an accepted check can have: the manuscript alone may exceed the request
      cap; with references the cap and the number of files both bound the total. */
  function MostAccepted(c: Settings): nat {
    if c.maxFileBytes >= c.maxRequestBytes then c.maxFileBytes
    else Min(c.maxRequestBytes, (1 + c.maxReferenceFiles) * c.maxFileBytes)
  }

  lemma {:induction false} UsablesAreSmall(c: Settings, files: seq<Upload>)
    ensures Size(Usables(c, files)) <= |files| * c.maxFileBytes
  {
    if files != [] {
      UsablesAreSmall(c, files[..|files| - 1]);
      SizeOfUsables(c, files);
      assert |files| * c.maxFileBytes == (|files| - 1) * c.maxFileBytes + c.maxFileBytes;
    }
  }

  lemma AcceptedAtMost(c: Settings, paper: Upload, files: seq<Upload>, academic: bool)
    requires Decide(c, paper, files, academic).Accepted?
    ensures Decide(c, paper, files, academic).total <= MostAccepted(c)
  {
    var seen := Considered(c, files);
    UsablesAreSmall(c, seen);
    FewerFiles(|seen|, c.maxReferenceFiles, c.maxFileBytes);
  }

  lemma FewerFiles(x: nat, y: nat, most: nat)
    requires x <= y
    ensures x * most <= y * most && (1 + y) * most == most + y * most
  {}

  /** Files of `total` bytes together, each as large as allowed but the first. */
  function Pieces(total: nat, most: nat): (files: seq<Upload>)
    requires most >= 1
  {
    if total == 0 then []
    else
      var bytes := Min(total, most);
      Pieces(total - bytes, most) + [Upload("source", true, seq(bytes, i => 0))]
  }

  lemma {:induction false} PiecesFit(c: Settings, total: nat, n: nat)
    requires c.maxFileBytes >= 1 && total <= n * c.maxFileBytes
    ensures var files := Pieces(total, c.maxFileBytes);
            |files| <= n && Usables(c, files) == files && Size(files) == total
    decreases total
  {
    if total > 0 {
      var most := c.maxFileBytes;
      var bytes := Min(total, most);
      var rest, file := Pieces(total - bytes, most), Upload("source", true, seq(bytes, i => 0));
      OneFewer(total, n, most);
      PiecesFit(c, total - bytes, n - 1);
      hide Usables, Size;
      OneMoreFile(c, rest, file);
    }
  }

  lemma OneFewer(total: nat, n: nat, most: nat)
    requires 0 < total <= n * most
    ensures n >= 1 && total - Min(total, most) <= (n - 1) * most
  {
    assert n * most == (n - 1) * most + most;
  }

  lemma OneMoreFile(c: Settings, files: seq<Upload>, file: Upload)
    ensures Usables(c, files + [file]) == Usables(c, files) + (if Usable(c, file) then [file] else [])
    ensures Size(files + [file]) == Size(files) + |file.data|
  {
    assert (files + [file])[..|files|] == files;
  }

  lemma MostIsAccepted(c: Settings) returns (paper: Upload, files: seq<Upload>)
    requires c.maxFileBytes >= 1
    ensures Decide(c, paper, files, true).Accepted? && Decide(c, paper, files, true).total == MostAccepted(c)
  {
    MostFits(c);
    hide MostAccepted, Pieces, Usables, Size;
    paper := Upload("paper", true, seq(c.maxFileBytes, i => 0));
    files := [];
    NoUsables(c, files);
    if MostAccepted(c) > c.maxFileBytes {
      files := Pieces(MostAccepted(c) - c.maxFileBytes, c.maxFileBytes);
      PiecesFit(c, MostAccepted(c) - c.maxFileBytes, c.maxReferenceFiles);
    }
  }

  lemma MostFits(c: Settings)
    ensures c.maxFileBytes <= MostAccepted(c) <= c.maxFileBytes + c.maxReferenceFiles * c.maxFileBytes
    ensures MostAccepted(c) == c.maxFileBytes || MostAccepted(c) <= c.maxRequestBytes
  {
    FewerFiles(0, c.maxReferenceFiles, c.maxFileBytes);
  }

  // ---------------------------------------------------------------- what the server holds

  /** `bytes` is the size of an upload the endpoint accepts. */
  ghost predicate IsUpload(c: Settings, bytes: nat) {
    exists paper, files, academic ::
      Decide(c, paper, files, academic).Accepted? && Decide(c, paper, files, academic).total == bytes
  }

  /** Every reservation in a run came from an accepted upload. */
  ghost predicate FromUploads(c: Settings, steps: seq<Step>) {
    forall step :: step in steps && step.Reserve? ==> IsUpload(c, step.bytes)
  }

  /** Whatever is uploaded and however threads interleave, waiting and held bytes are bounded
      by the largest accepted check. */
  lemma UploadsAtMost(c: Settings, limits: Limits, steps: seq<Step>)
    requires Possible(limits, steps) && FromUploads(c, steps)
    ensures WaitingBytes(After(steps).calls) <= limits.maxPending * MostAccepted(c)
    ensures HeldBytes(After(steps).calls) <= (limits.maxPending + limits.maxWorkers) * MostAccepted(c)
  {
    hide Possible, After, WaitingBytes, HeldBytes, Decide, MostAccepted;
    forall step | step in steps && step.Reserve? ensures step.bytes <= MostAccepted(c) {
      assert IsUpload(c, step.bytes);
      var paper, files, academic :|
        Decide(c, paper, files, academic).Accepted? && Decide(c, paper, files, academic).total == step.bytes;
      AcceptedAtMost(c, paper, files, academic);
    }
    UploadMemory(limits, steps, MostAccepted(c));
  }

  /** A run of uploads on which both bounds are reached. */
  lemma UploadsReachMost(c: Settings, limits: Limits) returns (steps: seq<Step>)
    requires c.maxFileBytes >= 1 && limits.maxPending >= 1
    ensures Possible(limits, steps) && FromUploads(c, steps)
    ensures WaitingBytes(After(steps).calls) == limits.maxPending * MostAccepted(c)
    ensures HeldBytes(After(steps).calls) == (limits.maxPending + limits.maxWorkers) * MostAccepted(c)
  {
    hide Possible, After, WaitingBytes, HeldBytes, Decide, MostAccepted;
    var paper, files := MostIsAccepted(c);
    assert IsUpload(c, MostAccepted(c));
    steps := Full(limits.maxWorkers, limits.maxPending, MostAccepted(c));
    UploadMemoryIsReached(limits, MostAccepted(c));
  }

  /** In no run do waiting checks hold more than `maxPending` requests' worth of upload, exactly
      when nothing can wait or one file may not exceed the request cap; likewise for waiting and
      running ones and `maxPending + maxWorkers`. */
  lemma QueuedUploadsFit(c: Settings, limits: Limits)
    ensures (forall steps :: Possible(limits, steps) && FromUploads(c, steps) ==>
               WaitingBytes(After(steps).calls) <= limits.maxPending * c.maxRequestBytes)
       <==> limits.maxPending == 0 || c.maxFileBytes <= c.maxRequestBytes
    ensures (forall steps :: Possible(limits, steps) && FromUploads(c, steps) ==>
               HeldBytes(After(steps).calls) <= (limits.maxPending + limits.maxWorkers) * c.maxRequestBytes)
       <==> limits.maxPending == 0 || c.maxFileBytes <= c.maxRequestBytes
  {
    hide Possible, After, WaitingBytes, HeldBytes, FromUploads;
    if limits.maxPending == 0 {
      forall steps | Possible(limits, steps) ensures WaitingBytes(After(steps).calls) == HeldBytes(After(steps).calls) == 0 {
        NothingIsHeld(limits, steps);
      }
    } else if c.maxFileBytes <= c.maxRequestBytes {
      Scale(MostAccepted(c), c.maxRequestBytes, limits.maxPending);
      Scale(MostAccepted(c), c.maxRequestBytes, limits.maxPending + limits.maxWorkers);
      forall steps | Possible(limits, steps) && FromUploads(c, steps)
        ensures WaitingBytes(After(steps).calls) <= limits.maxPending * c.maxRequestBytes
        ensures HeldBytes(After(steps).calls) <= (limits.maxPending + limits.maxWorkers) * c.maxRequestBytes
      {
        UploadsAtMost(c, limits, steps);
      }
    } else {
      var steps := UploadsReachMost(c, limits);
      Exceeds(limits.maxPending, c.maxRequestBytes, MostAccepted(c));
      Exceeds(limits.maxPending + limits.maxWorkers, c.maxRequestBytes, MostAccepted(c));
    }
  }

  lemma Exceeds(n: nat, x: nat, y: nat)
    requires n >= 1 && x < y
    ensures n * x < n * y
  {
    Scale(x + 1, y, n);
    assert n * (x + 1) == n * x + n;
  }

  /** The documented product bounds what is held, running checks included, exactly when the
      largest accepted checks on all places and workers still fit it. */
  lemma ProductBoundsUploads(c: Settings, limits: Limits)
    ensures (forall steps :: Possible(limits, steps) && FromUploads(c, steps) ==>
               HeldBytes(After(steps).calls) <= limits.maxPending * c.maxRequestBytes)
       <==> limits.maxPending == 0
            || (limits.maxPending + limits.maxWorkers) * MostAccepted(c) <= limits.maxPending * c.maxRequestBytes
  {
    hide Possible, After, WaitingBytes, HeldBytes, FromUploads;
    if limits.maxPending == 0 {
      forall steps | Possible(limits, steps) ensures HeldBytes(After(steps).calls) == 0 {
        NothingIsHeld(limits, steps);
      }
    } else {
      forall steps | Possible(limits, steps) && FromUploads(c, steps)
        ensures HeldBytes(After(steps).calls) <= (limits.maxPending + limits.maxWorkers) * MostAccepted(c)
      {
        UploadsAtMost(c, limits, steps);
      }
      if c.maxFileBytes >= 1 {
        var steps := UploadsReachMost(c, limits);
      }
    }
  }
}
