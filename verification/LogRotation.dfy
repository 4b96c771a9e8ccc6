/**
 What size-based rotation keeps of a log, file by file
 (include/spdlog/sinks/rotating_file_sink-inl.h). chunks[i] holds the messages
 in the file with index i; index 0 is the one being written.
 */
module LogRotation {

  function Flatten(msgs: seq<string>): string
  {
    if msgs == [] then "" else Flatten(msgs[..|msgs| - 1]) + msgs[|msgs| - 1]
  }

  /** All messages kept, from the oldest file's first to the newest file's last. */
  function Joined(chunks: seq<seq<string>>): seq<string>
  {
    if chunks == [] then [] else Joined(chunks[1..]) + chunks[0]
  }

  /** The bytes of all files, from the highest index down to 0. */
  function Bytes(chunks: seq<seq<string>>): string
  {
    if chunks == [] then "" else Bytes(chunks[1..]) + Flatten(chunks[0])
  }

  function Shift(chunks: seq<seq<string>>, maxFiles: nat): (r: seq<seq<string>>)
    ensures r != []
    ensures forall i :: 0 < i < |r| ==> i <= |chunks| && r[i] == chunks[i - 1]
  {
    var all := [[]] + chunks;
    if |all| > maxFiles + 1 then all[..maxFiles + 1] else all
  }

  /** A message that does not fit rotates first, unless the current file is empty. */
  predicate Rotates(chunks: seq<seq<string>>, msg: string, maxSize: nat)
    requires chunks != []
  {
    |Flatten(chunks[0])| + |msg| > maxSize && |Flatten(chunks[0])| > 0
  }

  function LogStep(chunks: seq<seq<string>>, msg: string, maxSize: nat, maxFiles: nat): (r: seq<seq<string>>)
    requires chunks != []
    ensures r != []
  {
    var c := if Rotates(chunks, msg, maxSize) then Shift(chunks, maxFiles) else chunks;
    c[0 := c[0] + [msg]]
  }

  function LogRun(chunks: seq<seq<string>>, msgs: seq<string>, maxSize: nat, maxFiles: nat): (r: seq<seq<string>>)
    requires chunks != []
    ensures r != []
  {
    if msgs == [] then chunks
    else LogStep(LogRun(chunks, msgs[..|msgs| - 1], maxSize, maxFiles), msgs[|msgs| - 1], maxSize, maxFiles)
  }

  /** What the files hold when a sink has opened: rotated if asked for, and with a current file in any case. */
  function AtOpen(chunks: seq<seq<string>>, maxFiles: nat, rotateOnOpen: bool): (r: seq<seq<string>>)
    ensures r != []
  {
    var c := if chunks == [] then [[]] else chunks;
    if rotateOnOpen && |Flatten(c[0])| > 0 then Shift(c, maxFiles) else c
  }

  ghost predicate IsSuffix<T>(s: seq<T>, of: seq<T>)
  {
    |s| <= |of| && of[|of| - |s|..] == s
  }

  lemma {:induction false} FlattenConcat(a: seq<string>, b: seq<string>)
    ensures Flatten(a + b) == Flatten(a) + Flatten(b)
  {
    if b == [] {
      assert a + b == a;
    } else {
      var n := |b| - 1;
      FlattenConcat(a, b[..n]);
      assert a + b == (a + b[..n]) + [b[n]] && b == b[..n] + [b[n]];
      FlattenPush(a + b[..n], b[n]);
      FlattenPush(b[..n], b[n]);
      Regroup(Flatten(a), Flatten(b[..n]), b[n]);
    }
  }

  lemma Regroup<T>(x: seq<T>, y: seq<T>, z: seq<T>)
    ensures (x + y) + z == x + (y + z)
  {}

  lemma FlattenPush(a: seq<string>, msg: string)
    ensures Flatten(a + [msg]) == Flatten(a) + msg
  {
    assert (a + [msg])[..|a|] == a;
  }

  /** The files read in order hold exactly the kept messages. */
  lemma {:induction false} BytesAreJoined(chunks: seq<seq<string>>)
    ensures Bytes(chunks) == Flatten(Joined(chunks))
  {
    if chunks != [] {
      BytesAreJoined(chunks[1..]);
      FlattenConcat(Joined(chunks[1..]), chunks[0]);
    }
  }

  /** Dropping the oldest files leaves a suffix. */
  lemma {:induction false} JoinedTake(chunks: seq<seq<string>>, n: nat)
    requires n <= |chunks|
    ensures IsSuffix(Joined(chunks[..n]), Joined(chunks))
  {
    if n > 0 {
      JoinedTake(chunks[1..], n - 1);
      assert chunks[..n][1..] == chunks[1..][..n - 1];
    }
  }

  lemma ShiftIsSuffix(chunks: seq<seq<string>>, maxFiles: nat)
    ensures IsSuffix(Joined(Shift(chunks, maxFiles)), Joined(chunks))
  {
    var all := [[]] + chunks;
    assert all[1..] == chunks;
    assert Joined(all) == Joined(chunks) + [] == Joined(chunks);
    if |all| > maxFiles + 1 {
      JoinedTake(all, maxFiles + 1);
    }
  }

  lemma JoinedPush(c: seq<seq<string>>, msg: string)
    requires c != []
    ensures Joined(c[0 := c[0] + [msg]]) == Joined(c) + [msg]
  {
    assert c[0 := c[0] + [msg]][1..] == c[1..];
    Regroup(Joined(c[1..]), c[0], [msg]);
  }

  lemma StepIsSuffix(chunks: seq<seq<string>>, msg: string, maxSize: nat, maxFiles: nat)
    requires chunks != []
    ensures IsSuffix(Joined(LogStep(chunks, msg, maxSize, maxFiles)), Joined(chunks) + [msg])
  {
    hide Joined, IsSuffix;
    var c := if Rotates(chunks, msg, maxSize) then Shift(chunks, maxFiles) else chunks;
    ShiftIsSuffix(chunks, maxFiles);
    SuffixSelf(Joined(chunks));
    JoinedPush(c, msg);
    SuffixPush(Joined(c), Joined(chunks), msg);
  }

  lemma SuffixSelf<T>(a: seq<T>)
    ensures IsSuffix(a, a)
  {}

  lemma SuffixTrans<T>(a: seq<T>, b: seq<T>, c: seq<T>)
    requires IsSuffix(a, b) && IsSuffix(b, c)
    ensures IsSuffix(a, c)
  {}

  lemma SuffixPush<T>(a: seq<T>, b: seq<T>, x: T)
    requires IsSuffix(a, b)
    ensures IsSuffix(a + [x], b + [x])
  {}

  lemma SuffixAppend<T>(a: seq<T>, b: seq<T>, c: seq<T>)
    requires IsSuffix(a, b)
    ensures IsSuffix(a + c, b + c)
  {}

  /**
   Over any run, the files from oldest to newest hold a suffix of everything
   logged, cut between messages.
   */
  lemma {:induction false} RunKeepsSuffix(chunks: seq<seq<string>>, msgs: seq<string>, maxSize: nat, maxFiles: nat)
    requires chunks != []
    ensures var r := LogRun(chunks, msgs, maxSize, maxFiles);
      IsSuffix(Joined(r), Joined(chunks) + msgs) && Bytes(r) == Flatten(Joined(r))
  {
    hide Joined, IsSuffix, LogStep;
    BytesAreJoined(LogRun(chunks, msgs, maxSize, maxFiles));
    if msgs == [] {
      SuffixSelf(Joined(chunks));
      assert Joined(chunks) + msgs == Joined(chunks);
    } else {
      var n := |msgs| - 1;
      var before := LogRun(chunks, msgs[..n], maxSize, maxFiles);
      RunKeepsSuffix(chunks, msgs[..n], maxSize, maxFiles);
      StepIsSuffix(before, msgs[n], maxSize, maxFiles);
      SuffixPush(Joined(before), Joined(chunks) + msgs[..n], msgs[n]);
      Regroup(Joined(chunks), msgs[..n], [msgs[n]]);
      assert msgs == msgs[..n] + [msgs[n]];
      SuffixTrans(Joined(LogStep(before, msgs[n], maxSize, maxFiles)), Joined(before) + [msgs[n]],
                  Joined(chunks) + msgs);
    }
  }

  // ---- Sizes ---------------------------------------------------------------

  /** A file is within the limit, or holds nothing but one message that is larger. */
  ghost predicate SizeKept(chunk: seq<string>, maxSize: nat)
  {
    |Flatten(chunk)| <= maxSize || exists m :: m in chunk && Flatten(chunk) == m
  }

  ghost predicate AllSizesKept(chunks: seq<seq<string>>, maxSize: nat)
  {
    forall i :: 0 <= i < |chunks| ==> SizeKept(chunks[i], maxSize)
  }

  lemma FirstKeepsSize(chunk: seq<string>, msg: string, maxSize: nat)
    requires |Flatten(chunk)| + |msg| <= maxSize || Flatten(chunk) == ""
    ensures SizeKept(chunk + [msg], maxSize)
  {
    FlattenPush(chunk, msg);
    assert msg in chunk + [msg];
  }

  lemma StepKeepsSizes(chunks: seq<seq<string>>, msg: string, maxSize: nat, maxFiles: nat)
    requires chunks != [] && AllSizesKept(chunks, maxSize)
    ensures AllSizesKept(LogStep(chunks, msg, maxSize, maxFiles), maxSize)
  {
    assert Flatten([]) == "";
    hide Flatten, SizeKept;
    var c := if Rotates(chunks, msg, maxSize) then Shift(chunks, maxFiles) else chunks;
    FirstKeepsSize(c[0], msg, maxSize);
  }

  /** Over any run, no file gets over the limit without need, and there never are more than maxFiles + 1. */
  lemma {:induction false} RunKeepsSizes(chunks: seq<seq<string>>, msgs: seq<string>, maxSize: nat, maxFiles: nat)
    requires chunks != []
    ensures AllSizesKept(chunks, maxSize) ==> AllSizesKept(LogRun(chunks, msgs, maxSize, maxFiles), maxSize)
    ensures |chunks| <= maxFiles + 1 ==> |LogRun(chunks, msgs, maxSize, maxFiles)| <= maxFiles + 1
  {
    if msgs != [] && (AllSizesKept(chunks, maxSize) || |chunks| <= maxFiles + 1) {
      var before := LogRun(chunks, msgs[..|msgs| - 1], maxSize, maxFiles);
      RunKeepsSizes(chunks, msgs[..|msgs| - 1], maxSize, maxFiles);
      if AllSizesKept(before, maxSize) {
        StepKeepsSizes(before, msgs[|msgs| - 1], maxSize, maxFiles);
      }
    }
  }

  // ---- What is retained ----------------------------------------------------

  /** As long as an index is free nothing is dropped. */
  lemma {:induction false} RunDropsNothing(chunks: seq<seq<string>>, msgs: seq<string>, maxSize: nat, maxFiles: nat)
    requires chunks != [] && |LogRun(chunks, msgs, maxSize, maxFiles)| <= maxFiles
    ensures |chunks| <= |LogRun(chunks, msgs, maxSize, maxFiles)|
    ensures Joined(LogRun(chunks, msgs, maxSize, maxFiles)) == Joined(chunks) + msgs
  {
    hide Joined;
    if msgs == [] {
      assert Joined(chunks) + msgs == Joined(chunks);
    } else {
      var n := |msgs| - 1;
      var before := LogRun(chunks, msgs[..n], maxSize, maxFiles);
      RunDropsNothing(chunks, msgs[..n], maxSize, maxFiles);
      var c := if Rotates(before, msgs[n], maxSize) then Shift(before, maxFiles) else before;
      JoinedEmptyFirst(before);
      JoinedPush(c, msgs[n]);
      Regroup(Joined(chunks), msgs[..n], [msgs[n]]);
      assert msgs == msgs[..n] + [msgs[n]];
    }
  }

  lemma JoinedEmptyFirst(chunks: seq<seq<string>>)
    ensures Joined([[]] + chunks) == Joined(chunks)
  {
    assert ([[]] + chunks)[1..] == chunks;
  }

  /** The last message is the last one in the current file. */
  lemma RunEndsInLast(chunks: seq<seq<string>>, msgs: seq<string>, maxSize: nat, maxFiles: nat)
    requires chunks != [] && msgs != []
    ensures IsSuffix(msgs[|msgs| - 1], Flatten(LogRun(chunks, msgs, maxSize, maxFiles)[0]))
  {
    var n := |msgs| - 1;
    var before := LogRun(chunks, msgs[..n], maxSize, maxFiles);
    var c := if Rotates(before, msgs[n], maxSize) then Shift(before, maxFiles) else before;
    FlattenPush(c[0], msgs[n]);
  }

  /** No file was closed early: what it holds and the first message of the next one exceed the limit. */
  ghost predicate Packed(chunks: seq<seq<string>>, maxSize: nat)
  {
    forall i :: 0 <= i < |chunks| - 1 ==>
      chunks[i] != [] && |Flatten(chunks[i + 1])| + |chunks[i][0]| > maxSize
  }

  lemma StepKeepsPacked(chunks: seq<seq<string>>, msg: string, maxSize: nat, maxFiles: nat)
    requires chunks != [] && Packed(chunks, maxSize)
    ensures Packed(LogStep(chunks, msg, maxSize, maxFiles), maxSize)
  {
    assert Flatten([]) == "";
    hide Flatten;
    var c := if Rotates(chunks, msg, maxSize) then Shift(chunks, maxFiles) else chunks;
    var r := LogStep(chunks, msg, maxSize, maxFiles);
    assert forall i :: 0 < i < |r| ==> r[i] == c[i];
  }

  lemma {:induction false} RunKeepsPacked(chunks: seq<seq<string>>, msgs: seq<string>, maxSize: nat, maxFiles: nat)
    requires chunks != [] && Packed(chunks, maxSize)
    ensures Packed(LogRun(chunks, msgs, maxSize, maxFiles), maxSize)
  {
    if msgs != [] {
      var n := |msgs| - 1;
      RunKeepsPacked(chunks, msgs[..n], maxSize, maxFiles);
      StepKeepsPacked(LogRun(chunks, msgs[..n], maxSize, maxFiles), msgs[n], maxSize, maxFiles);
    }
  }

  /** So two neighbouring files together hold more than one is allowed to. */
  lemma PackedPair(chunks: seq<seq<string>>, maxSize: nat, i: nat)
    requires Packed(chunks, maxSize) && i + 1 < |chunks|
    ensures |Flatten(chunks[i])| + |Flatten(chunks[i + 1])| > maxSize
  {
    FirstFits(chunks[i]);
  }

  lemma {:induction false} FirstFits(chunk: seq<string>)
    requires chunk != []
    ensures |chunk[0]| <= |Flatten(chunk)|
  {
    if |chunk| > 1 {
      FirstFits(chunk[..|chunk| - 1]);
    }
  }

  /** No file but the current one is empty. */
  ghost predicate RotatedHold(chunks: seq<seq<string>>)
  {
    forall i :: 0 < i < |chunks| ==> Flatten(chunks[i]) != ""
  }

  /** An empty file is never rotated away. */
  lemma {:induction false} RunKeepsRotated(chunks: seq<seq<string>>, msgs: seq<string>, maxSize: nat, maxFiles: nat)
    requires chunks != [] && RotatedHold(chunks)
    ensures RotatedHold(LogRun(chunks, msgs, maxSize, maxFiles))
  {
    if msgs != [] {
      hide Flatten;
      var n := |msgs| - 1;
      var before := LogRun(chunks, msgs[..n], maxSize, maxFiles);
      RunKeepsRotated(chunks, msgs[..n], maxSize, maxFiles);
      var c := if Rotates(before, msgs[n], maxSize) then Shift(before, maxFiles) else before;
      var r := LogStep(before, msgs[n], maxSize, maxFiles);
      assert forall i :: 0 < i < |r| ==> r[i] == c[i];
    }
  }

  // ---- Opening -------------------------------------------------------------

  lemma NothingJoined()
    ensures Joined([[]]) == []
  {
    var none: seq<seq<string>> := [[]];
    assert none[1..] == [];
  }

  lemma OpenedIsSuffix(chunks: seq<seq<string>>, maxFiles: nat, rotateOnOpen: bool, msgs: seq<string>)
    ensures var start := AtOpen(chunks, maxFiles, rotateOnOpen);
      && IsSuffix(Joined(start) + msgs, Joined(chunks) + msgs)
      && (|start| <= maxFiles ==> Joined(start) == Joined(chunks))
  {
    var c := if chunks == [] then [[]] else chunks;
    NothingJoined();
    JoinedEmptyFirst(c);
    ShiftIsSuffix(c, maxFiles);
    SuffixSelf(Joined(c));
    assert Joined(c) == Joined(chunks);
    hide Joined, IsSuffix;
    SuffixAppend(Joined(AtOpen(chunks, maxFiles, rotateOnOpen)), Joined(c), msgs);
  }

  lemma OpenKeepsShape(chunks: seq<seq<string>>, maxSize: nat, maxFiles: nat, rotateOnOpen: bool)
    ensures AllSizesKept(chunks, maxSize) ==> AllSizesKept(AtOpen(chunks, maxFiles, rotateOnOpen), maxSize)
    ensures RotatedHold(chunks) ==> RotatedHold(AtOpen(chunks, maxFiles, rotateOnOpen))
    ensures Packed(chunks, maxSize) && !rotateOnOpen ==> Packed(AtOpen(chunks, maxFiles, rotateOnOpen), maxSize)
  {
    assert Flatten([]) == "";
  }

  lemma LogRunNothing(chunks: seq<seq<string>>, none: seq<string>, maxSize: nat, maxFiles: nat)
    requires chunks != [] && none == []
    ensures LogRun(chunks, none, maxSize, maxFiles) == chunks
  {}

  lemma LogRunStep(chunks: seq<seq<string>>, msgs: seq<string>, i: nat, maxSize: nat, maxFiles: nat)
    requires chunks != [] && i < |msgs|
    ensures LogRun(chunks, msgs[..i + 1], maxSize, maxFiles)
         == LogStep(LogRun(chunks, msgs[..i], maxSize, maxFiles), msgs[i], maxSize, maxFiles)
  {
    assert msgs[..i + 1][..i] == msgs[..i];
  }

  lemma {:induction false} JoinedHas(chunks: seq<seq<string>>, i: nat, m: string)
    requires i < |chunks| && m in chunks[i]
    ensures m in Joined(chunks)
  {
    if i > 0 {
      JoinedHas(chunks[1..], i - 1, m);
    }
  }
}
