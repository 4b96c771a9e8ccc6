/**
 The size-rotating file sink over an abstract directory
 (include/spdlog/sinks/rotating_file_sink-inl.h, include/spdlog/details/file_helper-inl.h).
 File operations succeed; a file is the string of bytes written to it.
 */
module RotatingSinks {
  import opened FileNames
  import opened LogRotation

  class Directory {
    var files: map<string, string>

    constructor (files: map<string, string>)
      ensures this.files == files
    {
      this.files := files;
    }

    method PathExists(name: string) returns (b: bool)
      ensures b <==> name in files
    {
      b := name in files;
    }

    method Remove(name: string)
      modifies this
      ensures files == old(files) - {name}
    {
      files := files - {name};
    }

    method Rename(source: string, target: string)
      requires source in files && source != target
      modifies this
      ensures files == (old(files) - {source})[target := old(files)[source]]
    {
      files := (files - {source})[target := files[source]];
    }

    method OpenFile(name: string, truncate: bool)
      modifies this
      ensures files == if truncate || name !in old(files) then old(files)[name := ""] else old(files)
    {
      if truncate || name !in files {
        files := files[name := ""];
      }
    }

    method Append(name: string, bytes: string)
      requires name in files
      modifies this
      ensures files == old(files)[name := old(files)[name] + bytes]
    {
      files := files[name := files[name] + bytes];
    }
  }

  /** file_helper: the one file that is open for appending. */
  class FileHelper {
    const dir: Directory
    var filename: string
    var isOpen: bool

    constructor (dir: Directory)
      ensures this.dir == dir && filename == "" && !isOpen
    {
      this.dir := dir;
      filename, isOpen := "", false;
    }

    method Open(name: string, truncate: bool)
      modifies this, dir
      ensures filename == name && isOpen
      ensures dir.files == if truncate || name !in old(dir.files) then old(dir.files)[name := ""] else old(dir.files)
    {
      Close();
      filename := name;
      dir.OpenFile(name, truncate);
      isOpen := true;
    }

    /** Fails if nothing was opened before. */
    method Reopen(truncate: bool) returns (ok: bool)
      modifies this, dir
      ensures ok <==> old(filename) != ""
      ensures filename == old(filename) && (if ok then isOpen else isOpen == old(isOpen))
      ensures dir.files == if ok && (truncate || filename !in old(dir.files)) then old(dir.files)[filename := ""]
                           else old(dir.files)
    {
      if filename == "" {
        return false;
      }
      Open(filename, truncate);
      ok := true;
    }

    method Close()
      modifies `isOpen
      ensures !isOpen
    {
      isOpen := false;
    }

    method Size() returns (n: nat)
      requires isOpen && filename in dir.files
      ensures n == |dir.files[filename]|
    {
      n := |dir.files[filename]|;
    }

    method Write(bytes: string)
      requires isOpen && filename in dir.files
      modifies dir
      ensures dir.files == old(dir.files)[filename := old(dir.files)[filename] + bytes]
    {
      dir.Append(filename, bytes);
    }
  }

  datatype Opened = Ok(sink: RotatingSink) | MaxSizeIsZero | TooManyFiles

  class RotatingSink {
    const baseFilename: string
    const seps: set<char>
    const maxSize: nat
    const maxFiles: nat
    const helper: FileHelper
    var currentSize: nat

    constructor (baseFilename: string, seps: set<char>, maxSize: nat, maxFiles: nat, helper: FileHelper)
      ensures this.baseFilename == baseFilename && this.seps == seps && this.maxSize == maxSize
      ensures this.maxFiles == maxFiles && this.helper == helper && currentSize == 0
    {
      this.baseFilename, this.seps, this.maxSize := baseFilename, seps, maxSize;
      this.maxFiles, this.helper, currentSize := maxFiles, helper, 0;
    }

    function Name(i: nat): string
      requires '.' !in seps
    {
      CalcFilename(baseFilename, seps, i)
    }

    ghost predicate Valid()
      reads this, helper, helper.dir
    {
      && '.' !in seps && baseFilename != "" && maxSize > 0
      && helper.isOpen && helper.filename == baseFilename
      && baseFilename in helper.dir.files
      && currentSize == |helper.dir.files[baseFilename]|
    }

    method RenameFile(source: string, target: string)
      requires source in helper.dir.files && source != target
      modifies helper.dir
      ensures helper.dir.files == (old(helper.dir.files) - {source})[target := old(helper.dir.files)[source]]
    {
      helper.dir.Remove(target);
      helper.dir.Rename(source, target);
    }

    /**
     log.txt -> log.1.txt -> log.2.txt -> ... The file with the highest index is
     overwritten and the current one starts empty.
     */
    method Rotate()
      requires '.' !in seps && baseFilename != "" && helper.filename == baseFilename
      requires baseFilename in helper.dir.files
      modifies helper, helper.dir
      ensures helper.isOpen && helper.filename == baseFilename
      ensures forall i :: 0 <= i <= maxFiles ==>
        Slot(helper.dir.files, Name(i)) == Rotated(old(helper.dir.files), baseFilename, seps, maxFiles, i)
      ensures ForeignKept(old(helper.dir.files), helper.dir.files, baseFilename, seps, maxFiles)
    {
      hide CalcFilename;
      ghost var before := helper.dir.files;
      BaseName(baseFilename, seps);
      helper.Close();
      var i := maxFiles;
      while i > 0
        invariant 0 <= i <= maxFiles && helper.filename == baseFilename
        invariant Midway(before, helper.dir.files, baseFilename, seps, maxFiles, i)
      {
        ghost var files := helper.dir.files;
        DistinctNames(baseFilename, seps, i - 1, i);
        var source := Name(i - 1);
        var present := helper.dir.PathExists(source);
        if present {
          RenameFile(source, Name(i));
        }
        MidwayStep(before, files, helper.dir.files, baseFilename, seps, maxFiles, i);
        i := i - 1;
      }
      ghost var moved := helper.dir.files;
      var reopened := helper.Reopen(true);
      MidwayEnd(before, moved, baseFilename, seps, maxFiles);
    }

    /**
     sink_it_: appends a formatted message, rotating first if it does not fit.
     If the files held `chunks`, they now hold what LogStep makes of them.
     */
    method SinkIt(msg: string, ghost chunks: seq<seq<string>>)
      requires Valid() && chunks != []
      modifies this`currentSize, helper, helper.dir
      ensures Valid()
      ensures old(Stored(helper.dir.files, baseFilename, seps, maxFiles, chunks)) ==>
        Stored(helper.dir.files, baseFilename, seps, maxFiles, LogStep(chunks, msg, maxSize, maxFiles))
      ensures ForeignKept(old(helper.dir.files), helper.dir.files, baseFilename, seps, maxFiles)
    {
      hide CalcFilename, Flatten, Stored, Shift, Slot, IsLogName, Rotated;
      ghost var before, c := helper.dir.files, chunks;
      StoredCurrent(before, baseFilename, seps, maxFiles, chunks);
      var newSize := currentSize + |msg|;
      if newSize > maxSize {
        var size := helper.Size();
        if size > 0 {
          Rotate();
          newSize := |msg|;
          c := Shift(chunks, maxFiles);
          RotationStores(before, helper.dir.files, baseFilename, seps, maxFiles, chunks);
        }
      }
      ghost var rotated := helper.dir.files;
      CurrentAfter(before, rotated, baseFilename, seps, maxFiles);
      helper.Write(msg);
      AppendOthers(rotated, baseFilename, seps, maxFiles, msg);
      ForeignTrans(before, rotated, helper.dir.files, baseFilename, seps, maxFiles);
      AppendStores(rotated, baseFilename, seps, maxFiles, c, msg);
      currentSize := newSize;
    }
  }

  lemma BaseName(base: string, seps: set<char>)
    requires '.' !in seps
    ensures CalcFilename(base, seps, 0) == base
  {}

  /** A file's content, if it exists. */
  ghost function Slot(files: map<string, string>, name: string): (bool, string)
  {
    if name in files then (true, files[name]) else (false, "")
  }

  ghost predicate IsLogName(name: string, base: string, seps: set<char>, maxFiles: nat)
    requires '.' !in seps
  {
    exists i :: 0 <= i <= maxFiles && name == CalcFilename(base, seps, i)
  }

  /** No file changed that does not belong to the log. */
  ghost predicate ForeignKept(before: map<string, string>, after: map<string, string>,
                              base: string, seps: set<char>, maxFiles: nat)
    requires '.' !in seps
  {
    forall other :: !IsLogName(other, base, seps, maxFiles) ==> Slot(after, other) == Slot(before, other)
  }

  lemma ForeignTrans(a: map<string, string>, b: map<string, string>, c: map<string, string>,
                     base: string, seps: set<char>, maxFiles: nat)
    requires '.' !in seps
    requires ForeignKept(a, b, base, seps, maxFiles) && ForeignKept(b, c, base, seps, maxFiles)
    ensures ForeignKept(a, c, base, seps, maxFiles)
  {
    hide IsLogName, Slot;
  }

  lemma ForeignSelf(files: map<string, string>, base: string, seps: set<char>, maxFiles: nat)
    requires '.' !in seps
    ensures ForeignKept(files, files, base, seps, maxFiles)
  {}

  /** The content of the file with index i after a rotation. */
  ghost function Rotated(before: map<string, string>, base: string, seps: set<char>, maxFiles: nat, i: nat)
    : (bool, string)
    requires '.' !in seps
  {
    if i == 0 then (true, "")
    else if i < maxFiles || CalcFilename(base, seps, i - 1) in before then Slot(before, CalcFilename(base, seps, i - 1))
    else Slot(before, CalcFilename(base, seps, i))
  }

  /** The rotation loop before it handles index i: what is above is done, what is below untouched. */
  ghost predicate Midway(before: map<string, string>, files: map<string, string>,
                         base: string, seps: set<char>, maxFiles: nat, i: nat)
    requires '.' !in seps
  {
    && (forall k :: i < k <= maxFiles ==>
          Slot(files, CalcFilename(base, seps, k)) == Rotated(before, base, seps, maxFiles, k))
    && (forall k :: 0 <= k < i ==>
          Slot(files, CalcFilename(base, seps, k)) == Slot(before, CalcFilename(base, seps, k)))
    && Slot(files, CalcFilename(base, seps, i))
         == (if i < maxFiles then (false, "") else Slot(before, CalcFilename(base, seps, i)))
    && ForeignKept(before, files, base, seps, maxFiles)
  }

  lemma MidwayStep(before: map<string, string>, files: map<string, string>, files': map<string, string>,
                   base: string, seps: set<char>, maxFiles: nat, i: nat)
    requires '.' !in seps && 0 < i <= maxFiles
    requires Midway(before, files, base, seps, maxFiles, i)
    requires var source, target := CalcFilename(base, seps, i - 1), CalcFilename(base, seps, i);
      files' == if source in files then (files - {source})[target := files[source]] else files
    ensures Midway(before, files', base, seps, maxFiles, i - 1)
  {
    hide CalcFilename;
    var source, target := CalcFilename(base, seps, i - 1), CalcFilename(base, seps, i);
    DistinctNames(base, seps, i - 1, i);
    assert Slot(files, source) == Slot(before, source);
    forall k | 0 <= k <= maxFiles && k != i && k != i - 1
      ensures Slot(files', CalcFilename(base, seps, k)) == Slot(files, CalcFilename(base, seps, k))
    {
      DistinctNames(base, seps, k, i);
      DistinctNames(base, seps, k, i - 1);
    }
    assert IsLogName(source, base, seps, maxFiles) && IsLogName(target, base, seps, maxFiles);
  }

  lemma MidwayEnd(before: map<string, string>, files: map<string, string>, base: string, seps: set<char>, maxFiles: nat)
    requires '.' !in seps && Midway(before, files, base, seps, maxFiles, 0)
    ensures var done := files[base := ""];
      && (forall i :: 0 <= i <= maxFiles ==>
            Slot(done, CalcFilename(base, seps, i)) == Rotated(before, base, seps, maxFiles, i))
      && ForeignKept(before, done, base, seps, maxFiles)
  {
    BaseName(base, seps);
    hide CalcFilename;
    var done := files[base := ""];
    forall i | 0 < i <= maxFiles
      ensures Slot(done, CalcFilename(base, seps, i)) == Rotated(before, base, seps, maxFiles, i)
    {
      DistinctNames(base, seps, i, 0);
    }
    assert IsLogName(base, base, seps, maxFiles);
  }

  /** Appending to the current file touches no file of another name. */
  lemma AppendOthers(files: map<string, string>, base: string, seps: set<char>, maxFiles: nat, msg: string)
    requires '.' !in seps && base in files
    ensures ForeignKept(files, files[base := files[base] + msg], base, seps, maxFiles)
  {
    BaseName(base, seps);
    hide CalcFilename;
    assert IsLogName(base, base, seps, maxFiles);
  }

  /** A rotation leaves an empty current file. */
  lemma CurrentAfter(before: map<string, string>, after: map<string, string>,
                     base: string, seps: set<char>, maxFiles: nat)
    requires '.' !in seps
    ensures Slot(after, CalcFilename(base, seps, 0)) == Rotated(before, base, seps, maxFiles, 0) ==>
      base in after && after[base] == ""
  {
    BaseName(base, seps);
  }

  // ---- The files and the messages in them ----------------------------------

  /** The files hold these chunks: indices contiguous from 0, nothing above. */
  ghost predicate Stored(files: map<string, string>, base: string, seps: set<char>, maxFiles: nat,
                         chunks: seq<seq<string>>)
    requires '.' !in seps
  {
    && |chunks| <= maxFiles + 1
    && (forall i :: 0 <= i < |chunks| ==> Slot(files, CalcFilename(base, seps, i)) == (true, Flatten(chunks[i])))
    && (forall i :: |chunks| <= i <= maxFiles ==> Slot(files, CalcFilename(base, seps, i)) == (false, ""))
  }

  lemma StoredCurrent(files: map<string, string>, base: string, seps: set<char>, maxFiles: nat,
                      chunks: seq<seq<string>>)
    requires '.' !in seps
    ensures Stored(files, base, seps, maxFiles, chunks) && chunks != [] ==>
      base in files && files[base] == Flatten(chunks[0])
    ensures Stored(files, base, seps, maxFiles, chunks) && chunks == [] ==> base !in files
  {
    BaseName(base, seps);
  }

  lemma RotationStores(before: map<string, string>, after: map<string, string>,
                       base: string, seps: set<char>, maxFiles: nat, chunks: seq<seq<string>>)
    requires '.' !in seps && chunks != []
    requires forall i :: 0 <= i <= maxFiles ==>
      Slot(after, CalcFilename(base, seps, i)) == Rotated(before, base, seps, maxFiles, i)
    ensures Stored(before, base, seps, maxFiles, chunks) ==>
      Stored(after, base, seps, maxFiles, Shift(chunks, maxFiles))
  {
    hide CalcFilename;
    if Stored(before, base, seps, maxFiles, chunks) {
      var c := Shift(chunks, maxFiles);
      forall i | 0 <= i <= maxFiles
        ensures Slot(after, CalcFilename(base, seps, i)) == if i < |c| then (true, Flatten(c[i])) else (false, "")
      {
        assert Slot(after, CalcFilename(base, seps, i)) == Rotated(before, base, seps, maxFiles, i);
        if i > 0 {
          assert i < |c| ==> c[i] == chunks[i - 1];
          assert Slot(before, CalcFilename(base, seps, i - 1))
              == if i - 1 < |chunks| then (true, Flatten(chunks[i - 1])) else (false, "");
        }
      }
    }
  }

  lemma AppendStores(files: map<string, string>, base: string, seps: set<char>, maxFiles: nat,
                     chunks: seq<seq<string>>, msg: string)
    requires '.' !in seps && base in files && chunks != []
    ensures Stored(files, base, seps, maxFiles, chunks) ==>
      Stored(files[base := files[base] + msg], base, seps, maxFiles, chunks[0 := chunks[0] + [msg]])
  {
    BaseName(base, seps);
    hide CalcFilename;
    FlattenPush(chunks[0], msg);
    forall i | 0 < i <= maxFiles
      ensures CalcFilename(base, seps, i) != base
    {
      DistinctNames(base, seps, i, 0);
    }
  }

  /** The contents of the files n - 1, ..., 1, 0, one after the other. */
  ghost function Concatenation(files: map<string, string>, base: string, seps: set<char>, n: nat): string
    requires '.' !in seps
  {
    if n == 0 then "" else Slot(files, CalcFilename(base, seps, n - 1)).1 + Concatenation(files, base, seps, n - 1)
  }

  lemma {:induction false} StoredPrefix(files: map<string, string>, base: string, seps: set<char>, maxFiles: nat,
                                        chunks: seq<seq<string>>, n: nat)
    requires '.' !in seps && Stored(files, base, seps, maxFiles, chunks) && n <= |chunks|
    ensures Concatenation(files, base, seps, n) == Bytes(chunks[..n])
  {
    hide CalcFilename;
    if n > 0 {
      StoredPrefix(files, base, seps, maxFiles, chunks, n - 1);
      BytesPush(chunks[..n - 1], chunks[n - 1]);
      assert chunks[..n] == chunks[..n - 1] + [chunks[n - 1]];
    }
  }

  lemma {:induction false} BytesPush(chunks: seq<seq<string>>, c: seq<string>)
    ensures Bytes(chunks + [c]) == Flatten(c) + Bytes(chunks)
  {
    if chunks == [] {
      assert [] + [c] == [c] && [c][1..] == [];
    } else {
      assert (chunks + [c])[1..] == chunks[1..] + [c];
      BytesPush(chunks[1..], c);
      Regroup(Flatten(c), Bytes(chunks[1..]), Flatten(chunks[0]));
    }
  }

  /**
   Files that hold the result of a run, read from the oldest to the current one,
   give the bytes of the last messages among those there before and those logged.
   */
  lemma FilesHoldLastMessages(files: map<string, string>, base: string, seps: set<char>, maxSize: nat, maxFiles: nat,
                              start: seq<seq<string>>, all: seq<string>, msgs: seq<string>) returns (k: nat)
    requires '.' !in seps && start != [] && IsSuffix(Joined(start) + msgs, all)
    requires Stored(files, base, seps, maxFiles, LogRun(start, msgs, maxSize, maxFiles))
    ensures k <= |all| && Joined(LogRun(start, msgs, maxSize, maxFiles)) == all[k..]
    ensures Concatenation(files, base, seps, |LogRun(start, msgs, maxSize, maxFiles)|) == Flatten(all[k..])
  {
    var chunks := LogRun(start, msgs, maxSize, maxFiles);
    hide *;
    StoredPrefix(files, base, seps, maxFiles, chunks, |chunks|);
    assert chunks[..|chunks|] == chunks;
    RunKeepsSuffix(start, msgs, maxSize, maxFiles);
    SuffixTrans(Joined(chunks), Joined(start) + msgs, all);
    SuffixIndex(Joined(chunks), all);
    k := |all| - |Joined(chunks)|;
  }

  lemma SuffixIndex<T>(s: seq<T>, of: seq<T>)
    requires IsSuffix(s, of)
    ensures |s| <= |of| && of[|of| - |s|..] == s
  {}

  /** The constructor; `chunks` is what the directory held, [] if nothing. */
  method OpenSink(base: string, seps: set<char>, maxSize: nat, maxFiles: nat, rotateOnOpen: bool,
                  dir: Directory, ghost chunks: seq<seq<string>>) returns (r: Opened)
    requires '.' !in seps && base != ""
    modifies dir
    ensures r == MaxSizeIsZero <==> maxSize == 0
    ensures r == TooManyFiles <==> maxSize != 0 && maxFiles > 200000
    ensures !r.Ok? ==> dir.files == old(dir.files)
    ensures r.Ok? ==> fresh(r.sink) && fresh(r.sink.helper) && r.sink.helper.dir == dir && r.sink.Valid()
    ensures r.Ok? ==> r.sink.baseFilename == base && r.sink.seps == seps
                      && r.sink.maxSize == maxSize && r.sink.maxFiles == maxFiles
    ensures r.Ok? && Stored(old(dir.files), base, seps, maxFiles, chunks) ==>
      Stored(dir.files, base, seps, maxFiles, AtOpen(chunks, maxFiles, rotateOnOpen))
    ensures r.Ok? ==>
      Slot(dir.files, base) == (true, if rotateOnOpen then "" else Slot(old(dir.files), base).1)
    ensures r.Ok? && rotateOnOpen && maxFiles >= 1 && Slot(old(dir.files), base).1 != "" ==>
      Slot(dir.files, CalcFilename(base, seps, 1)) == Slot(old(dir.files), base)
    ensures ForeignKept(old(dir.files), dir.files, base, seps, maxFiles)
  {
    hide CalcFilename, Flatten, Stored, Shift;
    if maxSize == 0 {
      return MaxSizeIsZero;
    }
    if maxFiles > 200000 {
      return TooManyFiles;
    }
    ghost var before := dir.files;
    ghost var c := if chunks == [] then [[]] else chunks;
    var helper := new FileHelper(dir);
    var sink := new RotatingSink(base, seps, maxSize, maxFiles, helper);
    BaseName(base, seps);
    helper.Open(base, false);
    StoredCurrent(before, base, seps, maxFiles, chunks);
    OpenStores(before, base, seps, maxFiles, chunks);
    ghost var present := dir.files;
    StoredCurrent(present, base, seps, maxFiles, c);
    sink.currentSize := helper.Size();
    if rotateOnOpen && sink.currentSize > 0 {
      sink.Rotate();
      RotationStores(present, dir.files, base, seps, maxFiles, c);
      assert Slot(dir.files, CalcFilename(base, seps, 0)) == (true, "");
      sink.currentSize := 0;
    }
    r := Ok(sink);
  }

  /** The files with the first n indices are there, and no others of the log. */
  ghost predicate Contiguous(files: map<string, string>, base: string, seps: set<char>, maxFiles: nat, n: nat)
    requires '.' !in seps
  {
    n <= maxFiles + 1
    && forall i :: 0 <= i <= maxFiles ==> (CalcFilename(base, seps, i) in files <==> i < n)
  }

  /** Every file of the log is within the size limit, or holds nothing but one of the messages. */
  ghost predicate SizesKept(files: map<string, string>, base: string, seps: set<char>, n: nat,
                            all: seq<string>, maxSize: nat)
    requires '.' !in seps
  {
    forall i :: 0 <= i < n ==>
      var content := Slot(files, CalcFilename(base, seps, i)).1;
      |content| <= maxSize || content in all
  }

  /** Any two neighbouring files hold more than the limit, so n files hold at least n / 2 times as much. */
  ghost predicate PairsExceed(files: map<string, string>, base: string, seps: set<char>, n: nat, maxSize: nat)
    requires '.' !in seps
  {
    forall i :: 0 < i < n ==>
      |Slot(files, CalcFilename(base, seps, i - 1)).1| + |Slot(files, CalcFilename(base, seps, i)).1| > maxSize
  }

  /** No rotated file is empty. */
  ghost predicate NoneEmpty(files: map<string, string>, base: string, seps: set<char>, n: nat)
    requires '.' !in seps
  {
    forall i :: 0 < i < n ==> Slot(files, CalcFilename(base, seps, i)).1 != ""
  }

  lemma StoredRetains(files: map<string, string>, base: string, seps: set<char>, maxSize: nat, maxFiles: nat,
                      start: seq<seq<string>>, msgs: seq<string>)
    requires '.' !in seps && start != []
    requires Stored(files, base, seps, maxFiles, LogRun(start, msgs, maxSize, maxFiles))
    ensures msgs != [] ==> IsSuffix(msgs[|msgs| - 1], Slot(files, CalcFilename(base, seps, 0)).1)
    ensures RotatedHold(start) ==> NoneEmpty(files, base, seps, |LogRun(start, msgs, maxSize, maxFiles)|)
    ensures Packed(start, maxSize) ==>
      PairsExceed(files, base, seps, |LogRun(start, msgs, maxSize, maxFiles)|, maxSize)
  {
    hide CalcFilename, Flatten, Packed, LogRun, IsSuffix;
    var chunks := LogRun(start, msgs, maxSize, maxFiles);
    if msgs != [] {
      RunEndsInLast(start, msgs, maxSize, maxFiles);
    }
    if RotatedHold(start) {
      RunKeepsRotated(start, msgs, maxSize, maxFiles);
    }
    if Packed(start, maxSize) {
      RunKeepsPacked(start, msgs, maxSize, maxFiles);
      forall i | 0 < i < |chunks|
        ensures |Flatten(chunks[i - 1])| + |Flatten(chunks[i])| > maxSize
      {
        PackedPair(chunks, maxSize, i - 1);
      }
    }
  }

  lemma StoredShape(files: map<string, string>, base: string, seps: set<char>, maxSize: nat, maxFiles: nat,
                    chunks: seq<seq<string>>, all: seq<string>)
    requires '.' !in seps && Stored(files, base, seps, maxFiles, chunks)
    ensures Contiguous(files, base, seps, maxFiles, |chunks|)
    ensures AllSizesKept(chunks, maxSize) && IsSuffix(Joined(chunks), all) ==>
      SizesKept(files, base, seps, |chunks|, all, maxSize)
  {
    hide CalcFilename, Flatten;
    forall i | 0 <= i <= maxFiles
      ensures CalcFilename(base, seps, i) in files <==> i < |chunks|
    {
      assert Slot(files, CalcFilename(base, seps, i)).0 <==> i < |chunks|;
    }
    if AllSizesKept(chunks, maxSize) && IsSuffix(Joined(chunks), all) {
      forall i, m | 0 <= i < |chunks| && m in chunks[i]
        ensures m in all
      {
        JoinedHas(chunks, i, m);
      }
      forall i | 0 <= i < |chunks|
        ensures |Flatten(chunks[i])| <= maxSize || Flatten(chunks[i]) in all
      {
        assert SizeKept(chunks[i], maxSize);
      }
    }
  }

  /** Logs msgs one by one. */
  method LogMessages(sink: RotatingSink, ghost start: seq<seq<string>>, msgs: seq<string>)
    requires sink.Valid() && start != []
    requires Stored(sink.helper.dir.files, sink.baseFilename, sink.seps, sink.maxFiles, start)
    modifies sink`currentSize, sink.helper, sink.helper.dir
    ensures sink.Valid()
    ensures Stored(sink.helper.dir.files, sink.baseFilename, sink.seps, sink.maxFiles,
                   LogRun(start, msgs, sink.maxSize, sink.maxFiles))
    ensures ForeignKept(old(sink.helper.dir.files), sink.helper.dir.files, sink.baseFilename, sink.seps, sink.maxFiles)
  {
    ghost var base, seps, maxSize, maxFiles := sink.baseFilename, sink.seps, sink.maxSize, sink.maxFiles;
    ghost var before := sink.helper.dir.files;
    ForeignSelf(before, base, seps, maxFiles);
    LogRunNothing(start, msgs[..0], maxSize, maxFiles);
    hide *;
    var i := 0;
    while i < |msgs|
      invariant 0 <= i <= |msgs| && sink.Valid()
      invariant Stored(sink.helper.dir.files, base, seps, maxFiles, LogRun(start, msgs[..i], maxSize, maxFiles))
      invariant ForeignKept(before, sink.helper.dir.files, base, seps, maxFiles)
    {
      ghost var files := sink.helper.dir.files;
      LogRunStep(start, msgs, i, maxSize, maxFiles);
      sink.SinkIt(msgs[i], LogRun(start, msgs[..i], maxSize, maxFiles));
      ForeignTrans(before, files, sink.helper.dir.files, base, seps, maxFiles);
      i := i + 1;
    }
    assert msgs[..i] == msgs;
  }

  lemma OutcomeOfRun(files: map<string, string>, base: string, seps: set<char>, maxSize: nat, maxFiles: nat,
                     rotateOnOpen: bool, chunks: seq<seq<string>>, msgs: seq<string>) returns (n: nat, k: nat)
    requires '.' !in seps
    requires Stored(files, base, seps, maxFiles,
                    LogRun(AtOpen(chunks, maxFiles, rotateOnOpen), msgs, maxSize, maxFiles))
    ensures 0 < n && Contiguous(files, base, seps, maxFiles, n)
    ensures var all := Joined(chunks) + msgs;
      k <= |all| && Concatenation(files, base, seps, n) == Flatten(all[k..])
    ensures n <= maxFiles ==> k == 0
    ensures msgs != [] ==> IsSuffix(msgs[|msgs| - 1], Slot(files, CalcFilename(base, seps, 0)).1)
    ensures AllSizesKept(chunks, maxSize) ==> SizesKept(files, base, seps, n, Joined(chunks) + msgs, maxSize)
    ensures RotatedHold(chunks) ==> NoneEmpty(files, base, seps, n)
    ensures Packed(chunks, maxSize) && !rotateOnOpen ==> PairsExceed(files, base, seps, n, maxSize)
  {
    hide *;
    var start, all := AtOpen(chunks, maxFiles, rotateOnOpen), Joined(chunks) + msgs;
    OpenedIsSuffix(chunks, maxFiles, rotateOnOpen, msgs);
    OpenKeepsShape(chunks, maxSize, maxFiles, rotateOnOpen);
    var chunks' := LogRun(start, msgs, maxSize, maxFiles);
    n := |chunks'|;
    k := FilesHoldLastMessages(files, base, seps, maxSize, maxFiles, start, all, msgs);
    if n <= maxFiles {
      RunDropsNothing(start, msgs, maxSize, maxFiles);
    }
    StoredRetains(files, base, seps, maxSize, maxFiles, start, msgs);
    RunKeepsSizes(start, msgs, maxSize, maxFiles);
    RunKeepsSuffix(start, msgs, maxSize, maxFiles);
    SuffixTrans(Joined(chunks'), Joined(start) + msgs, all);
    StoredShape(files, base, seps, maxSize, maxFiles, chunks', all);
  }

  /**
   A whole run: a sink opened on a directory whose files hold `chunks`, [] for a
   directory without any file of the log, logs msgs. In the end the files have
   contiguous indices from 0; read from the oldest to the current one they give
   the bytes of everything that was there and was logged, from the k-th message
   on, which is the first unless all indices are taken; the current file ends in
   the last message; no file is over the limit or was closed without need; and no
   other file has changed.
   */
  method LogAll(base: string, seps: set<char>, maxSize: nat, maxFiles: nat, rotateOnOpen: bool,
                dir: Directory, ghost chunks: seq<seq<string>>, msgs: seq<string>)
    returns (r: Opened, ghost n: nat, ghost k: nat)
    requires '.' !in seps && base != "" && Stored(dir.files, base, seps, maxFiles, chunks)
    modifies dir
    ensures r.Ok? <==> 0 < maxSize && maxFiles <= 200000
    ensures !r.Ok? ==> dir.files == old(dir.files)
    ensures r.Ok? ==> 0 < n && Contiguous(dir.files, base, seps, maxFiles, n)
    ensures var all := Joined(chunks) + msgs;
      r.Ok? ==> k <= |all| && Concatenation(dir.files, base, seps, n) == Flatten(all[k..])
    ensures r.Ok? && n <= maxFiles ==> k == 0
    ensures r.Ok? && msgs != [] ==>
      IsSuffix(msgs[|msgs| - 1], Slot(dir.files, CalcFilename(base, seps, 0)).1)
    ensures r.Ok? && AllSizesKept(chunks, maxSize) ==>
      SizesKept(dir.files, base, seps, n, Joined(chunks) + msgs, maxSize)
    ensures r.Ok? && RotatedHold(chunks) ==> NoneEmpty(dir.files, base, seps, n)
    ensures r.Ok? && Packed(chunks, maxSize) && !rotateOnOpen ==> PairsExceed(dir.files, base, seps, n, maxSize)
    ensures ForeignKept(old(dir.files), dir.files, base, seps, maxFiles)
  {
    n, k := 0, 0;
    hide *;
    ghost var before := dir.files;
    r := OpenSink(base, seps, maxSize, maxFiles, rotateOnOpen, dir, chunks);
    if !r.Ok? {
      return;
    }
    ghost var start, atStart := AtOpen(chunks, maxFiles, rotateOnOpen), dir.files;
    LogMessages(r.sink, start, msgs);
    ForeignTrans(before, atStart, dir.files, base, seps, maxFiles);
    n, k := OutcomeOfRun(dir.files, base, seps, maxSize, maxFiles, rotateOnOpen, chunks, msgs);
  }

  lemma OpenStores(files: map<string, string>, base: string, seps: set<char>, maxFiles: nat, chunks: seq<seq<string>>)
    requires '.' !in seps
    ensures ForeignKept(files, files[base := ""], base, seps, maxFiles)
    ensures Stored(files, base, seps, maxFiles, chunks) && chunks == [] ==>
      Stored(files[base := ""], base, seps, maxFiles, [[]])
  {
    BaseName(base, seps);
    hide CalcFilename;
    assert Flatten([]) == "";
    assert IsLogName(base, base, seps, maxFiles);
    forall i | 0 < i <= maxFiles
      ensures CalcFilename(base, seps, i) != base
    {
      DistinctNames(base, seps, i, 0);
    }
  }
}
