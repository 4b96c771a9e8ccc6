/**
 Names of rotated log files: split_by_extension and calc_filename
 (include/spdlog/details/file_helper-inl.h, include/spdlog/sinks/rotating_file_sink-inl.h).
 */
module FileNames {
  import opened Rounding

  /** The index of the last character of s in cs, or -1. */
  function LastOf(s: string, cs: set<char>): (i: int)
    ensures -1 <= i < |s|
    ensures i >= 0 ==> s[i] in cs
    ensures forall j :: i < j < |s| ==> s[j] !in cs
  {
    if s == "" then -1
    else if s[|s| - 1] in cs then |s| - 1
    else LastOf(s[..|s| - 1], cs)
  }

  /**
   The dot at index i starts an extension: it is neither first nor last, does
   not hide the file, and no later dot or folder separator follows.
   */
  ghost predicate StartsExtension(name: string, seps: set<char>, i: nat)
  {
    && 0 < i < |name| - 1
    && name[i] == '.'
    && name[i - 1] !in seps
    && forall j :: i < j < |name| ==> name[j] != '.' && name[j] !in seps
  }

  function SplitByExtension(name: string, seps: set<char>): (r: (string, string))
    requires '.' !in seps
    ensures r.0 + r.1 == name
    ensures r.1 != "" ==> StartsExtension(name, seps, |r.0|)
    ensures (exists i :: StartsExtension(name, seps, i)) ==> r.1 != ""
  {
    var extIndex := LastOf(name, {'.'});
    if extIndex == -1 || extIndex == 0 || extIndex == |name| - 1 then (name, "")
    else
      var folderIndex := LastOf(name, seps);
      if folderIndex != -1 && folderIndex >= extIndex - 1 then (name, "")
      else (name[..extIndex], name[extIndex..])
  }

  /** calc_filename("logs/mylog.txt", 3) is "logs/mylog.3.txt". */
  function CalcFilename(name: string, seps: set<char>, index: nat): string
    requires '.' !in seps
  {
    if index == 0 then name
    else
      var (base, ext) := SplitByExtension(name, seps);
      base + "." + ToString(index) + ext
  }

  /** Different indices name different files. */
  lemma DistinctNames(name: string, seps: set<char>, i: nat, j: nat)
    requires '.' !in seps && i != j
    ensures CalcFilename(name, seps, i) != CalcFilename(name, seps, j)
  {
    var (base, ext) := SplitByExtension(name, seps);
    if i != 0 && j != 0 {
      var a, b := CalcFilename(name, seps, i), CalcFilename(name, seps, j);
      var n, k := |base| + 1, |ext|;
      assert a[n..|a| - k] == ToString(i);
      assert b[n..|b| - k] == ToString(j);
      ToStringReads(i);
      ToStringReads(j);
    }
  }

  /** The index stands between the name and its extension, after a dot. */
  lemma IndexInName(name: string, seps: set<char>, index: nat)
    requires '.' !in seps && index > 0
    ensures var (base, ext) := SplitByExtension(name, seps);
      var r := CalcFilename(name, seps, index);
      && |r| > |base| + 1 + |ext|
      && r[..|base|] == base && r[|base|] == '.' && r[|r| - |ext|..] == ext
      && var digits := r[|base| + 1..|r| - |ext|];
         AllDigits(digits) && Decimal(digits) == index && digits[0] != '0'
  {
    var (base, ext) := SplitByExtension(name, seps);
    var r := CalcFilename(name, seps, index);
    ToStringReads(index);
    assert r[|base| + 1..|r| - |ext|] == ToString(index);
  }
}
