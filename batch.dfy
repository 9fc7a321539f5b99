/**
 * The main block: keep the directory entries that are regular files named
 * "*.pdf", sort them, and give the i-th file in sorted order display row i of
 * a Logger sized to the number of files.
 */
module Batch {
  import Display

  /** `name.endswith(".pdf")`: a literal, case-sensitive suffix. */
  predicate IsPdfName(name: string) {
    |name| >= 4 && name[|name| - 4..] == ".pdf"
  }

  /** The suffix test is literal: case matters and the name may be just ".pdf". */
  lemma PdfNameExamples()
    ensures IsPdfName("scan.pdf") && IsPdfName(".pdf")
    ensures !IsPdfName("scan.PDF") && !IsPdfName("pdf") && !IsPdfName("scan.pdf.bak")
  {
    assert "scan.pdf"[4..] == ".pdf";
    assert ".pdf"[0..] == ".pdf";
  }

  /**
   * The list comprehension over `os.listdir(directory)`: the entries, in
   * listing order, that `isFile` accepts and whose name ends in ".pdf".
   */
  function PdfFiles(entries: seq<string>, isFile: string -> bool): (files: seq<string>)
    ensures forall f :: f in files <==> f in entries && isFile(f) && IsPdfName(f)
    ensures |files| <= |entries|
    ensures forall f :: multiset(files)[f] == if isFile(f) && IsPdfName(f) then multiset(entries)[f] else 0
  {
    if entries == [] then []
    else
      var n := |entries| - 1;
      var rest := PdfFiles(entries[..n], isFile);
      assert entries == entries[..n] + [entries[n]];
      if isFile(entries[n]) && IsPdfName(entries[n]) then rest + [entries[n]] else rest
  }

  /** Python's `<=` on str: lexicographic by code point, a prefix first. */
  predicate LessEq(a: string, b: string) {
    a == [] || (b != [] && (a[0] < b[0] || (a[0] == b[0] && LessEq(a[1..], b[1..]))))
  }

  lemma {:induction false} LessEqTotal(a: string, b: string)
    ensures LessEq(a, b) || LessEq(b, a)
  {
    if a != [] && b != [] && a[0] == b[0] {
      LessEqTotal(a[1..], b[1..]);
    }
  }

  lemma {:induction false} LessEqReflexive(a: string)
    ensures LessEq(a, a)
  {
    if a != [] {
      LessEqReflexive(a[1..]);
    }
  }

  lemma {:induction false} LessEqTransitive(a: string, b: string, c: string)
    requires LessEq(a, b) && LessEq(b, c)
    ensures LessEq(a, c)
  {
    if a != [] && b[0] == c[0] && a[0] == b[0] {
      LessEqTransitive(a[1..], b[1..], c[1..]);
    }
  }

  lemma {:induction false} LessEqAntisymmetric(a: string, b: string)
    requires LessEq(a, b) && LessEq(b, a)
    ensures a == b
  {
    if a != [] {
      LessEqAntisymmetric(a[1..], b[1..]);
      assert a == [a[0]] + a[1..] && b == [b[0]] + b[1..];
    }
  }

  /** Each name is at most the next one. */
  predicate Sorted(s: seq<string>) {
    forall i :: 0 <= i < |s| - 1 ==> LessEq(s[i], s[i + 1])
  }

  /** Sorted in the adjacent sense means every earlier name is at most every later one. */
  lemma {:induction false} SortedPairwise(s: seq<string>)
    requires Sorted(s)
    ensures forall i, j :: 0 <= i < j < |s| ==> LessEq(s[i], s[j])
  {
    if |s| > 1 {
      SortedPairwise(s[1..]);
      forall j | 1 < j < |s|
        ensures LessEq(s[0], s[j])
      {
        assert LessEq(s[1], s[j]) by { assert s[1] == s[1..][0] && s[j] == s[1..][j - 1]; }
        LessEqTransitive(s[0], s[1], s[j]);
      }
      forall i, j | 0 < i < j < |s|
        ensures LessEq(s[i], s[j])
      {
        assert s[i] == s[1..][i - 1] && s[j] == s[1..][j - 1];
      }
    }
  }

  /** `x` placed before the first element of sorted `s` that is not below it. */
  function Insert(x: string, s: seq<string>): (r: seq<string>)
    requires Sorted(s)
    ensures Sorted(r) && multiset(r) == multiset(s) + multiset{x}
    ensures r != [] && (r[0] == x || (s != [] && r[0] == s[0]))
  {
    if s == [] then [x]
    else if LessEq(x, s[0]) then [x] + s
    else
      LessEqTotal(x, s[0]);
      var t := Insert(x, s[1..]);
      assert s == [s[0]] + s[1..];
      assert |s| > 1 ==> s[1..][0] == s[1];
      [s[0]] + t
  }

  /** `sorted(files)`: the same names in ascending order. */
  function Sort(files: seq<string>): (r: seq<string>)
    ensures Sorted(r) && multiset(r) == multiset(files)
  {
    if files == [] then []
    else
      assert files == files[..|files| - 1] + [files[|files| - 1]];
      Insert(files[|files| - 1], Sort(files[..|files| - 1]))
  }

  /** Two sorted orderings of the same names are the same sequence. */
  lemma {:induction false} SortedUnique(a: seq<string>, b: seq<string>)
    requires Sorted(a) && Sorted(b) && multiset(a) == multiset(b)
    ensures a == b
  {
    if a != [] {
      SortedHeads(a, b);
      assert a == [a[0]] + a[1..] && b == [b[0]] + b[1..];
      assert multiset(a[1..]) == multiset(a) - multiset{a[0]};
      assert multiset(b[1..]) == multiset(b) - multiset{b[0]};
      SortedUnique(a[1..], b[1..]);
    }
  }

  /** Two sorted orderings of the same names start with the same, smallest, name. */
  lemma SortedHeads(a: seq<string>, b: seq<string>)
    requires Sorted(a) && Sorted(b) && multiset(a) == multiset(b) && a != []
    ensures b != [] && a[0] == b[0]
  {
    assert a[0] in multiset(b) && b[0] in multiset(a);
    var i :| 0 <= i < |a| && a[i] == b[0];
    var j :| 0 <= j < |b| && b[j] == a[0];
    SortedPairwise(a);
    SortedPairwise(b);
    LessEqReflexive(a[0]);
    LessEqReflexive(b[0]);
    assert LessEq(a[0], a[i]) && LessEq(b[0], b[j]);
    LessEqAntisymmetric(a[0], b[0]);
  }

  /** `enumerate(sorted(files))`: each file with its display row. */
  function Slots(files: seq<string>): (tasks: seq<(nat, string)>)
    ensures |tasks| == |files|
  {
    var sorted := Sort(files);
    assert |sorted| == |multiset(sorted)| == |files|;
    seq(|sorted|, i requires 0 <= i < |sorted| => (i, sorted[i]))
  }

  /**
   * Every file gets exactly one row, rows are pairwise distinct and lie in
   * [0, number of files), which is exactly the range `Logger(files_num).log`
   * accepts; files are assigned in ascending name order.
   */
  lemma SlotsAddressable(files: seq<string>)
    ensures var tasks := Slots(files);
      && (forall k :: 0 <= k < |tasks| ==> 0 <= tasks[k].0 < |files|)
      && (forall k1, k2 :: 0 <= k1 < k2 < |tasks| ==> tasks[k1].0 != tasks[k2].0)
      && (forall k1, k2 :: 0 <= k1 < k2 < |tasks| ==> LessEq(tasks[k1].1, tasks[k2].1))
      && (forall k1, k2 :: 0 <= k1 < |tasks| && 0 <= k2 < |tasks| && tasks[k1].0 < tasks[k2].0 ==> LessEq(tasks[k1].1, tasks[k2].1))
      && multiset(seq(|tasks|, k requires 0 <= k < |tasks| => tasks[k].1)) == multiset(files)
  {
    var tasks := Slots(files);
    var sorted := Sort(files);
    SortedPairwise(sorted);
    assert seq(|tasks|, k requires 0 <= k < |tasks| => tasks[k].1) == sorted;
  }

  /**
   * Rows do not depend on the order in which the directory is listed: any
   * listing of the same entries assigns every file the same row.
   */
  lemma SlotsIgnoreListingOrder(entries1: seq<string>, entries2: seq<string>, isFile: string -> bool)
    requires multiset(entries1) == multiset(entries2)
    ensures Slots(PdfFiles(entries1, isFile)) == Slots(PdfFiles(entries2, isFile))
  {
    var f1, f2 := PdfFiles(entries1, isFile), PdfFiles(entries2, isFile);
    assert forall f :: multiset(f1)[f] == multiset(f2)[f];
    assert multiset(f1) == multiset(f2);
    SortedUnique(Sort(f1), Sort(f2));
  }

  /**
   * The main block up to the worker pool: filter the listing, create the
   * Logger for that many files and assign each file its row.
   */
  method Plan(entries: seq<string>, isFile: string -> bool) returns (logger: Display.Logger, tasks: seq<(nat, string)>)
    ensures fresh(logger) && logger.Valid() && logger.num == |tasks|
    ensures tasks == Slots(PdfFiles(entries, isFile))
    ensures forall k :: 0 <= k < |tasks| ==> 0 <= tasks[k].0 < logger.num
  {
    var files := PdfFiles(entries, isFile);
    logger := new Display.Logger(|files|);
    tasks := Slots(files);
    SlotsAddressable(files);
  }
}
