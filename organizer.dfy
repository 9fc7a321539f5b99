/**
 * organize_file with the PDF reader and writer abstracted: the source is the
 * sequence of its pages' extracted texts, the output is the sequence of
 * source page indices added to the writer.
 */
module Organizer {
  import opened Wrappers
  import opened PageLabel
  import opened PageTable

  /** Every page has a label (no page text is empty). */
  predicate AllLabelled(texts: seq<string>) {
    forall i :: 0 <= i < |texts| ==> texts[i] != []
  }

  /** The labels read from the pages, in page order. */
  function Labels(texts: seq<string>): (labels: seq<string>)
    requires AllLabelled(texts)
    ensures |labels| == |texts|
    ensures forall i :: 0 <= i < |texts| ==> Some(labels[i]) == RealPageNum(texts[i])
  {
    seq(|texts|, i requires 0 <= i < |texts| => RealPageNum(texts[i]).value)
  }

  /**
   * The page loop of organize_file: read each page's label in order; an
   * empty page text raises, which ends the file with no output; otherwise the
   * page table decides the output pages.
   */
  method OrganizeFile(texts: seq<string>) returns (r: Option<seq<nat>>)
    ensures r.None? <==> !AllLabelled(texts)
    ensures r.Some? ==> r.value == Reordered(Labels(texts)) && |r.value| <= |texts|
  {
    var labels: seq<string> := [];
    var i := 0;
    while i < |texts|
      invariant 0 <= i <= |texts|
      invariant AllLabelled(texts[..i])
      invariant labels == Labels(texts[..i])
    {
      var pageNum := RealPageNum(texts[i]);
      if pageNum.None? {
        return None;
      }
      labels := labels + [pageNum.value];
      i := i + 1;
    }
    assert texts[..i] == texts;
    var out := Reorder(labels);
    ReorderedCount(labels);
    return Some(out);
  }
}
