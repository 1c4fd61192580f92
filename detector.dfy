/**
  One analysis run of the page: both groups are processed only when both
  have uploads; the report holds both group sets (their sizes are the
  metrics shown), the overlap, and the download text, which is offered only
  when the overlap is non-empty.
 */
module Detector {
  import opened Wrappers
  import opened Handles
  import opened Ordering
  import opened Groups
  import opened Export

  datatype Report = Report(
    usernamesA: set<string>,
    usernamesB: set<string>,
    overlap: set<string>,
    download: Option<string>)

  /** `if images_a and images_b: ...`: the OCR outcome of each uploaded
      screenshot of group A and of group B, in upload order; `None` when
      either group has no uploads (the page then only asks for uploads). */
  method Analyze(imagesA: seq<Option<string>>, imagesB: seq<Option<string>>) returns (report: Option<Report>)
    ensures report.None? <==> imagesA == [] || imagesB == []
    ensures report.Some? ==>
      && report.value.usernamesA == GroupUsernames(imagesA)
      && report.value.usernamesB == GroupUsernames(imagesB)
      && report.value.overlap == Overlap(report.value.usernamesA, report.value.usernamesB)
    ensures report.Some? ==>
      (report.value.download.Some? <==> report.value.overlap != {})
    ensures report.Some? && report.value.download.Some? ==>
      && report.value.download.value == ExportText(report.value.overlap)
      && SplitNewlines(report.value.download.value) == Prefixed(Sorted(report.value.overlap))
  {
    if imagesA == [] || imagesB == [] {
      return None;
    }
    var usernamesA := CollectGroup(imagesA);
    var usernamesB := CollectGroup(imagesB);
    var overlap := Overlap(usernamesA, usernamesB);
    var download := None;
    if overlap != {} {
      download := Some(ExportText(overlap));
      ExportLines(overlap);
    }
    report := Some(Report(usernamesA, usernamesB, overlap, download));
  }
}
