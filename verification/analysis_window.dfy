/** Analysis windows: optional start and end points in a repository's history,
    each given by a date, an issue number or a commit hash. */
module AnalysisWindow {
  import opened Wrappers

  datatype PointInTime = PointInTime(dateTime: Option<int>, issueNumber: Option<int>, commitHash: Option<string>)

  /** The validator's condition: at least one field is set. */
  predicate ValidPoint(p: PointInTime) {
    p.dateTime.Some? || p.issueNumber.Some? || p.commitHash.Some?
  }

  /** Building a point; `None` is the validation error raised when every field is missing. */
  function MakePoint(d: Option<int>, i: Option<int>, c: Option<string>): (r: Option<PointInTime>)
    ensures r.Some? <==> d.Some? || i.Some? || c.Some?
    ensures r.Some? ==> ValidPoint(r.value) && r.value.dateTime == d && r.value.issueNumber == i && r.value.commitHash == c
  {
    var p := PointInTime(d, i, c);
    if ValidPoint(p) then Some(p) else None
  }

  datatype Window = Window(start: Option<PointInTime>, end: Option<PointInTime>)

  /** Every point present in the window passes the validator. */
  predicate ValidWindow(w: Window) {
    (w.start.Some? ==> ValidPoint(w.start.value)) && (w.end.Some? ==> ValidPoint(w.end.value))
  }

  /** Reads one field back from an optional point. */
  function DateOf(p: Option<PointInTime>): Option<int> {
    if p.Some? then p.value.dateTime else None
  }

  function IssueOf(p: Option<PointInTime>): Option<int> {
    if p.Some? then p.value.issueNumber else None
  }

  function HashOf(p: Option<PointInTime>): Option<string> {
    if p.Some? then p.value.commitHash else None
  }

  /** Each constructor sets a bound exactly when its argument is present, and
      that bound carries the argument in its own field and nothing else. */
  function FromDates(start: Option<int>, end: Option<int>): (w: Window)
    ensures ValidWindow(w)
    ensures (w.start.Some? <==> start.Some?) && (w.end.Some? <==> end.Some?)
    ensures DateOf(w.start) == start && DateOf(w.end) == end
    ensures IssueOf(w.start).None? && IssueOf(w.end).None? && HashOf(w.start).None? && HashOf(w.end).None?
  {
    Window(
      if start.Some? then Some(PointInTime(start, None, None)) else None,
      if end.Some? then Some(PointInTime(end, None, None)) else None)
  }

  function FromIssueNumbers(start: Option<int>, end: Option<int>): (w: Window)
    ensures ValidWindow(w)
    ensures (w.start.Some? <==> start.Some?) && (w.end.Some? <==> end.Some?)
    ensures IssueOf(w.start) == start && IssueOf(w.end) == end
    ensures DateOf(w.start).None? && DateOf(w.end).None? && HashOf(w.start).None? && HashOf(w.end).None?
  {
    Window(
      if start.Some? then Some(PointInTime(None, start, None)) else None,
      if end.Some? then Some(PointInTime(None, end, None)) else None)
  }

  function FromCommitHashes(start: Option<string>, end: Option<string>): (w: Window)
    ensures ValidWindow(w)
    ensures (w.start.Some? <==> start.Some?) && (w.end.Some? <==> end.Some?)
    ensures HashOf(w.start) == start && HashOf(w.end) == end
    ensures DateOf(w.start).None? && DateOf(w.end).None? && IssueOf(w.start).None? && IssueOf(w.end).None?
  {
    Window(
      if start.Some? then Some(PointInTime(None, None, start)) else None,
      if end.Some? then Some(PointInTime(None, None, end)) else None)
  }
}
