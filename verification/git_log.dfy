/** `_parse_raw_git_log`: the text `git log --numstat` prints in the
    collector's format, turned into commit records. Each record is the commit
    delimiter, nine fixed lines (tree hash, commit hash, author name, email and
    date, committer name, email and date, subject), the body lines, the body
    delimiter line, then one `added<TAB>deleted<TAB>path` line per changed file. */
module GitLog {
  import opened Wrappers
  import Seqs
  import Strings
  import opened Records

  const CommitDelim := "----START~~~COMMIT----\n"
  const BodyDelim := "--END~~OF~~BODY--"

  /** The lines before the body. */
  const HeaderLines := 9

  predicate NonEmpty(c: string) {
    |c| > 0
  }

  /** The non-empty pieces between commit delimiters, in order: as many
      chunks as non-empty pieces (their order is `ChunksInOrder`). */
  function Chunks(raw: string): (r: seq<string>)
    ensures forall c :: c in r <==> c in Strings.Split(raw, CommitDelim) && |c| > 0
    ensures forall i :: 0 <= i < |r| ==> |r[i]| > 0
    ensures |r| == Seqs.CountWhere(Strings.Split(raw, CommitDelim), NonEmpty)
  {
    var pieces := Strings.Split(raw, CommitDelim);
    var r := Seqs.Filter(pieces, NonEmpty);
    assert forall i :: 0 <= i < |r| ==> r[i] in r;
    Seqs.FilterLength(pieces, NonEmpty);
    r
  }

  /** The chunks keep the order and the repeats of the pieces: the `i`-th
      chunk is the non-empty piece with exactly `i` non-empty pieces before it. */
  lemma {:induction false} ChunksInOrder(raw: string, pieces: seq<string>, i: nat)
    requires pieces == Strings.Split(raw, CommitDelim)
    requires i < |Chunks(raw)|
    ensures exists j :: 0 <= j < |pieces| && NonEmpty(pieces[j]) && pieces[j] == Chunks(raw)[i]
                        && Seqs.CountWhere(pieces[..j], NonEmpty) == i
  {
    assert Chunks(raw) == Seqs.Filter(pieces, NonEmpty);
    Seqs.FilterNth(pieces, NonEmpty, i);
  }

  /** `lines[start::step]`. */
  function Strided(lines: seq<string>, start: nat, step: nat): (r: seq<string>)
    requires step > 0
    ensures start >= |lines| ==> r == []
    ensures start < |lines| ==> |r| > 0 && r[0] == lines[start] && r[1..] == Strided(lines, start + step, step)
    decreases |lines| - start
  {
    if start >= |lines| then [] else [lines[start]] + Strided(lines, start + step, step)
  }

  /** The body as the collector builds it: the lines at `9`, `9 + d`,
      `9 + 2d`, ... (where `d` is the body delimiter's line) that are not the
      delimiter, joined without separators. */
  function Body(lines: seq<string>, d: nat): string
    requires d > 0
  {
    Strings.Concat(Seqs.Filter(Strided(lines, HeaderLines, d), v => v != BodyDelim))
  }

  /** A numstat count: `-` (a binary file) is 0, anything else must be an
      integer. */
  function CountField(field: string): (r: Option<int>)
    ensures field == "-" ==> r == Some(0)
    ensures field != "-" ==> r == Strings.ParseInt(field)
  {
    if field == "-" then Some(0) else Strings.ParseInt(field)
  }

  /** One change line split on tabs: additions, deletions, path. `None` when
      it has fewer than three fields or a count is not a number. */
  function ParseChange(line: string): (r: Option<ChangeStat>)
    ensures var parts := Strings.Split(line, "\t");
      r.Some? <==> |parts| >= 3 && CountField(parts[0]).Some? && CountField(parts[1]).Some?
    ensures var parts := Strings.Split(line, "\t");
      r.Some? ==> r.value == ChangeStat(parts[2], CountField(parts[0]).value, CountField(parts[1]).value)
  {
    var parts := Strings.Split(line, "\t");
    if |parts| < 3 then None
    else
      var added :- CountField(parts[0]);
      var deleted :- CountField(parts[1]);
      Some(ChangeStat(parts[2], added, deleted))
  }

  /** A change line built from two counts and a path with no tab in them
      reads back as those counts and that path. */
  lemma ChangeRoundTrip(added: string, deleted: string, path: string)
    requires '\t' !in added && '\t' !in deleted && '\t' !in path
    requires CountField(added).Some? && CountField(deleted).Some?
    ensures ParseChange(added + "\t" + deleted + "\t" + path)
         == Some(ChangeStat(path, CountField(added).value, CountField(deleted).value))
  {
    var line := added + "\t" + deleted + "\t" + path;
    Strings.SplitFirst(added, '\t', deleted + "\t" + path);
    assert added + ['\t'] + (deleted + "\t" + path) == line;
    Strings.SplitFirst(deleted, '\t', path);
    assert deleted + ['\t'] + path == deleted + "\t" + path;
    Strings.SplitAbsent(path, '\t');
    assert Strings.Split(line, "\t") == [added, deleted, path];
  }

  /** The change lines after the body delimiter; empty lines are skipped. */
  function ParseChanges(lines: seq<string>): (r: Option<seq<ChangeStat>>)
    ensures r.Some? <==> forall i :: 0 <= i < |lines| && |lines[i]| > 0 ==> ParseChange(lines[i]).Some?
    ensures r.Some? ==> |r.value| <= |lines|
  {
    if |lines| == 0 then Some([])
    else
      var front := lines[..|lines| - 1];
      var last := lines[|lines| - 1];
      assert forall i :: 0 <= i < |front| ==> front[i] == lines[i];
      var init :- ParseChanges(front);
      if |last| == 0 then Some(init)
      else
        var c :- ParseChange(last);
        Some(init + [c])
  }

  /** When every line is a well-formed change, the result is exactly those
      changes in order. */
  lemma {:induction false} ParseChangesAll(lines: seq<string>)
    requires forall i :: 0 <= i < |lines| ==> |lines[i]| > 0 && ParseChange(lines[i]).Some?
    ensures ParseChanges(lines).Some? && |ParseChanges(lines).value| == |lines|
    ensures forall i :: 0 <= i < |lines| ==> ParseChanges(lines).value[i] == ParseChange(lines[i]).value
    decreases |lines|
  {
    if |lines| > 0 {
      var front := lines[..|lines| - 1];
      assert forall i :: 0 <= i < |front| ==> front[i] == lines[i];
      ParseChangesAll(front);
      var init := ParseChanges(front).value;
      var c := ParseChange(lines[|lines| - 1]).value;
      assert ParseChanges(lines) == Some(init + [c]);
      assert forall i :: 0 <= i < |front| ==> (init + [c])[i] == init[i];
    }
  }

  /** `datetime.fromisoformat(s)`, retried on the first 19 characters when the
      whole string is rejected. `parse` is the ISO-8601 reader. */
  function ParseDate(parse: string -> Option<int>, s: string): (r: Option<int>)
    ensures parse(s).Some? ==> r == parse(s)
    ensures parse(s).None? && |s| <= 19 ==> r.None?
    ensures parse(s).None? && |s| > 19 ==> r == parse(s[..19])
  {
    if parse(s).Some? then parse(s)
    else parse(if |s| <= 19 then s else s[..19])
  }

  /** The lines make a record: the body delimiter is there and not on the
      first line, the fixed lines are all present, every change line after the
      delimiter parses and both dates are readable. */
  predicate Readable(lines: seq<string>, parse: string -> Option<int>) {
    && BodyDelim in lines
    && var d := Seqs.IndexOf(lines, BodyDelim);
    && d > 0 && |lines| >= HeaderLines
    && ParseChanges(lines[d + 1..]).Some?
    && ParseDate(parse, lines[4]).Some? && ParseDate(parse, lines[7]).Some?
  }

  /** One record, given its lines. `None` is a crash: no body delimiter line,
      the delimiter on the first line (a zero slice step), a malformed change
      line, too few fixed lines or an unreadable date. */
  function ParseLines(lines: seq<string>, parse: string -> Option<int>): (r: Option<Commit>)
    ensures r.Some? <==> Readable(lines, parse)
    ensures r.Some? ==> BodyDelim in lines && Seqs.IndexOf(lines, BodyDelim) > 0 && |lines| >= HeaderLines
    ensures r.Some? ==> var d := Seqs.IndexOf(lines, BodyDelim);
      && r.value.treeHash == lines[0] && r.value.commitHash == lines[1]
      && r.value.authorName == lines[2] && r.value.authorEmail == Some(lines[3])
      && r.value.committerName == lines[5] && r.value.committerEmail == Some(lines[6])
      && r.value.subject == lines[8]
      && r.value.body == Some(Body(lines, d))
      && ParseChanges(lines[d + 1..]) == Some(r.value.changes)
      && ParseDate(parse, lines[4]) == Some(r.value.authorDate)
      && ParseDate(parse, lines[7]) == Some(r.value.committerDate)
  {
    if BodyDelim !in lines then None
    else
      var d := Seqs.IndexOf(lines, BodyDelim);
      if d == 0 then None
      else
        var body := Body(lines, d);
        var changes :- ParseChanges(lines[d + 1..]);
        if |lines| < HeaderLines then None
        else
          var authorDate :- ParseDate(parse, lines[4]);
          var committerDate :- ParseDate(parse, lines[7]);
          Some(Commit(lines[0], lines[1], lines[2], Some(lines[3]), authorDate,
                      lines[5], Some(lines[6]), committerDate, lines[8], Some(body), changes))
  }

  /** The whole log: one commit per non-empty chunk, in order. `None` when any
      chunk fails to parse. */
  function ParseLog(raw: string, parse: string -> Option<int>): (r: Option<seq<Commit>>)
    ensures var chunks := Chunks(raw);
      && (r.Some? <==> forall i :: 0 <= i < |chunks| ==> ParseLines(Strings.SplitLines(chunks[i]), parse).Some?)
      && (r.Some? ==> |r.value| == |chunks|)
      && (r.Some? ==> forall i :: 0 <= i < |chunks| ==> Some(r.value[i]) == ParseLines(Strings.SplitLines(chunks[i]), parse))
  {
    ParseChunks(Chunks(raw), parse)
  }

  /** Each chunk read as the lines of one record. */
  function ParseChunks(chunks: seq<string>, parse: string -> Option<int>): (r: Option<seq<Commit>>)
    ensures r.Some? <==> forall i :: 0 <= i < |chunks| ==> ParseLines(Strings.SplitLines(chunks[i]), parse).Some?
    ensures r.Some? ==> |r.value| == |chunks|
    ensures r.Some? ==> forall i :: 0 <= i < |chunks| ==> Some(r.value[i]) == ParseLines(Strings.SplitLines(chunks[i]), parse)
  {
    ParseAll(chunks, c => ParseLines(Strings.SplitLines(c), parse))
  }

  /** Every chunk read by `record`, in order; `None` at the first failure. */
  function ParseAll(chunks: seq<string>, record: string -> Option<Commit>): (r: Option<seq<Commit>>)
    ensures r.Some? <==> forall i :: 0 <= i < |chunks| ==> record(chunks[i]).Some?
    ensures r.Some? ==> |r.value| == |chunks|
    ensures r.Some? ==> forall i :: 0 <= i < |chunks| ==> Some(r.value[i]) == record(chunks[i])
  {
    if |chunks| == 0 then Some([])
    else
      var front := chunks[..|chunks| - 1];
      assert forall i :: 0 <= i < |front| ==> front[i] == chunks[i];
      var init :- ParseAll(front, record);
      var c :- record(chunks[|chunks| - 1]);
      Some(init + [c])
  }

  // ━━━━ Records with a one-line body ━━━━

  /** The lines of a record: the fixed lines, the body lines, the delimiter
      and the change lines. */
  function RecordLines(header: seq<string>, bodyLines: seq<string>, changeLines: seq<string>): seq<string> {
    header + bodyLines + [BodyDelim] + changeLines
  }

  /** Where the body delimiter of a record is found. */
  lemma DelimiterAt(header: seq<string>, bodyLines: seq<string>, changeLines: seq<string>)
    requires BodyDelim !in header && BodyDelim !in bodyLines
    ensures var lines := RecordLines(header, bodyLines, changeLines);
      BodyDelim in lines && Seqs.IndexOf(lines, BodyDelim) == |header| + |bodyLines|
  {
    var lines := RecordLines(header, bodyLines, changeLines);
    var d := |header| + |bodyLines|;
    assert lines[d] == BodyDelim;
    assert lines[..d] == header + bodyLines;
    assert BodyDelim !in lines[..d];
  }

  /** A record with a one-line body and at most eight change lines reads back
      as written: the fixed fields, the body line and the changes. */
  lemma OneLineBodyRoundTrip(header: seq<string>, bodyLine: string, changeLines: seq<string>, parse: string -> Option<int>)
    requires |header| == HeaderLines && BodyDelim !in header && bodyLine != BodyDelim
    requires |changeLines| <= 8
    requires forall i :: 0 <= i < |changeLines| ==> |changeLines[i]| > 0 && ParseChange(changeLines[i]).Some?
    requires ParseDate(parse, header[4]).Some? && ParseDate(parse, header[7]).Some?
    ensures var r := ParseLines(RecordLines(header, [bodyLine], changeLines), parse);
      && r.Some?
      && r.value.treeHash == header[0] && r.value.commitHash == header[1] && r.value.subject == header[8]
      && r.value.body == Some(bodyLine)
      && |r.value.changes| == |changeLines|
      && forall i :: 0 <= i < |changeLines| ==> r.value.changes[i] == ParseChange(changeLines[i]).value
  {
    var lines := RecordLines(header, [bodyLine], changeLines);
    DelimiterAt(header, [bodyLine], changeLines);
    var d := HeaderLines + 1;
    assert Seqs.IndexOf(lines, BodyDelim) == d;
    assert lines[d + 1..] == changeLines;
    assert lines[..HeaderLines] == header;
    ParseChangesAll(changeLines);
    assert Readable(lines, parse);
    OneLineBody(header, bodyLine, changeLines);
  }

  /** The strided body of a record with one body line and at most eight
      change lines is that line. */
  lemma OneLineBody(header: seq<string>, bodyLine: string, changeLines: seq<string>)
    requires |header| == HeaderLines && bodyLine != BodyDelim
    requires |changeLines| <= 8
    ensures Body(RecordLines(header, [bodyLine], changeLines), HeaderLines + 1) == bodyLine
  {
    var lines := RecordLines(header, [bodyLine], changeLines);
    assert Strided(lines, HeaderLines, 10) == [bodyLine];
    Seqs.FilterAll([bodyLine], v => v != BodyDelim);
    assert Strings.Concat([bodyLine]) == bodyLine;
  }

  /** The strided slice reaches past the body: a one-line body followed by
      nine to eighteen change lines picks up the ninth change line. */
  lemma NinthChangeJoinsBody(header: seq<string>, bodyLine: string, changeLines: seq<string>)
    requires |header| == HeaderLines && BodyDelim !in header && bodyLine != BodyDelim
    requires 9 <= |changeLines| <= 18 && changeLines[8] != BodyDelim
    ensures var lines := RecordLines(header, [bodyLine], changeLines);
      Body(lines, Seqs.IndexOf(lines, BodyDelim)) == bodyLine + changeLines[8]
  {
    var lines := RecordLines(header, [bodyLine], changeLines);
    DelimiterAt(header, [bodyLine], changeLines);
    assert lines[19] == changeLines[8];
    assert Strided(lines, HeaderLines, 10) == [bodyLine, changeLines[8]];
    Seqs.FilterAll([bodyLine, changeLines[8]], v => v != BodyDelim);
    assert [bodyLine, changeLines[8]][..1] == [bodyLine];
    assert Strings.Concat([bodyLine]) == bodyLine;
    assert Strings.Concat([bodyLine, changeLines[8]]) == bodyLine + changeLines[8];
  }

  /** A two-line body loses its second line. */
  lemma SecondBodyLineDropped(header: seq<string>, b1: string, b2: string, changeLines: seq<string>)
    requires |header| == HeaderLines && BodyDelim !in header && b1 != BodyDelim && b2 != BodyDelim
    requires |changeLines| <= 8
    ensures var lines := RecordLines(header, [b1, b2], changeLines);
      Body(lines, Seqs.IndexOf(lines, BodyDelim)) == b1
  {
    var lines := RecordLines(header, [b1, b2], changeLines);
    DelimiterAt(header, [b1, b2], changeLines);
    assert Strided(lines, HeaderLines + 11, 11) == [];
    assert Strided(lines, HeaderLines, 11) == [b1];
    Seqs.FilterAll([b1], v => v != BodyDelim);
    assert Strings.Concat([b1]) == b1;
  }

  // ━━━━ The body the comment describes ━━━━

  /** All lines between the fixed lines and the body delimiter, joined:
      `lines[9:d]`. */
  function CorrectedBody(lines: seq<string>, d: nat): string
    requires d <= |lines|
  {
    if d <= HeaderLines then "" else Strings.Concat(lines[HeaderLines..d])
  }

  /** The corrected body is exactly the body lines of the record, however
      many body and change lines it has. */
  lemma CorrectedBodyRoundTrip(header: seq<string>, bodyLines: seq<string>, changeLines: seq<string>)
    requires |header| == HeaderLines && BodyDelim !in header && BodyDelim !in bodyLines
    ensures var lines := RecordLines(header, bodyLines, changeLines);
      CorrectedBody(lines, Seqs.IndexOf(lines, BodyDelim)) == Strings.Concat(bodyLines)
  {
    var lines := RecordLines(header, bodyLines, changeLines);
    var d := HeaderLines + |bodyLines|;
    DelimiterAt(header, bodyLines, changeLines);
    assert Seqs.IndexOf(lines, BodyDelim) == d;
    if |bodyLines| == 0 {
      assert CorrectedBody(lines, d) == "";
    } else {
      assert lines[HeaderLines..d] == bodyLines;
      assert CorrectedBody(lines, d) == Strings.Concat(bodyLines);
    }
  }
}
