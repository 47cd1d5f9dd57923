/** The post-processing pass: for every estimator row with two or more
    truck-factor contributors the analyst names, by position, the
    contributors to drop (bots, duplicates); the answer for a given list of
    contributors is remembered and reused, and the truck factor becomes the
    number of contributors left. */
module PostProcessing {
  import opened Wrappers
  import Seqs
  import Strings

  // ━━━━ parse_input ━━━━

  /** `raw.replace(" ", "")`. */
  function NoSpaces(raw: string): (r: string)
    ensures ' ' !in r
    ensures forall c :: c in r <==> c in raw && c != ' '
  {
    if |raw| == 0 then ""
    else
      var n := |raw| - 1;
      assert raw == raw[..n] + [raw[n]];
      NoSpaces(raw[..n]) + (if raw[n] == ' ' then "" else [raw[n]])
  }

  /** Text without spaces is left as it is. */
  lemma {:induction false} NoSpacesAbsent(raw: string)
    requires ' ' !in raw
    ensures NoSpaces(raw) == raw
  {
    if |raw| > 0 {
      var n := |raw| - 1;
      NoSpacesAbsent(raw[..n]);
      assert raw == raw[..n] + [raw[n]];
    }
  }

  /** The values at most `maxIdx`, in order. */
  function AtMost(values: seq<int>, maxIdx: int): (r: seq<int>)
    ensures forall v :: v in r <==> v in values && v <= maxIdx
  {
    if |values| == 0 then []
    else
      var n := |values| - 1;
      assert values == values[..n] + [values[n]];
      AtMost(values[..n], maxIdx) + (if values[n] <= maxIdx then [values[n]] else [])
  }

  /** Filtering a concatenation filters each part and keeps the parts in
      order, so the result is the input's in-range values in input order,
      repetitions included. */
  lemma {:induction false} AtMostAppend(a: seq<int>, b: seq<int>, maxIdx: int)
    ensures AtMost(a + b, maxIdx) == AtMost(a, maxIdx) + AtMost(b, maxIdx)
    decreases |b|
  {
    if |b| > 0 {
      var n := |b| - 1;
      AtMostAppend(a, b[..n], maxIdx);
      assert (a + b)[..|a + b| - 1] == a + b[..n];
      assert (a + b)[|a + b| - 1] == b[n];
    } else {
      assert a + b == a;
    }
  }

  /** One value is kept exactly when it is in range. */
  lemma AtMostSingle(v: int, maxIdx: int)
    ensures AtMost([v], maxIdx) == if v <= maxIdx then [v] else []
  {
    assert [v][..0] == [];
  }

  /** Values all in range are all kept, in their order. */
  lemma {:induction false} AtMostAll(values: seq<int>, maxIdx: int)
    requires forall i :: 0 <= i < |values| ==> values[i] <= maxIdx
    ensures AtMost(values, maxIdx) == values
  {
    if |values| > 0 {
      var n := |values| - 1;
      AtMostAll(values[..n], maxIdx);
      assert values == values[..n] + [values[n]];
    }
  }

  /** `re.match(r"^\d+(,\d)*", s)` succeeds: the group may repeat zero
      times, so a leading digit is all it checks. */
  predicate LooksLikeList(s: string) {
    |s| > 0 && Strings.IsDigit(s[0])
  }

  /** `int(v)` of every piece, or `None` (a `ValueError`) when one is not
      a number. */
  function ParseInts(pieces: seq<string>): (r: Option<seq<int>>)
    ensures r.Some? <==> forall i :: 0 <= i < |pieces| ==> Strings.ParseInt(pieces[i]).Some?
    ensures r.Some? ==> |r.value| == |pieces|
    ensures r.Some? ==> forall i :: 0 <= i < |pieces| ==> r.value[i] == Strings.ParseInt(pieces[i]).value
  {
    if |pieces| == 0 then Some([])
    else
      var front := pieces[..|pieces| - 1];
      assert forall i :: 0 <= i < |front| ==> front[i] == pieces[i];
      var init :- ParseInts(front);
      var last :- Strings.ParseInt(pieces[|pieces| - 1]);
      Some(init + [last])
  }

  /** The positions the analyst asked to drop. An empty answer or one that
      does not start with a digit (after spaces are removed) drops nothing;
      otherwise every comma-separated piece must be an integer, and those
      above `maxIdx` are ignored. */
  function ParseInput(raw: string, maxIdx: int): (r: Option<seq<int>>)
    ensures raw == "" ==> r == Some([])
    ensures !LooksLikeList(NoSpaces(raw)) ==> r == Some([])
    ensures LooksLikeList(NoSpaces(raw)) ==>
      (r.Some? <==> ParseInts(Strings.Split(NoSpaces(raw), ",")).Some?)
    ensures r.Some? ==> forall v :: v in r.value ==> v <= maxIdx
    ensures var pieces := Strings.Split(NoSpaces(raw), ",");
      LooksLikeList(NoSpaces(raw)) && r.Some? ==>
        forall v :: v in r.value <==> v <= maxIdx && exists i :: 0 <= i < |pieces| && Strings.ParseInt(pieces[i]) == Some(v)
    ensures var pieces := Strings.Split(NoSpaces(raw), ",");
      LooksLikeList(NoSpaces(raw)) && r.Some? ==> r.value == AtMost(ParseInts(pieces).value, maxIdx)
  {
    if |raw| == 0 then Some([])
    else
      var s := NoSpaces(raw);
      if !LooksLikeList(s) then Some([])
      else
        var pieces := Strings.Split(s, ",");
        var values := ParseInts(pieces);
        if values.None? then
          assert !forall i :: 0 <= i < |pieces| ==> Strings.ParseInt(pieces[i]).Some?;
          None
        else
          ParsedInRange(pieces, maxIdx);
          Some(AtMost(values.value, maxIdx))
  }

  /** The in-range parsed values are exactly the in-range values some piece
      reads as. */
  lemma ParsedInRange(pieces: seq<string>, maxIdx: int)
    requires ParseInts(pieces).Some?
    ensures forall v :: v in AtMost(ParseInts(pieces).value, maxIdx) <==>
      v <= maxIdx && exists i :: 0 <= i < |pieces| && Strings.ParseInt(pieces[i]) == Some(v)
  {
    var values := ParseInts(pieces).value;
    assert forall v :: v in values <==> exists i :: 0 <= i < |pieces| && Strings.ParseInt(pieces[i]) == Some(v);
  }

  /** An answer typed as comma-separated positions, all in range, reads back
      as exactly those positions in that order. */
  lemma ParseInputRoundTrip(positions: seq<nat>, maxIdx: int)
    requires |positions| > 0
    requires forall i :: 0 <= i < |positions| ==> positions[i] <= maxIdx
    ensures ParseInput(Strings.Join(Numerals(positions), ","), maxIdx) == Some(positions)
  {
    var numerals := Numerals(positions);
    var raw := Strings.Join(numerals, ",");
    NumeralsRead(positions);
    JoinLacks(numerals, ",", ' ');
    NoSpacesAbsent(raw);
    Strings.SplitJoin(numerals, ',');
    Strings.ParseNatToString(positions[0]);
    JoinStart(numerals, ",");
    assert LooksLikeList(raw);
    var values := ParseInts(numerals);
    assert values.Some? && values.value == positions;
    AtMostAll(positions, maxIdx);
  }

  lemma NumeralsRead(positions: seq<nat>)
    ensures var numerals := Numerals(positions);
      && (forall i :: 0 <= i < |numerals| ==> ',' !in numerals[i] && ' ' !in numerals[i])
      && ParseInts(numerals) == Some(positions)
  {
    var numerals := Numerals(positions);
    forall i | 0 <= i < |positions|
      ensures Strings.ParseInt(numerals[i]) == Some(positions[i] as int)
      ensures ',' !in numerals[i] && ' ' !in numerals[i]
    {
      Strings.ParseNatToString(positions[i]);
      Strings.NatToStringDigits(positions[i]);
    }
    var values := ParseInts(numerals);
    assert values.Some?;
    assert forall i :: 0 <= i < |positions| ==> values.value[i] == positions[i];
    assert values.value == positions;
  }

  /** `str(n)` of every position. */
  function Numerals(positions: seq<nat>): (r: seq<string>)
    ensures |r| == |positions|
    ensures forall i :: 0 <= i < |r| ==> r[i] == Strings.NatToString(positions[i])
  {
    seq(|positions|, i requires 0 <= i < |positions| => Strings.NatToString(positions[i]))
  }

  lemma {:induction false} JoinLacks(pieces: seq<string>, sep: string, c: char)
    requires c !in sep
    requires forall i :: 0 <= i < |pieces| ==> c !in pieces[i]
    ensures c !in Strings.Join(pieces, sep)
  {
    if |pieces| > 1 {
      JoinLacks(pieces[1..], sep, c);
    }
  }

  lemma JoinStart(pieces: seq<string>, sep: string)
    requires |pieces| > 0 && |pieces[0]| > 0
    ensures |Strings.Join(pieces, sep)| > 0 && Strings.Join(pieces, sep)[0] == pieces[0][0]
  {
  }

  // ━━━━ filter_contribs ━━━━

  /** The positions below `n` that are not listed in `drops`, ascending. */
  function Kept(n: nat, drops: seq<int>): (r: seq<nat>)
    ensures forall k :: 0 <= k < |r| ==> r[k] < n && r[k] as int !in drops
    ensures forall i: nat :: i < n && i as int !in drops ==> i in r
    ensures forall k, l :: 0 <= k < l < |r| ==> r[k] < r[l]
  {
    if n == 0 then []
    else if (n - 1) as int in drops then Kept(n - 1, drops)
    else Kept(n - 1, drops) + [n - 1]
  }

  /** The contributors whose positions are not in `drops`, in their order. */
  function FilterContribs(contributors: seq<string>, drops: seq<int>): (r: seq<string>)
    ensures var kept := Kept(|contributors|, drops);
      |r| == |kept| && forall k :: 0 <= k < |r| ==> r[k] == contributors[kept[k]]
  {
    if |contributors| == 0 then []
    else
      var n := |contributors| - 1;
      var init := FilterContribs(contributors[..n], drops);
      if n as int in drops then init else init + [contributors[n]]
  }

  /** Dropping no position in range keeps every contributor. */
  lemma {:induction false} FilterNothing(contributors: seq<string>, drops: seq<int>)
    requires forall i :: 0 <= i < |contributors| ==> i !in drops
    ensures FilterContribs(contributors, drops) == contributors
  {
    if |contributors| > 0 {
      var n := |contributors| - 1;
      FilterNothing(contributors[..n], drops);
      assert contributors == contributors[..n] + [contributors[n]];
    }
  }

  /** Dropping a position removes exactly one contributor. */
  lemma DropOne(contributors: seq<string>, j: nat)
    requires j < |contributors|
    ensures FilterContribs(contributors, [j]) == contributors[..j] + contributors[j + 1..]
  {
    var r := FilterContribs(contributors, [j]);
    var kept := Kept(|contributors|, [j]);
    var expected := contributors[..j] + contributors[j + 1..];
    KeptAllBut(|contributors|, j);
    assert |r| == |expected|;
    forall k | 0 <= k < |r|
      ensures r[k] == expected[k]
    {
      assert r[k] == contributors[kept[k]];
      if k < j {
        assert expected[k] == contributors[k];
      } else {
        assert expected[k] == contributors[k + 1];
      }
    }
  }

  lemma {:induction false} KeptAllBut(n: nat, j: nat)
    requires j < n
    ensures var kept := Kept(n, [j]);
      |kept| == n - 1 && forall k :: 0 <= k < |kept| ==> kept[k] == if k < j then k else k + 1
  {
    if n - 1 != j {
      KeptAllBut(n - 1, j);
    } else {
      KeptNone(n - 1, [j]);
    }
  }

  lemma {:induction false} KeptNone(n: nat, drops: seq<int>)
    requires forall i :: 0 <= i < n ==> i !in drops
    ensures var kept := Kept(n, drops);
      |kept| == n && forall k :: 0 <= k < n ==> kept[k] == k
  {
    if n > 0 {
      KeptNone(n - 1, drops);
    }
  }

  // ━━━━ The rows of a result file ━━━━

  /** The two columns the pass changes: the truck factor and its
      contributors. */
  datatype Row = Row(tf: int, contributors: seq<string>)

  /** The answers remembered so far, keyed by the printed contributor list. */
  type Cache = map<string, seq<int>>

  /** The numbered listing shown to the analyst, one `i: name` line per
      contributor; it is also the cache key. */
  function Listing(contributors: seq<string>): string {
    if |contributors| == 0 then ""
    else
      var n := |contributors| - 1;
      Listing(contributors[..n]) + Strings.NatToString(n) + ": " + contributors[n] + "\n"
  }

  /** A row after its drops: the remaining contributors and their number as
      the truck factor. */
  function Applied(row: Row, drops: seq<int>): (r: Row)
    ensures r.tf == |r.contributors|
    ensures r.contributors == FilterContribs(row.contributors, drops)
  {
    var left := FilterContribs(row.contributors, drops);
    Row(|left|, left)
  }

  /** A cache that keeps every answer of `before`. */
  predicate Extends(after: Cache, before: Cache) {
    forall k :: k in before ==> k in after && after[k] == before[k]
  }

  /** A row is consistent with a cache when it is unchanged (at most one
      contributor) or it carries the cached answer for its listing. */
  predicate Consistent(before: Row, after: Row, cache: Cache) {
    if |before.contributors| <= 1 then after == before
    else
      var key := Listing(before.contributors);
      key in cache && after == Applied(before, cache[key])
  }

  /** One row. Rows with at most one contributor pass through; otherwise the
      cached answer for the listing is reused, or the next answer is read
      and remembered. `None` is running out of answers (`input()` at end of
      file) or an answer that is not a list of integers. */
  function ProcessRow(row: Row, cache: Cache, answers: seq<string>): (r: Option<(Row, Cache, seq<string>)>)
    ensures |row.contributors| <= 1 ==> r == Some((row, cache, answers))
    ensures r.Some? ==> Extends(r.value.1, cache) && Consistent(row, r.value.0, r.value.1)
    ensures r.Some? ==> r.value.2 == answers || (|answers| > 0 && r.value.2 == answers[1..])
    ensures |row.contributors| > 1 && Listing(row.contributors) in cache ==>
      r == Some((Applied(row, cache[Listing(row.contributors)]), cache, answers))
    ensures |row.contributors| > 1 && Listing(row.contributors) !in cache ==>
      (r.Some? <==> |answers| > 0 && ParseInput(answers[0], |row.contributors| - 1).Some?)
  {
    if |row.contributors| <= 1 then Some((row, cache, answers))
    else
      var key := Listing(row.contributors);
      if key in cache then Some((Applied(row, cache[key]), cache, answers))
      else if |answers| == 0 then None
      else
        var drops :- ParseInput(answers[0], |row.contributors| - 1);
        Some((Applied(row, drops), cache[key := drops], answers[1..]))
  }

  /** The rows of one file, in order, threading the cache and the answers. */
  function ProcessRows(rows: seq<Row>, cache: Cache, answers: seq<string>): (r: Option<(seq<Row>, Cache, seq<string>)>)
    ensures r.Some? ==> |r.value.0| == |rows| && Extends(r.value.1, cache)
    ensures r.Some? ==> forall i :: 0 <= i < |rows| ==> Consistent(rows[i], r.value.0[i], r.value.1)
    ensures r.Some? ==> |r.value.2| <= |answers|
  {
    if |rows| == 0 then Some(([], cache, answers))
    else
      var n := |rows| - 1;
      var (out, c1, a1) :- ProcessRows(rows[..n], cache, answers);
      var (row, c2, a2) :- ProcessRow(rows[n], c1, a1);
      ExtendsKeepsConsistent(rows[..n], out, c1, c2);
      var res := out + [row];
      assert forall i :: 0 <= i < n ==> res[i] == out[i] && rows[..n][i] == rows[i];
      Some((res, c2, a2))
  }

  lemma ExtendsKeepsConsistent(rows: seq<Row>, out: seq<Row>, before: Cache, after: Cache)
    requires |out| == |rows| && Extends(after, before)
    requires forall i :: 0 <= i < |rows| ==> Consistent(rows[i], out[i], before)
    ensures forall i :: 0 <= i < |rows| ==> Consistent(rows[i], out[i], after)
  {
  }

  /** Every result file in turn with one cache shared by all of them,
      starting empty. */
  function ProcessFiles(files: seq<seq<Row>>, answers: seq<string>): (r: Option<(seq<seq<Row>>, Cache)>)
    ensures r.Some? ==> |r.value.0| == |files|
    ensures r.Some? ==> forall f :: 0 <= f < |files| ==> |r.value.0[f]| == |files[f]|
    ensures r.Some? ==> forall f, i :: 0 <= f < |files| && 0 <= i < |files[f]| ==>
      Consistent(files[f][i], r.value.0[f][i], r.value.1)
  {
    var p :- Thread(files, answers);
    Some((p.0, p.1))
  }

  function Thread(files: seq<seq<Row>>, answers: seq<string>): (r: Option<(seq<seq<Row>>, Cache, seq<string>)>)
    ensures r.Some? ==> |r.value.0| == |files|
    ensures r.Some? ==> forall f :: 0 <= f < |files| ==> |r.value.0[f]| == |files[f]|
    ensures r.Some? ==> forall f, i :: 0 <= f < |files| && 0 <= i < |files[f]| ==>
      Consistent(files[f][i], r.value.0[f][i], r.value.1)
  {
    if |files| == 0 then Some(([], map[], answers))
    else
      var n := |files| - 1;
      var (done, c1, a1) :- Thread(files[..n], answers);
      var (out, c2, a2) :- ProcessRows(files[n], c1, a1);
      assert forall f, i :: 0 <= f < n && 0 <= i < |files[f]| ==> Consistent(files[f][i], done[f][i], c2);
      Some((done + [out], c2, a2))
  }

  /** Two rows anywhere in the run with the same contributor list (two or
      more of them) come out identical: the second reuses the first's
      answer. */
  lemma SameContributorsSameResult(files: seq<seq<Row>>, answers: seq<string>, f: nat, i: nat, g: nat, j: nat)
    requires ProcessFiles(files, answers).Some?
    requires f < |files| && i < |files[f]| && g < |files| && j < |files[g]|
    requires files[f][i].contributors == files[g][j].contributors && |files[f][i].contributors| > 1
    ensures var out := ProcessFiles(files, answers).value.0;
      out[f][i] == out[g][j]
  {
  }

  /** Every changed row's truck factor is the number of its remaining
      contributors, which are the original ones without the dropped
      positions. */
  lemma ChangedRowsCount(files: seq<seq<Row>>, answers: seq<string>, f: nat, i: nat)
    requires ProcessFiles(files, answers).Some?
    requires f < |files| && i < |files[f]| && |files[f][i].contributors| > 1
    ensures var (out, cache) := ProcessFiles(files, answers).value;
      var drops := cache[Listing(files[f][i].contributors)];
      && out[f][i].tf == |out[f][i].contributors|
      && out[f][i].contributors == FilterContribs(files[f][i].contributors, drops)
  {
  }

  /** The cache is keyed by the printed listing, not the list: a name with a
      line break in it can print the same listing as a longer list. */
  lemma ListingCollision()
    ensures Listing(["x", "y\n2: z"]) == Listing(["x", "y", "z"])
  {
    assert Strings.NatToString(0) == "0";
    assert Strings.NatToString(1) == "1";
    assert Strings.NatToString(2) == "2";
    assert ["x", "y\n2: z"][..1] == ["x"];
    assert ["x", "y", "z"][..2] == ["x", "y"];
    assert ["x", "y"][..1] == ["x"];
    assert ["x"][..0] == [];
  }
}
