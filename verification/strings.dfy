/** The handful of Python `str` operations the core relies on, over `seq<char>`:
    `in`, `startswith`, `endswith`, `split(sep)`, `sep.join`, `replace`,
    `lower`, `strip` and `splitlines`. Case mapping and whitespace are the
    ASCII (plus Latin-1 space) subset of Python's Unicode tables. */
module Strings {
  import opened Wrappers
  import Seqs

  /** `sub` occurs in `s` starting at position `i`. */
  predicate OccursAt(s: string, sub: string, i: int) {
    0 <= i && i + |sub| <= |s| && s[i..i + |sub|] == sub
  }

  /** `sub in s`. */
  predicate Contains(s: string, sub: string) {
    exists i :: 0 <= i <= |s| - |sub| && OccursAt(s, sub, i)
  }

  predicate StartsWith(s: string, p: string) {
    |p| <= |s| && s[..|p|] == p
  }

  predicate EndsWith(s: string, p: string) {
    |p| <= |s| && s[|s| - |p|..] == p
  }

  lemma ContainsSuffix(a: string, b: string)
    ensures Contains(a + b, b)
  {
    assert (a + b)[|a|..|a| + |b|] == b;
    assert OccursAt(a + b, b, |a|);
  }

  lemma ContainsPrefix(a: string, b: string)
    ensures Contains(a + b, a)
  {
    assert (a + b)[0..|a|] == a;
    assert OccursAt(a + b, a, 0);
  }

  /** A one-character string occurs exactly when the character does. */
  lemma ContainsChar(s: string, c: char)
    ensures Contains(s, [c]) <==> c in s
  {
    if c in s {
      var i :| 0 <= i < |s| && s[i] == c;
      assert s[i..i + 1] == [c];
      assert OccursAt(s, [c], i);
    }
    if Contains(s, [c]) {
      var i :| 0 <= i <= |s| - 1 && OccursAt(s, [c], i);
      assert s[i] == s[i..i + 1][0];
    }
  }

  /** The first position at or after `from` where `sub` occurs. */
  function FindFrom(s: string, sub: string, from: nat): (r: Option<nat>)
    requires |sub| > 0
    ensures r.Some? ==> from <= r.value && OccursAt(s, sub, r.value)
    ensures r.Some? ==> forall j :: from <= j < r.value ==> !OccursAt(s, sub, j)
    ensures r.None? ==> forall j :: from <= j ==> !OccursAt(s, sub, j)
    decreases |s| - from
  {
    if from + |sub| > |s| then None
    else if s[from..from + |sub|] == sub then Some(from)
    else FindFrom(s, sub, from + 1)
  }

  /** A string is what comes before position `i`, the character there, and
      what follows. */
  lemma AroundChar(s: string, i: nat)
    requires i < |s|
    ensures s == s[..i] + s[i..i + 1] + s[i + 1..]
  {
  }

  /** `s.split(sep)` for a non-empty separator. */
  function Split(s: string, sep: string): (r: seq<string>)
    requires |sep| > 0
    ensures |r| >= 1
    decreases |s|
  {
    match FindFrom(s, sep, 0)
    case None => [s]
    case Some(i) => [s[..i]] + Split(s[i + |sep|..], sep)
  }

  /** The last element of a non-empty sequence (`xs[-1]`). */
  function Last<T>(xs: seq<T>): (r: T)
    requires |xs| > 0
    ensures r in xs
  {
    xs[|xs| - 1]
  }

  /** `sep.join(pieces)`. */
  function Join(pieces: seq<string>, sep: string): string {
    if |pieces| == 0 then ""
    else if |pieces| == 1 then pieces[0]
    else pieces[0] + sep + Join(pieces[1..], sep)
  }

  /** Joining the pieces of a split with the same separator gives the string back. */
  lemma {:induction false} JoinSplit(s: string, sep: string)
    requires |sep| > 0
    ensures Join(Split(s, sep), sep) == s
    decreases |s|
  {
    match FindFrom(s, sep, 0)
    case None =>
    case Some(i) =>
      var rest := s[i + |sep|..];
      var parts := Split(rest, sep);
      JoinSplit(rest, sep);
      assert Split(s, sep) == [s[..i]] + parts;
      assert ([s[..i]] + parts)[1..] == parts;
      assert Join([s[..i]] + parts, sep) == s[..i] + sep + Join(parts, sep);
      assert s == s[..i] + s[i..i + |sep|] + rest;
  }

  /** `s.replace(pat, rep)`: Python replaces the non-overlapping occurrences from
      left to right, which is exactly `rep.join(s.split(pat))`. An empty `pat`
      only ever comes with an empty `rep` in the core, which leaves `s` as is. */
  function ReplaceAll(s: string, pat: string, rep: string): string {
    if |pat| == 0 then s else Join(Split(s, pat), rep)
  }

  /** Replacing a string that does not occur changes nothing. */
  lemma ReplaceAbsent(s: string, pat: string, rep: string)
    requires |pat| > 0 && !Contains(s, pat)
    ensures ReplaceAll(s, pat, rep) == s
  {
    FoundContains(s, pat, 0);
  }

  /** A character occurring once is replaced at that one place. */
  lemma ReplaceOnce(a: string, c: char, b: string, rep: string)
    requires c !in a && c !in b
    ensures ReplaceAll(a + [c] + b, [c], rep) == a + rep + b
  {
    SplitFirst(a, c, b);
    SplitAbsent(b, c);
    assert Split(a + [c] + b, [c]) == [a, b];
    assert Join([a, b], rep) == a + rep + Join([b], rep);
  }

  lemma FoundContains(s: string, sub: string, from: nat)
    requires |sub| > 0
    ensures FindFrom(s, sub, from).Some? ==> Contains(s, sub)
  {
    var f := FindFrom(s, sub, from);
    if f.Some? {
      assert OccursAt(s, sub, f.value);
    }
  }

  /** A leading occurrence becomes a leading `rep`, the rest is replaced in turn. */
  lemma ReplaceLeading(s: string, pat: string, rep: string)
    requires |pat| > 0 && StartsWith(s, pat)
    ensures ReplaceAll(s, pat, rep) == rep + ReplaceAll(s[|pat|..], pat, rep)
  {
    assert FindFrom(s, pat, 0) == Some(0);
    var rest := s[|pat|..];
    var parts := Split(rest, pat);
    assert Split(s, pat) == [""] + parts;
    assert Join([""] + parts, rep) == "" + rep + Join(parts, rep);
  }

  function LowerChar(c: char): char {
    if 'A' <= c <= 'Z' then (c as int + 32) as char else c
  }

  /** `s.lower()`. */
  function Lower(s: string): (r: string)
    ensures |r| == |s|
    ensures forall i :: 0 <= i < |s| ==> r[i] == LowerChar(s[i])
  {
    seq(|s|, i requires 0 <= i < |s| => LowerChar(s[i]))
  }

  /** Text without upper-case ASCII letters is its own lower case. */
  lemma LowerNoUpper(s: string)
    requires forall i :: 0 <= i < |s| ==> !('A' <= s[i] <= 'Z')
    ensures Lower(s) == s
  {
  }

  /** `c.isspace()`. */
  predicate IsSpace(c: char) {
    c == ' ' || '\t' <= c <= '\r' || '\U{1c}' <= c <= '\U{1f}' || c == '\U{85}' || c == '\U{a0}'
  }

  function StripLeft(s: string): (r: string)
    ensures |r| <= |s| && r == s[|s| - |r|..]
    ensures |r| > 0 ==> !IsSpace(r[0])
  {
    if |s| > 0 && IsSpace(s[0]) then StripLeft(s[1..]) else s
  }

  function StripRight(s: string): (r: string)
    ensures |r| <= |s| && r == s[..|r|]
    ensures |r| > 0 ==> !IsSpace(r[|r| - 1])
  {
    if |s| > 0 && IsSpace(s[|s| - 1]) then StripRight(s[..|s| - 1]) else s
  }

  /** `s.strip()`. */
  function Strip(s: string): (r: string)
    ensures |r| <= |s|
    ensures |r| > 0 ==> !IsSpace(r[0]) && !IsSpace(r[|r| - 1])
  {
    StripRight(StripLeft(s))
  }

  /** `s.splitlines()` for text whose only line boundary is `\n`: a final
      newline does not open an empty last line, and `""` has no lines. */
  function SplitLines(s: string): (r: seq<string>)
    ensures forall i :: 0 <= i < |r| ==> '\n' !in r[i]
  {
    var parts := Split(s, "\n");
    SplitPiecesLackSep(s, "\n");
    if parts[|parts| - 1] == "" then parts[..|parts| - 1] else parts
  }

  /** No piece of a split on a one-character separator contains that character. */
  lemma {:induction false} SplitPiecesLackSep(s: string, sep: string)
    requires |sep| == 1
    ensures forall i :: 0 <= i < |Split(s, sep)| ==> sep[0] !in Split(s, sep)[i]
    decreases |s|
  {
    match FindFrom(s, sep, 0)
    case None =>
      forall j | 0 <= j < |s|
        ensures s[j] != sep[0]
      {
        assert !OccursAt(s, sep, j);
        assert s[j..j + 1] == [s[j]];
      }
    case Some(i) =>
      SplitPiecesLackSep(s[i + |sep|..], sep);
      forall j | 0 <= j < i
        ensures s[j] != sep[0]
      {
        assert !OccursAt(s, sep, j);
        assert s[j..j + 1] == [s[j]];
      }
  }

  /** `last` ends `s`, and is either all of `s` or directly preceded by `c`. */
  predicate TailAfter(s: string, last: string, c: char) {
    EndsWith(s, last) && (|last| < |s| ==> s[|s| - |last| - 1] == c)
  }

  /** The last piece of a split is the text after the last separator. */
  lemma {:induction false} SplitLastSuffix(s: string, sep: string)
    requires |sep| == 1
    ensures TailAfter(s, Last(Split(s, sep)), sep[0])
    decreases |s|
  {
    match FindFrom(s, sep, 0)
    case None =>
      SplitNone(s, sep);
      assert Last(Split(s, sep)) == s;
    case Some(i) =>
      var tail := s[i + |sep|..];
      SplitLastSuffix(tail, sep);
      SepAt(s, sep, i);
      LastPieceOfTail(s, sep, i);
      var last := Last(Split(s, sep));
      assert last == Last(Split(s[i + 1..], sep));
      SuffixThroughTail(s, i, last, sep[0]);
  }

  /** The last piece of a split is the last piece of the split after the first separator. */
  lemma {:induction false} LastPieceOfTail(s: string, sep: string, i: nat)
    requires |sep| > 0 && FindFrom(s, sep, 0) == Some(i)
    ensures Last(Split(s, sep)) == Last(Split(s[i + |sep|..], sep))
  {
    SplitUnfold(s, sep, i);
    LastOfCons(s[..i], Split(s[i + |sep|..], sep));
  }

  lemma {:induction false} SplitNone(s: string, sep: string)
    requires |sep| > 0 && FindFrom(s, sep, 0).None?
    ensures Split(s, sep) == [s]
  {
  }

  lemma {:induction false} SplitUnfold(s: string, sep: string, i: nat)
    requires |sep| > 0 && FindFrom(s, sep, 0) == Some(i)
    ensures Split(s, sep) == [s[..i]] + Split(s[i + |sep|..], sep)
  {
    match FindFrom(s, sep, 0)
    case Some(j) =>
      assert j == i;
  }

  lemma LastOfCons<T>(x: T, xs: seq<T>)
    requires |xs| > 0
    ensures Last([x] + xs) == Last(xs)
  {
  }

  lemma {:induction false} SepAt(s: string, sep: string, i: nat)
    requires |sep| == 1 && OccursAt(s, sep, i)
    ensures i < |s| && s[i] == sep[0] && s[i + |sep|..] == s[i + 1..]
  {
    assert s[i..i + 1][0] == s[i];
  }

  lemma {:induction false} SuffixThroughTail(s: string, i: nat, last: string, c: char)
    requires i < |s| && s[i] == c && TailAfter(s[i + 1..], last, c)
    ensures TailAfter(s, last, c)
  {
    var tail := s[i + 1..];
    var n := |s| - |last|;
    forall k | 0 <= k < |last|
      ensures s[n + k] == last[k]
    {
      assert tail[|tail| - |last| + k] == last[k];
    }
    assert s[n..] == last;
    if |last| < |tail| {
      assert s[n - 1] == tail[|tail| - |last| - 1];
    }
  }

  /** `"".join(pieces)`. */
  function Concat(pieces: seq<string>): string {
    if |pieces| == 0 then "" else Concat(pieces[..|pieces| - 1]) + pieces[|pieces| - 1]
  }

  /** `str(n)` for a natural number. */
  function NatToString(n: nat): string {
    if n < 10 then [DigitChar(n)] else NatToString(n / 10) + [DigitChar(n % 10)]
  }

  function DigitChar(d: nat): char
    requires d < 10
  {
    ('0' as int + d) as char
  }

  predicate IsDigit(c: char) {
    '0' <= c <= '9'
  }

  /** The value of a string of ASCII digits. */
  function DigitsValue(s: string): nat
    requires forall i :: 0 <= i < |s| ==> IsDigit(s[i])
  {
    if |s| == 0 then 0
    else
      assert IsDigit(s[|s| - 1]);
      10 * DigitsValue(s[..|s| - 1]) + (s[|s| - 1] as int - '0' as int)
  }

  /** One or more ASCII digits. */
  predicate AllDigits(s: string) {
    |s| > 0 && forall i :: 0 <= i < |s| ==> IsDigit(s[i])
  }

  /** An optional `+` or `-` followed by one or more ASCII digits. */
  predicate IntLiteral(s: string) {
    AllDigits(s) || (|s| > 1 && (s[0] == '-' || s[0] == '+') && AllDigits(s[1..]))
  }

  /** `int(s)` for an optional sign followed by at least one ASCII digit; `None`
      is the `ValueError` Python raises for anything else. */
  function ParseInt(s: string): (r: Option<int>)
    ensures r.Some? <==> IntLiteral(s)
    ensures r.Some? ==> |s| > 0
    ensures r.Some? && s[0] == '-' ==> r.value <= 0
    ensures r.Some? && s[0] != '-' ==> r.value >= 0
  {
    if |s| > 0 && (s[0] == '-' || s[0] == '+') then
      var digits := s[1..];
      if |digits| > 0 && forall i :: 0 <= i < |digits| ==> IsDigit(digits[i]) then
        var v: int := DigitsValue(digits);
        Some(if s[0] == '-' then -v else v)
      else None
    else if |s| > 0 && forall i :: 0 <= i < |s| ==> IsDigit(s[i]) then Some(DigitsValue(s))
    else None
  }

  /** `int(str(n)) == n`: the decimal digits of a natural number read back
      as that number. */
  lemma {:induction false} ParseNatToString(n: nat)
    ensures |NatToString(n)| > 0 && IsDigit(NatToString(n)[0])
    ensures ParseInt(NatToString(n)) == Some(n)
  {
    NatToStringDigits(n);
  }

  lemma {:induction false} NatToStringDigits(n: nat)
    ensures |NatToString(n)| > 0
    ensures forall i :: 0 <= i < |NatToString(n)| ==> IsDigit(NatToString(n)[i])
    ensures DigitsValue(NatToString(n)) == n
  {
    if n >= 10 {
      NatToStringDigits(n / 10);
      var s := NatToString(n);
      assert s[..|s| - 1] == NatToString(n / 10);
    }
  }

  /** Splitting a join on a character none of the pieces contains gives the
      pieces back. */
  lemma {:induction false} SplitJoin(pieces: seq<string>, c: char)
    requires |pieces| > 0
    requires forall i :: 0 <= i < |pieces| ==> c !in pieces[i]
    ensures Split(Join(pieces, [c]), [c]) == pieces
  {
    if |pieces| == 1 {
      SplitAbsent(pieces[0], c);
    } else {
      var rest := Join(pieces[1..], [c]);
      SplitJoin(pieces[1..], c);
      assert Join(pieces, [c]) == pieces[0] + [c] + rest;
      SplitFirst(pieces[0], c, rest);
      assert pieces == [pieces[0]] + pieces[1..];
    }
  }

  /** Splitting on a character that does not occur gives the string alone. */
  lemma SplitAbsent(s: string, c: char)
    requires c !in s
    ensures Split(s, [c]) == [s]
  {
    forall j | 0 <= j < |s|
      ensures !OccursAt(s, [c], j)
    {
      assert s[j..j + 1][0] == s[j];
    }
    assert FindFrom(s, [c], 0).None?;
  }

  /** Splitting at the first occurrence of a character. */
  lemma SplitFirst(a: string, c: char, b: string)
    requires c !in a
    ensures Split(a + [c] + b, [c]) == [a] + Split(b, [c])
  {
    var s := a + [c] + b;
    assert OccursAt(s, [c], |a|);
    forall j | 0 <= j < |a|
      ensures !OccursAt(s, [c], j)
    {
      assert s[j..j + 1][0] == s[j] == a[j];
    }
    assert FindFrom(s, [c], 0) == Some(|a|);
    assert s[..|a|] == a;
    assert s[|a| + 1..] == b;
  }

  /** Text after the last separator is the last piece, and everything before
      it splits as it would alone. */
  lemma {:induction false} SplitSnoc(a: string, c: char, b: string)
    requires c !in b
    ensures Split(a + [c] + b, [c]) == Split(a, [c]) + [b]
    decreases |a|
  {
    SplitAbsent(b, c);
    if c !in a {
      SplitFirst(a, c, b);
      SplitAbsent(a, c);
    } else {
      var j := Seqs.IndexOf(a, c);
      SplitSnoc(a[j + 1..], c, b);
      SplitSnocStep(a, c, b, j);
    }
  }

  lemma SplitSnocStep(a: string, c: char, b: string, j: nat)
    requires j < |a| && a[j] == c && c !in a[..j]
    requires Split(a[j + 1..] + [c] + b, [c]) == Split(a[j + 1..], [c]) + [b]
    ensures Split(a + [c] + b, [c]) == Split(a, [c]) + [b]
  {
    SplitAtFirst(a, c, b, j);
    SplitAt(a, c, j);
    AppendLast([a[..j]], Split(a[j + 1..], [c]), b);
  }

  /** A character that occurs splits the text into at least two pieces. */
  lemma SplitHasSep(s: string, c: char)
    requires c in s
    ensures |Split(s, [c])| >= 2
  {
    SplitAt(s, c, Seqs.IndexOf(s, c));
  }

  lemma SplitAt(a: string, c: char, j: nat)
    requires j < |a| && a[j] == c && c !in a[..j]
    ensures Split(a, [c]) == [a[..j]] + Split(a[j + 1..], [c])
  {
    assert a == a[..j] + [c] + a[j + 1..];
    SplitFirst(a[..j], c, a[j + 1..]);
  }

  lemma AppendLast<T>(p: seq<T>, q: seq<T>, x: T)
    ensures p + (q + [x]) == (p + q) + [x]
  {
  }

  lemma SplitAtFirst(a: string, c: char, b: string, j: nat)
    requires j < |a| && a[j] == c && c !in a[..j]
    ensures Split(a + [c] + b, [c]) == [a[..j]] + Split(a[j + 1..] + [c] + b, [c])
  {
    assert a + [c] + b == a[..j] + [c] + (a[j + 1..] + [c] + b);
    SplitFirst(a[..j], c, a[j + 1..] + [c] + b);
  }
}
