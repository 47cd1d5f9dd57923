/** Path handling of the Haratian import graph: resolving a path found on disk
    or in an import statement to one of the project's known files, and turning
    the import statements of each supported language into paths.

    Paths are `pathlib` paths written as normalised strings: components joined
    by "/", an absolute path starting with "/", no empty or "." component, and
    "." for the empty relative path. */
module HaratianPaths {
  import opened Wrappers
  import Seqs
  import Strings

  /** `PurePath.name`: the last component ("." and "/" have none). */
  function Name(p: string): (r: string)
    ensures '/' !in r
    ensures p != "." ==> Strings.EndsWith(p, r) && (|r| < |p| ==> p[|p| - |r| - 1] == '/')
  {
    var parts := Strings.Split(p, "/");
    Strings.SplitPiecesLackSep(p, "/");
    Strings.SplitLastSuffix(p, "/");
    if p == "." then "" else Strings.Last(parts)
  }

  /** The position of the last `c` in `s`. */
  function LastIndex(s: string, c: char): (r: Option<nat>)
    ensures r.Some? ==> r.value < |s| && s[r.value] == c && c !in s[r.value + 1..]
    ensures r.None? <==> c !in s
  {
    if |s| == 0 then None
    else if s[|s| - 1] == c then Some(|s| - 1)
    else
      var r := LastIndex(s[..|s| - 1], c);
      assert s == s[..|s| - 1] + [s[|s| - 1]];
      r
  }

  /** `PurePath.suffix` of a name: from its last dot on, unless that dot is
      the first or the last character. */
  function Suffix(name: string): (r: string)
    ensures r == "" || (r[0] == '.' && 1 < |r| < |name| && r == name[|name| - |r|..] && '.' !in r[1..])
  {
    match LastIndex(name, '.')
    case Some(i) =>
      if 0 < i < |name| - 1 then
        assert name[i..][1..] == name[i + 1..];
        name[i..]
      else ""
    case None => ""
  }

  /** `Path(base).joinpath(p)`: an absolute `p` replaces the base, "." (or
      "", which `pathlib` reads as ".") adds nothing. */
  function JoinPath(base: string, p: string): (r: string)
    ensures Strings.StartsWith(p, "/") ==> r == p
    ensures !Strings.StartsWith(p, "/") && p != "." && p != "" ==> r == base + "/" + p
    ensures p == "." || p == "" ==> r == base
  {
    if p == "." || p == "" then
      assert p == "." ==> p[0] != '/';
      base
    else if Strings.StartsWith(p, "/") then p
    else base + "/" + p
  }

  /** `abs.relative_to(repo)` for an `abs` that lies under `repo`. */
  predicate Under(repo: string, abs: string) {
    abs == repo || Strings.StartsWith(abs, repo + "/") || (repo == "/" && Strings.StartsWith(abs, "/"))
  }

  /** The path of `abs` inside the repository clone: relative to it when the
      repository path occurs in `abs`, `abs` itself otherwise. `None` is the
      `ValueError` `relative_to` raises when the repository path occurs in
      `abs` without being one of its leading directories. */
  function RelativeToRepo(repo: string, abs: string): (r: Option<string>)
    ensures r.None? <==> Strings.Contains(abs, repo) && !Under(repo, abs)
    ensures r.Some? && !Strings.Contains(abs, repo) ==> r.value == abs
    ensures r.Some? && Strings.Contains(abs, repo) && abs != repo && repo != "/" ==> repo + "/" + r.value == abs
    ensures abs == repo ==> r == Some(".")
  {
    if abs == repo then
      assert abs[0..|repo|] == repo;
      assert Strings.OccursAt(abs, repo, 0);
      Some(".")
    else if !Strings.Contains(abs, repo) then Some(abs)
    else if repo == "/" && Strings.StartsWith(abs, "/") then Some(abs[1..])
    else if Strings.StartsWith(abs, repo + "/") then Some(abs[|repo| + 1..])
    else None
  }

  /** A relative path joined onto the repository comes back unchanged. */
  lemma RelativeOfJoined(repo: string, p: string)
    requires repo != "/" && p != "" && !Strings.StartsWith(p, "/")
    ensures RelativeToRepo(repo, JoinPath(repo, p)) == Some(p)
  {
    if p != "." {
      var abs := repo + "/" + p;
      Strings.ContainsPrefix(repo, "/" + p);
      assert abs == repo + ("/" + p);
      assert abs[..|repo + "/"|] == repo + "/";
      assert abs[|repo| + 1..] == p;
    } else {
      Strings.ContainsPrefix(repo, "");
      assert repo + "" == repo;
    }
  }

  /** `PurePath.name` replaced by its suffix: "pkg/mod/Class" becomes
      "pkg/mod" when the class sits in a file of the parent module. Every
      occurrence of "/name" is replaced, as `str.replace` does. */
  function OneStepUp(p: string): string {
    var name := Name(p);
    Strings.ReplaceAll(p, "/" + name, Suffix(name))
  }

  /** `repo_name.split("-")[-1].lower()`. */
  function ProjectName(repoName: string): string {
    var parts := Strings.Split(repoName, "-");
    Strings.Lower(parts[|parts| - 1])
  }

  /** `Path(f"lib/{project}")`, which drops the trailing "/" of an empty name. */
  function NestedLib(project: string): string {
    if project == "" then "lib" else "lib/" + project
  }

  /** The exact-match attempts of `_map_to_known_file`, in the order they
      are tried. */
  function Candidates(rel: string, project: string): (r: seq<string>)
    ensures |r| == 6 && r[0] == rel
  {
    var src := JoinPath("src", rel);
    [rel, OneStepUp(rel), src, JoinPath("lib", rel), JoinPath(NestedLib(project), rel), OneStepUp(src)]
  }

  /** The first candidate that is a known file. */
  function FirstKnown(cands: seq<string>, known: seq<string>): (r: Option<nat>)
    ensures r.Some? ==> r.value < |cands| && cands[r.value] in known
    ensures r.Some? ==> forall j :: 0 <= j < r.value ==> cands[j] !in known
    ensures r.None? <==> forall j :: 0 <= j < |cands| ==> cands[j] !in known
  {
    if |cands| == 0 then None
    else if cands[0] in known then Some(0)
    else
      match FirstKnown(cands[1..], known)
      case Some(i) =>
        assert forall j :: 1 <= j < i + 1 ==> cands[j] == cands[1..][j - 1];
        Some(i + 1)
      case None =>
        assert forall j :: 1 <= j < |cands| ==> cands[j] == cands[1..][j - 1];
        None
  }

  /** `np.argmax`: the first position of the largest score. */
  function ArgMax(scores: seq<int>): (r: nat)
    requires |scores| > 0
    ensures r < |scores|
    ensures forall j :: 0 <= j < |scores| ==> scores[j] <= scores[r]
    ensures forall j :: 0 <= j < r ==> scores[j] < scores[r]
  {
    if |scores| == 1 then 0
    else
      var i := ArgMax(scores[..|scores| - 1]);
      assert forall j :: 0 <= j < |scores| - 1 ==> scores[j] == scores[..|scores| - 1][j];
      if scores[|scores| - 1] > scores[i] then |scores| - 1 else i
  }

  /** The file name without its suffix, as `name.replace(suffix, "")` gives
      it: every occurrence of the suffix is removed. */
  function Stem(p: string): string {
    var name := Name(p);
    Strings.ReplaceAll(name, Suffix(name), "")
  }

  /** The fuzzy last resort: the known file with the best partial-ratio score
      (`score`, first one on a tie) is accepted when its stem occurs in the
      path. */
  function FuzzyMatch(rel: string, known: seq<string>, score: (string, string) -> int): (r: Option<string>)
    requires |known| > 0
    ensures r.Some? ==> r.value in known && Strings.Contains(rel, Stem(r.value))
    ensures r.Some? ==> forall j :: 0 <= j < |known| ==> score(rel, known[j]) <= score(rel, r.value)
    ensures r.None? ==> exists i :: 0 <= i < |known| && !Strings.Contains(rel, Stem(known[i])) &&
                          forall j :: 0 <= j < |known| ==> score(rel, known[j]) <= score(rel, known[i])
  {
    var scores := seq(|known|, j requires 0 <= j < |known| => score(rel, known[j]));
    var best := known[ArgMax(scores)];
    assert forall j :: 0 <= j < |known| ==> scores[j] == score(rel, known[j]);
    if Strings.Contains(rel, Stem(best)) then Some(best) else None
  }

  /** `_map_to_known_file`: the known file a path stands for, `Some(None)`
      when nothing fits, and `None` for the two crashes: `relative_to`
      failing, and `np.argmax` of an empty list when there are no known files
      and no exact attempt hits. */
  function MapToKnown(repo: string, abs: string, known: seq<string>, project: string,
                      score: (string, string) -> int): (r: Option<Option<string>>)
    ensures r.Some? <==> (RelativeToRepo(repo, abs).Some? &&
      (|known| > 0 || FirstKnown(Candidates(RelativeToRepo(repo, abs).value, project), known).Some?))
    ensures r.Some? && r.value.Some? ==> r.value.value in known
    ensures r.Some? ==> var cands := Candidates(RelativeToRepo(repo, abs).value, project);
      FirstKnown(cands, known).Some? ==> r.value == Some(cands[FirstKnown(cands, known).value])
  {
    var rel :- RelativeToRepo(repo, abs);
    var cands := Candidates(rel, project);
    match FirstKnown(cands, known)
    case Some(i) => Some(Some(cands[i]))
    case None =>
      if |known| == 0 then None
      else Some(FuzzyMatch(rel, known, score))
  }

  /** A path already equal to a known file (relative to the clone) maps to it,
      whatever the other attempts would give. */
  lemma ExactHit(repo: string, abs: string, known: seq<string>, project: string, score: (string, string) -> int)
    requires RelativeToRepo(repo, abs).Some? && RelativeToRepo(repo, abs).value in known
    ensures MapToKnown(repo, abs, known, project, score) == Some(Some(RelativeToRepo(repo, abs).value))
  {
  }

  /** When no exact attempt hits, the fuzzy match decides. */
  lemma FallsBackToFuzzy(repo: string, abs: string, known: seq<string>, project: string, score: (string, string) -> int)
    requires RelativeToRepo(repo, abs).Some? && |known| > 0
    requires forall c :: c in Candidates(RelativeToRepo(repo, abs).value, project) ==> c !in known
    ensures MapToKnown(repo, abs, known, project, score) == Some(FuzzyMatch(RelativeToRepo(repo, abs).value, known, score))
  {
    var rel := RelativeToRepo(repo, abs).value;
    var cands := Candidates(rel, project);
    assert forall j :: 0 <= j < |cands| ==> cands[j] in cands;
    assert FirstKnown(cands, known).None?;
  }

  // Import statements

  /** `SupportedLanguage` without `UNSUPPORTED`, which never reaches here. */
  datatype Language = Python | Java | Cpp | Ruby | Js | Php

  /** `_EXTENSION_MAP`: the suffixes of the files parsed for each language. */
  function Extensions(lang: Language): seq<string> {
    match lang
    case Python => [".py"]
    case Java => [".java"]
    case Cpp => [".cpp", ".cc", ".h"]
    case Ruby => [".rb"]
    case Js => [".js"]
    case Php => [".php"]
  }

  /** The text an import node yields, as each language's branch reads it: the
      whole node, its first named child, its `name` field (when the grammar
      gives one) and its second child. */
  datatype ImportNode = ImportNode(text: string, firstNamedChild: string, nameField: Option<string>, secondChild: string)

  /** The directory components of an absolute file path: "/a/b/c.h" gives
      ["a", "b"]. */
  function Dirs(path: string): seq<string> {
    var parts := Strings.Split(path, "/");
    if |parts| < 2 then [] else parts[1..|parts| - 1]
  }

  /** `Path.parents[k]` of a file in the directory "/" + `dirs`; `None` is the
      `IndexError` of asking beyond the root. */
  function Parent(dirs: seq<string>, k: nat): (r: Option<string>)
    ensures r.Some? <==> k <= |dirs|
  {
    if k <= |dirs| then Some("/" + Strings.Join(dirs[..|dirs| - k], "/")) else None
  }

  /** `k` copies of "../". */
  function Up(k: nat): (r: string)
    ensures |r| == 3 * k
  {
    if k == 0 then "" else "../" + Up(k - 1)
  }

  /** The relative-path rewriting shared by the C++ (`levels` 5) and
      JavaScript (`levels` 2) branches: the longest leading "../" run of at
      most `levels` copies, then "./", replaced (everywhere, as `str.replace`
      does) by the matching ancestor of the importer followed by "/". */
  function Rewrite(target: string, dirs: seq<string>, levels: nat): (r: Option<string>)
    ensures r.None? ==> exists k :: 1 <= k <= levels && k > |dirs| && Strings.StartsWith(target, Up(k))
    decreases levels
  {
    if levels == 0 then
      if Strings.StartsWith(target, "./") then Some(Strings.ReplaceAll(target, "./", Parent(dirs, 0).value + "/"))
      else Some(target)
    else if Strings.StartsWith(target, Up(levels)) then
      var p :- Parent(dirs, levels);
      Some(Strings.ReplaceAll(target, Up(levels), p + "/"))
    else Rewrite(target, dirs, levels - 1)
  }

  lemma {:induction false} UpConcat(k: nat, j: nat)
    requires j <= k
    ensures Up(k) == Up(j) + Up(k - j)
    decreases j
  {
    if j > 0 {
      UpConcat(k - 1, j - 1);
    }
  }

  /** Text that starts with at least one "../" starts with "../". */
  lemma StartsWithUp(s: string, k: nat)
    requires k >= 1 && Strings.StartsWith(s, Up(k))
    ensures Strings.StartsWith(s, "../")
  {
    assert Up(k)[..3] == "../";
    assert s[..3] == Up(k)[..3];
  }

  /** Text free of "../" holds no longer run of it either. */
  lemma NoUpInside(rest: string, k: nat)
    requires k >= 1 && !Strings.Contains(rest, "../")
    ensures !Strings.Contains(rest, Up(k))
  {
    forall i | 0 <= i <= |rest| - |Up(k)|
      ensures !Strings.OccursAt(rest, Up(k), i)
    {
      assert !Strings.OccursAt(rest, "../", i);
      assert rest[i..i + |Up(k)|][..3] == rest[i..i + 3];
      assert Up(k)[..3] == "../";
    }
  }

  /** Levels whose run the target does not start with are skipped. */
  lemma {:induction false} RewriteSkips(target: string, dirs: seq<string>, levels: nat, k: nat)
    requires k <= levels
    requires forall j :: k < j <= levels ==> !Strings.StartsWith(target, Up(j))
    ensures Rewrite(target, dirs, levels) == Rewrite(target, dirs, k)
    decreases levels
  {
    if levels > k {
      RewriteSkips(target, dirs, levels - 1, k);
    }
  }

  /** A target opening with exactly `k` copies of "../" (and holding no other)
      has them replaced by the importer's `k`-th parent, or crashes when the
      importer is not that deep. */
  lemma RewriteUp(k: nat, rest: string, dirs: seq<string>, levels: nat)
    requires 1 <= k <= levels && !Strings.Contains(rest, "../")
    ensures Rewrite(Up(k) + rest, dirs, levels) ==
      if k <= |dirs| then Some(Parent(dirs, k).value + "/" + rest) else None
  {
    var target := Up(k) + rest;
    forall j | k < j <= levels
      ensures !Strings.StartsWith(target, Up(j))
    {
      if Strings.StartsWith(target, Up(j)) {
        UpConcat(j, k);
        assert target[..|Up(j)|][|Up(k)|..] == rest[..|Up(j - k)|];
        StartsWithUp(rest, j - k);
        assert Strings.OccursAt(rest, "../", 0);
        assert false;
      }
    }
    RewriteSkips(target, dirs, levels, k);
    assert target[..|Up(k)|] == Up(k);
    if k <= |dirs| {
      var p := Parent(dirs, k).value;
      Strings.ReplaceLeading(target, Up(k), p + "/");
      assert target[|Up(k)|..] == rest;
      NoUpInside(rest, k);
      Strings.ReplaceAbsent(rest, Up(k), p + "/");
    }
  }

  /** A target opening with "./" (and holding no other) is placed in the
      importer's directory. */
  lemma RewriteDot(rest: string, dirs: seq<string>, levels: nat)
    requires !Strings.Contains(rest, "./")
    ensures Rewrite("./" + rest, dirs, levels) == Some(Parent(dirs, 0).value + "/" + rest)
  {
    var target := "./" + rest;
    forall j | 0 < j <= levels
      ensures !Strings.StartsWith(target, Up(j))
    {
      assert Up(j)[1] == '.';
      assert target[1] == '/';
    }
    RewriteSkips(target, dirs, levels, 0);
    var p := Parent(dirs, 0).value;
    assert target[..2] == "./";
    Strings.ReplaceLeading(target, "./", p + "/");
    assert target[2..] == rest;
    Strings.ReplaceAbsent(rest, "./", p + "/");
  }

  /** Any other target is kept as it is. */
  lemma RewritePlain(target: string, dirs: seq<string>, levels: nat)
    requires !Strings.StartsWith(target, "../") && !Strings.StartsWith(target, "./")
    ensures Rewrite(target, dirs, levels) == Some(target)
  {
    forall j | 0 < j <= levels
      ensures !Strings.StartsWith(target, Up(j))
    {
      if Strings.StartsWith(target, Up(j)) {
        StartsWithUp(target, j);
      }
    }
    RewriteSkips(target, dirs, levels, 0);
  }

  /** The included name of a C++ `#include`: the next-to-last piece between
      double quotes, else everything after the last "<" without any ">", else
      nothing; surrounding whitespace stripped. */
  function IncludeTarget(raw: string): string {
    Strings.Strip(if '"' in raw then QuotedTarget(raw) else if '<' in raw then AngleTarget(raw) else "")
  }

  /** The second-to-last piece between double quotes. */
  function QuotedTarget(raw: string): string
    requires '"' in raw
  {
    var parts := Strings.Split(raw, "\"");
    Strings.SplitHasSep(raw, '"');
    parts[|parts| - 2]
  }

  /** The piece after the last "<", with every ">" removed. */
  function AngleTarget(raw: string): string {
    var parts := Strings.Split(raw, "<");
    Strings.ReplaceAll(parts[|parts| - 1], ">", "")
  }

  /** `#include "t"` yields `t`. */
  lemma QuotedInclude(pre: string, t: string, post: string)
    requires '"' !in t && '"' !in post
    ensures IncludeTarget(pre + "\"" + t + "\"" + post) == Strings.Strip(t)
  {
    var raw := pre + "\"" + t + "\"" + post;
    assert raw == (pre + ['"'] + t) + ['"'] + post;
    assert raw[|pre|] == '"';
    Strings.SplitSnoc(pre + ['"'] + t, '"', post);
    Strings.SplitSnoc(pre, '"', t);
  }

  /** `#include <t>` yields `t` when no double quote occurs. */
  lemma AngleInclude(pre: string, t: string)
    requires '"' !in pre && '"' !in t && '<' !in t && '>' !in t
    ensures IncludeTarget(pre + "<" + t + ">") == Strings.Strip(t)
  {
    var raw := pre + "<" + t + ">";
    assert raw == pre + ['<'] + (t + ">");
    AngleLast(pre, t + ">");
    IncludeTargetAngle(raw);
    assert AngleTarget(raw) == Strings.ReplaceAll(t + ">", ">", "");
    ClosingRemoved(t);
  }

  /** The text after the last "<". */
  lemma AngleLast(pre: string, after: string)
    requires '"' !in pre && '"' !in after && '<' !in after
    ensures var raw := pre + ['<'] + after;
      '"' !in raw && '<' in raw && Strings.Split(raw, "<")[|Strings.Split(raw, "<")| - 1] == after
  {
    var raw := pre + ['<'] + after;
    assert raw[|pre|] == '<';
    Strings.SplitSnoc(pre, '<', after);
  }

  lemma IncludeTargetAngle(raw: string)
    requires '"' !in raw && '<' in raw
    ensures IncludeTarget(raw) == Strings.Strip(AngleTarget(raw))
  {
  }

  lemma ClosingRemoved(t: string)
    requires '>' !in t
    ensures Strings.ReplaceAll(t + ">", ">", "") == t
  {
    assert t + ">" == t + ['>'] + "";
    Strings.SplitSnoc(t, '>', "");
    Strings.SplitAbsent(t, '>');
    assert Strings.Join([t, ""], "") == t;
  }

  /** `#include "../../x.h"` (`k` = 2) from a file in "/" + `dirs` names
      "x.h" in the importer's second parent; the C++ module path is this
      rewritten target (see `ModulePath`). */
  lemma CppRelativeInclude(pre: string, k: nat, rest: string, post: string, dirs: seq<string>)
    requires 1 <= k <= 5 && !Strings.Contains(rest, "../")
    requires '"' !in rest && '"' !in post && |rest| > 0 && !Strings.IsSpace(rest[|rest| - 1])
    ensures Rewrite(IncludeTarget(pre + "\"" + Up(k) + rest + "\"" + post), dirs, 5) ==
      if k <= |dirs| then Some(Parent(dirs, k).value + "/" + rest) else None
  {
    QuotedUp(pre, k, rest, post);
    RewriteUp(k, rest, dirs, 5);
  }

  lemma QuotedUp(pre: string, k: nat, rest: string, post: string)
    requires 1 <= k && '"' !in rest && '"' !in post && |rest| > 0 && !Strings.IsSpace(rest[|rest| - 1])
    ensures IncludeTarget(pre + "\"" + Up(k) + rest + "\"" + post) == Up(k) + rest
  {
    var t := Up(k) + rest;
    UpNoQuote(k);
    assert pre + "\"" + Up(k) + rest + "\"" + post == pre + "\"" + t + "\"" + post;
    QuotedInclude(pre, t, post);
    StripUp(k, rest);
  }

  lemma UpNoQuote(k: nat)
    ensures '"' !in Up(k)
  {
    forall i | 0 <= i < |Up(k)|
      ensures Up(k)[i] != '"'
    {
      UpChars(k, i);
    }
  }

  lemma StripUp(k: nat, rest: string)
    requires k >= 1 && |rest| > 0 && !Strings.IsSpace(rest[|rest| - 1])
    ensures Strings.Strip(Up(k) + rest) == Up(k) + rest
  {
    var t := Up(k) + rest;
    assert t[0] == '.';
    assert Strings.StripLeft(t) == t;
    assert t[|t| - 1] == rest[|rest| - 1];
  }

  lemma {:induction false} UpChars(k: nat, i: nat)
    requires i < |Up(k)|
    ensures Up(k)[i] == '.' || Up(k)[i] == '/'
  {
    if i >= 3 {
      UpChars(k - 1, i - 3);
    }
  }

  /** The C++ local-import test: a source or header file name, or a double
      quote left in the path. */
  predicate IsLocalCpp(m: string) {
    Strings.EndsWith(m, ".cpp") || Strings.EndsWith(m, ".cc") || Strings.EndsWith(m, ".h") || '"' in m
  }

  /** Quotes removed. */
  function Unquote(s: string): string {
    Strings.ReplaceAll(Strings.ReplaceAll(s, "\"", ""), "'", "")
  }

  /** `s.strip(c)`: every leading and trailing `c` removed. */
  function StripChar(s: string, c: char): (r: string)
    ensures |r| <= |s|
    ensures |r| > 0 ==> r[0] != c && r[|r| - 1] != c
  {
    if |s| > 0 && s[0] == c then StripChar(s[1..], c)
    else if |s| > 0 && s[|s| - 1] == c then StripChar(s[..|s| - 1], c)
    else s
  }

  /** `r` sits at position `i` of `s`, with only `c` around it. */
  predicate Framed(s: string, r: string, c: char, i: nat) {
    && i + |r| <= |s| && s[i..i + |r|] == r
    && (forall j :: 0 <= j < i ==> s[j] == c)
    && (forall j :: i + |r| <= j < |s| ==> s[j] == c)
  }

  /** Stripping removes only copies of `c`, from the two ends. */
  lemma {:induction false} StripCharFramed(s: string, c: char)
    ensures exists i: nat :: Framed(s, StripChar(s, c), c, i)
    decreases |s|
  {
    var r := StripChar(s, c);
    if |s| > 0 && s[0] == c {
      StripCharFramed(s[1..], c);
      var i: nat :| Framed(s[1..], r, c, i);
      FramedAfterFirst(s, r, c, i);
    } else if |s| > 0 && s[|s| - 1] == c {
      StripCharFramed(s[..|s| - 1], c);
      var i: nat :| Framed(s[..|s| - 1], r, c, i);
      FramedBeforeLast(s, r, c, i);
    } else {
      assert s[0..|s|] == s;
      assert Framed(s, r, c, 0);
    }
  }

  lemma FramedAfterFirst(s: string, r: string, c: char, i: nat)
    requires |s| > 0 && s[0] == c && Framed(s[1..], r, c, i)
    ensures Framed(s, r, c, i + 1)
  {
    assert s[i + 1..i + 1 + |r|] == s[1..][i..i + |r|];
  }

  lemma FramedBeforeLast(s: string, r: string, c: char, i: nat)
    requires |s| > 0 && s[|s| - 1] == c && Framed(s[..|s| - 1], r, c, i)
    ensures Framed(s, r, c, i)
  {
    assert s[i..i + |r|] == s[..|s| - 1][i..i + |r|];
  }

  /** The module path one import node names, `Some(None)` when the node names
      none (a Ruby call other than the three require forms, a JavaScript
      `import` statement), and `None` for a crash: a Java import without a
      second word, a JavaScript `require` without "(", or a relative include
      reaching above the root. */
  function ModulePath(lang: Language, node: ImportNode, dirs: seq<string>): (r: Option<Option<string>>)
    ensures lang == Cpp ==> r == (var p :- Rewrite(IncludeTarget(node.text), dirs, 5); Some(Some(p)))
    ensures lang == Python || lang == Php ==> r.Some? && r.value.Some?
    ensures lang == Python ==> Strings.EndsWith(r.value.value, ".py")
    ensures lang == Java ==> (r.None? <==> node.nameField.None? && |Strings.Split(node.text, " ")| < 2)
    ensures lang == Java && r.Some? ==> r.value.Some? && Strings.EndsWith(r.value.value, ".java")
    ensures lang == Ruby ==> (r.Some? &&
      (r.value.None? <==> Strings.Split(node.text, " ")[0] !in ["require", "require_relative", "include"]))
    ensures lang == Js ==> (r.Some? && r.value.None? <==> !Strings.StartsWith(node.text, "require"))
  {
    var parent := Parent(dirs, 0).value;
    match lang
    case Python =>
      Some(Some(Strings.ReplaceAll(node.firstNamedChild, ".", parent + "/") + ".py"))
    case Java =>
      var name :-
        if node.nameField.Some? then Some(node.nameField.value)
        else
          var words := Strings.Split(node.text, " ");
          if |words| < 2 then None else Some(StripChar(words[1], ';'));
      Some(Some(Strings.ReplaceAll(name, ".", "/") + ".java"))
    case Cpp =>
      var p :- Rewrite(IncludeTarget(node.text), dirs, 5);
      Some(Some(p))
    case Ruby =>
      var words := Strings.Split(node.text, " ");
      var arg := Unquote(Strings.Join(words[1..], " "));
      if words[0] == "require" then Some(Some(arg))
      else if words[0] == "require_relative" then Some(Some(JoinPath(parent, arg)))
      else if words[0] == "include" then Some(Some(Strings.ReplaceAll(arg, "::", "/")))
      else Some(None)
    case Js =>
      if Strings.StartsWith(node.text, "require") then
        var parts := Strings.Split(node.text, "(");
        if |parts| < 2 then None
        else
          var p :- Rewrite(Unquote(Strings.ReplaceAll(parts[1], ")", "")), dirs, 2);
          Some(Some(p))
      else Some(None)
    case Php =>
      var t := node.secondChild;
      Some(Some(Strings.ReplaceAll(Strings.ReplaceAll(Strings.ReplaceAll(Strings.ReplaceAll(t, "(", ""), ")", ""), "'", ""), "\"", "")))
  }

  /** The path a Python import names: the module name with every dot replaced
      by the importer's directory and a slash, then ".py". */
  lemma PythonModulePath(node: ImportNode, dirs: seq<string>)
    ensures ModulePath(Python, node, dirs)
         == Some(Some(Strings.ReplaceAll(node.firstNamedChild, ".", Parent(dirs, 0).value + "/") + ".py"))
  {
    var r := ModulePath(Python, node, dirs);
    assert r.value.value == Strings.ReplaceAll(node.firstNamedChild, ".", Parent(dirs, 0).value + "/") + ".py";
  }

  /** The path a Java import names: its `name` field, or else the second word
      of the statement without semicolons, with dots as slashes, then ".java". */
  lemma JavaModulePath(node: ImportNode, dirs: seq<string>)
    ensures node.nameField.Some? ==>
      ModulePath(Java, node, dirs) == Some(Some(Strings.ReplaceAll(node.nameField.value, ".", "/") + ".java"))
    ensures node.nameField.None? && |Strings.Split(node.text, " ")| >= 2 ==>
      ModulePath(Java, node, dirs)
        == Some(Some(Strings.ReplaceAll(StripChar(Strings.Split(node.text, " ")[1], ';'), ".", "/") + ".java"))
  {
  }

  /** The path a Ruby statement names: the unquoted argument for `require`,
      the argument under the importer's directory for `require_relative`,
      and the argument with `::` as `/` for `include`. */
  lemma RubyModulePath(node: ImportNode, dirs: seq<string>)
    ensures var words := Strings.Split(node.text, " ");
      var arg := Unquote(Strings.Join(words[1..], " "));
      && (words[0] == "require" ==> ModulePath(Ruby, node, dirs) == Some(Some(arg)))
      && (words[0] == "require_relative" ==> ModulePath(Ruby, node, dirs) == Some(Some(JoinPath(Parent(dirs, 0).value, arg))))
      && (words[0] == "include" ==> ModulePath(Ruby, node, dirs) == Some(Some(Strings.ReplaceAll(arg, "::", "/"))))
  {
  }

  /** The path a JavaScript `require(...)` names: the unquoted argument with
      its leading `./`, `../` or `../../` rewritten against the importer's
      directories; a crash without "(" or when the argument climbs above the
      root. */
  lemma JsModulePath(node: ImportNode, dirs: seq<string>)
    requires Strings.StartsWith(node.text, "require")
    ensures var parts := Strings.Split(node.text, "(");
      && (|parts| < 2 ==> ModulePath(Js, node, dirs).None?)
      && (|parts| >= 2 ==> var p := Rewrite(Unquote(Strings.ReplaceAll(parts[1], ")", "")), dirs, 2);
            (p.None? ==> ModulePath(Js, node, dirs).None?) && (p.Some? ==> ModulePath(Js, node, dirs) == Some(Some(p.value))))
  {
  }

  /** The path a PHP include names: its second child without parentheses,
      single quotes or double quotes. */
  lemma PhpModulePath(node: ImportNode, dirs: seq<string>)
    ensures var bare := Strings.ReplaceAll(Strings.ReplaceAll(node.secondChild, "(", ""), ")", "");
      ModulePath(Php, node, dirs) == Some(Some(Strings.ReplaceAll(Strings.ReplaceAll(bare, "'", ""), "\"", "")))
  {
  }

  /** A Python `from a.b import ...` names `a`, then the importer's directory,
      then `b.py`: every dot of the module name becomes the importer's parent
      directory. */
  lemma PythonDottedModule(node: ImportNode, dirs: seq<string>, a: string, b: string)
    requires node.firstNamedChild == a + "." + b && '.' !in a && '.' !in b
    ensures ModulePath(Python, node, dirs) == Some(Some(a + Parent(dirs, 0).value + "/" + b + ".py"))
  {
    var up := Parent(dirs, 0).value;
    assert a + "." + b == a + ['.'] + b;
    Strings.ReplaceOnce(a, '.', b, up + "/");
    assert a + (up + "/") + b + ".py" == a + up + "/" + b + ".py";
  }

  /** A Java import of a dotted name `a.b` names the file `a/b.java`. */
  lemma JavaDottedImport(node: ImportNode, dirs: seq<string>, a: string, b: string)
    requires node.nameField == Some(a + "." + b) && '.' !in a && '.' !in b
    ensures ModulePath(Java, node, dirs) == Some(Some(a + "/" + b + ".java"))
  {
    assert a + "." + b == a + ['.'] + b;
    Strings.ReplaceOnce(a, '.', b, "/");
  }

  /** The module paths of a file's import nodes, in order, skipping nodes that
      name none; `None` when any node crashes. */
  function ModulePaths(lang: Language, nodes: seq<ImportNode>, dirs: seq<string>): (r: Option<seq<string>>)
    ensures r.Some? <==> forall i :: 0 <= i < |nodes| ==> ModulePath(lang, nodes[i], dirs).Some?
    ensures r.Some? ==> forall m :: m in r.value <==>
      exists i :: 0 <= i < |nodes| && ModulePath(lang, nodes[i], dirs) == Some(Some(m))
  {
    Present(nodes, n => ModulePath(lang, n, dirs))
  }

  /** The present results of `path` over `nodes`, in order; `None` when any
      node fails. */
  function Present(nodes: seq<ImportNode>, path: ImportNode -> Option<Option<string>>): (r: Option<seq<string>>)
    ensures r.Some? <==> forall i :: 0 <= i < |nodes| ==> path(nodes[i]).Some?
    ensures r.Some? ==> forall m :: m in r.value <==> exists i :: 0 <= i < |nodes| && path(nodes[i]) == Some(Some(m))
  {
    if |nodes| == 0 then Some([])
    else
      var init := Present(nodes[..|nodes| - 1], path);
      var last := path(nodes[|nodes| - 1]);
      assert forall i :: 0 <= i < |nodes| - 1 ==> nodes[..|nodes| - 1][i] == nodes[i];
      if init.None? || last.None? then None
      else Some(init.value + (if last.value.Some? then [last.value.value] else []))
  }

  /** The imports kept as local, by language: Python, Java and Ruby module
      paths that mention the project, joined onto the clone; C++ paths that
      name a source or header file; JavaScript paths ending in ".js" or
      mentioning the project in any case; PHP paths outside "vendor", joined
      onto the clone. */
  function LocalImports(lang: Language, mods: seq<string>, repo: string, project: string): (r: seq<string>)
    ensures lang == Cpp ==> forall m :: m in r <==> m in mods && IsLocalCpp(m)
    ensures lang in {Python, Java, Ruby} ==>
      forall m :: m in r <==> exists i :: 0 <= i < |mods| && Strings.Contains(mods[i], project) && m == JoinPath(repo, mods[i])
    ensures lang == Js ==>
      forall m :: m in r <==> m in mods && (Strings.EndsWith(m, ".js") || Strings.Contains(Strings.Lower(m), Strings.Lower(project)))
    ensures lang == Php ==>
      forall m :: m in r <==> exists i :: 0 <= i < |mods| && !Strings.StartsWith(mods[i], "vendor") && m == JoinPath(repo, mods[i])
  {
    match lang
    case Cpp => Seqs.Filter(mods, IsLocalCpp)
    case Js => Seqs.Filter(mods, m => Strings.EndsWith(m, ".js") || Strings.Contains(Strings.Lower(m), Strings.Lower(project)))
    case Php =>
      var keep := m => !Strings.StartsWith(m, "vendor");
      JoinAllFilter(repo, mods, keep);
      JoinAll(repo, Seqs.Filter(mods, keep))
    case _ =>
      var keep := m => Strings.Contains(m, project);
      JoinAllFilter(repo, mods, keep);
      JoinAll(repo, Seqs.Filter(mods, keep))
  }

  lemma JoinAllFilter(base: string, mods: seq<string>, keep: string -> bool)
    ensures forall m :: m in JoinAll(base, Seqs.Filter(mods, keep)) <==>
      exists i :: 0 <= i < |mods| && keep(mods[i]) && m == JoinPath(base, mods[i])
  {
    forall m
      ensures m in JoinAll(base, Seqs.Filter(mods, keep)) <==>
        exists i :: 0 <= i < |mods| && keep(mods[i]) && m == JoinPath(base, mods[i])
    {
      JoinAllFilterMember(base, mods, keep, m);
    }
  }

  lemma JoinAllFilterMember(base: string, mods: seq<string>, keep: string -> bool, m: string)
    ensures m in JoinAll(base, Seqs.Filter(mods, keep)) <==>
      exists i :: 0 <= i < |mods| && keep(mods[i]) && m == JoinPath(base, mods[i])
  {
    var kept := Seqs.Filter(mods, keep);
    var joined := JoinAll(base, kept);
    if m in joined {
      var j :| 0 <= j < |kept| && joined[j] == m;
      assert kept[j] in kept;
      var i :| 0 <= i < |mods| && mods[i] == kept[j];
      assert keep(mods[i]) && m == JoinPath(base, mods[i]);
    }
    if exists i :: 0 <= i < |mods| && keep(mods[i]) && m == JoinPath(base, mods[i]) {
      var i :| 0 <= i < |mods| && keep(mods[i]) && m == JoinPath(base, mods[i]);
      assert mods[i] in kept;
      var j :| 0 <= j < |kept| && kept[j] == mods[i];
      assert joined[j] == m;
    }
  }

  /** Every path joined onto `base`. */
  function JoinAll(base: string, ps: seq<string>): (r: seq<string>)
    ensures |r| == |ps| && forall i :: 0 <= i < |ps| ==> r[i] == JoinPath(base, ps[i])
  {
    seq(|ps|, i requires 0 <= i < |ps| => JoinPath(base, ps[i]))
  }

  /** `_extract_paths_from_nodes`: the local import paths of one file. */
  function ExtractPaths(lang: Language, nodes: seq<ImportNode>, repo: string, importer: string, project: string): (r: Option<seq<string>>)
    ensures r.Some? <==> ModulePaths(lang, nodes, Dirs(importer)).Some?
    ensures r.Some? && lang == Cpp ==> forall m :: m in r.value <==>
      IsLocalCpp(m) && exists i :: 0 <= i < |nodes| && ModulePath(lang, nodes[i], Dirs(importer)) == Some(Some(m))
  {
    var mods :- ModulePaths(lang, nodes, Dirs(importer));
    Some(LocalImports(lang, mods, repo, project))
  }

  /** For JavaScript the local imports are the module paths ending in ".js"
      or mentioning the project in any case. */
  lemma ExtractPathsJs(nodes: seq<ImportNode>, repo: string, importer: string, project: string)
    requires ExtractPaths(Js, nodes, repo, importer, project).Some?
    ensures forall m :: m in ExtractPaths(Js, nodes, repo, importer, project).value <==>
      (Strings.EndsWith(m, ".js") || Strings.Contains(Strings.Lower(m), Strings.Lower(project)))
      && exists i :: 0 <= i < |nodes| && ModulePath(Js, nodes[i], Dirs(importer)) == Some(Some(m))
  {
  }

  /** For Python, Java and Ruby the local imports are the module paths that
      mention the project, joined onto the clone. */
  lemma ExtractPathsProject(lang: Language, nodes: seq<ImportNode>, repo: string, importer: string, project: string)
    requires lang in {Python, Java, Ruby} && ExtractPaths(lang, nodes, repo, importer, project).Some?
    ensures forall m :: m in ExtractPaths(lang, nodes, repo, importer, project).value <==>
      exists i, p :: 0 <= i < |nodes| && ModulePath(lang, nodes[i], Dirs(importer)) == Some(Some(p))
        && Strings.Contains(p, project) && m == JoinPath(repo, p)
  {
    var mods := ModulePaths(lang, nodes, Dirs(importer)).value;
    assert forall i :: 0 <= i < |mods| ==> mods[i] in mods;
  }

  /** For PHP the local imports are the module paths outside "vendor", joined
      onto the clone. */
  lemma ExtractPathsPhp(nodes: seq<ImportNode>, repo: string, importer: string, project: string)
    requires ExtractPaths(Php, nodes, repo, importer, project).Some?
    ensures forall m :: m in ExtractPaths(Php, nodes, repo, importer, project).value <==>
      exists i, p :: 0 <= i < |nodes| && ModulePath(Php, nodes[i], Dirs(importer)) == Some(Some(p))
        && !Strings.StartsWith(p, "vendor") && m == JoinPath(repo, p)
  {
    var mods := ModulePaths(Php, nodes, Dirs(importer)).value;
    assert forall i :: 0 <= i < |mods| ==> mods[i] in mods;
  }
}
