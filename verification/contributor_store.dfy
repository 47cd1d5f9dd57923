/** The contributor identity store: one record per person, keyed by
    "name-email" in lower case, where a missing part reads `UNKNOWN`. An
    observation of a (name, email) pair is matched against existing keys by a
    fixed precedence of increasingly loose rules, and merged into the record it
    matches. The loose rules are regular expressions in the source; here they
    are the literal prefix/substring tests those patterns spell out. */
module ContributorStore {
  import opened Wrappers
  import Strings
  import Dicts
  import Seqs

  /** Everything the store knows about one person. `extras` values are opaque. */
  datatype Contributor = Contributor(
    name: Option<string>,
    email: Option<string>,
    aliases: set<string>,
    commitsMade: set<string>,
    issuesCreated: set<int>,
    prsCreated: set<int>,
    issuesCommentedOn: set<int>,
    prsCommentedOn: set<int>,
    extras: map<string, string>)

  /** A bare observation `Contributor(name=..., email=...)`. */
  function Observation(name: Option<string>, email: Option<string>): Contributor {
    Contributor(name, email, {}, {}, {}, {}, {}, {}, map[])
  }

  /** Python's `a or b` on optional strings: `a` unless it is `None` or empty. */
  function FirstTruthy(a: Option<string>, b: Option<string>): (r: Option<string>)
    ensures r == a || r == b
    ensures a.Some? && a.value != "" ==> r == a
  {
    if a.Some? && a.value != "" then a else b
  }

  /** The field-by-field combination `merge` builds when its operands differ. */
  function Combine(x: Contributor, y: Contributor): Contributor {
    Contributor(
      FirstTruthy(x.name, y.name),
      FirstTruthy(x.email, y.email),
      x.aliases + y.aliases,
      x.commitsMade + y.commitsMade,
      x.issuesCreated + y.issuesCreated,
      x.prsCreated + y.prsCreated,
      x.issuesCommentedOn + y.issuesCommentedOn,
      x.prsCommentedOn + y.prsCommentedOn,
      x.extras + y.extras)
  }

  /** `y`'s activity and aliases are all recorded in `x`. */
  predicate Covers(x: Contributor, y: Contributor) {
    && y.aliases <= x.aliases
    && y.commitsMade <= x.commitsMade
    && y.issuesCreated <= x.issuesCreated
    && y.prsCreated <= x.prsCreated
    && y.issuesCommentedOn <= x.issuesCommentedOn
    && y.prsCommentedOn <= x.prsCommentedOn
  }

  /** `x.merge(y)`: identical operands give `x` back; otherwise the first truthy
      name and email win, every set is united, and `y` wins on `extras`. */
  function Merge(x: Contributor, y: Contributor): (r: Contributor)
    ensures x == y ==> r == x
    ensures x.name.Some? && x.name.value != "" ==> r.name == x.name
    ensures x.name.None? || x.name.value == "" ==> r.name == y.name
    ensures x.email.Some? && x.email.value != "" ==> r.email == x.email
    ensures x.email.None? || x.email.value == "" ==> r.email == y.email
    ensures r.aliases == x.aliases + y.aliases
    ensures r.commitsMade == x.commitsMade + y.commitsMade
    ensures r.issuesCreated == x.issuesCreated + y.issuesCreated
    ensures r.prsCreated == x.prsCreated + y.prsCreated
    ensures r.issuesCommentedOn == x.issuesCommentedOn + y.issuesCommentedOn
    ensures r.prsCommentedOn == x.prsCommentedOn + y.prsCommentedOn
    ensures r.extras.Keys == x.extras.Keys + y.extras.Keys
    ensures forall k :: k in y.extras ==> r.extras[k] == y.extras[k]
    ensures forall k :: k in x.extras && k !in y.extras ==> r.extras[k] == x.extras[k]
  {
    if x == y then x else Combine(x, y)
  }

  /** Merging the same record in again changes nothing: the names and emails
      already chosen stay, and every union already holds it. */
  lemma MergeAbsorbs(x: Contributor, y: Contributor)
    ensures Merge(Merge(x, y), y) == Merge(x, y)
  {
    var r := Merge(x, y);
    var rr := Merge(r, y);
    assert rr.extras == r.extras;
  }

  /** The shortcut for identical operands is only a shortcut: the general
      combination of a record with itself is that record. */
  lemma MergeSelfIsCombine(x: Contributor)
    ensures Merge(x, x) == Combine(x, x)
  {
    assert x.extras + x.extras == x.extras;
  }

  /** Merging is commutative on activity and aliases, whatever the order. */
  lemma MergeActivitySymmetric(x: Contributor, y: Contributor)
    ensures Covers(Merge(x, y), Merge(y, x)) && Covers(Merge(y, x), Merge(x, y))
  {
  }

  /** ... but not on identity: the left operand's name wins. */
  lemma MergeNotCommutative()
    ensures var x := Observation(Some("ann"), None);
            var y := Observation(Some("bob"), None);
            Merge(x, y).name == Some("ann") && Merge(y, x).name == Some("bob")
  {
  }

  predicate HasIdentity(c: Contributor) {
    c.name.Some? || c.email.Some?
  }

  /** `get_key` for a contributor with a name or an email. */
  function Key(c: Contributor): (r: string)
    requires HasIdentity(c)
    ensures c.name.Some? ==> Strings.StartsWith(r, Strings.Lower(c.name.value) + "-")
    ensures c.email.Some? ==> Strings.EndsWith(r, "-" + Strings.Lower(c.email.value))
    ensures c.name.Some? && c.email.Some? ==> r == Strings.Lower(c.name.value) + "-" + Strings.Lower(c.email.value)
    ensures c.name.None? ==> r == "UNKNOWN-" + Strings.Lower(c.email.value)
    ensures c.email.None? ==> r == Strings.Lower(c.name.value) + "-UNKNOWN"
  {
    var n := if c.name.Some? then Strings.Lower(c.name.value) else "UNKNOWN";
    var e := if c.email.Some? then Strings.Lower(c.email.value) else "UNKNOWN";
    Dashed(n, e);
    n + "-" + e
  }

  lemma Dashed(n: string, e: string)
    ensures Strings.StartsWith(n + "-" + e, n + "-")
    ensures Strings.EndsWith(n + "-" + e, "-" + e)
  {
    var r := n + "-" + e;
    assert r[..|n| + 1] == n + "-";
    assert r[|r| - |e| - 1..] == "-" + e;
  }

  /** `get_key`: `None` when neither part is known. */
  function GetKey(c: Contributor): (r: Option<string>)
    ensures r.Some? <==> HasIdentity(c)
    ensures c.name.Some? && c.email.Some? ==> r == Some(Strings.Lower(c.name.value) + "-" + Strings.Lower(c.email.value))
    ensures c.name.Some? && c.email.None? ==> r == Some(Strings.Lower(c.name.value) + "-UNKNOWN")
    ensures c.name.None? && c.email.Some? ==> r == Some("UNKNOWN-" + Strings.Lower(c.email.value))
  {
    if HasIdentity(c) then Some(Key(c)) else None
  }

  /** A record whose name and email are both set keeps its key through any
      merge: `add_or_update` re-files such a record under the key it had. */
  lemma MergedKeyStable(x: Contributor, y: Contributor)
    requires x.name.Some? && x.name.value != "" && x.email.Some? && x.email.value != ""
    ensures HasIdentity(Merge(x, y)) && Key(Merge(x, y)) == Key(x)
  {
  }

  /** An email without "@" is discarded before the observation is stored. */
  function Normalised(c: Contributor): (r: Contributor)
    ensures r.email.Some? ==> '@' in r.email.value
    ensures c.email.Some? && '@' in c.email.value ==> r == c
    ensures r == c.(email := r.email)
  {
    if c.email.Some? && '@' !in c.email.value then c.(email := None) else c
  }

  /** The regex escaping applied to the name before the exact-key lookup. */
  function Escape(s: string): string {
    Strings.ReplaceAll(Strings.ReplaceAll(Strings.ReplaceAll(s, "?", "\\?"), "*", "\\*"), "+", "\\+")
  }

  function TargetName(c: Contributor): string {
    if c.name.None? then "UNKNOWN" else Escape(Strings.Lower(c.name.value))
  }

  function TargetEmail(c: Contributor): string {
    if c.email.None? then "UNKNOWN" else Strings.Lower(c.email.value)
  }

  /** The local part of the lower-cased email, `email.split('@')[0]`. */
  function EmailUser(c: Contributor): string
    requires c.email.Some?
  {
    Strings.Split(Strings.Lower(c.email.value), "@")[0]
  }

  /** Every character is whitespace (`\s*`). */
  predicate AllSpace(s: string) {
    forall i :: 0 <= i < |s| ==> Strings.IsSpace(s[i])
  }

  /** `s` begins with the tokens separated by any run of whitespace, then "-". */
  predicate SpacedPrefix(tokens: seq<string>, s: string)
    decreases |tokens|
  {
    && |tokens| > 0
    && Strings.StartsWith(s, tokens[0])
    && var rest := s[|tokens[0]|..];
       if |tokens| == 1 then Strings.StartsWith(rest, "-")
       else exists k :: 0 <= k <= |rest| && AllSpace(rest[..k]) && SpacedPrefix(tokens[1..], rest[k..])
  }

  /** The matching rules, in the order they are tried. (The sentinel tests
      `!= "UNKNOWN"` of the source are tests for presence: a lower-cased part
      never equals the upper-case sentinel.) */
  datatype Rule = ExactKey | EmailPart | NamePrefix | SpacedName | EmailUserPart

  function Rank(rule: Rule): nat {
    match rule
    case ExactKey => 0
    case EmailPart => 1
    case NamePrefix => 2
    case SpacedName => 3
    case EmailUserPart => 4
  }

  predicate Matches(rule: Rule, c: Contributor, key: string) {
    match rule
    case ExactKey => key == TargetName(c) + "-" + TargetEmail(c)
    case EmailPart => c.email.Some? && Strings.Contains(key, "-" + TargetEmail(c))
    case NamePrefix => c.name.Some? && Strings.StartsWith(key, Strings.Lower(c.name.value) + "-")
    case SpacedName => c.name.Some? && SpacedPrefix(Strings.Split(Strings.Lower(c.name.value), " "), key)
    case EmailUserPart => c.email.Some? && Strings.Contains(key, "-" + EmailUser(c))
  }

  /** The first key, in store order, that `rule` accepts. */
  function FirstMatching(keys: seq<string>, rule: Rule, c: Contributor): (r: Option<string>)
    ensures r.Some? ==> exists i :: 0 <= i < |keys| && keys[i] == r.value
    ensures r.Some? ==> Matches(rule, c, r.value)
    ensures r.Some? ==> exists i :: 0 <= i < |keys| && keys[i] == r.value &&
                          forall j :: 0 <= j < i ==> !Matches(rule, c, keys[j])
    ensures r.None? <==> forall i :: 0 <= i < |keys| ==> !Matches(rule, c, keys[i])
  {
    if |keys| == 0 then None
    else if Matches(rule, c, keys[0]) then Some(keys[0])
    else
      var r := FirstMatching(keys[1..], rule, c);
      assert r.Some? ==> exists i :: 0 <= i < |keys| && keys[i] == r.value &&
                           forall j :: 0 <= j < i ==> !Matches(rule, c, keys[j]) by {
        if r.Some? {
          var i :| 0 <= i < |keys[1..]| && keys[1..][i] == r.value &&
                   forall j :: 0 <= j < i ==> !Matches(rule, c, keys[1..][j]);
          assert keys[i + 1] == r.value;
        }
      }
      r
  }

  type Store = Dicts.Dict<string, Contributor>

  /** `_find_match`: the key chosen by the first rule that accepts any key. */
  function FindMatch(s: Store, c: Contributor): Option<string> {
    var exact := TargetName(c) + "-" + TargetEmail(c);
    if exact in s.vals then Some(exact)
    else if FirstMatching(s.keys, EmailPart, c).Some? then FirstMatching(s.keys, EmailPart, c)
    else if FirstMatching(s.keys, NamePrefix, c).Some? then FirstMatching(s.keys, NamePrefix, c)
    else if FirstMatching(s.keys, SpacedName, c).Some? then FirstMatching(s.keys, SpacedName, c)
    else FirstMatching(s.keys, EmailUserPart, c)
  }

  /** No stored key is accepted by `rule`. */
  ghost predicate NoneAccepted(s: Store, rule: Rule, c: Contributor) {
    forall k :: k in s.vals ==> !Matches(rule, c, k)
  }

  /** `key` is the first key in `keys` that `rule` accepts. */
  ghost predicate FirstAccepted(keys: seq<string>, rule: Rule, c: Contributor, key: string) {
    && Matches(rule, c, key)
    && exists i :: 0 <= i < |keys| && keys[i] == key && forall j :: 0 <= j < i ==> !Matches(rule, c, keys[j])
  }

  /** `key` is stored and is the first key accepted by some rule, every
      earlier rule accepting no stored key. */
  ghost predicate Precedent(s: Store, c: Contributor, key: string) {
    && key in s.vals
    && exists rule ::
      && FirstAccepted(s.keys, rule, c, key)
      && forall other :: Rank(other) < Rank(rule) ==> NoneAccepted(s, other, c)
  }

  lemma NoneAcceptedOf(s: Store, rule: Rule, c: Contributor)
    requires Dicts.Valid(s) && FirstMatching(s.keys, rule, c).None?
    ensures NoneAccepted(s, rule, c)
  {
    forall k | k in s.vals
      ensures !Matches(rule, c, k)
    {
      var i :| 0 <= i < |s.keys| && s.keys[i] == k;
    }
  }

  /** Precedence: a match is the first key in store order accepted by some rule,
      and every earlier rule accepts no stored key at all. */
  lemma FindMatchPrecedence(s: Store, c: Contributor)
    requires Dicts.Valid(s)
    ensures FindMatch(s, c).Some? ==> Precedent(s, c, FindMatch(s, c).value)
  {
    if TargetName(c) + "-" + TargetEmail(c) in s.vals {
      ExactChosen(s, c);
      assert forall other :: Rank(other) >= Rank(ExactKey);
    } else {
      assert NoneAccepted(s, ExactKey, c);
      if FirstMatching(s.keys, EmailPart, c).Some? {
        assert forall other :: Rank(other) < Rank(EmailPart) ==> other == ExactKey;
        Chosen(s, c, EmailPart);
      } else {
        NoneAcceptedOf(s, EmailPart, c);
        NameRulesPrecedence(s, c);
      }
    }
  }

  /** With neither the exact key nor any email accepted, the name rules and
      then the email-user rule decide. */
  lemma NameRulesPrecedence(s: Store, c: Contributor)
    requires Dicts.Valid(s)
    requires NoneAccepted(s, ExactKey, c) && NoneAccepted(s, EmailPart, c)
    requires TargetName(c) + "-" + TargetEmail(c) !in s.vals
    requires FirstMatching(s.keys, EmailPart, c).None?
    ensures FindMatch(s, c).Some? ==> Precedent(s, c, FindMatch(s, c).value)
  {
    var keys := s.keys;
    if FirstMatching(keys, NamePrefix, c).Some? {
      assert forall other :: Rank(other) < Rank(NamePrefix) ==> other == ExactKey || other == EmailPart;
      Chosen(s, c, NamePrefix);
    } else {
      NoneAcceptedOf(s, NamePrefix, c);
      if FirstMatching(keys, SpacedName, c).Some? {
        Chosen(s, c, SpacedName);
      } else {
        NoneAcceptedOf(s, SpacedName, c);
        if FirstMatching(keys, EmailUserPart, c).Some? {
          Chosen(s, c, EmailUserPart);
        }
      }
    }
  }

  /** The exact key, when stored, is what the first rule picks. */
  lemma ExactChosen(s: Store, c: Contributor)
    requires Dicts.Valid(s) && TargetName(c) + "-" + TargetEmail(c) in s.vals
    ensures FirstAccepted(s.keys, ExactKey, c, TargetName(c) + "-" + TargetEmail(c))
  {
    var exact := TargetName(c) + "-" + TargetEmail(c);
    var keys := s.keys;
    var i :| 0 <= i < |keys| && keys[i] == exact;
    forall j | 0 <= j < i
      ensures !Matches(ExactKey, c, keys[j])
    {
      assert keys[j] != keys[i];
    }
  }

  /** A later rule's first match is picked once every earlier rule has
      accepted nothing. */
  lemma Chosen(s: Store, c: Contributor, rule: Rule)
    requires Dicts.Valid(s) && FirstMatching(s.keys, rule, c).Some?
    requires forall other :: Rank(other) < Rank(rule) ==> NoneAccepted(s, other, c)
    ensures Precedent(s, c, FirstMatching(s.keys, rule, c).value)
  {
    assert FirstAccepted(s.keys, rule, c, FirstMatching(s.keys, rule, c).value);
  }

  /** No match means that no rule accepts any stored key, and conversely. */
  lemma FindMatchNone(s: Store, c: Contributor)
    requires Dicts.Valid(s)
    ensures FindMatch(s, c).None? <==> forall rule :: NoneAccepted(s, rule, c)
  {
    var keys := s.keys;
    if FindMatch(s, c).None? {
      NoneAcceptedOf(s, EmailPart, c);
      NoneAcceptedOf(s, NamePrefix, c);
      NoneAcceptedOf(s, SpacedName, c);
      NoneAcceptedOf(s, EmailUserPart, c);
      assert NoneAccepted(s, ExactKey, c);
    } else {
      FindMatchPrecedence(s, c);
      var key := FindMatch(s, c).value;
      var rule :| FirstAccepted(keys, rule, c, key);
      assert !NoneAccepted(s, rule, c);
    }
  }

  /** Whatever a plain name-prefix test accepts, the whitespace-tolerant test
      accepts too (each single space is a run of whitespace). */
  lemma {:induction false} SpacedAcceptsPlain(n: string, rest: string)
    ensures SpacedPrefix(Strings.Split(n, " "), n + "-" + rest)
    decreases |n|
  {
    match Strings.FindFrom(n, " ", 0)
    case None =>
      SpacedSingle(n, rest);
    case Some(i) =>
      var a := n[..i];
      var b := n[i + 1..];
      SpacedAcceptsPlain(b, rest);
      SplitAtSpace(n, i);
      SpacedStep(n, a, b, rest, Strings.Split(n, " "));
  }

  /** A name without spaces is one token, followed by the hyphen. */
  lemma SpacedSingle(n: string, rest: string)
    requires Strings.FindFrom(n, " ", 0).None?
    ensures SpacedPrefix(Strings.Split(n, " "), n + "-" + rest)
  {
    var s := n + "-" + rest;
    assert Strings.Split(n, " ") == [n];
    assert s[..|n|] == n;
    assert s[|n|..] == "-" + rest;
  }

  /** The first space splits a name into its first token and the rest. */
  lemma SplitAtSpace(n: string, i: nat)
    requires Strings.FindFrom(n, " ", 0) == Some(i)
    ensures i < |n| && n == n[..i] + " " + n[i + 1..]
    ensures Strings.Split(n, " ") == [n[..i]] + Strings.Split(n[i + 1..], " ")
  {
    assert n[i..i + 1] == " ";
    Strings.AroundChar(n, i);
  }

  /** One more token, separated by a single space, keeps the whitespace-tolerant
      test passing. */
  lemma SpacedStep(n: string, a: string, b: string, rest: string, tokens: seq<string>)
    requires n == a + " " + b && tokens == [a] + Strings.Split(b, " ")
    requires SpacedPrefix(Strings.Split(b, " "), b + "-" + rest)
    ensures SpacedPrefix(tokens, n + "-" + rest)
  {
    var tail := b + "-" + rest;
    assert n + "-" + rest == a + (" " + tail);
    SpacedCons(a, tail, Strings.Split(b, " "), tokens, n + "-" + rest);
  }

  lemma SpacedCons(a: string, tail: string, more: seq<string>, tokens: seq<string>, s: string)
    requires |more| > 0 && SpacedPrefix(more, tail)
    requires tokens == [a] + more && s == a + (" " + tail)
    ensures SpacedPrefix(tokens, s)
  {
    assert tokens[0] == a && tokens[1..] == more;
    assert s[..|a|] == a;
    var after := s[|a|..];
    assert after == " " + tail;
    assert after[..1] == " " && after[1..] == tail;
    assert AllSpace(after[..1]);
  }

  /** A contributor's own key is accepted by one of the rules. */
  lemma OwnKeyMatches(c: Contributor)
    requires HasIdentity(c)
    ensures Matches(EmailPart, c, Key(c)) || Matches(NamePrefix, c, Key(c))
  {
    var k := Key(c);
    if c.email.Some? {
      var e := "-" + Strings.Lower(c.email.value);
      assert k == k[..|k| - |e|] + e;
      Strings.ContainsSuffix(k[..|k| - |e|], e);
    }
  }

  /** Every stored record sits under its own key. */
  ghost predicate Invariant(s: Store) {
    && Dicts.Valid(s)
    && forall k :: k in s.vals ==> HasIdentity(s.vals[k]) && Key(s.vals[k]) == k
  }

  /** `add_or_update` for an observation that has a name or a (valid) email:
      a new record under its own key, or the matched record merged with it,
      moved to the merged key, with the observation's key as an alias. */
  function AddOrUpdate(s: Store, c: Contributor): (r: Store)
    requires Dicts.Valid(s) && HasIdentity(Normalised(c))
    ensures Dicts.Valid(r)
    ensures |r.keys| <= |s.keys| + 1
  {
    var o := Normalised(c);
    FindMatchPrecedence(s, o);
    match FindMatch(s, o)
    case None => Dicts.Put(s, Key(o), o)
    case Some(m) =>
      var updated := Updated(s.vals[m], o);
      Seqs.WithoutShorter(s.keys, m);
      Dicts.Put(Dicts.Remove(s, m), Key(updated), updated)
  }

  /** The record an update stores: the merge, with the observation's key added
      to its aliases. */
  function Updated(partial: Contributor, o: Contributor): (r: Contributor)
    requires HasIdentity(o)
    ensures HasIdentity(r)
    ensures Covers(r, partial) && Covers(r, o)
    ensures r.aliases == partial.aliases + o.aliases + {Key(o)}
    ensures r.(aliases := {}) == Merge(partial, o).(aliases := {})
  {
    var merged := Merge(partial, o);
    merged.(aliases := merged.aliases + {Key(o)})
  }

  /** A first sighting is appended under its own key, and nothing else moves. */
  lemma AddOrUpdateNew(s: Store, c: Contributor)
    requires Dicts.Valid(s) && HasIdentity(Normalised(c))
    requires FindMatch(s, Normalised(c)).None?
    ensures var o := Normalised(c);
            var r := AddOrUpdate(s, c);
      && Key(o) !in s.vals
      && r.keys == s.keys + [Key(o)]
      && r.vals == s.vals[Key(o) := o]
  {
    var o := Normalised(c);
    FindMatchNone(s, o);
    OwnKeyMatches(o);
    assert NoneAccepted(s, EmailPart, o) && NoneAccepted(s, NamePrefix, o);
  }

  /** An update takes the matched record out and files the merged record
      under its own key: in the matched record's place if that key is taken
      by another record (which is overwritten), else at the end. Every other
      record stays as it was. */
  lemma AddOrUpdateMerges(s: Store, c: Contributor)
    requires Dicts.Valid(s) && HasIdentity(Normalised(c))
    requires FindMatch(s, Normalised(c)).Some?
    ensures var o := Normalised(c);
            var m := FindMatch(s, o).value;
            var u := Updated(s.vals[m], o);
            var r := AddOrUpdate(s, c);
      && m in s.vals
      && r.vals == (s.vals - {m})[Key(u) := u]
      && (Key(u) in s.vals && Key(u) != m ==> r.keys == Seqs.Without(s.keys, m))
      && (Key(u) !in s.vals || Key(u) == m ==> r.keys == Seqs.Without(s.keys, m) + [Key(u)])
  {
    var o := Normalised(c);
    FindMatchPrecedence(s, o);
    var m := FindMatch(s, o).value;
    AddOrUpdateMatched(s, c, m);
  }

  /** Every record stays under its own key. */
  lemma AddOrUpdateInvariant(s: Store, c: Contributor)
    requires Invariant(s) && HasIdentity(Normalised(c))
    ensures Invariant(AddOrUpdate(s, c))
  {
    var o := Normalised(c);
    match FindMatch(s, o)
    case None =>
      PutOwnKey(s, o);
    case Some(m) =>
      FindMatchPrecedence(s, o);
      RemoveKeepsInvariant(s, m);
      PutOwnKey(Dicts.Remove(s, m), Updated(s.vals[m], o));
  }

  /** Storing a record under its own key keeps the invariant. */
  lemma PutOwnKey(s: Store, v: Contributor)
    requires Invariant(s) && HasIdentity(v)
    ensures Invariant(Dicts.Put(s, Key(v), v))
  {
  }

  /** Dropping a record keeps the invariant. */
  lemma RemoveKeepsInvariant(s: Store, m: string)
    requires Invariant(s)
    ensures Invariant(Dicts.Remove(s, m))
  {
  }

  /** Adding a never-seen (name, email) twice leaves one record, under the same
      key and in the same place, holding the observation plus its own alias. */
  lemma AddTwice(s: Store, c: Contributor)
    requires Dicts.Valid(s) && HasIdentity(Normalised(c))
    requires FindMatch(s, Normalised(c)).None?
    ensures var s1 := AddOrUpdate(s, c);
            var s2 := AddOrUpdate(s1, c);
            var o := Normalised(c);
      && |s1.keys| == |s.keys| + 1
      && s2.keys == s1.keys
      && s2.vals[Key(o)] == o.(aliases := o.aliases + {Key(o)})
  {
    var o := Normalised(c);
    var key := Key(o);
    var s1 := AddOrUpdate(s, c);
    assert Normalised(o) == o;
    FindMatchNone(s, o);
    AddOrUpdateNew(s, c);
    OwnKeyMatches(o);
    forall rule, k | k in s1.vals && k != key
      ensures !Matches(rule, o, k)
    {
      assert k in s.vals;
      assert NoneAccepted(s, rule, o);
    }
    OnlyKeyAccepted(s1, o, key);
    var u := Updated(o, o);
    assert u == o.(aliases := o.aliases + {key});
    assert Key(u) == key;
    AddOrUpdateMatched(s1, c, key);
    var removed := Dicts.Remove(s1, key);
    Seqs.WithoutAbsent(s.keys, key);
    Seqs.WithoutAppend(s.keys, [key], key);
    assert Seqs.Without([key], key) == [];
    assert removed.keys == s.keys;
    assert key !in removed.vals;
  }

  lemma AddOrUpdateMatched(s: Store, c: Contributor, m: string)
    requires Dicts.Valid(s) && HasIdentity(Normalised(c))
    requires FindMatch(s, Normalised(c)) == Some(m) && m in s.vals
    ensures var u := Updated(s.vals[m], Normalised(c));
            AddOrUpdate(s, c) == Dicts.Put(Dicts.Remove(s, m), Key(u), u)
  {
  }

  /** When a single stored key is accepted by any rule, that key is the match. */
  lemma OnlyKeyAccepted(s: Store, o: Contributor, key: string)
    requires Dicts.Valid(s) && key in s.vals
    requires Matches(EmailPart, o, key) || Matches(NamePrefix, o, key)
    requires forall rule, k :: k in s.vals && k != key ==> !Matches(rule, o, k)
    ensures FindMatch(s, o) == Some(key)
  {
    FindMatchNone(s, o);
    assert !NoneAccepted(s, EmailPart, o) || !NoneAccepted(s, NamePrefix, o);
    FindMatchPrecedence(s, o);
    var m := FindMatch(s, o).value;
    var rule :| FirstAccepted(s.keys, rule, o, m) && forall other :: Rank(other) < Rank(rule) ==> NoneAccepted(s, other, o);
    assert !NoneAccepted(s, rule, o);
  }

  /** `get(name, email)`: the matched record, or `None` when both parts are
      missing or nothing matches. The store is an input only. */
  function Get(s: Store, name: Option<string>, email: Option<string>): (r: Option<Contributor>)
    requires Dicts.Valid(s)
    ensures name.None? && email.None? ==> r.None?
    ensures r.Some? ==> exists k :: k in s.vals && s.vals[k] == r.value && FindMatch(s, Observation(name, email)) == Some(k)
    ensures (name.Some? || email.Some?) && FindMatch(s, Observation(name, email)).Some? ==> r.Some?
  {
    if name.None? && email.None? then None
    else
      FindMatchPrecedence(s, Observation(name, email));
      match FindMatch(s, Observation(name, email))
      case None => None
      case Some(k) => Some(s.vals[k])
  }

  /** `drop`: removes the matched key; `None` is the `KeyError` raised when
      nothing matches. */
  function Drop(s: Store, c: Contributor): (r: Option<Store>)
    requires Dicts.Valid(s)
    ensures r.None? <==> FindMatch(s, c).None?
    ensures r.Some? ==> var k := FindMatch(s, c).value;
      && r.value.vals == s.vals - {k}
      && |r.value.keys| == |s.keys| - 1
      && (forall i :: 0 <= i < |r.value.keys| ==> r.value.keys[i] in s.keys && r.value.keys[i] != k)
  {
    FindMatchPrecedence(s, c);
    match FindMatch(s, c)
    case None => None
    case Some(k) =>
      Seqs.WithoutCount(s.keys, k);
      Some(Dicts.Remove(s, k))
  }

  /** Two records sharing the email `a-e@x`: a nameless one and `bob`'s. */
  function CollisionStore(): Store {
    Dicts.Dict(["UNKNOWN-a-e@x", "bob-a-e@x"],
      map["UNKNOWN-a-e@x" := Observation(None, Some("a-e@x")),
          "bob-a-e@x" := Observation(Some("bob"), Some("a-e@x")).(commitsMade := {"c1"})])
  }

  /** `(bob, e@x)` matches the nameless record through its email. */
  lemma CollisionMatch()
    ensures Invariant(CollisionStore())
    ensures FindMatch(CollisionStore(), Observation(Some("bob"), Some("e@x"))) == Some("UNKNOWN-a-e@x")
  {
    CollisionInvariant();
    CollisionNotExact();
    CollisionEmail();
  }

  lemma CollisionInvariant()
    ensures Invariant(CollisionStore())
  {
    var s := CollisionStore();
    var k1, k2 := "UNKNOWN-a-e@x", "bob-a-e@x";
    assert |k1| != |k2|;
    assert s.vals.Keys == {k1, k2};
    assert Dicts.Valid(s);
    NamelessKey();
    BobKey();
  }

  lemma NamelessKey()
    ensures Key(Observation(None, Some("a-e@x"))) == "UNKNOWN-a-e@x"
  {
    Strings.LowerNoUpper("a-e@x");
  }

  lemma BobKey()
    ensures Key(Observation(Some("bob"), Some("a-e@x")).(commitsMade := {"c1"})) == "bob-a-e@x"
  {
    var c := Observation(Some("bob"), Some("a-e@x")).(commitsMade := {"c1"});
    Strings.LowerNoUpper("bob");
    Strings.LowerNoUpper("a-e@x");
    assert Key(c) == "bob" + "-" + "a-e@x";
  }

  lemma CollisionNotExact()
    ensures var o := Observation(Some("bob"), Some("e@x"));
      TargetName(o) + "-" + TargetEmail(o) == "bob-e@x"
  {
    Strings.LowerNoUpper("bob");
    Strings.LowerNoUpper("e@x");
    EscapePlain("bob");
  }

  /** A name without `?`, `*` or `+` needs no escaping. */
  lemma EscapePlain(n: string)
    requires '?' !in n && '*' !in n && '+' !in n
    ensures Escape(n) == n
  {
    Strings.ContainsChar(n, '?');
    Strings.ContainsChar(n, '*');
    Strings.ContainsChar(n, '+');
    Strings.ReplaceAbsent(n, "?", "\\?");
    Strings.ReplaceAbsent(n, "*", "\\*");
    Strings.ReplaceAbsent(n, "+", "\\+");
  }

  lemma CollisionEmail()
    ensures FirstMatching(CollisionStore().keys, EmailPart, Observation(Some("bob"), Some("e@x"))) == Some("UNKNOWN-a-e@x")
  {
    var m := "UNKNOWN-a-e@x";
    var o := Observation(Some("bob"), Some("e@x"));
    Strings.LowerNoUpper("e@x");
    assert m[9..13] == "-e@x";
    assert Strings.OccursAt(m, "-e@x", 9);
    assert "-" + TargetEmail(o) == "-e@x";
    assert Matches(EmailPart, o, m);
  }

  /** As written, an update that moves a record to its merged key overwrites
      whatever other record already sits there: `bob`'s record with `a-e@x`
      (and its commit `c1`) is lost when `(bob, e@x)` is merged into the
      nameless record, whose merged key is `bob-a-e@x`. */
  lemma UpdateCanOverwriteOther()
    ensures var r := AddOrUpdate(CollisionStore(), Observation(Some("bob"), Some("e@x")));
      && Invariant(CollisionStore())
      && r.keys == ["bob-a-e@x"]
      && "c1" !in r.vals["bob-a-e@x"].commitsMade
  {
    var s := CollisionStore();
    var m, k2 := "UNKNOWN-a-e@x", "bob-a-e@x";
    var u := Updated(s.vals[m], Observation(Some("bob"), Some("e@x")));
    CollisionInvariant();
    CollisionUpdate();
    CollisionRemoved();
    CollisionMergedCommits();
    assert "c1" !in u.commitsMade;
  }

  /** Dropping the nameless record leaves only `bob-a-e@x`. */
  lemma CollisionRemoved()
    ensures var removed := Dicts.Remove(CollisionStore(), "UNKNOWN-a-e@x");
      removed.keys == ["bob-a-e@x"] && "bob-a-e@x" in removed.vals
  {
    var m, k2 := "UNKNOWN-a-e@x", "bob-a-e@x";
    assert Seqs.Without([m, k2], m) == Seqs.Without([k2], m);
  }

  /** The merged record carries none of the overwritten record's commits. */
  lemma CollisionMergedCommits()
    ensures "c1" !in Updated(Observation(None, Some("a-e@x")), Observation(Some("bob"), Some("e@x"))).commitsMade
  {
  }

  /** The update stores the merged record under `bob-a-e@x`. */
  lemma CollisionUpdate()
    ensures var s := CollisionStore();
            var o := Observation(Some("bob"), Some("e@x"));
            var m := "UNKNOWN-a-e@x";
      AddOrUpdate(s, o) == Dicts.Put(Dicts.Remove(s, m), "bob-a-e@x", Updated(s.vals[m], o))
  {
    var s := CollisionStore();
    var m := "UNKNOWN-a-e@x";
    var o := Observation(Some("bob"), Some("e@x"));
    CollisionMatch();
    assert Normalised(o) == o;
    AddOrUpdateMatched(s, o, m);
    CollisionMergedKey();
  }

  lemma CollisionMergedKey()
    ensures Key(Updated(Observation(None, Some("a-e@x")), Observation(Some("bob"), Some("e@x")))) == "bob-a-e@x"
  {
    var u := Updated(Observation(None, Some("a-e@x")), Observation(Some("bob"), Some("e@x")));
    Strings.LowerNoUpper("bob");
    Strings.LowerNoUpper("a-e@x");
    assert u.name == Some("bob") && u.email == Some("a-e@x");
  }

  /** A store of two records, both of whose keys the observation's email
      accepts (while its exact key is absent), and each of which keeps its
      key when the observation is merged in. */
  ghost predicate SwitchSetting(s: Store, o: Contributor) {
    && Dicts.Valid(s) && |s.keys| == 2
    && Normalised(o) == o && HasIdentity(o)
    && TargetName(o) + "-" + TargetEmail(o) !in s.vals
    && Matches(EmailPart, o, s.keys[0]) && Matches(EmailPart, o, s.keys[1])
    && Key(Updated(s.vals[s.keys[0]], o)) == s.keys[0]
    && Key(Updated(s.vals[s.keys[1]], o)) == s.keys[1]
  }

  /** Adding the same observation twice need not leave it in one record: the
      first add merges it into the first record, which moves to the end of
      the store, so the second add finds the other record first and merges it
      there too. Both records then carry the observation's key as an alias. */
  lemma AddTwiceSwitchesRecord(s: Store, o: Contributor)
    requires SwitchSetting(s, o)
    ensures var s1 := AddOrUpdate(s, o);
            var s2 := AddOrUpdate(s1, o);
      && s1.keys == [s.keys[1], s.keys[0]]
      && s2.keys == s.keys
      && Key(o) in s2.vals[s.keys[0]].aliases
      && Key(o) in s2.vals[s.keys[1]].aliases
  {
    var a, z := s.keys[0], s.keys[1];
    var s1 := SwitchStep(s, o);
    var s2 := SwitchStep(s1, o);
    assert s2.vals[a] == Updated(s.vals[a], o);
  }

  /** In a two-record store where the observation's email accepts the first
      key and its exact key is absent, an add merges into the first record,
      which keeps its key and moves to the end. */
  lemma SwitchStep(s: Store, o: Contributor) returns (s1: Store)
    requires Dicts.Valid(s) && |s.keys| == 2 && Normalised(o) == o && HasIdentity(o)
    requires TargetName(o) + "-" + TargetEmail(o) !in s.vals
    requires Matches(EmailPart, o, s.keys[0])
    requires Key(Updated(s.vals[s.keys[0]], o)) == s.keys[0]
    ensures s1 == AddOrUpdate(s, o)
    ensures Dicts.Valid(s1) && s1.keys == [s.keys[1], s.keys[0]]
    ensures s1.vals == s.vals[s.keys[0] := Updated(s.vals[s.keys[0]], o)]
    ensures s1.vals.Keys == s.vals.Keys
    ensures s1.vals[s.keys[1]] == s.vals[s.keys[1]]
  {
    var a, z := s.keys[0], s.keys[1];
    var u := Updated(s.vals[a], o);
    FirstKeyMatched(s, o);
    AddOrUpdateMatched(s, o, a);
    var rest := Dicts.Remove(s, a);
    assert s.keys == [a, z];
    WithoutFirstOfTwo(a, z);
    s1 := Dicts.Put(rest, a, u);
    ReplaceEntry(s.vals, a, u);
  }

  /** Taking a key out and putting it back with a new value is an update. */
  lemma ReplaceEntry(m: map<string, Contributor>, k: string, v: Contributor)
    ensures (m - {k})[k := v] == m[k := v]
  {
  }

  /** With its exact key absent, an observation whose email accepts the first
      stored key is matched to it. */
  lemma FirstKeyMatched(s: Store, o: Contributor)
    requires Dicts.Valid(s) && |s.keys| > 0
    requires TargetName(o) + "-" + TargetEmail(o) !in s.vals
    requires Matches(EmailPart, o, s.keys[0])
    ensures FindMatch(s, o) == Some(s.keys[0])
  {
    assert FirstMatching(s.keys, EmailPart, o) == Some(s.keys[0]);
  }

  lemma WithoutFirstOfTwo(a: string, b: string)
    requires a != b
    ensures Seqs.Without([a, b], a) == [b]
  {
    assert Seqs.Without([a, b], a) == [] + Seqs.Without([b], a);
    assert Seqs.Without([b], a) == [b] + Seqs.Without([], a);
  }

  /** Two records sharing the email `e@x`, `ann`'s first. */
  function TwinStore(): Store {
    SharedEmailPair("ann", "zed")
  }

  /** The records of `a` and `z`, both with the email `e@x`, in that order. */
  function SharedEmailPair(a: string, z: string): Store {
    Dicts.Dict([a + "-e@x", z + "-e@x"],
      map[a + "-e@x" := Observation(Some(a), Some("e@x")),
          z + "-e@x" := Observation(Some(z), Some("e@x"))])
  }

  /** `ann`'s and `zed`'s records, each under its own key, with the nameless
      observation of `e@x` are such a setting. */
  lemma TwinSwitches()
    ensures Invariant(TwinStore())
    ensures SwitchSetting(TwinStore(), Observation(None, Some("e@x")))
  {
    var s := TwinStore();
    assert s.keys[0] == "ann-e@x" && s.keys[1] == "zed-e@x";
    TwinInvariant();
    TwinObservation();
    TwinUpdated("ann");
    TwinUpdated("zed");
  }

  /** The nameless observation of `e@x` is kept as it is, its exact key is
      not stored, and its email accepts both stored keys. */
  lemma TwinObservation()
    ensures var o := Observation(None, Some("e@x"));
      && Normalised(o) == o && HasIdentity(o)
      && TargetName(o) + "-" + TargetEmail(o) !in TwinStore().vals
      && Matches(EmailPart, o, "ann-e@x") && Matches(EmailPart, o, "zed-e@x")
  {
    NamelessTwin("ann-e@x");
    NamelessTwin("zed-e@x");
    assert "UNKNOWN-e@x"[0] != "ann-e@x"[0] && "UNKNOWN-e@x"[0] != "zed-e@x"[0];
  }

  lemma TwinInvariant()
    ensures Invariant(TwinStore())
  {
    TwinKey("ann");
    TwinKey("zed");
    PairInvariant("ann", "zed");
  }

  /** Two records with different first letters, each filed under its own
      key, form a store that keeps the invariant. */
  lemma PairInvariant(a: string, z: string)
    requires |a| > 0 && |z| > 0 && a[0] != z[0]
    requires Key(Observation(Some(a), Some("e@x"))) == a + "-e@x"
    requires Key(Observation(Some(z), Some("e@x"))) == z + "-e@x"
    ensures Invariant(SharedEmailPair(a, z))
  {
    var s := SharedEmailPair(a, z);
    assert (a + "-e@x")[0] != (z + "-e@x")[0];
    assert Dicts.Valid(s);
  }

  /** `ann` or `zed` with `e@x` is filed under "name-e@x". */
  lemma TwinKey(n: string)
    requires n == "ann" || n == "zed"
    ensures Key(Observation(Some(n), Some("e@x"))) == n + "-e@x"
  {
    Strings.LowerNoUpper(n);
    Strings.LowerNoUpper("e@x");
  }

  /** The nameless observation of `e@x`: not normalised away, its exact key
      "UNKNOWN-e@x", and accepted by the email rule for both stored keys. */
  lemma NamelessTwin(k: string)
    requires k == "ann-e@x" || k == "zed-e@x"
    ensures var o := Observation(None, Some("e@x"));
      && Normalised(o) == o && HasIdentity(o)
      && Key(o) == "UNKNOWN-e@x"
      && TargetName(o) + "-" + TargetEmail(o) == "UNKNOWN-e@x"
      && Matches(EmailPart, o, k)
  {
    var o := Observation(None, Some("e@x"));
    assert '@' in "e@x" by { assert "e@x"[1] == '@'; }
    Strings.LowerNoUpper("e@x");
    assert k[3..] == "-e@x";
    assert Strings.OccursAt(k, "-e@x", 3);
  }

  /** Merging the nameless observation into `n`'s record keeps the key
      "n-e@x". */
  lemma TwinUpdated(n: string)
    requires n == "ann" || n == "zed"
    ensures Key(Updated(Observation(Some(n), Some("e@x")), Observation(None, Some("e@x")))) == n + "-e@x"
  {
    var o := Observation(None, Some("e@x"));
    NamelessTwin(n + "-e@x");
    MergedKeyStable(Observation(Some(n), Some("e@x")), o);
    TwinKey(n);
  }
}
