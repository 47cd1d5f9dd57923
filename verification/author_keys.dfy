/** The contributor key an estimator files an activity under: the observed name
    and email (an email without "@" is dropped) are matched in the contributor
    store, and the matched record's key is used. `None` stands for the crash of
    calling `get_key` on a failed lookup, and for a record with neither name nor
    email, which a store keeping its invariant never holds. */
module AuthorKeys {
  import opened Wrappers
  import Dicts
  import ContributorStore
  import opened Records

  /** The email as passed to the store: kept only when it contains "@". */
  function ValidEmail(email: Option<string>): (r: Option<string>)
    ensures r.Some? <==> email.Some? && '@' in email.value
    ensures r.Some? ==> r == email
  {
    if email.Some? && '@' in email.value then email else None
  }

  /** `unique_contributors.get(name, email).get_key()`. */
  function KeyOf(store: ContributorStore.Store, name: string, email: Option<string>): (r: Option<string>)
    requires Dicts.Valid(store)
    ensures ContributorStore.Invariant(store) ==>
      r == ContributorStore.FindMatch(store, ContributorStore.Observation(Some(name), ValidEmail(email)))
    ensures ContributorStore.Invariant(store) && r.Some? ==> r.value in store.vals
  {
    var rec :- ContributorStore.Get(store, Some(name), ValidEmail(email));
    ContributorStore.GetKey(rec)
  }

  /** The key of a commit's author. */
  function CommitKey(store: ContributorStore.Store, c: Commit): Option<string>
    requires Dicts.Valid(store)
  {
    KeyOf(store, c.authorName, c.authorEmail)
  }

  /** The key of an issue or PR participant, looked up by username. */
  function UserKey(store: ContributorStore.Store, u: User): Option<string>
    requires Dicts.Valid(store)
  {
    KeyOf(store, u.username, u.email)
  }

  /** The author keys of a list of commits, failing when any lookup fails. */
  function CommitKeys(store: ContributorStore.Store, commits: seq<Commit>): (r: Option<seq<string>>)
    requires Dicts.Valid(store)
    ensures r.Some? <==> forall i :: 0 <= i < |commits| ==> CommitKey(store, commits[i]).Some?
    ensures r.Some? ==> |r.value| == |commits|
    ensures r.Some? ==> forall i :: 0 <= i < |commits| ==> r.value[i] == CommitKey(store, commits[i]).value
  {
    var keys := seq(|commits|, i requires 0 <= i < |commits| => CommitKey(store, commits[i]));
    assert forall i :: 0 <= i < |commits| ==> keys[i] == CommitKey(store, commits[i]);
    AllSome(keys)
  }
}
