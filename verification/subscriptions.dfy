/** The subscription list kept under the `shoresquad_emails` storage key, and
    the append-if-absent update `storeEmailSubscription` makes to it. */
module Subscriptions {
  import opened Wrappers

  /** No address occurs twice. */
  predicate NoDuplicates(subs: seq<string>) {
    forall i, j :: 0 <= i < j < |subs| ==> subs[i] != subs[j]
  }

  /** The addresses of a list, as a set. */
  function Members(subs: seq<string>): set<string> {
    set x | x in subs
  }

  /** The list read from storage: a missing key reads as the empty list. */
  function Load(stored: Option<seq<string>>): (subs: seq<string>)
    ensures stored.None? ==> subs == []
    ensures stored.Some? ==> subs == stored.value
  {
    stored.GetOr([])
  }

  /** Append `email` unless it is already present. */
  function Store(subs: seq<string>, email: string): (r: seq<string>)
    ensures email in r
    ensures Members(r) == Members(subs) + {email}
    ensures email in subs ==> r == subs
    ensures email !in subs ==> |r| == |subs| + 1 && r[|subs|] == email
    ensures subs <= r
  {
    if email in subs then subs else subs + [email]
  }

  /** `storeEmailSubscription`: the list read from storage (empty when the key
      is missing) with `email` appended unless already present. */
  function StoreEmailSubscription(stored: Option<seq<string>>, email: string): (r: seq<string>)
    ensures stored.None? ==> r == [email]
    ensures stored.Some? ==> r == Store(stored.value, email)
  {
    Store(Load(stored), email)
  }

  /** Storing the same address twice is the same as storing it once. */
  lemma StoreIdempotent(subs: seq<string>, email: string)
    ensures Store(Store(subs, email), email) == Store(subs, email)
  {
  }

  /** A duplicate-free list stays duplicate-free. */
  lemma StorePreservesNoDuplicates(subs: seq<string>, email: string)
    requires NoDuplicates(subs)
    ensures NoDuplicates(Store(subs, email))
  {
    var r := Store(subs, email);
    if email !in subs {
      forall i, j | 0 <= i < j < |r| ensures r[i] != r[j] {
        if j == |subs| {
          assert r[i] == subs[i];
        }
      }
    }
  }

  /** A duplicate-free list holds each of its members exactly once, so its
      length is the number of distinct subscribers. */
  lemma {:induction false} DistinctLength(subs: seq<string>)
    requires NoDuplicates(subs)
    ensures |Members(subs)| == |subs|
  {
    if |subs| > 0 {
      var init := subs[..|subs| - 1];
      var last := subs[|subs| - 1];
      assert subs == init + [last];
      assert NoDuplicates(init);
      DistinctLength(init);
      assert last !in init by {
        forall k | 0 <= k < |init| ensures init[k] != last {
          assert init[k] == subs[k];
        }
      }
      assert Members(subs) == Members(init) + {last};
    }
  }

  /** On a duplicate-free list, storing grows the list by one exactly when the
      address is new, and keeps it the same size otherwise. */
  lemma StoreCountsSubscribers(subs: seq<string>, email: string)
    requires NoDuplicates(subs)
    ensures |Store(subs, email)| == |Members(subs) + {email}|
  {
    StorePreservesNoDuplicates(subs, email);
    DistinctLength(Store(subs, email));
  }
}
