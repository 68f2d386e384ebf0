/** Update notifications merged per browser and version, src-tauri/src/auto_updater.rs. */
module NotificationGrouping {
  import opened Prelude
  import opened StringOrder
  import opened Fleet

  function KeyOf(n: Notification): string {
    n.browser + ['_'] + n.newVersion
  }

  function Merge(existing: Option<Notification>, n: Notification): Notification {
    match existing
    case None => n
    case Some(e) => e.(affected := SortDedup(e.affected + n.affected))
  }

  /** What the hash map holds under a key once all notifications were seen. */
  function MergedFor(ns: seq<Notification>, key: string): Option<Notification> {
    if ns == [] then None
    else
      var n := |ns| - 1;
      var before := MergedFor(ns[..n], key);
      if KeyOf(ns[n]) == key then Some(Merge(before, ns[n])) else before
  }

  /** Some notification under this key names this profile. */
  ghost predicate Affects(ns: seq<Notification>, key: string, profile: string) {
    exists i :: 0 <= i < |ns| && KeyOf(ns[i]) == key && profile in ns[i].affected
  }

  ghost predicate Occurs(ns: seq<Notification>, key: string) {
    exists i :: 0 <= i < |ns| && KeyOf(ns[i]) == key
  }

  lemma OccursStep(ns: seq<Notification>, n: Notification, key: string)
    ensures Occurs(ns + [n], key) <==> Occurs(ns, key) || KeyOf(n) == key
    ensures forall p :: Affects(ns + [n], key, p) <==> Affects(ns, key, p) || (KeyOf(n) == key && p in n.affected)
  {
    hide KeyOf;
    var all := ns + [n];
    assert all[|ns|] == n;
    assert forall i :: 0 <= i < |ns| ==> all[i] == ns[i];
    forall p | Affects(ns, key, p)
      ensures Affects(all, key, p)
    {
      var i :| 0 <= i < |ns| && KeyOf(ns[i]) == key && p in ns[i].affected;
      assert KeyOf(all[i]) == key && p in all[i].affected;
    }
    if Occurs(ns, key) {
      var i :| 0 <= i < |ns| && KeyOf(ns[i]) == key;
      assert KeyOf(all[i]) == key;
    }
  }

  /** A merged notification exists exactly for the keys that occur, keeps its key, and affects exactly the
      profiles the notifications under its key affect. */
  lemma {:induction false} MergedMeaning(ns: seq<Notification>, key: string)
    ensures MergedFor(ns, key).Some? <==> Occurs(ns, key)
    ensures MergedFor(ns, key).Some? ==>
              && KeyOf(MergedFor(ns, key).value) == key
              && forall p :: p in MergedFor(ns, key).value.affected <==> Affects(ns, key, p)
    decreases |ns|
  {
    hide KeyOf, SortDedup, Affects, Occurs;
    if ns != [] {
      var n := |ns| - 1;
      var before, last := ns[..n], ns[n];
      assert before + [last] == ns;
      MergedMeaning(before, key);
      OccursStep(before, last, key);
      if MergedFor(before, key).Some? && KeyOf(last) == key {
        SortDedupMeaning(MergedFor(before, key).value.affected + last.affected);
        SameKey(MergedFor(before, key).value, last);
      } else if MergedFor(before, key).None? {
        AbsentAffectsNothing(before, key);
      }
    } else {
      NothingOccurs(key);
    }
  }

  lemma SameKey(e: Notification, n: Notification)
    ensures KeyOf(Merge(Some(e), n)) == KeyOf(e)
  {
  }

  lemma NothingOccurs(key: string)
    ensures !Occurs([], key)
  {
  }

  lemma AbsentAffectsNothing(ns: seq<Notification>, key: string)
    requires !Occurs(ns, key)
    ensures forall p :: !Affects(ns, key, p)
  {
  }

  /** Apart from its profiles a merged notification is the first one under its key. */
  lemma {:induction false} MergedKeepsFirst(ns: seq<Notification>, i: nat)
    requires i < |ns| && forall k :: 0 <= k < i ==> KeyOf(ns[k]) != KeyOf(ns[i])
    ensures var merged := MergedFor(ns, KeyOf(ns[i]));
            merged.Some? && merged.value == ns[i].(affected := merged.value.affected)
    decreases |ns|
  {
    hide KeyOf, SortDedup;
    var n := |ns| - 1;
    if i < n {
      MergedKeepsFirst(ns[..n], i);
    } else {
      NotYetMerged(ns[..n], KeyOf(ns[n]));
    }
  }

  lemma {:induction false} NotYetMerged(ns: seq<Notification>, key: string)
    requires forall k :: 0 <= k < |ns| ==> KeyOf(ns[k]) != key
    ensures MergedFor(ns, key) == None
    decreases |ns|
  {
    hide KeyOf;
    if ns != [] {
      NotYetMerged(ns[..|ns| - 1], key);
    }
  }

  /** Two notifications under one key leave a sorted list without duplicates. */
  lemma {:induction false} MergedTwiceIsSorted(ns: seq<Notification>, key: string, i: nat, j: nat)
    requires i < j < |ns| && KeyOf(ns[i]) == key == KeyOf(ns[j])
    ensures MergedFor(ns, key).Some? && StrictlySorted(MergedFor(ns, key).value.affected)
    decreases |ns|
  {
    hide KeyOf, StrictlySorted, SortDedup;
    var n := |ns| - 1;
    var before := ns[..n];
    if j < n {
      MergedTwiceIsSorted(before, key, i, j);
    } else {
      MergedMeaning(before, key);
      assert KeyOf(before[i]) == key;
    }
    if KeyOf(ns[n]) == key && MergedFor(before, key).Some? {
      SortDedupMeaning(MergedFor(before, key).value.affected + ns[n].affected);
    }
  }

  // ----- The grouped list -----

  ghost predicate Descending(ns: seq<Notification>) {
    forall i, j :: 0 <= i < j < |ns| ==> ns[i].timestamp >= ns[j].timestamp
  }

  ghost predicate DistinctKeys(ns: seq<Notification>) {
    forall i, j :: 0 <= i < j < |ns| ==> KeyOf(ns[i]) != KeyOf(ns[j])
  }

  /** The merged notifications, each once, newest first. */
  ghost predicate IsGrouped(ns: seq<Notification>, result: seq<Notification>) {
    && Descending(result) && DistinctKeys(result)
    && (forall r :: r in result ==> MergedFor(ns, KeyOf(r)) == Some(r))
    && (forall key :: MergedFor(ns, key).Some? ==> MergedFor(ns, key).value in result)
  }

  predicate SameUpdate(a: Notification, b: Notification) {
    a.browser == b.browser && a.newVersion == b.newVersion
  }

  /** The update of `ns[i]` has exactly one notification in the result, and that affects exactly the profiles
      the update's notifications affect. */
  ghost predicate HasItsOwn(ns: seq<Notification>, result: seq<Notification>, i: nat)
    requires i < |ns|
  {
    exists j :: 0 <= j < |result| && SameUpdate(result[j], ns[i])
                && (forall k :: 0 <= k < |result| && SameUpdate(result[k], ns[i]) ==> k == j)
                && (forall p :: p in result[j].affected <==> NamedFor(ns, ns[i], p))
  }

  ghost predicate NamedFor(ns: seq<Notification>, update: Notification, p: string) {
    exists m :: 0 <= m < |ns| && SameUpdate(ns[m], update) && p in ns[m].affected
  }

  /** No two different updates share a key. */
  ghost predicate KeysTellUpdates(ns: seq<Notification>) {
    forall a, b :: 0 <= a < |ns| && 0 <= b < |ns| && KeyOf(ns[a]) == KeyOf(ns[b]) ==> SameUpdate(ns[a], ns[b])
  }

  lemma {:induction false} FirstUnderKey(ns: seq<Notification>, key: string, i: nat) returns (f: nat)
    requires i < |ns| && KeyOf(ns[i]) == key
    ensures f < |ns| && KeyOf(ns[f]) == key && forall k :: 0 <= k < f ==> KeyOf(ns[k]) != key
    decreases i
  {
    hide KeyOf;
    if k :| 0 <= k < i && KeyOf(ns[k]) == key {
      f := FirstUnderKey(ns, key, k);
    } else {
      f := i;
    }
  }

  lemma AffectsByUpdate(ns: seq<Notification>, i: nat, p: string)
    requires i < |ns| && KeysTellUpdates(ns)
    ensures Affects(ns, KeyOf(ns[i]), p) <==> NamedFor(ns, ns[i], p)
  {
    forall m | 0 <= m < |ns|
      ensures KeyOf(ns[m]) == KeyOf(ns[i]) <==> SameUpdate(ns[m], ns[i])
    {
    }
  }

  lemma OwnIfKeysTellUpdates(ns: seq<Notification>, result: seq<Notification>, i: nat)
    requires IsGrouped(ns, result) && i < |ns| && KeysTellUpdates(ns)
    ensures HasItsOwn(ns, result, i)
  {
    hide MergedFor;
    var key := KeyOf(ns[i]);
    var f := FirstUnderKey(ns, key, i);
    MergedKeepsFirst(ns, f);
    MergedMeaning(ns, key);
    var r := MergedFor(ns, key).value;
    assert SameUpdate(ns[f], ns[i]);
    var j :| 0 <= j < |result| && result[j] == r;
    forall k | 0 <= k < |result| && SameUpdate(result[k], ns[i])
      ensures k == j
    {
      assert KeyOf(result[k]) == key;
    }
    forall p
      ensures p in r.affected <==> NamedFor(ns, ns[i], p)
    {
      AffectsByUpdate(ns, i, p);
    }
  }

  /** Each update of the input has its own notification exactly when no two updates share a key. */
  lemma GroupedPerUpdateIff(ns: seq<Notification>, result: seq<Notification>)
    requires IsGrouped(ns, result)
    ensures (forall i :: 0 <= i < |ns| ==> HasItsOwn(ns, result, i)) <==> KeysTellUpdates(ns)
  {
    hide IsGrouped, MergedFor;
    if KeysTellUpdates(ns) {
      forall i | 0 <= i < |ns|
        ensures HasItsOwn(ns, result, i)
      {
        OwnIfKeysTellUpdates(ns, result, i);
      }
    } else {
      var a, b :| 0 <= a < |ns| && 0 <= b < |ns| && KeyOf(ns[a]) == KeyOf(ns[b]) && !SameUpdate(ns[a], ns[b]);
      if HasItsOwn(ns, result, a) && HasItsOwn(ns, result, b) {
        OneForAKey(ns, result, a, b);
      }
    }
  }

  lemma OneForAKey(ns: seq<Notification>, result: seq<Notification>, a: nat, b: nat)
    requires IsGrouped(ns, result) && a < |ns| && b < |ns| && KeyOf(ns[a]) == KeyOf(ns[b])
    requires HasItsOwn(ns, result, a) && HasItsOwn(ns, result, b)
    ensures SameUpdate(ns[a], ns[b])
  {
    hide MergedFor;
    var i :| 0 <= i < |result| && SameUpdate(result[i], ns[a]);
    var j :| 0 <= j < |result| && SameUpdate(result[j], ns[b]);
    assert KeyOf(result[i]) == KeyOf(ns[a]) == KeyOf(result[j]);
  }

  /** Browser names without an underscore are enough, and all supported browsers have such a name. */
  lemma GroupedPerUpdate(ns: seq<Notification>, result: seq<Notification>)
    requires IsGrouped(ns, result)
    requires forall k :: 0 <= k < |ns| ==> Plain(ns[k].browser) || ns[k].browser in SUPPORTED_BROWSERS
    ensures forall i :: 0 <= i < |ns| ==> HasItsOwn(ns, result, i)
  {
    hide KeyOf, MergedFor, Plain, HasItsOwn, IsGrouped, SameUpdate;
    SupportedNamesArePlain();
    forall a, b | 0 <= a < |ns| && 0 <= b < |ns| && KeyOf(ns[a]) == KeyOf(ns[b])
      ensures SameUpdate(ns[a], ns[b])
    {
      PlainKeysTellUpdates(ns[a], ns[b]);
    }
    GroupedPerUpdateIff(ns, result);
  }

  lemma PlainKeysTellUpdates(a: Notification, b: Notification)
    requires Plain(a.browser) && Plain(b.browser)
    ensures KeyOf(a) == KeyOf(b) <==> SameUpdate(a, b)
  {
    if KeyOf(a) == KeyOf(b) {
      FirstUnderscore(a.browser, a.newVersion, b.browser, b.newVersion);
    }
  }

  /** A browser whose name continues another one's behind an underscore can share a key with it, and then one of
      the two updates is lost. No supported browser is named so. */
  lemma KeysCanCollide(a: Notification, b: Notification, x: string, result: seq<Notification>)
    requires a.browser == b.browser + "_" + x && b.newVersion == x + "_" + a.newVersion
    requires IsGrouped([a, b], result)
    ensures KeyOf(a) == KeyOf(b) && !(HasItsOwn([a, b], result, 0) && HasItsOwn([a, b], result, 1))
  {
    hide IsGrouped, HasItsOwn;
    assert b.browser + "_" + x + ['_'] + a.newVersion == b.browser + ['_'] + (x + "_" + a.newVersion);
    assert KeyOf([a, b][0]) == KeyOf([a, b][1]) && !SameUpdate([a, b][0], [a, b][1]);
    if HasItsOwn([a, b], result, 0) && HasItsOwn([a, b], result, 1) {
      OneForAKey([a, b], result, 0, 1);
    }
  }

  // ----- The code's form -----

  /** A hash map from key to merged notification, its values collected in any order and sorted. */
  method GroupUpdateNotifications(ns: seq<Notification>) returns (result: seq<Notification>)
    ensures IsGrouped(ns, result)
  {
    hide KeyOf, SortDedup, Descending, DistinctKeys;
    var grouped := MergeAll(ns);
    result := [];
    var todo := grouped.Keys;
    NothingToOrder();
    while todo != {}
      invariant todo <= grouped.Keys
      invariant Descending(result) && DistinctKeys(result)
      invariant forall r :: r in result <==> KeyOf(r) in grouped && KeyOf(r) !in todo && grouped[KeyOf(r)] == r
    {
      var key :| key in todo;
      todo := todo - {key};
      MergedMeaning(ns, key);
      InsertByTimeMeaning(result, grouped[key]);
      result := InsertByTime(result, grouped[key]);
    }
    forall key | MergedFor(ns, key).Some?
      ensures MergedFor(ns, key).value in result
    {
      MergedMeaning(ns, key);
    }
  }

  method MergeAll(ns: seq<Notification>) returns (grouped: map<string, Notification>)
    ensures forall key :: (key in grouped <==> MergedFor(ns, key).Some?)
                          && (key in grouped ==> MergedFor(ns, key) == Some(grouped[key]))
  {
    hide KeyOf, SortDedup;
    grouped := map[];
    var i := 0;
    while i < |ns|
      invariant i <= |ns|
      invariant forall key :: (key in grouped <==> MergedFor(ns[..i], key).Some?)
                              && (key in grouped ==> MergedFor(ns[..i], key) == Some(grouped[key]))
    {
      var n := ns[i];
      var key := KeyOf(n);
      assert ns[..i + 1][..i] == ns[..i];
      if key in grouped {
        var existing := grouped[key];
        grouped := grouped[key := existing.(affected := SortDedup(existing.affected + n.affected))];
      } else {
        grouped := grouped[key := n];
      }
      i := i + 1;
    }
    assert ns[..i] == ns;
  }

  /** Keeps the list newest first; equal times stay in the order they came. */
  function InsertByTime(ns: seq<Notification>, n: Notification): seq<Notification> {
    if ns == [] then [n]
    else if ns[0].timestamp < n.timestamp then [n] + ns
    else [ns[0]] + InsertByTime(ns[1..], n)
  }

  lemma NothingToOrder()
    ensures Descending([]) && DistinctKeys([])
  {
  }

  lemma {:induction false} InsertByTimeMeaning(ns: seq<Notification>, n: Notification)
    requires Descending(ns)
    ensures Descending(InsertByTime(ns, n))
    ensures forall r :: r in InsertByTime(ns, n) <==> r in ns || r == n
    ensures DistinctKeys(ns) && (forall r :: r in ns ==> KeyOf(r) != KeyOf(n)) ==> DistinctKeys(InsertByTime(ns, n))
  {
    hide KeyOf;
    if ns != [] && ns[0].timestamp >= n.timestamp {
      InsertByTimeMeaning(ns[1..], n);
      var rest := InsertByTime(ns[1..], n);
      assert ns == [ns[0]] + ns[1..];
      forall j | 0 <= j < |rest|
        ensures ns[0].timestamp >= rest[j].timestamp
        ensures DistinctKeys(ns) && (forall r :: r in ns ==> KeyOf(r) != KeyOf(n)) ==> KeyOf(ns[0]) != KeyOf(rest[j])
      {
        assert rest[j] in rest;
      }
    }
  }
}
