/** Cookies grouped by domain for display, src-tauri/src/cookie_manager.rs. */
module DomainGrouping {
  import opened Cookies
  import opened StringOrder

  datatype DomainCookies = DomainCookies(domain: string, cookies: seq<UnifiedCookie>, count: nat)

  /** The cookies of one domain, in the order they were read. */
  function InDomain(cookies: seq<UnifiedCookie>, domain: string): seq<UnifiedCookie> {
    if cookies == [] then []
    else
      var n := |cookies| - 1;
      InDomain(cookies[..n], domain) + if cookies[n].domain == domain then [cookies[n]] else []
  }

  function Domains(cookies: seq<UnifiedCookie>): seq<string> {
    seq(|cookies|, i requires 0 <= i < |cookies| => cookies[i].domain)
  }

  function GroupOf(cookies: seq<UnifiedCookie>, domain: string): DomainCookies {
    DomainCookies(domain, InDomain(cookies, domain), |InDomain(cookies, domain)|)
  }

  function GroupsOf(cookies: seq<UnifiedCookie>, names: seq<string>): seq<DomainCookies> {
    if names == [] then [] else [GroupOf(cookies, names[0])] + GroupsOf(cookies, names[1..])
  }

  function Groups(cookies: seq<UnifiedCookie>): seq<DomainCookies> {
    GroupsOf(cookies, SortDedup(Domains(cookies)))
  }

  function Flatten(groups: seq<DomainCookies>): seq<UnifiedCookie> {
    if groups == [] then [] else groups[0].cookies + Flatten(groups[1..])
  }

  function TotalCount(groups: seq<DomainCookies>): nat {
    if groups == [] then 0 else groups[0].count + TotalCount(groups[1..])
  }

  lemma {:induction false} InDomainMeaning(cookies: seq<UnifiedCookie>, domain: string)
    ensures forall c :: multiset(InDomain(cookies, domain))[c] == if c.domain == domain then multiset(cookies)[c] else 0
    decreases |cookies|
  {
    if cookies != [] {
      var n := |cookies| - 1;
      InDomainMeaning(cookies[..n], domain);
      assert cookies == cookies[..n] + [cookies[n]];
    }
  }

  /** A cookie sits in its group behind exactly the earlier cookies of its domain: reading order is kept. */
  lemma {:induction false} GroupKeepsOrder(cookies: seq<UnifiedCookie>, i: nat)
    requires i < |cookies|
    ensures var d := cookies[i].domain;
            var rank := |InDomain(cookies[..i], d)|;
            rank < |InDomain(cookies, d)| && InDomain(cookies, d)[rank] == cookies[i]
    decreases |cookies|
  {
    var n := |cookies| - 1;
    if i < n {
      GroupKeepsOrder(cookies[..n], i);
      assert cookies[..n][..i] == cookies[..i];
    }
  }

  /** Where the cookies of a domain were read, in ascending order. */
  ghost predicate PlacesOf(cookies: seq<UnifiedCookie>, domain: string, places: seq<nat>) {
    && (forall s, t :: 0 <= s < t < |places| ==> places[s] < places[t])
    && (forall i: nat :: i in places <==> i < |cookies| && cookies[i].domain == domain)
  }

  /** The group holds the cookies read at these places. */
  ghost predicate ReadAt(cookies: seq<UnifiedCookie>, places: seq<nat>, group: seq<UnifiedCookie>) {
    |places| == |group| && forall t :: 0 <= t < |places| ==> places[t] < |cookies| && group[t] == cookies[places[t]]
  }

  lemma {:induction false} InDomainPlaces(cookies: seq<UnifiedCookie>, domain: string) returns (places: seq<nat>)
    ensures PlacesOf(cookies, domain, places) && ReadAt(cookies, places, InDomain(cookies, domain))
    decreases |cookies|
  {
    if cookies == [] {
      places := [];
    } else {
      hide PlacesOf, ReadAt;
      var n := |cookies| - 1;
      var before := InDomainPlaces(cookies[..n], domain);
      PlacesStep(cookies, domain, before);
      ReadAtStep(cookies, domain, before, InDomain(cookies[..n], domain));
      places := if cookies[n].domain == domain then before + [n] else before;
    }
  }

  lemma PlacesStep(cookies: seq<UnifiedCookie>, domain: string, before: seq<nat>)
    requires cookies != [] && PlacesOf(cookies[..|cookies| - 1], domain, before)
    ensures var n := |cookies| - 1;
            PlacesOf(cookies, domain, if cookies[n].domain == domain then before + [n] else before)
  {
    var n := |cookies| - 1;
    forall t | 0 <= t < |before|
      ensures before[t] < n
    {
      assert before[t] in before;
    }
    forall i: nat
      ensures i in before + [n] <==> i in before || i == n
    {
    }
    forall i: nat | i < n
      ensures cookies[..n][i] == cookies[i]
    {
    }
  }

  lemma ReadAtStep(cookies: seq<UnifiedCookie>, domain: string, before: seq<nat>, group: seq<UnifiedCookie>)
    requires cookies != [] && ReadAt(cookies[..|cookies| - 1], before, group)
    ensures var n := |cookies| - 1;
            ReadAt(cookies, if cookies[n].domain == domain then before + [n] else before,
                   group + if cookies[n].domain == domain then [cookies[n]] else [])
  {
    assert group + [] == group;
  }

  lemma {:induction false} FlattenCounts(cookies: seq<UnifiedCookie>, names: seq<string>, c: UnifiedCookie)
    requires StrictlySorted(names)
    ensures multiset(Flatten(GroupsOf(cookies, names)))[c] == if c.domain in names then multiset(cookies)[c] else 0
    ensures TotalCount(GroupsOf(cookies, names)) == |Flatten(GroupsOf(cookies, names))|
  {
    hide Less, InDomain;
    if names != [] {
      FlattenCounts(cookies, names[1..], c);
      TailMembers(names, c.domain);
      InDomainMeaning(cookies, names[0]);
      var groups := GroupsOf(cookies, names);
      assert groups[1..] == GroupsOf(cookies, names[1..]);
      assert names == [names[0]] + names[1..];
    }
  }

  /** Grouping loses and invents nothing: flattened, the groups hold the cookies that were read, and their
      counts add up to the reported total. */
  lemma GroupingConserves(cookies: seq<UnifiedCookie>)
    ensures multiset(Flatten(Groups(cookies))) == multiset(cookies)
    ensures TotalCount(Groups(cookies)) == |cookies|
  {
    hide Less, InDomain, SortDedup;
    var names, flat := SortDedup(Domains(cookies)), Flatten(Groups(cookies));
    SortDedupMeaning(Domains(cookies));
    forall c: UnifiedCookie
      ensures multiset(flat)[c] == multiset(cookies)[c]
    {
      FlattenCounts(cookies, names, c);
      if c in cookies {
        var i :| 0 <= i < |cookies| && cookies[i] == c;
        assert Domains(cookies)[i] == c.domain;
      }
    }
    assert multiset(flat) == multiset(cookies);
    SameLength(flat, cookies);
    FlattenCounts(cookies, names, UnifiedCookie("", "", "", "", 0, false, false, 0, 0, 0));
  }

  lemma SameLength<T>(xs: seq<T>, ys: seq<T>)
    requires multiset(xs) == multiset(ys)
    ensures |xs| == |ys|
  {
    assert |xs| == |multiset(xs)|;
  }

  lemma {:induction false} GroupsOfAt(cookies: seq<UnifiedCookie>, names: seq<string>, i: nat)
    requires i < |names|
    ensures |GroupsOf(cookies, names)| == |names| && GroupsOf(cookies, names)[i] == GroupOf(cookies, names[i])
  {
    if |names| > 1 {
      GroupsOfAt(cookies, names[1..], if i > 0 then i - 1 else 0);
    }
  }

  /** The groups come in strictly increasing domain order and none is empty. */
  lemma GroupsAreOrdered(cookies: seq<UnifiedCookie>)
    ensures forall i, j :: 0 <= i < j < |Groups(cookies)| ==> Less(Groups(cookies)[i].domain, Groups(cookies)[j].domain)
    ensures forall i :: 0 <= i < |Groups(cookies)| ==> Groups(cookies)[i].count > 0
  {
    hide Less, SortDedup;
    var names := SortDedup(Domains(cookies));
    SortDedupMeaning(Domains(cookies));
    if names != [] {
      GroupsOfAt(cookies, names, 0);
    }
    forall i | 0 <= i < |names|
      ensures Groups(cookies)[i] == GroupOf(cookies, names[i]) && Groups(cookies)[i].count > 0
    {
      GroupsOfAt(cookies, names, i);
      assert names[i] in Domains(cookies);
      var k :| 0 <= k < |cookies| && cookies[k].domain == names[i];
      InDomainMeaning(cookies, names[i]);
      assert cookies[k] in multiset(cookies);
      assert cookies[k] in multiset(InDomain(cookies, names[i]));
    }
  }

  predicate HasGroup(groups: seq<DomainCookies>, domain: string) {
    exists k :: 0 <= k < |groups| && groups[k].domain == domain
  }

  /** Each group holds, in the order they were read, exactly the cookies of the domain it is labelled with, and
      says how many they are; and every cookie's domain has a group. */
  lemma GroupsHoldTheirDomain(cookies: seq<UnifiedCookie>)
    ensures forall g :: g in Groups(cookies) ==>
              && g.count == |g.cookies|
              && exists places :: PlacesOf(cookies, g.domain, places) && ReadAt(cookies, places, g.cookies)
    ensures forall i :: 0 <= i < |cookies| ==> HasGroup(Groups(cookies), cookies[i].domain)
  {
    hide InDomain, SortDedup, PlacesOf, ReadAt, StrictlySorted;
    var names := SortDedup(Domains(cookies));
    SortDedupMeaning(Domains(cookies));
    if names != [] {
      GroupsOfAt(cookies, names, 0);
    }
    forall g | g in Groups(cookies)
      ensures g.count == |g.cookies|
      ensures exists places :: PlacesOf(cookies, g.domain, places) && ReadAt(cookies, places, g.cookies)
    {
      var k :| 0 <= k < |Groups(cookies)| && Groups(cookies)[k] == g;
      GroupsOfAt(cookies, names, k);
      var places := InDomainPlaces(cookies, g.domain);
    }
    forall i | 0 <= i < |cookies|
      ensures HasGroup(Groups(cookies), cookies[i].domain)
    {
      assert Domains(cookies)[i] in Domains(cookies);
      var k :| 0 <= k < |names| && names[k] == cookies[i].domain;
      GroupsOfAt(cookies, names, k);
    }
  }

  /** The hash map from domain to cookies. */
  method BuildDomainMap(cookies: seq<UnifiedCookie>) returns (domainMap: map<string, seq<UnifiedCookie>>)
    ensures forall d :: d in domainMap <==> d in Domains(cookies)
    ensures forall d :: d in domainMap ==> domainMap[d] == InDomain(cookies, d)
  {
    hide InDomain;
    domainMap := map[];
    var i := 0;
    while i < |cookies|
      invariant i <= |cookies|
      invariant forall d :: d in domainMap <==> d in Domains(cookies[..i])
      invariant forall d :: d in domainMap ==> domainMap[d] == InDomain(cookies[..i], d)
    {
      var c := cookies[i];
      EntryAfter(cookies, i);
      var entry := if c.domain in domainMap then domainMap[c.domain] else [];
      domainMap := domainMap[c.domain := entry + [c]];
      i := i + 1;
    }
    assert cookies[..i] == cookies;
  }

  /** The keys of a hash map, in whatever order they come, sorted. */
  method SortedKeys<V>(m: map<string, V>) returns (keys: seq<string>)
    ensures StrictlySorted(keys) && forall d :: d in keys <==> d in m
  {
    hide Less, Insert, StrictlySorted;
    keys := [];
    var todo := m.Keys;
    while todo != {}
      invariant todo <= m.Keys
      invariant forall d :: d in keys <==> d in m && d !in todo
    {
      var d :| d in todo;
      todo := todo - {d};
      keys := keys + [d];
    }
    SortDedupMeaning(keys);
    keys := SortDedup(keys);
  }

  /** What remains to be grouped completes the groups made so far. */
  ghost predicate Completes(cookies: seq<UnifiedCookie>, domains: seq<DomainCookies>, total: nat, names: seq<string>) {
    && domains + GroupsOf(cookies, names) == Groups(cookies)
    && total + TotalCount(GroupsOf(cookies, names)) == TotalCount(Groups(cookies))
  }

  lemma CompletesStep(cookies: seq<UnifiedCookie>, domains: seq<DomainCookies>, total: nat, names: seq<string>)
    requires names != [] && Completes(cookies, domains, total, names)
    ensures var g := GroupOf(cookies, names[0]);
            Completes(cookies, domains + [g], total + g.count, names[1..])
  {
    hide Groups, GroupOf;
    var g, rest := GroupOf(cookies, names[0]), GroupsOf(cookies, names[1..]);
    assert ([g] + rest)[1..] == rest;
    assert domains + ([g] + rest) == domains + [g] + rest;
  }

  /** Groups the cookies, whatever order the hash map yields its entries in. */
  method GroupByDomain(cookies: seq<UnifiedCookie>) returns (domains: seq<DomainCookies>, totalCount: nat)
    ensures domains == Groups(cookies) && totalCount == |cookies|
  {
    hide Less, Insert, SortDedup, StrictlySorted, Domains, GroupsOf;
    var domainMap := BuildDomainMap(cookies);
    var names := SortedKeys(domainMap);
    SortDedupMeaning(Domains(cookies));
    SortedListingIsUnique(names, SortDedup(Domains(cookies)));
    domains, totalCount := [], 0;
    var j := 0;
    assert names[0..] == names && [] + Groups(cookies) == Groups(cookies);
    while j < |names|
      invariant j <= |names| && Completes(cookies, domains, totalCount, names[j..])
    {
      CompletesStep(cookies, domains, totalCount, names[j..]);
      assert names[j] in names && names[j..][1..] == names[j + 1..];
      var group := domainMap[names[j]];
      domains := domains + [DomainCookies(names[j], group, |group|)];
      totalCount := totalCount + |group|;
      j := j + 1;
    }
    assert names[j..] == [];
    AllGrouped(cookies, domains, totalCount);
  }

  lemma AllGrouped(cookies: seq<UnifiedCookie>, domains: seq<DomainCookies>, total: nat)
    requires Completes(cookies, domains, total, [])
    ensures domains == Groups(cookies) && total == |cookies|
  {
    assert domains + [] == domains;
    GroupingConserves(cookies);
  }

  lemma EntryAfter(cookies: seq<UnifiedCookie>, i: nat)
    requires i < |cookies|
    ensures forall d ::
              InDomain(cookies[..i + 1], d)
              == InDomain(cookies[..i], d) + if cookies[i].domain == d then [cookies[i]] else []
    ensures forall d :: InDomain(cookies[..i], d) == [] <==> d !in Domains(cookies[..i])
    ensures forall d :: d in Domains(cookies[..i + 1]) <==> d in Domains(cookies[..i]) || d == cookies[i].domain
  {
    assert cookies[..i + 1][..i] == cookies[..i];
    assert Domains(cookies[..i + 1]) == Domains(cookies[..i]) + [cookies[i].domain];
    forall d
      ensures InDomain(cookies[..i], d) == [] <==> d !in Domains(cookies[..i])
    {
      EmptyIffAbsent(cookies[..i], d);
    }
  }

  lemma {:induction false} EmptyIffAbsent(cookies: seq<UnifiedCookie>, d: string)
    ensures InDomain(cookies, d) == [] <==> d !in Domains(cookies)
    decreases |cookies|
  {
    if cookies != [] {
      var n := |cookies| - 1;
      EmptyIffAbsent(cookies[..n], d);
      assert Domains(cookies) == Domains(cookies[..n]) + [cookies[n].domain];
    }
  }
}
