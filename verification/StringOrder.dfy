/** Rust's order on strings, and sorting without duplicates. */
module StringOrder {

  /** Code point by code point, a proper prefix first. */
  predicate Less(a: string, b: string) {
    b != [] && (a == [] || a[0] < b[0] || (a[0] == b[0] && Less(a[1..], b[1..])))
  }

  /** Either a proper prefix, or smaller at the first place where the two differ. */
  lemma {:induction false} LessIff(a: string, b: string)
    ensures Less(a, b)
            <==> exists k :: 0 <= k <= |a| && k < |b| && a[..k] == b[..k] && (k == |a| || a[k] < b[k])
  {
    if Less(a, b) {
      if a == [] || a[0] < b[0] {
        assert a[..0] == b[..0];
      } else {
        LessIff(a[1..], b[1..]);
        var k :| 0 <= k <= |a[1..]| && k < |b[1..]| && a[1..][..k] == b[1..][..k]
                 && (k == |a[1..]| || a[1..][k] < b[1..][k]);
        assert a[..k + 1] == [a[0]] + a[1..][..k];
        assert b[..k + 1] == [b[0]] + b[1..][..k];
      }
    }
    if k :| 0 <= k <= |a| && k < |b| && a[..k] == b[..k] && (k == |a| || a[k] < b[k]) {
      if k > 0 {
        assert a[0] == a[..k][0] == b[..k][0] == b[0];
        assert a[1..][..k - 1] == a[..k][1..] == b[..k][1..] == b[1..][..k - 1];
        LessIff(a[1..], b[1..]);
      }
    }
  }

  lemma {:induction false} LessIsTotal(a: string, b: string)
    ensures a == b || Less(a, b) || Less(b, a)
    ensures !(Less(a, b) && Less(b, a)) && !Less(a, a)
  {
    if a != [] && b != [] {
      LessIsTotal(a[1..], b[1..]);
      LessIsTotal(a[1..], a[1..]);
      assert a == [a[0]] + a[1..] && b == [b[0]] + b[1..];
    } else if a != [] {
      LessIsTotal(a[1..], a[1..]);
    }
  }

  lemma {:induction false} LessIsTransitive(a: string, b: string, c: string)
    requires Less(a, b) && Less(b, c)
    ensures Less(a, c)
  {
    if a != [] && a[0] == b[0] == c[0] {
      LessIsTransitive(a[1..], b[1..], c[1..]);
    }
  }

  predicate StrictlySorted(xs: seq<string>) {
    forall i, j :: 0 <= i < j < |xs| ==> Less(xs[i], xs[j])
  }

  /** Puts `x` at its place unless it is there already. */
  function Insert(xs: seq<string>, x: string): seq<string> {
    if xs == [] then [x]
    else if x == xs[0] then xs
    else if Less(x, xs[0]) then [x] + xs
    else [xs[0]] + Insert(xs[1..], x)
  }

  /** `sort` followed by `dedup`. */
  function SortDedup(xs: seq<string>): seq<string> {
    if xs == [] then [] else Insert(SortDedup(xs[..|xs| - 1]), xs[|xs| - 1])
  }

  lemma {:induction false} InsertMeaning(xs: seq<string>, x: string)
    requires StrictlySorted(xs)
    ensures StrictlySorted(Insert(xs, x))
    ensures forall y :: y in Insert(xs, x) <==> y in xs || y == x
  {
    if xs != [] && x != xs[0] {
      assert xs == [xs[0]] + xs[1..];
      LessIsTotal(x, xs[0]);
      if Less(x, xs[0]) {
        forall j | 0 <= j < |xs|
          ensures Less(x, xs[j])
        {
          if j > 0 { LessIsTransitive(x, xs[0], xs[j]); }
        }
      } else {
        InsertMeaning(xs[1..], x);
        var rest := Insert(xs[1..], x);
        forall j | 0 <= j < |rest|
          ensures Less(xs[0], rest[j])
        {
          assert rest[j] in rest;
        }
      }
    }
  }

  lemma {:induction false} SortDedupMeaning(xs: seq<string>)
    ensures StrictlySorted(SortDedup(xs))
    ensures forall y :: y in SortDedup(xs) <==> y in xs
    decreases |xs|
  {
    hide StrictlySorted, Insert;
    if xs != [] {
      var n := |xs| - 1;
      SortDedupMeaning(xs[..n]);
      InsertMeaning(SortDedup(xs[..n]), xs[n]);
      assert xs == xs[..n] + [xs[n]];
    } else {
      EmptyIsSorted();
    }
  }

  lemma EmptyIsSorted()
    ensures StrictlySorted([])
  {
  }

  /** A set has one strictly sorted listing, so the order a hash map yields its keys in cannot matter. */
  lemma {:induction false} SortedListingIsUnique(xs: seq<string>, ys: seq<string>)
    requires StrictlySorted(xs) && StrictlySorted(ys)
    requires forall x :: x in xs <==> x in ys
    ensures xs == ys
  {
    assert forall i :: 0 <= i < |ys| ==> ys[i] in xs;
    assert forall i :: 0 <= i < |xs| ==> xs[i] in ys;
    if xs != [] && ys != [] {
      assert xs[0] in ys && ys[0] in xs;
      SameLeast(xs, ys);
      forall x
        ensures x in xs[1..] <==> x in ys[1..]
      {
        TailMembers(xs, x);
        TailMembers(ys, x);
      }
      SortedListingIsUnique(xs[1..], ys[1..]);
      assert xs == [xs[0]] + xs[1..] && ys == [ys[0]] + ys[1..];
    }
  }

  lemma SameLeast(xs: seq<string>, ys: seq<string>)
    requires StrictlySorted(xs) && StrictlySorted(ys) && xs != [] && ys != []
    requires xs[0] in ys && ys[0] in xs
    ensures xs[0] == ys[0]
  {
    LessIsTotal(xs[0], ys[0]);
    var i :| 0 <= i < |ys| && ys[i] == xs[0];
    var j :| 0 <= j < |xs| && xs[j] == ys[0];
  }

  lemma TailMembers(xs: seq<string>, x: string)
    requires StrictlySorted(xs) && xs != []
    ensures x in xs[1..] <==> x in xs && x != xs[0]
  {
    assert xs == [xs[0]] + xs[1..];
    LessIsTotal(xs[0], xs[0]);
  }
}
