/**
  Version order of src-tauri/src/version_cache.rs: four numeric components compared from the left.
  How a version text becomes components is a parameter.
 */
module Versions {

  datatype Version = Version(major: nat, minor: nat, patch: nat, build: nat)

  type Parser = string -> Version

  predicate Less(a: Version, b: Version) {
    || a.major < b.major
    || (a.major == b.major && a.minor < b.minor)
    || (a.major == b.major && a.minor == b.minor && a.patch < b.patch)
    || (a.major == b.major && a.minor == b.minor && a.patch == b.patch && a.build < b.build)
  }

  /** `is_version_newer(a, b)`. Two different texts may be equally new. */
  predicate Newer(parse: Parser, a: string, b: string) {
    Less(parse(b), parse(a))
  }

  /** No version of `versions` is newer than `v`. */
  ghost predicate IsNewestOf(parse: Parser, v: string, versions: set<string>) {
    v in versions && forall u :: u in versions ==> !Newer(parse, u, v)
  }

  function Components(v: Version): seq<nat> {
    [v.major, v.minor, v.patch, v.build]
  }

  /** The newer version has the larger number in the first component in which the two differ. */
  lemma NewerIff(parse: Parser, a: string, b: string)
    ensures Newer(parse, a, b)
            <==> exists k :: 0 <= k < 4 && Components(parse(a))[..k] == Components(parse(b))[..k]
                             && Components(parse(a))[k] > Components(parse(b))[k]
  {
    var x, y := Components(parse(a)), Components(parse(b));
    if Newer(parse, a, b) {
      var k := if x[0] != y[0] then 0 else if x[1] != y[1] then 1 else if x[2] != y[2] then 2 else 3;
      assert x[..k] == y[..k] && x[k] > y[k];
    }
    if k :| 0 <= k < 4 && x[..k] == y[..k] && x[k] > y[k] {
      assert k > 0 ==> x[..k][0] == y[..k][0];
      assert k > 1 ==> x[..k][1] == y[..k][1];
      assert k > 2 ==> x[..k][2] == y[..k][2];
    }
  }

  lemma NewerIsTransitive(parse: Parser, a: string, b: string, c: string)
    ensures Newer(parse, a, b) && !Newer(parse, c, b) ==> Newer(parse, a, c)
    ensures !Newer(parse, a, b) && !Newer(parse, b, c) ==> !Newer(parse, a, c)
    ensures !(Newer(parse, a, b) && Newer(parse, b, a))
  {
  }

  /** The maximum of a non-empty set, found in whatever order its elements come. */
  method Newest(parse: Parser, versions: set<string>) returns (newest: string)
    requires versions != {}
    ensures IsNewestOf(parse, newest, versions)
  {
    hide Newer;
    newest :| newest in versions;
    var rest := versions - {newest};
    NewerIsTransitive(parse, newest, newest, newest);
    while rest != {}
      invariant rest <= versions
      invariant IsNewestOf(parse, newest, versions - rest)
    {
      var v :| v in rest;
      if !Newer(parse, newest, v) {
        forall u | u in versions - rest
          ensures !Newer(parse, u, v)
        {
          NewerIsTransitive(parse, u, newest, v);
        }
        NewerIsTransitive(parse, v, v, v);
        newest := v;
      } else {
        NewerIsTransitive(parse, newest, v, v);
      }
      rest := rest - {v};
    }
    assert versions - {} == versions;
  }
}
