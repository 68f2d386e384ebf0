/**
  The registry of downloaded browsers and its garbage collector, src-tauri/src/downloaded_browsers_registry.rs.
 */
module Registry {
  import opened Versions

  type Pair = (string, string)

  datatype Info = Info(browser: string, version: string, filePath: string)

  /** browser -> version -> info */
  type Browsers = map<string, map<string, Info>>

  predicate Registered(browsers: Browsers, browser: string, version: string) {
    browser in browsers && version in browsers[browser]
  }

  function VersionsOf(browsers: Browsers, browser: string): set<string> {
    if browser in browsers then browsers[browser].Keys else {}
  }

  function Add(browsers: Browsers, info: Info): Browsers {
    var versions := if info.browser in browsers then browsers[info.browser] else map[];
    browsers[info.browser := versions[info.version := info]]
  }

  function Remove(browsers: Browsers, browser: string, version: string): Browsers {
    if browser in browsers then browsers[browser := browsers[browser] - {version}] else browsers
  }

  // ----- What a cleanup looks at -----

  /** The inputs of one cleanup: versions profiles use, versions running now, versions with a pending update. */
  datatype Uses = Uses(active: set<Pair>, running: set<Pair>, pending: set<Pair>) {

    predicate RunsSome(browser: string) {
      exists p :: p in running && p.0 == browser
    }

    /** Reasons to leave a version alone. */
    predicate Needs(browser: string, version: string) {
      || (browser, version) in active
      || (browser, version) in running
      || ((browser, version) in pending && RunsSome(browser))
    }
  }

  predicate NothingNeeded(browsers: Browsers, uses: Uses, browser: string) {
    forall v :: v in VersionsOf(browsers, browser) ==> !uses.Needs(browser, v)
  }

  /** For each browser with versions none of which is needed, one newest version to keep. */
  ghost predicate ValidKeep(parse: Parser, browsers: Browsers, uses: Uses, keep: map<string, string>) {
    forall b ::
      && (b in keep <==> VersionsOf(browsers, b) != {} && NothingNeeded(browsers, uses, b))
      && (b in keep ==> IsNewestOf(parse, keep[b], VersionsOf(browsers, b)))
  }

  predicate Doomed(uses: Uses, keep: map<string, string>, browser: string, version: string) {
    !uses.Needs(browser, version) && !(browser in keep && keep[browser] == version)
  }

  /** The registry after a cleanup that keeps `keep`. */
  ghost predicate CleanedUp(before: Browsers, uses: Uses, keep: map<string, string>, after: Browsers) {
    && after.Keys == before.Keys
    && (forall b, v :: Registered(after, b, v) <==> Registered(before, b, v) && !Doomed(uses, keep, b, v))
    && (forall b, v :: Registered(after, b, v) ==> after[b][v] == before[b][v])
  }

  // ----- Retention -----

  /** Nothing a profile uses or runs is removed, nor an update pending for a browser that runs. */
  lemma CleanupKeepsNeeded(before: Browsers, uses: Uses, keep: map<string, string>, after: Browsers, b: string,
                           v: string)
    requires CleanedUp(before, uses, keep, after)
    requires Registered(before, b, v)
    ensures (b, v) in uses.active ==> Registered(after, b, v)
    ensures (b, v) in uses.running ==> Registered(after, b, v)
    ensures (b, v) in uses.pending && (exists p :: p in uses.running && p.0 == b) ==> Registered(after, b, v)
  {
  }

  /** A browser that had a version still has one; where nothing was needed, exactly the newest one kept. */
  lemma CleanupKeepsOne(parse: Parser, before: Browsers, uses: Uses, keep: map<string, string>, after: Browsers,
                        b: string)
    requires ValidKeep(parse, before, uses, keep) && CleanedUp(before, uses, keep, after)
    ensures VersionsOf(before, b) != {} ==> VersionsOf(after, b) != {}
    ensures VersionsOf(before, b) != {} && NothingNeeded(before, uses, b) ==>
              b in keep && VersionsOf(after, b) == {keep[b]} && IsNewestOf(parse, keep[b], VersionsOf(before, b))
  {
    if VersionsOf(before, b) != {} {
      if NothingNeeded(before, uses, b) {
        assert Registered(after, b, keep[b]);
        forall v | v in VersionsOf(after, b)
          ensures v == keep[b]
        {
          assert Registered(after, b, v);
        }
      } else {
        var v :| v in VersionsOf(before, b) && uses.Needs(b, v);
        assert Registered(before, b, v);
        assert Registered(after, b, v);
      }
    }
  }

  /** What stays is exactly what was registered and is used, runs, has an update pending for a browser that runs,
      or was kept for a browser of which nothing was needed. */
  lemma CleanupKeepsIff(parse: Parser, before: Browsers, uses: Uses, keep: map<string, string>, after: Browsers,
                        b: string, v: string)
    requires ValidKeep(parse, before, uses, keep) && CleanedUp(before, uses, keep, after)
    ensures Registered(after, b, v)
            <==> Registered(before, b, v)
                 && (|| (b, v) in uses.active || (b, v) in uses.running
                     || ((b, v) in uses.pending && exists q :: q in uses.running && q.0 == b)
                     || (b in keep && v == keep[b] && VersionsOf(after, b) == {v}))
  {
    CleanupKeepsOne(parse, before, uses, keep, after, b);
  }

  /** A second cleanup with the same inputs removes nothing, whichever versions it chooses to keep. */
  lemma CleanupIsIdempotent(parse: Parser, before: Browsers, uses: Uses, keep: map<string, string>, after: Browsers,
                            keep': map<string, string>, again: Browsers)
    requires ValidKeep(parse, before, uses, keep) && CleanedUp(before, uses, keep, after)
    requires ValidKeep(parse, after, uses, keep') && CleanedUp(after, uses, keep', again)
    ensures again == after
  {
    forall b, v | Registered(after, b, v)
      ensures Registered(again, b, v)
    {
      SurvivorSurvives(parse, before, uses, keep, after, keep', b, v);
    }
    forall b | b in after
      ensures again[b] == after[b]
    {
      assert forall v :: v in after[b] <==> Registered(after, b, v);
      assert forall v :: v in again[b] <==> Registered(again, b, v);
    }
  }

  lemma SurvivorSurvives(parse: Parser, before: Browsers, uses: Uses, keep: map<string, string>, after: Browsers,
                         keep': map<string, string>, b: string, v: string)
    requires ValidKeep(parse, before, uses, keep) && CleanedUp(before, uses, keep, after)
    requires ValidKeep(parse, after, uses, keep') && Registered(after, b, v)
    ensures !Doomed(uses, keep', b, v)
  {
    if !uses.Needs(b, v) {
      assert b in keep && keep[b] == v;
      CleanupKeepsOne(parse, before, uses, keep, after, b);
      assert NothingNeeded(after, uses, b);
    }
  }

  // ----- The code's form -----

  lemma FullSubset<T>(part: set<T>, whole: set<T>)
    requires part <= whole && |part| >= |whole|
    ensures part == whole
  {
    var rest := whole - part;
    assert part + rest == whole;
    assert |rest| == 0;
  }

  class BrowserRegistry {
    const parse: Parser
    var browsers: Browsers

    constructor (parse: Parser)
      ensures this.parse == parse && browsers == map[]
    {
      this.parse, browsers := parse, map[];
    }

    method AddBrowser(info: Info)
      modifies this
      ensures browsers == Add(old(browsers), info)
      ensures forall b, v :: Registered(browsers, b, v)
                <==> Registered(old(browsers), b, v) || (b == info.browser && v == info.version)
    {
      browsers := Add(browsers, info);
    }

    method RemoveBrowser(browser: string, version: string) returns (removed: bool)
      modifies this
      ensures removed <==> Registered(old(browsers), browser, version)
      ensures browsers == Remove(old(browsers), browser, version) && browsers.Keys == old(browsers).Keys
      ensures forall b, v :: Registered(browsers, b, v)
                <==> Registered(old(browsers), b, v) && !(b == browser && v == version)
      ensures forall b, v :: Registered(browsers, b, v) ==> browsers[b][v] == old(browsers)[b][v]
    {
      removed := Registered(browsers, browser, version);
      browsers := Remove(browsers, browser, version);
    }

    /** Everything registered that no rule protects. */
    method FindUnneeded(uses: Uses) returns (unneeded: set<Pair>)
      ensures forall b, v :: (b, v) in unneeded <==> Registered(browsers, b, v) && !uses.Needs(b, v)
    {
      unneeded := {};
      var todo := browsers.Keys;
      while todo != {}
        invariant todo <= browsers.Keys
        invariant forall b, v :: (b, v) in unneeded <==> Registered(browsers, b, v) && b !in todo && !uses.Needs(b, v)
      {
        var browser :| browser in todo;
        var found := FindUnneededVersions(uses, browser);
        unneeded := unneeded + set v | v in found :: (browser, v);
        todo := todo - {browser};
      }
    }

    method FindUnneededVersions(uses: Uses, browser: string) returns (found: set<string>)
      requires browser in browsers
      ensures found == set v | v in browsers[browser].Keys && !uses.Needs(browser, v)
    {
      found := {};
      var todo := browsers[browser].Keys;
      while todo != {}
        invariant todo <= browsers[browser].Keys
        invariant found == set v | v in browsers[browser].Keys && v !in todo && !uses.Needs(browser, v)
      {
        var version :| version in todo;
        todo := todo - {version};
        if (browser, version) in uses.active {
          continue;
        }
        if (browser, version) in uses.running {
          continue;
        }
        if (browser, version) in uses.pending {
          var hasRunningProfile := uses.RunsSome(browser);
          if hasRunningProfile {
            continue;
          }
        }
        found := found + {version};
      }
    }

    /** The newest version of every browser that would lose all its versions. */
    method ChooseKeep(uses: Uses, unneeded: set<Pair>) returns (keep: map<string, string>)
      requires forall b, v :: (b, v) in unneeded <==> Registered(browsers, b, v) && !uses.Needs(b, v)
      ensures ValidKeep(parse, browsers, uses, keep)
    {
      hide Uses.Needs, Newer;
      keep := map[];
      var todo := browsers.Keys;
      while todo != {}
        invariant todo <= browsers.Keys
        invariant forall b ::
                    b in keep <==> b !in todo && VersionsOf(browsers, b) != {} && NothingNeeded(browsers, uses, b)
        invariant forall b :: b in keep ==> IsNewestOf(parse, keep[b], VersionsOf(browsers, b))
      {
        var browser :| browser in todo;
        todo := todo - {browser};
        var versions := set v | v in browsers[browser].Keys && (browser, v) in unneeded;
        var total := |browsers[browser].Keys|;
        assert NothingNeeded(browsers, uses, browser) ==> versions == browsers[browser].Keys;
        if |versions| >= total {
          FullSubset(versions, browsers[browser].Keys);
          assert NothingNeeded(browsers, uses, browser);
          if versions != {} {
            var latest := Newest(parse, versions);
            keep := keep[browser := latest];
          }
        }
      }
    }

    /** Removes what no rule protects; `stuck` are the pairs whose files could not be deleted: they leave the
        registry all the same but are not reported. */
    method CleanupUnusedBinariesInternal(uses: Uses, stuck: set<Pair>)
      returns (cleanedUp: set<Pair>, ghost keep: map<string, string>)
      modifies this
      ensures ValidKeep(parse, old(browsers), uses, keep) && CleanedUp(old(browsers), uses, keep, browsers)
      ensures forall b, v :: (b, v) in cleanedUp
                <==> Registered(old(browsers), b, v) && !Registered(browsers, b, v) && (b, v) !in stuck
    {
      hide Uses.Needs, ValidKeep;
      var unneeded := FindUnneeded(uses);
      var kept := ChooseKeep(uses, unneeded);
      keep := kept;
      var toRemove := set p | p in unneeded && !(p.0 in kept && kept[p.0] == p.1);
      ghost var doomed := toRemove;
      assert forall b, v :: (b, v) in doomed <==> Registered(browsers, b, v) && Doomed(uses, kept, b, v);
      cleanedUp := {};
      while toRemove != {}
        invariant toRemove <= doomed
        invariant browsers.Keys == old(browsers).Keys
        invariant forall b, v ::
                    Registered(browsers, b, v)
                    <==> Registered(old(browsers), b, v) && !((b, v) in doomed && (b, v) !in toRemove)
        invariant forall b, v :: Registered(browsers, b, v) ==> browsers[b][v] == old(browsers)[b][v]
        invariant forall p :: p in cleanedUp <==> p in doomed && p !in toRemove && p !in stuck
      {
        var p :| p in toRemove;
        toRemove := toRemove - {p};
        var _ := RemoveBrowser(p.0, p.1);
        if p !in stuck {
          cleanedUp := cleanedUp + {p};
        }
      }
    }
  }
}
