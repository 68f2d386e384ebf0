/**
  Profiles, pending updates and the registry evolving together: src-tauri/src/auto_updater.rs next to
  src-tauri/src/downloaded_browsers_registry.rs. Every public operation is one atomic step, and what is
  on disk follows the registry.
 */
module Fleet {
  import opened Versions
  import opened Registry

  type Id = string

  datatype Profile = Profile(name: string, browser: string, version: string, running: bool, crossOs: bool)

  datatype Notification = Notification(id: string, browser: string, currentVersion: string, newVersion: string,
                                       affected: seq<string>, timestamp: nat)

  /** The registry, the profiles, the pending updates, and the downloads now in flight. */
  datatype World = World(browsers: Browsers, profiles: map<Id, Profile>, pending: seq<Notification>,
                         inFlight: set<Pair>)

  function MakeId(browser: string, currentVersion: string, newVersion: string): string {
    browser + "_" + currentVersion + "_to_" + newVersion
  }

  predicate HasId(pending: seq<Notification>, id: string) {
    exists i :: 0 <= i < |pending| && pending[i].id == id
  }

  function PendingVersions(pending: seq<Notification>): set<Pair> {
    set i | 0 <= i < |pending| :: (pending[i].browser, pending[i].newVersion)
  }

  function ActiveVersions(profiles: map<Id, Profile>): set<Pair> {
    set id | id in profiles :: (profiles[id].browser, profiles[id].version)
  }

  function RunningVersions(profiles: map<Id, Profile>): set<Pair> {
    set id | id in profiles && profiles[id].running :: (profiles[id].browser, profiles[id].version)
  }

  function UsesOf(w: World): Uses {
    Uses(ActiveVersions(w.profiles), RunningVersions(w.profiles), PendingVersions(w.pending))
  }

  // ----- Updating profiles -----

  /** `update_profile_version`: refused for a running profile, a version that is not installed, or any other
      reason in `refused`. */
  function UpdateVersion(w: World, id: Id, version: string, refused: set<Id>): World
    requires id in w.profiles
  {
    var p := w.profiles[id];
    if p.running || id in refused || !Registered(w.browsers, p.browser, version) then w
    else w.(profiles := w.profiles[id := p.(version := version)])
  }

  function AddPending(w: World, n: Notification): World {
    if HasId(w.pending, n.id) then w else w.(pending := w.pending + [n])
  }

  datatype Update = Update(browser: string, version: string, now: nat, refused: set<Id>)

  /** One profile of `auto_update_profile_versions`. */
  function AutoUpdateOne(parse: Parser, w: World, u: Update, id: Id): World
    requires id in w.profiles
  {
    var p := w.profiles[id];
    if p.browser != u.browser || p.crossOs then w
    else if p.running then
      AddPending(w, Notification(MakeId(u.browser, p.version, u.version), u.browser, p.version, u.version, [p.name],
                                 u.now))
    else if Newer(parse, u.version, p.version) then UpdateVersion(w, id, u.version, u.refused)
    else w
  }

  /** The loop over the profiles listed in `ids`. */
  function AutoUpdate(parse: Parser, w: World, u: Update, ids: seq<Id>): (w': World)
    requires forall i :: 0 <= i < |ids| ==> ids[i] in w.profiles
    ensures w'.profiles.Keys == w.profiles.Keys && w'.browsers == w.browsers && w'.inFlight == w.inFlight
  {
    if ids == [] then w
    else AutoUpdateOne(parse, AutoUpdate(parse, w, u, ids[..|ids| - 1]), u, ids[|ids| - 1])
  }

  /** `update_profile_to_latest_installed`, for a profile whose browser was just found closed; `newest` is the
      newest installed version of its browser. Profiles made on another system are moved too. */
  function MoveTo(parse: Parser, w: World, id: Id, newest: string, refused: set<Id>): World
    requires id in w.profiles
  {
    if Newer(parse, newest, w.profiles[id].version) then UpdateVersion(w, id, newest, refused) else w
  }

  /** One profile of `update_profiles_to_latest_installed`; `latest` is the version its browser resolved to. */
  function ToLatestOne(parse: Parser, w: World, latest: map<string, string>, refused: set<Id>, id: Id): World
    requires id in w.profiles
  {
    var p := w.profiles[id];
    if p.crossOs || p.running || p.browser !in latest then w else MoveTo(parse, w, id, latest[p.browser], refused)
  }

  function ToLatest(parse: Parser, w: World, latest: map<string, string>, refused: set<Id>, ids: seq<Id>): (w': World)
    requires forall i :: 0 <= i < |ids| ==> ids[i] in w.profiles
    ensures w'.profiles.Keys == w.profiles.Keys && w' == w.(profiles := w'.profiles)
  {
    if ids == [] then w
    else ToLatestOne(parse, ToLatest(parse, w, latest, refused, ids[..|ids| - 1]), latest, refused, ids[|ids| - 1])
  }

  /** Each browser with installed versions resolves to a newest one. */
  ghost predicate ValidLatest(parse: Parser, browsers: Browsers, latest: map<string, string>) {
    forall b ::
      && (b in latest <==> VersionsOf(browsers, b) != {})
      && (b in latest ==> IsNewestOf(parse, latest[b], VersionsOf(browsers, b)))
  }

  /** A listing of all profiles. */
  ghost predicate Lists(ids: seq<Id>, profiles: map<Id, Profile>) {
    forall id :: id in ids <==> id in profiles
  }

  // ----- Steps and runs -----

  datatype Step =
    | DownloadStart(browser: string, version: string)
    | DownloadComplete(info: Info)
    | DownloadFailed(browser: string, version: string)
    | Create(id: Id, profile: Profile)
    | Delete(id: Id)
    | Launch(id: Id)
    | Stop(id: Id)
    | RunAutoUpdate(update: Update, ids: seq<Id>)
    | RunToLatest(latest: map<string, string>, refused: set<Id>, ids: seq<Id>)
    | RunOnClose(id: Id, newest: string, refused: set<Id>)
    | Dismiss(notification: string)
    | Cleanup(keep: map<string, string>)

  function Undismissed(pending: seq<Notification>, id: string): seq<Notification> {
    if pending == [] then []
    else (if pending[0].id == id then [] else [pending[0]]) + Undismissed(pending[1..], id)
  }

  ghost predicate Next(parse: Parser, w: World, step: Step, w': World) {
    match step
    case DownloadStart(b, v) =>
      (b, v) !in w.inFlight && !Registered(w.browsers, b, v) && w' == w.(inFlight := w.inFlight + {(b, v)})
    case DownloadComplete(info) =>
      (info.browser, info.version) in w.inFlight
      && w' == w.(browsers := Add(w.browsers, info), inFlight := w.inFlight - {(info.browser, info.version)})
    case DownloadFailed(b, v) =>
      (b, v) in w.inFlight && w' == w.(browsers := Remove(w.browsers, b, v), inFlight := w.inFlight - {(b, v)})
    case Create(id, p) =>
      id !in w.profiles && Registered(w.browsers, p.browser, p.version) && w' == w.(profiles := w.profiles[id := p])
    case Delete(id) => w' == w.(profiles := w.profiles - {id})
    case Launch(id) => id in w.profiles && w' == w.(profiles := w.profiles[id := w.profiles[id].(running := true)])
    case Stop(id) => id in w.profiles && w' == w.(profiles := w.profiles[id := w.profiles[id].(running := false)])
    case RunAutoUpdate(u, ids) => Lists(ids, w.profiles) && w' == AutoUpdate(parse, w, u, ids)
    case RunToLatest(latest, refused, ids) =>
      Lists(ids, w.profiles) && ValidLatest(parse, w.browsers, latest) && w' == ToLatest(parse, w, latest, refused, ids)
    case RunOnClose(id, newest, refused) =>
      id in w.profiles && IsNewestOf(parse, newest, VersionsOf(w.browsers, w.profiles[id].browser))
      && w' == MoveTo(parse, w, id, newest, refused)
    case Dismiss(id) => w' == w.(pending := Undismissed(w.pending, id))
    case Cleanup(keep) =>
      ValidKeep(parse, w.browsers, UsesOf(w), keep) && CleanedUp(w.browsers, UsesOf(w), keep, w'.browsers)
      && w' == w.(browsers := w'.browsers)
  }

  ghost predicate IsRun(parse: Parser, worlds: seq<World>, steps: seq<Step>) {
    |worlds| == |steps| + 1 && forall i :: 0 <= i < |steps| ==> Next(parse, worlds[i], steps[i], worlds[i + 1])
  }

  // ----- Profiles never lose their binary -----

  /** What is being downloaded is not registered yet, so a failed download takes nothing away. */
  ghost predicate InFlightIsNew(w: World) {
    forall p :: p in w.inFlight ==> !Registered(w.browsers, p.0, p.1)
  }

  /** Every profile's version is registered. */
  ghost predicate Safe(w: World) {
    && InFlightIsNew(w)
    && forall id :: id in w.profiles ==> Registered(w.browsers, w.profiles[id].browser, w.profiles[id].version)
  }

  /** Profiles keep their browser, and none goes back to an older version. */
  ghost predicate NoDowngrade(parse: Parser, w: World, w': World) {
    forall id :: id in w.profiles && id in w'.profiles ==>
      && w'.profiles[id].browser == w.profiles[id].browser
      && !Newer(parse, w.profiles[id].version, w'.profiles[id].version)
  }

  lemma NoDowngradeComposes(parse: Parser, w: World, w': World, w'': World)
    requires NoDowngrade(parse, w, w') && NoDowngrade(parse, w', w'')
            && w.profiles.Keys * w''.profiles.Keys <= w'.profiles.Keys
    ensures NoDowngrade(parse, w, w'')
  {
    forall id | id in w.profiles && id in w''.profiles
      ensures w''.profiles[id].browser == w.profiles[id].browser
              && !Newer(parse, w.profiles[id].version, w''.profiles[id].version)
    {
      NewerIsTransitive(parse, w.profiles[id].version, w'.profiles[id].version, w''.profiles[id].version);
    }
  }

  lemma NoDowngradeHere(parse: Parser, w: World)
    ensures NoDowngrade(parse, w, w)
  {
  }

  /** Moving a profile to an installed version that is not older is safe, refused or not. */
  lemma UpdateVersionIsSafe(parse: Parser, w: World, id: Id, version: string, refused: set<Id>)
    requires Safe(w) && id in w.profiles && !Newer(parse, w.profiles[id].version, version)
    ensures var w' := UpdateVersion(w, id, version, refused); Safe(w') && NoDowngrade(parse, w, w')
  {
    hide Newer, Registered;
    NewerIsTransitive(parse, version, version, version);
    forall other | other in w.profiles
      ensures !Newer(parse, w.profiles[other].version, w.profiles[other].version)
    {
      NewerIsTransitive(parse, w.profiles[other].version, w.profiles[other].version, w.profiles[other].version);
    }
  }

  lemma AutoUpdateOneIsSafe(parse: Parser, w: World, u: Update, id: Id)
    requires Safe(w) && id in w.profiles
    ensures var w' := AutoUpdateOne(parse, w, u, id); Safe(w') && NoDowngrade(parse, w, w')
  {
    hide Newer, Registered, UpdateVersion, MakeId, HasId;
    var p := w.profiles[id];
    NewerIsTransitive(parse, u.version, p.version, p.version);
    if Newer(parse, u.version, p.version) {
      UpdateVersionIsSafe(parse, w, id, u.version, u.refused);
    }
    SameProfilesNoDowngrade(parse, w, w);
  }

  lemma {:induction false} AutoUpdateIsSafe(parse: Parser, w: World, u: Update, ids: seq<Id>)
    requires Safe(w) && forall i :: 0 <= i < |ids| ==> ids[i] in w.profiles
    ensures var w' := AutoUpdate(parse, w, u, ids); Safe(w') && NoDowngrade(parse, w, w')
    decreases |ids|
  {
    hide Safe, NoDowngrade, AutoUpdateOne;
    NoDowngradeHere(parse, w);
    if ids != [] {
      var before := AutoUpdate(parse, w, u, ids[..|ids| - 1]);
      AutoUpdateIsSafe(parse, w, u, ids[..|ids| - 1]);
      AutoUpdateOneIsSafe(parse, before, u, ids[|ids| - 1]);
      NoDowngradeComposes(parse, w, before, AutoUpdate(parse, w, u, ids));
    }
  }

  lemma MoveToIsSafe(parse: Parser, w: World, id: Id, newest: string, refused: set<Id>)
    requires Safe(w) && id in w.profiles
    ensures var w' := MoveTo(parse, w, id, newest, refused); Safe(w') && NoDowngrade(parse, w, w')
  {
    hide Newer, Registered, UpdateVersion;
    SameProfilesNoDowngrade(parse, w, w);
    if Newer(parse, newest, w.profiles[id].version) {
      NewerIsTransitive(parse, newest, w.profiles[id].version, w.profiles[id].version);
      UpdateVersionIsSafe(parse, w, id, newest, refused);
    }
  }

  lemma ToLatestOneIsSafe(parse: Parser, w: World, latest: map<string, string>, refused: set<Id>, id: Id)
    requires Safe(w) && id in w.profiles
    ensures var w' := ToLatestOne(parse, w, latest, refused, id); Safe(w') && NoDowngrade(parse, w, w')
  {
    hide MoveTo;
    SameProfilesNoDowngrade(parse, w, w);
    var p := w.profiles[id];
    if p.browser in latest {
      MoveToIsSafe(parse, w, id, latest[p.browser], refused);
    }
  }

  lemma {:induction false} ToLatestIsSafe(parse: Parser, w: World, latest: map<string, string>, refused: set<Id>,
                                          ids: seq<Id>)
    requires Safe(w) && forall i :: 0 <= i < |ids| ==> ids[i] in w.profiles
    ensures var w' := ToLatest(parse, w, latest, refused, ids); Safe(w') && NoDowngrade(parse, w, w')
    decreases |ids|
  {
    hide Safe, NoDowngrade, ToLatestOne;
    NoDowngradeHere(parse, w);
    if ids != [] {
      var before := ToLatest(parse, w, latest, refused, ids[..|ids| - 1]);
      ToLatestIsSafe(parse, w, latest, refused, ids[..|ids| - 1]);
      ToLatestOneIsSafe(parse, before, latest, refused, ids[|ids| - 1]);
      NoDowngradeComposes(parse, w, before, ToLatest(parse, w, latest, refused, ids));
    }
  }

  lemma CleanupIsSafe(w: World, keep: map<string, string>, after: Browsers)
    requires Safe(w) && CleanedUp(w.browsers, UsesOf(w), keep, after)
    ensures Safe(w.(browsers := after))
  {
    assert forall p :: p in w.inFlight ==> !Registered(after, p.0, p.1);
    forall id | id in w.profiles
      ensures Registered(after, w.profiles[id].browser, w.profiles[id].version)
    {
      assert (w.profiles[id].browser, w.profiles[id].version) in ActiveVersions(w.profiles);
    }
  }

  lemma DownloadStepIsSafe(parse: Parser, w: World, step: Step, w': World)
    requires Safe(w) && Next(parse, w, step, w')
    requires step.DownloadStart? || step.DownloadComplete? || step.DownloadFailed?
    ensures Safe(w') && w'.profiles == w.profiles
  {
  }

  /** A download that starts registers nothing; one that completes registers its version and no other; one that fails
      leaves its version unregistered and every other as it was. The last two are no longer in flight. */
  lemma DownloadRegisters(parse: Parser, w: World, step: Step, w': World, b: string, v: string)
    requires Next(parse, w, step, w')
    ensures step == DownloadStart(b, v) ==> !Registered(w.browsers, b, v) && (b, v) in w'.inFlight
    ensures step.DownloadStart? ==> (Registered(w'.browsers, b, v) <==> Registered(w.browsers, b, v))
    ensures step.DownloadComplete? ==>
              var done := step.info.browser == b && step.info.version == v;
              && (Registered(w'.browsers, b, v) <==> Registered(w.browsers, b, v) || done)
              && ((b, v) in w'.inFlight <==> (b, v) in w.inFlight && !done)
              && (done ==> w'.browsers[b][v] == step.info)
    ensures step.DownloadFailed? ==>
              var failed := step.browser == b && step.version == v;
              && (Registered(w'.browsers, b, v) <==> Registered(w.browsers, b, v) && !failed)
              && ((b, v) in w'.inFlight <==> (b, v) in w.inFlight && !failed)
  {
    if !(step.DownloadStart? || step.DownloadComplete? || step.DownloadFailed?) {
      hide Next;
    }
  }

  /** Every step keeps every profile's binary registered and lowers no profile's version. */
  lemma StepIsSafe(parse: Parser, w: World, step: Step, w': World)
    requires Safe(w) && Next(parse, w, step, w')
    ensures Safe(w') && NoDowngrade(parse, w, w')
  {
    hide Newer, Registered, CleanedUp, ValidKeep, ValidLatest, NoDowngrade;
    match step
    case RunAutoUpdate(u, ids) => AutoUpdateIsSafe(parse, w, u, ids);
    case RunToLatest(latest, refused, ids) => ToLatestIsSafe(parse, w, latest, refused, ids);
    case RunOnClose(id, newest, refused) => MoveToIsSafe(parse, w, id, newest, refused);
    case Cleanup(keep) =>
      CleanupIsSafe(w, keep, w'.browsers);
      SameProfilesNoDowngrade(parse, w, w');
    case DownloadStart(_, _) =>
      DownloadStepIsSafe(parse, w, step, w');
      SameProfilesNoDowngrade(parse, w, w');
    case DownloadComplete(_) =>
      DownloadStepIsSafe(parse, w, step, w');
      SameProfilesNoDowngrade(parse, w, w');
    case DownloadFailed(_, _) =>
      DownloadStepIsSafe(parse, w, step, w');
      SameProfilesNoDowngrade(parse, w, w');
    case _ => SameVersionsNoDowngrade(parse, w, w');
  }

  lemma SameProfilesNoDowngrade(parse: Parser, w: World, w': World)
    requires w'.profiles == w.profiles
    ensures NoDowngrade(parse, w, w')
  {
  }

  lemma SameVersionsNoDowngrade(parse: Parser, w: World, w': World)
    requires forall id :: id in w.profiles && id in w'.profiles ==>
               w'.profiles[id].browser == w.profiles[id].browser && w'.profiles[id].version == w.profiles[id].version
    ensures NoDowngrade(parse, w, w')
  {
  }

  /** None of the steps from `j` to `k` deletes the profile. */
  ghost predicate NeverDeletes(steps: seq<Step>, j: nat, k: nat, id: Id) {
    forall i :: j <= i < k && i < |steps| ==> steps[i] != Delete(id)
  }

  lemma StepKeepsProfile(parse: Parser, w: World, step: Step, w': World, id: Id)
    requires Next(parse, w, step, w') && id in w.profiles && step != Delete(id)
    ensures id in w'.profiles
  {
    hide Newer, Registered, ValidKeep, CleanedUp, ValidLatest;
  }

  /** In every state of every run each profile's version is registered. */
  lemma {:induction false} RunIsSafe(parse: Parser, worlds: seq<World>, steps: seq<Step>, k: nat)
    requires IsRun(parse, worlds, steps) && Safe(worlds[0]) && k < |worlds|
    ensures Safe(worlds[k])
  {
    hide Safe, Next;
    if k > 0 {
      RunIsSafe(parse, worlds, steps, k - 1);
      StepIsSafe(parse, worlds[k - 1], steps[k - 1], worlds[k]);
    }
  }

  /** Along any run a profile that is not deleted only ever moves to versions that are not older. */
  lemma {:induction false} RunNeverDowngrades(parse: Parser, worlds: seq<World>, steps: seq<Step>, j: nat, k: nat,
                                              id: Id)
    requires IsRun(parse, worlds, steps) && Safe(worlds[0]) && j <= k < |worlds|
    requires id in worlds[j].profiles && NeverDeletes(steps, j, k, id)
    ensures id in worlds[k].profiles && !Newer(parse, worlds[j].profiles[id].version, worlds[k].profiles[id].version)
    decreases k
  {
    hide Safe, Next;
    if j == k {
      NoDowngradeHere(parse, worlds[j]);
    } else {
      RunNeverDowngrades(parse, worlds, steps, j, k - 1, id);
      RunIsSafe(parse, worlds, steps, k - 1);
      StepIsSafe(parse, worlds[k - 1], steps[k - 1], worlds[k]);
      StepKeepsProfile(parse, worlds[k - 1], steps[k - 1], worlds[k], id);
      NewerIsTransitive(parse, worlds[j].profiles[id].version, worlds[k - 1].profiles[id].version,
                        worlds[k].profiles[id].version);
    }
  }

  // ----- What an update does to one profile -----

  /** A profile after `update_profile_version` to `version`, if that is newer and nothing stands against it. */
  function Updated(parse: Parser, w: World, id: Id, version: string, refused: set<Id>): Profile
    requires id in w.profiles
  {
    var p := w.profiles[id];
    if !p.crossOs && !p.running && Newer(parse, version, p.version) && id !in refused
      && Registered(w.browsers, p.browser, version)
    then p.(version := version) else p
  }

  /** An auto-update changes exactly the listed, stopped, same-OS profiles of its browser that are older, and
      only their version. */
  lemma {:induction false} AutoUpdateMeaning(parse: Parser, w: World, u: Update, ids: seq<Id>, id: Id)
    requires (forall i :: 0 <= i < |ids| ==> ids[i] in w.profiles) && id in w.profiles
    ensures AutoUpdate(parse, w, u, ids).profiles[id]
            == if id in ids && w.profiles[id].browser == u.browser then Updated(parse, w, id, u.version, u.refused)
              else w.profiles[id]
    decreases |ids|
  {
    hide Registered, MakeId, HasId;
    if ids != [] {
      var n := |ids| - 1;
      AutoUpdateMeaning(parse, w, u, ids[..n], id);
      assert ids == ids[..n] + [ids[n]];
    }
  }

  /** Moving to the newest installed versions changes exactly the listed, stopped, same-OS profiles that are
      older, and only their version. */
  lemma {:induction false} ToLatestMeaning(parse: Parser, w: World, latest: map<string, string>, refused: set<Id>,
                                           ids: seq<Id>, id: Id)
    requires (forall i :: 0 <= i < |ids| ==> ids[i] in w.profiles) && id in w.profiles
    ensures ToLatest(parse, w, latest, refused, ids).profiles[id]
            == if id in ids && w.profiles[id].browser in latest
              then Updated(parse, w, id, latest[w.profiles[id].browser], refused)
               else w.profiles[id]
    decreases |ids|
  {
    hide Registered;
    if ids != [] {
      var n := |ids| - 1;
      ToLatestMeaning(parse, w, latest, refused, ids[..n], id);
      assert ids == ids[..n] + [ids[n]];
    }
  }

  /** Afterwards no stopped same-OS profile is older than any installed version of its browser, unless its
      own update was refused. */
  lemma ToLatestIsComplete(parse: Parser, w: World, latest: map<string, string>, refused: set<Id>, ids: seq<Id>,
                           id: Id, v: string)
    requires Lists(ids, w.profiles) && ValidLatest(parse, w.browsers, latest)
    requires id in w.profiles && !w.profiles[id].crossOs && !w.profiles[id].running && id !in refused
    requires Registered(w.browsers, w.profiles[id].browser, v)
    ensures forall i :: 0 <= i < |ids| ==> ids[i] in w.profiles
    ensures !Newer(parse, v, ToLatest(parse, w, latest, refused, ids).profiles[id].version)
  {
    hide ToLatest, Newer;
    assert forall i :: 0 <= i < |ids| ==> ids[i] in ids;
    ToLatestMeaning(parse, w, latest, refused, ids, id);
    var p := w.profiles[id];
    assert v in VersionsOf(w.browsers, p.browser);
    NewerIsTransitive(parse, v, latest[p.browser], p.version);
  }

  /** When a browser is found closed its profile, whichever system it was made on, ends no older than any
      installed version, unless its update is refused; no other profile changes. */
  lemma OnCloseIsComplete(parse: Parser, w: World, id: Id, newest: string, refused: set<Id>, w': World, v: string)
    requires Next(parse, w, RunOnClose(id, newest, refused), w') && !w.profiles[id].running && id !in refused
    requires Registered(w.browsers, w.profiles[id].browser, v)
    ensures id in w'.profiles && !Newer(parse, v, w'.profiles[id].version)
    ensures w'.profiles - {id} == w.profiles - {id}
    ensures w'.profiles[id] == w.profiles[id].(version := w'.profiles[id].version)
  {
    hide Newer;
    var p := w.profiles[id];
    assert v in VersionsOf(w.browsers, p.browser);
    NewerIsTransitive(parse, v, newest, p.version);
  }

  /** The names of the listed profiles whose version is another one afterwards, in listing order. */
  function Moved(before: map<Id, Profile>, after: map<Id, Profile>, ids: seq<Id>): seq<string>
    requires forall i :: 0 <= i < |ids| ==> ids[i] in before && ids[i] in after
  {
    if ids == [] then []
    else
      var id := ids[|ids| - 1];
      Moved(before, after, ids[..|ids| - 1])
      + if after[id].version != before[id].version then [before[id].name] else []
  }

  /** What happens to profiles that are not listed does not matter. */
  lemma {:induction false} MovedElsewhere(before: map<Id, Profile>, after: map<Id, Profile>, after': map<Id, Profile>,
                                          ids: seq<Id>)
    requires forall i :: 0 <= i < |ids| ==>
               ids[i] in before && ids[i] in after && ids[i] in after' && after'[ids[i]] == after[ids[i]]
    ensures Moved(before, after', ids) == Moved(before, after, ids)
    decreases |ids|
  {
    if ids != [] {
      MovedElsewhere(before, after, after', ids[..|ids| - 1]);
    }
  }

  /** One more round of a loop over profiles: it touches the next profile only, and says if it moved it. */
  lemma MovedNext(before: map<Id, Profile>, after: map<Id, Profile>, after': map<Id, Profile>, ids: seq<Id>, id: Id)
    requires id !in ids && id in before && id in after && id in after' && after[id] == before[id]
    requires forall i :: 0 <= i < |ids| ==> ids[i] in before && ids[i] in after
    requires forall other :: other in after && other != id ==> other in after' && after'[other] == after[other]
    ensures forall i :: 0 <= i < |ids| + 1 ==> (ids + [id])[i] in before && (ids + [id])[i] in after'
    ensures Moved(before, after', ids + [id])
            == Moved(before, after, ids) + if after'[id].version != before[id].version then [before[id].name] else []
  {
    assert (ids + [id])[..|ids|] == ids;
    assert forall i :: 0 <= i < |ids| ==> ids[i] in ids;
    MovedElsewhere(before, after, after', ids);
  }

  // ----- Pending updates -----

  predicate DistinctIds(pending: seq<Notification>) {
    forall i, j :: 0 <= i < j < |pending| ==> pending[i].id != pending[j].id
  }

  /** The profile would be recorded: it runs here and its notification id is still free. */
  predicate Recordable(w: World, u: Update, id: Id) {
    && id in w.profiles
    && w.profiles[id].browser == u.browser && !w.profiles[id].crossOs && w.profiles[id].running
    && !HasId(w.pending, MakeId(u.browser, w.profiles[id].version, u.version))
  }

  /** What the loop does to the pending list: appends entries of this update only, ids stay distinct. */
  ghost predicate Extends(w: World, w': World, u: Update) {
    && w.pending <= w'.pending
    && (forall i :: |w.pending| <= i < |w'.pending|
          ==> w'.pending[i].browser == u.browser && w'.pending[i].newVersion == u.version)
    && (DistinctIds(w.pending) ==> DistinctIds(w'.pending))
    && (forall id :: id in w.profiles && w.profiles[id].running
          ==> id in w'.profiles && w'.profiles[id] == w.profiles[id])
  }

  lemma {:induction false} AutoUpdateExtends(parse: Parser, w: World, u: Update, ids: seq<Id>)
    requires forall i :: 0 <= i < |ids| ==> ids[i] in w.profiles
    ensures Extends(w, AutoUpdate(parse, w, u, ids), u)
    decreases |ids|
  {
    hide Newer, Registered, HasId, MakeId;
    if ids != [] {
      AutoUpdateExtends(parse, w, u, ids[..|ids| - 1]);
      ExtendsOne(parse, w, AutoUpdate(parse, w, u, ids[..|ids| - 1]), u, ids[|ids| - 1]);
    }
  }

  lemma ExtendsOne(parse: Parser, w: World, v: World, u: Update, id: Id)
    requires Extends(w, v, u) && id in v.profiles
    ensures Extends(w, AutoUpdateOne(parse, v, u, id), u)
  {
    hide Newer, Registered, MakeId;
  }

  /** Afterwards each listed profile that runs here has its id among the pending ones. */
  lemma {:induction false} AutoUpdateRecords(parse: Parser, w: World, u: Update, ids: seq<Id>, id: Id)
    requires forall i :: 0 <= i < |ids| ==> ids[i] in w.profiles
    requires id in ids && w.profiles[id].browser == u.browser && !w.profiles[id].crossOs && w.profiles[id].running
    ensures HasId(AutoUpdate(parse, w, u, ids).pending, MakeId(u.browser, w.profiles[id].version, u.version))
    decreases |ids|
  {
    hide Newer, Registered, MakeId;
    var before := ids[..|ids| - 1];
    AutoUpdateExtends(parse, w, u, before);
    AutoUpdateExtends(parse, w, u, ids);
    if id in before {
      AutoUpdateRecords(parse, w, u, before, id);
      HasIdExtends(AutoUpdate(parse, w, u, before), AutoUpdate(parse, w, u, ids), parse, u, ids[|ids| - 1],
                   MakeId(u.browser, w.profiles[id].version, u.version));
    } else {
      assert ids == before + [ids[|ids| - 1]];
      AddPendingHasId(AutoUpdate(parse, w, u, before), u, id);
    }
  }

  lemma HasIdExtends(v: World, v': World, parse: Parser, u: Update, id: Id, key: string)
    requires id in v.profiles && v' == AutoUpdateOne(parse, v, u, id) && HasId(v.pending, key)
    ensures HasId(v'.pending, key)
  {
    hide Newer, Registered, MakeId;
    var i :| 0 <= i < |v.pending| && v.pending[i].id == key;
    assert v'.pending[i].id == key;
  }

  lemma AddPendingHasId(w: World, u: Update, id: Id)
    requires id in w.profiles
    ensures var p := w.profiles[id];
            var n := Notification(MakeId(u.browser, p.version, u.version), u.browser, p.version, u.version, [p.name],
                                  u.now);
            HasId(AddPending(w, n).pending, n.id)
  {
    hide MakeId;
    var p := w.profiles[id];
    var n := Notification(MakeId(u.browser, p.version, u.version), u.browser, p.version, u.version, [p.name], u.now);
    if !HasId(w.pending, n.id) {
      assert (w.pending + [n])[|w.pending|].id == n.id;
    }
  }

  /** After an auto-update the pair is pending exactly if it was before or some profile running here had a
      notification id that was still free. */
  lemma AutoUpdateIsPendingIff(parse: Parser, w: World, u: Update, ids: seq<Id>)
    requires Lists(ids, w.profiles)
    ensures (u.browser, u.version) in PendingVersions(AutoUpdate(parse, w, u, ids).pending)
            <==> (u.browser, u.version) in PendingVersions(w.pending) || exists id :: Recordable(w, u, id)
  {
    hide AutoUpdate, MakeId;
    assert forall i :: 0 <= i < |ids| ==> ids[i] in ids;
    AutoUpdateExtends(parse, w, u, ids);
    var w' := AutoUpdate(parse, w, u, ids);
    if id :| Recordable(w, u, id) {
      var key := MakeId(u.browser, w.profiles[id].version, u.version);
      AutoUpdateRecords(parse, w, u, ids, id);
      var i :| 0 <= i < |w'.pending| && w'.pending[i].id == key;
      assert (w'.pending[i].browser, w'.pending[i].newVersion) in PendingVersions(w'.pending);
    }
    PendingOnlyGrows(w.pending, w'.pending);
    if !(exists id :: Recordable(w, u, id)) {
      NothingRecordable(parse, w, u, ids);
    }
  }

  /** The entry is the one for this profile and update. */
  ghost predicate EntryFor(n: Notification, p: Profile, u: Update) {
    && n.id == u.browser + "_" + p.version + "_to_" + u.version
    && n.browser == u.browser && n.currentVersion == p.version && n.newVersion == u.version
    && n.affected == [p.name] && n.timestamp == u.now
  }

  ghost predicate RecordedFor(w: World, u: Update, n: Notification) {
    exists id :: id in w.profiles && w.profiles[id].browser == u.browser && w.profiles[id].running
                 && !w.profiles[id].crossOs && EntryFor(n, w.profiles[id], u)
  }

  /** Whatever an auto-update adds to the pending list is the entry of a same-OS profile of its browser that runs. */
  lemma {:induction false} AutoUpdateRecordsOnly(parse: Parser, w: World, u: Update, ids: seq<Id>)
    requires forall i :: 0 <= i < |ids| ==> ids[i] in w.profiles
    ensures var pending := AutoUpdate(parse, w, u, ids).pending;
            forall i :: |w.pending| <= i < |pending| ==> RecordedFor(w, u, pending[i])
    decreases |ids|
  {
    hide Newer, Registered, HasId, EntryFor, MakeId;
    if ids != [] {
      var before, id := AutoUpdate(parse, w, u, ids[..|ids| - 1]), ids[|ids| - 1];
      AutoUpdateRecordsOnly(parse, w, u, ids[..|ids| - 1]);
      AutoUpdateExtends(parse, w, u, ids[..|ids| - 1]);
      AutoUpdateKeepsKind(parse, w, u, ids[..|ids| - 1], id);
      var p := before.profiles[id];
      EntryIsFor(p, u);
      var after := AutoUpdateOne(parse, before, u, id);
      if after.pending != before.pending {
        assert p.browser == u.browser && p.running && !p.crossOs && w.profiles[id] == p;
        assert RecordedFor(w, u, after.pending[|before.pending|]);
      }
    }
  }

  lemma EntryIsFor(p: Profile, u: Update)
    ensures EntryFor(Notification(MakeId(u.browser, p.version, u.version), u.browser, p.version, u.version, [p.name],
                                  u.now), p, u)
  {
  }

  lemma AutoUpdateKeepsKind(parse: Parser, w: World, u: Update, ids: seq<Id>, id: Id)
    requires (forall i :: 0 <= i < |ids| ==> ids[i] in w.profiles) && id in w.profiles
    ensures var p, p' := w.profiles[id], AutoUpdate(parse, w, u, ids).profiles[id];
            p'.running == p.running && p'.crossOs == p.crossOs && p'.browser == p.browser && (p.running ==> p' == p)
  {
    hide AutoUpdate, Newer, Registered;
    AutoUpdateMeaning(parse, w, u, ids, id);
  }

  lemma PendingOnlyGrows(pending: seq<Notification>, pending': seq<Notification>)
    requires pending <= pending'
    ensures PendingVersions(pending) <= PendingVersions(pending')
  {
    forall i | 0 <= i < |pending|
      ensures (pending[i].browser, pending[i].newVersion) in PendingVersions(pending')
    {
      assert pending'[i] == pending[i];
    }
  }

  lemma {:induction false} NothingRecordable(parse: Parser, w: World, u: Update, ids: seq<Id>)
    requires forall i :: 0 <= i < |ids| ==> ids[i] in w.profiles
    requires forall id :: !Recordable(w, u, id)
    ensures AutoUpdate(parse, w, u, ids).pending == w.pending
    ensures forall id :: id in w.profiles ==>
              var p := AutoUpdate(parse, w, u, ids).profiles[id];
              p.running == w.profiles[id].running && p.crossOs == w.profiles[id].crossOs
                && p.browser == w.profiles[id].browser
              && (p.running ==> p == w.profiles[id])
    decreases |ids|
  {
    hide Newer, Registered, MakeId, HasId;
    if ids != [] {
      var before := AutoUpdate(parse, w, u, ids[..|ids| - 1]);
      NothingRecordable(parse, w, u, ids[..|ids| - 1]);
      assert !Recordable(w, u, ids[|ids| - 1]);
    }
  }

  // ----- Ids -----

  predicate Plain(s: string) {
    '_' !in s
  }

  lemma {:induction false} FirstUnderscore(p: string, r: string, p': string, r': string)
    requires Plain(p) && Plain(p') && p + ['_'] + r == p' + ['_'] + r'
    ensures p == p' && r == r'
  {
    var s, s' := p + ['_'] + r, p' + ['_'] + r';
    if p == [] {
      assert s'[0] == '_';
      assert p' == [];
      assert s[1..] == r && s'[1..] == r';
    } else {
      assert s[0] == p[0];
      assert p' != [] && s'[0] == p'[0];
      assert s[1..] == p[1..] + ['_'] + r && s'[1..] == p'[1..] + ['_'] + r';
      FirstUnderscore(p[1..], r, p'[1..], r');
      assert p == [p[0]] + p[1..] && p' == [p'[0]] + p'[1..];
    }
  }

  /** With no underscore in browser and version names an id says which update it is for. */
  lemma PlainIdsAreInjective(b: string, c: string, v: string, b': string, c': string, v': string)
    requires Plain(b) && Plain(c) && Plain(b') && Plain(c') && MakeId(b, c, v) == MakeId(b', c', v')
    ensures b == b' && c == c' && v == v'
  {
    assert MakeId(b, c, v) == b + ['_'] + (c + ['_'] + ("to_" + v));
    assert MakeId(b', c', v') == b' + ['_'] + (c' + ['_'] + ("to_" + v'));
    FirstUnderscore(b, c + ['_'] + ("to_" + v), b', c' + ['_'] + ("to_" + v'));
    FirstUnderscore(c, "to_" + v, c', "to_" + v');
    assert ("to_" + v)[3..] == v && ("to_" + v')[3..] == v';
  }

  /** With underscores two different updates can share an id. */
  lemma IdsCanCollide(b: string, c: string, d: string, v: string)
    ensures MakeId(b, c + "_to_" + d, v) == MakeId(b, c, d + "_to_" + v)
  {
    assert b + "_" + (c + "_to_" + d) + "_to_" + v == b + "_" + c + "_to_" + (d + "_to_" + v);
  }

  /** The only running profile needs an update whose id a pending entry already has, though that entry is for
      another update. */
  ghost predicate Shadowed(w: World, u: Update, id: Id, n: Notification, d: string) {
    && w.pending == [n]
    && n.browser == u.browser && n.newVersion == d + "_to_" + u.version
    && n.id == MakeId(n.browser, n.currentVersion, n.newVersion)
    && w.profiles.Keys == {id}
    && w.profiles[id].browser == u.browser && w.profiles[id].version == n.currentVersion + "_to_" + d
    && w.profiles[id].running && !w.profiles[id].crossOs
  }

  /** The update is then not recorded, and nothing protects its version. */
  lemma CollidingIdHidesUpdate(parse: Parser, w: World, u: Update, ids: seq<Id>, id: Id, n: Notification, d: string)
    requires Lists(ids, w.profiles) && Shadowed(w, u, id, n, d)
    ensures (u.browser, u.version) !in PendingVersions(AutoUpdate(parse, w, u, ids).pending)
  {
    hide AutoUpdate, MakeId;
    AutoUpdateIsPendingIff(parse, w, u, ids);
    IdsCanCollide(u.browser, n.currentVersion, d, u.version);
    assert w.pending[0].id == n.id;
    assert HasId(w.pending, MakeId(u.browser, w.profiles[id].version, u.version));
    assert |d + "_to_" + u.version| > |u.version|;
  }

  /** A profile runs 145_to_1 while the update from 145 to 1_to_146 is pending: the one to 146 is lost. */
  lemma UpdateCanGoUnrecorded(parse: Parser, w: World, u: Update)
    requires w == World(map[], map["p" := Profile("p", "kernel", "145_to_1", true, false)],
                        [Notification("kernel_145_to_1_to_146", "kernel", "145", "1_to_146", [], 0)], {})
    requires u == Update("kernel", "146", 1, {})
    ensures ("kernel", "146") !in PendingVersions(AutoUpdate(parse, w, u, ["p"]).pending)
  {
    CollidingIdHidesUpdate(parse, w, u, ["p"], "p", w.pending[0], "1");
  }

  const SUPPORTED_BROWSERS := ["fingerprint-chromium", "cloakbrowser-146", "cloakbrowser-150"]

  lemma SupportedNamesArePlain()
    ensures forall b :: b in SUPPORTED_BROWSERS ==> Plain(b)
  {
  }

  /** Every pending entry carries the id of its own update, and names hold no underscore. */
  ghost predicate WellNamed(w: World) {
    && (forall i :: 0 <= i < |w.pending| ==>
          var n := w.pending[i];
          Plain(n.browser) && Plain(n.currentVersion) && n.id == MakeId(n.browser, n.currentVersion, n.newVersion))
    && (forall id :: id in w.profiles ==> Plain(w.profiles[id].browser) && Plain(w.profiles[id].version))
  }

  /** With plain names, an auto-update of a browser that runs here always leaves the update pending. */
  lemma AutoUpdateIsPending(parse: Parser, w: World, u: Update, ids: seq<Id>, id: Id)
    requires Lists(ids, w.profiles) && WellNamed(w)
    requires id in w.profiles && w.profiles[id].browser == u.browser && !w.profiles[id].crossOs
            && w.profiles[id].running
    ensures (u.browser, u.version) in PendingVersions(AutoUpdate(parse, w, u, ids).pending)
  {
    hide AutoUpdate, MakeId, Plain;
    AutoUpdateIsPendingIff(parse, w, u, ids);
    var key := MakeId(u.browser, w.profiles[id].version, u.version);
    if HasId(w.pending, key) {
      var i :| 0 <= i < |w.pending| && w.pending[i].id == key;
      var n := w.pending[i];
      PlainIdsAreInjective(n.browser, n.currentVersion, n.newVersion, u.browser, w.profiles[id].version, u.version);
      assert (n.browser, n.newVersion) in PendingVersions(w.pending);
    } else {
      assert Recordable(w, u, id);
    }
  }

  // ----- A pending version is protected while its browser runs -----

  predicate SomeRuns(w: World, browser: string) {
    exists id :: id in w.profiles && w.profiles[id].browser == browser && w.profiles[id].running
  }

  /** The version is registered and the entry that protects it is still there. */
  ghost predicate Protected(w: World, n: Notification) {
    Registered(w.browsers, n.browser, n.newVersion) && n in w.pending
  }

  lemma {:induction false} UndismissedMeaning(pending: seq<Notification>, id: string)
    ensures forall n :: n in Undismissed(pending, id) <==> n in pending && n.id != id
    ensures DistinctIds(pending) ==> DistinctIds(Undismissed(pending, id))
  {
    if pending != [] {
      UndismissedMeaning(pending[1..], id);
      assert pending == [pending[0]] + pending[1..];
      if DistinctIds(pending) {
        assert forall n :: n in pending[1..] ==> n.id != pending[0].id;
      }
    }
  }

  lemma CleanupKeepsProtected(w: World, keep: map<string, string>, after: Browsers, n: Notification)
    requires Protected(w, n) && SomeRuns(w, n.browser) && CleanedUp(w.browsers, UsesOf(w), keep, after)
    ensures Registered(after, n.browser, n.newVersion)
  {
    var i :| 0 <= i < |w.pending| && w.pending[i] == n;
    assert (w.pending[i].browser, w.pending[i].newVersion) in PendingVersions(w.pending);
    var id :| id in w.profiles && w.profiles[id].browser == n.browser && w.profiles[id].running;
    assert (w.profiles[id].browser, w.profiles[id].version) in RunningVersions(w.profiles);
    assert UsesOf(w).RunsSome(n.browser);
  }

  lemma StepKeepsProtected(parse: Parser, w: World, step: Step, w': World, n: Notification)
    requires Next(parse, w, step, w') && Protected(w, n) && InFlightIsNew(w)
    requires step != Dismiss(n.id) && (step.Cleanup? ==> SomeRuns(w, n.browser))
    ensures Protected(w', n)
  {
    hide Newer, CleanedUp, ValidKeep, ValidLatest, AutoUpdate, ToLatest;
    match step
    case RunAutoUpdate(u, ids) =>
      assert forall i :: 0 <= i < |ids| ==> ids[i] in ids;
      AutoUpdateExtends(parse, w, u, ids);
    case RunToLatest(latest, refused, ids) =>
      assert forall i :: 0 <= i < |ids| ==> ids[i] in ids;
    case Dismiss(id) => UndismissedMeaning(w.pending, id);
    case Cleanup(keep) => CleanupKeepsProtected(w, keep, w'.browsers, n);
    case _ =>
  }

  /** While its entry is not dismissed and the browser runs at every cleanup, a pending version stays
      registered through the whole run. */
  lemma {:induction false} PendingVersionStays(parse: Parser, worlds: seq<World>, steps: seq<Step>, n: Notification,
                                               k: nat)
    requires IsRun(parse, worlds, steps) && Safe(worlds[0]) && Protected(worlds[0], n) && k < |worlds|
    requires forall i :: 0 <= i < |steps| ==> steps[i] != Dismiss(n.id)
    requires forall i :: 0 <= i < |steps| && steps[i].Cleanup? ==> SomeRuns(worlds[i], n.browser)
    ensures Registered(worlds[k].browsers, n.browser, n.newVersion) && n in worlds[k].pending
  {
    hide Next, SomeRuns, InFlightIsNew;
    if k > 0 {
      PendingVersionStays(parse, worlds, steps, n, k - 1);
      RunIsSafe(parse, worlds, steps, k - 1);
      StepKeepsProtected(parse, worlds[k - 1], steps[k - 1], worlds[k], n);
    }
  }

  lemma StepKeepsIdsDistinct(parse: Parser, w: World, step: Step, w': World)
    requires Next(parse, w, step, w') && DistinctIds(w.pending)
    ensures DistinctIds(w'.pending)
  {
    hide Newer, CleanedUp, ValidKeep, ValidLatest, AutoUpdate, ToLatest, DistinctIds;
    match step
    case RunAutoUpdate(u, ids) =>
      assert forall i :: 0 <= i < |ids| ==> ids[i] in ids;
      AutoUpdateExtends(parse, w, u, ids);
    case RunToLatest(latest, refused, ids) =>
      assert forall i :: 0 <= i < |ids| ==> ids[i] in ids;
    case Dismiss(id) => UndismissedMeaning(w.pending, id);
    case _ =>
  }

  /** No run ever holds two notifications with one id. */
  lemma {:induction false} RunKeepsIdsDistinct(parse: Parser, worlds: seq<World>, steps: seq<Step>, k: nat)
    requires IsRun(parse, worlds, steps) && DistinctIds(worlds[0].pending) && k < |worlds|
    ensures DistinctIds(worlds[k].pending)
  {
    hide Next, DistinctIds;
    if k > 0 {
      RunKeepsIdsDistinct(parse, worlds, steps, k - 1);
      StepKeepsIdsDistinct(parse, worlds[k - 1], steps[k - 1], worlds[k]);
    }
  }

  lemma AutoUpdateOfNothing(parse: Parser, w: World, u: Update)
    ensures AutoUpdate(parse, w, u, []) == w
  {
  }

  lemma AutoUpdateNext(parse: Parser, w: World, u: Update, ids: seq<Id>, i: nat)
    requires i < |ids| && forall j :: 0 <= j < |ids| ==> ids[j] in w.profiles
    ensures AutoUpdate(parse, w, u, ids[..i + 1]) == AutoUpdateOne(parse, AutoUpdate(parse, w, u, ids[..i]), u, ids[i])
  {
    hide AutoUpdateOne;
    assert ids[..i + 1][..i] == ids[..i];
  }

  /** A loop over listed profiles has done the first `i`: the others are still as they were, and `updated` names
      those that moved. */
  ghost predicate Halfway(before: map<Id, Profile>, now: map<Id, Profile>, listing: seq<Id>, i: nat,
                          updated: seq<string>) {
    && i <= |listing| && now.Keys == before.Keys
    && (forall j :: 0 <= j < |listing| ==> listing[j] in before)
    && (forall j, k :: 0 <= j < k < |listing| ==> listing[j] != listing[k])
    && (forall j :: i <= j < |listing| ==> now[listing[j]] == before[listing[j]])
    && updated == Moved(before, now, listing[..i])
  }

  lemma HalfwayAtStart(before: map<Id, Profile>, listing: seq<Id>)
    requires forall j :: 0 <= j < |listing| ==> listing[j] in before
    requires forall j, k :: 0 <= j < k < |listing| ==> listing[j] != listing[k]
    ensures Halfway(before, before, listing, 0, [])
  {
  }

  lemma HalfwayMeans(before: map<Id, Profile>, now: map<Id, Profile>, listing: seq<Id>, i: nat, updated: seq<string>)
    requires i < |listing| && Halfway(before, now, listing, i, updated)
    ensures now.Keys == before.Keys && listing[i] in before && now[listing[i]] == before[listing[i]]
    ensures forall j :: 0 <= j < |listing| ==> listing[j] in before
  {
  }

  /** One round touches the next profile only, and adds its name if it moved. */
  lemma HalfwayStep(before: map<Id, Profile>, now: map<Id, Profile>, next: map<Id, Profile>, listing: seq<Id>, i: nat,
                    updated: seq<string>, moved: bool)
    requires i < |listing| && Halfway(before, now, listing, i, updated) && next.Keys == now.Keys
    requires forall other :: other in now && other != listing[i] ==> next[other] == now[other]
    requires listing[i] in before && listing[i] in next
    requires moved <==> next[listing[i]].version != before[listing[i]].version
    ensures Halfway(before, next, listing, i + 1, updated + if moved then [before[listing[i]].name] else [])
  {
    hide Moved;
    assert listing[..i + 1] == listing[..i] + [listing[i]];
    MovedNext(before, now, next, listing[..i], listing[i]);
  }

  lemma AllTheWay(before: map<Id, Profile>, now: map<Id, Profile>, listing: seq<Id>, updated: seq<string>)
    requires Halfway(before, now, listing, |listing|, updated)
    ensures now.Keys == before.Keys && forall j :: 0 <= j < |listing| ==> listing[j] in before
    ensures updated == Moved(before, now, listing)
  {
    assert listing[..|listing|] == listing;
  }

  // ----- The code's form -----

  /** The profiles on disk, the pending list of the state file, the downloads in flight, and the registry they
      rely on. */
  class AutoUpdater {
    const registry: BrowserRegistry
    var profiles: map<Id, Profile>
    var pending: seq<Notification>
    var inFlight: set<Pair>

    constructor (registry: BrowserRegistry)
      ensures this.registry == registry && profiles == map[] && pending == [] && inFlight == {}
    {
      this.registry, profiles, pending, inFlight := registry, map[], [], {};
    }

    ghost function State(): World
      reads this, registry
    {
      World(registry.browsers, profiles, pending, inFlight)
    }

    /** Marks a download as started, unless it is running or done already. */
    method StartDownload(browser: string, version: string) returns (started: bool)
      modifies this`inFlight
      ensures started <==> (browser, version) !in old(inFlight) && !Registered(registry.browsers, browser, version)
      ensures if started then Next(registry.parse, old(State()), DownloadStart(browser, version), State())
              else State() == old(State())
    {
      if (browser, version) in inFlight {
        return false;
      }
      if Registered(registry.browsers, browser, version) {
        return false;
      }
      inFlight := inFlight + {(browser, version)};
      started := true;
    }

    /** The end of a started download: a verified one is registered, a failed one removed from the registry. */
    method FinishDownload(info: Info, verified: bool)
      requires (info.browser, info.version) in inFlight
      modifies this`inFlight, registry
      ensures Next(registry.parse, old(State()),
                   if verified then DownloadComplete(info) else DownloadFailed(info.browser, info.version), State())
    {
      if verified {
        registry.AddBrowser(info);
      } else {
        var _ := registry.RemoveBrowser(info.browser, info.version);
      }
      inFlight := inFlight - {(info.browser, info.version)};
    }

    /** Every profile once, in whatever order the directory lists them. */
    method ListProfiles() returns (ids: seq<Id>)
      ensures Lists(ids, profiles)
      ensures forall i, j :: 0 <= i < j < |ids| ==> ids[i] != ids[j]
    {
      ids := [];
      var todo := profiles.Keys;
      while todo != {}
        invariant todo <= profiles.Keys
        invariant forall id :: id in ids <==> id in profiles && id !in todo
        invariant forall i, j :: 0 <= i < j < |ids| ==> ids[i] != ids[j]
      {
        var id :| id in todo;
        todo := todo - {id};
        ids := ids + [id];
      }
    }

    method UpdateProfileVersion(id: Id, version: string, refused: set<Id>) returns (ok: bool)
      requires id in profiles
      modifies this`profiles
      ensures State() == UpdateVersion(old(State()), id, version, refused)
      ensures ok <==> !old(profiles)[id].running && id !in refused
                      && Registered(registry.browsers, old(profiles)[id].browser, version)
    {
      var p := profiles[id];
      if p.running || id in refused || !Registered(registry.browsers, p.browser, version) {
        return false;
      }
      profiles := profiles[id := p.(version := version)];
      ok := true;
    }

    /** One round of the loop below; `p` is the profile as it was listed. */
    method AutoUpdateProfile(id: Id, p: Profile, u: Update) returns (moved: bool)
      requires id in profiles && profiles[id] == p
      modifies this
      ensures State() == AutoUpdateOne(registry.parse, old(State()), u, id)
      ensures profiles.Keys == old(profiles).Keys
      ensures forall other :: other in profiles && other != id ==> profiles[other] == old(profiles)[other]
      ensures moved <==> profiles[id].version != p.version
    {
      hide Newer, Registered, MakeId, HasId;
      NewerIsTransitive(registry.parse, u.version, u.version, u.version);
      moved := false;
      if p.browser == u.browser {
        if p.crossOs {
          return;
        }
        if p.running {
          RecordPending(Notification(MakeId(u.browser, p.version, u.version), u.browser, p.version, u.version,
                                     [p.name], u.now));
          return;
        }
        if Newer(registry.parse, u.version, p.version) {
          moved := UpdateProfileVersion(id, u.version, u.refused);
        }
      }
    }

    /** Moves the stopped profiles of a browser to a newer version and records the running ones; the profiles
        that were moved are named. */
    method AutoUpdateProfileVersions(u: Update) returns (updated: seq<string>, ghost ids: seq<Id>)
      modifies this
      ensures Lists(ids, old(profiles)) && State() == AutoUpdate(registry.parse, old(State()), u, ids)
      ensures profiles.Keys == old(profiles).Keys && updated == Moved(old(profiles), profiles, ids)
      ensures Safe(old(State())) ==> Safe(State()) && NoDowngrade(registry.parse, old(State()), State())
    {
      hide AutoUpdate, AutoUpdateOne, Safe, NoDowngrade, Halfway, Moved;
      ghost var before := State();
      var listing := ListProfiles();
      ids := listing;
      assert forall j :: 0 <= j < |listing| ==> listing[j] in listing;
      updated := [];
      var snapshot := profiles;
      HalfwayAtStart(snapshot, listing);
      AutoUpdateOfNothing(registry.parse, before, u);
      var i := 0;
      while i < |listing|
        invariant i <= |listing| && Halfway(snapshot, profiles, listing, i, updated)
        invariant State() == AutoUpdate(registry.parse, before, u, listing[..i])
      {
        HalfwayMeans(snapshot, profiles, listing, i, updated);
        AutoUpdateNext(registry.parse, before, u, listing, i);
        ghost var now := profiles;
        var id := listing[i];
        var p := snapshot[id];
        var moved := AutoUpdateProfile(id, p, u);
        HalfwayStep(snapshot, now, profiles, listing, i, updated, moved);
        assert updated + [] == updated;
        if moved {
          updated := updated + [p.name];
        }
        i := i + 1;
      }
      assert listing[..i] == listing;
      AllTheWay(snapshot, profiles, listing, updated);
      if Safe(before) {
        AutoUpdateIsSafe(registry.parse, before, u, listing);
      }
    }

    method RecordPending(n: Notification)
      modifies this`pending
      ensures State() == AddPending(old(State()), n)
    {
      if !HasId(pending, n.id) {
        pending := pending + [n];
      }
    }

    /** The newest installed version of each browser that has one. */
    method LatestInstalled() returns (latest: map<string, string>)
      ensures ValidLatest(registry.parse, registry.browsers, latest)
    {
      hide IsNewestOf;
      latest := map[];
      var todo := registry.browsers.Keys;
      while todo != {}
        invariant todo <= registry.browsers.Keys
        invariant forall b :: b in latest <==> b !in todo && VersionsOf(registry.browsers, b) != {}
        invariant forall b :: b in latest ==> IsNewestOf(registry.parse, latest[b], VersionsOf(registry.browsers, b))
      {
        var browser :| browser in todo;
        todo := todo - {browser};
        var installed := registry.browsers[browser].Keys;
        if installed != {} {
          var newest := Newest(registry.parse, installed);
          latest := latest[browser := newest];
        }
      }
    }

    /** Called once a browser is found closed: its profile moves to the newest installed version. */
    method UpdateProfileToLatestInstalled(id: Id, refused: set<Id>) returns (moved: bool, ghost newest: string)
      requires id in profiles
      modifies this`profiles
      ensures VersionsOf(registry.browsers, old(profiles)[id].browser) == {} ==> !moved && State() == old(State())
      ensures VersionsOf(registry.browsers, old(profiles)[id].browser) != {}
              ==> Next(registry.parse, old(State()), RunOnClose(id, newest, refused), State())
      ensures id in profiles && (moved <==> profiles[id].version != old(profiles)[id].version)
      ensures Safe(old(State())) ==> Safe(State()) && NoDowngrade(registry.parse, old(State()), State())
    {
      hide Newer, Registered, IsNewestOf, Safe, NoDowngrade;
      ghost var before := State();
      var p := profiles[id];
      moved, newest := false, p.version;
      NoDowngradeHere(registry.parse, before);
      if p.browser in registry.browsers && registry.browsers[p.browser] != map[] {
        var latest := Newest(registry.parse, registry.browsers[p.browser].Keys);
        newest := latest;
        moved := MoveProfile(id, latest, refused);
        if Safe(before) {
          MoveToIsSafe(registry.parse, before, id, latest, refused);
        }
      }
    }

    method MoveProfile(id: Id, newest: string, refused: set<Id>) returns (moved: bool)
      requires id in profiles
      modifies this`profiles
      ensures State() == MoveTo(registry.parse, old(State()), id, newest, refused)
      ensures profiles.Keys == old(profiles).Keys
      ensures forall other :: other in profiles && other != id ==> profiles[other] == old(profiles)[other]
      ensures moved <==> profiles[id].version != old(profiles)[id].version
    {
      hide Newer, Registered;
      NewerIsTransitive(registry.parse, newest, newest, newest);
      if !Newer(registry.parse, newest, profiles[id].version) {
        return false;
      }
      moved := UpdateProfileVersion(id, newest, refused);
    }

    /** One round of the loop below. */
    method UpdateStopped(id: Id, latest: map<string, string>, refused: set<Id>) returns (moved: bool)
      requires id in profiles
      modifies this`profiles
      ensures State() == ToLatestOne(registry.parse, old(State()), latest, refused, id)
      ensures profiles.Keys == old(profiles).Keys
      ensures forall other :: other in profiles && other != id ==> profiles[other] == old(profiles)[other]
      ensures moved <==> profiles[id].version != old(profiles)[id].version
    {
      hide MoveTo;
      var p := profiles[id];
      if p.crossOs || p.running || p.browser !in latest {
        return false;
      }
      moved := MoveProfile(id, latest[p.browser], refused);
    }

    /** The loop of the next method. */
    method UpdateListed(listing: seq<Id>, latest: map<string, string>, refused: set<Id>) returns (updated: seq<string>)
      requires forall j :: 0 <= j < |listing| ==> listing[j] in profiles
      requires forall j, k :: 0 <= j < k < |listing| ==> listing[j] != listing[k]
      modifies this`profiles
      ensures State() == ToLatest(registry.parse, old(State()), latest, refused, listing)
      ensures profiles.Keys == old(profiles).Keys && updated == Moved(old(profiles), profiles, listing)
    {
      hide ToLatestOne, Halfway, Moved;
      ghost var before := State();
      updated := [];
      HalfwayAtStart(profiles, listing);
      var i := 0;
      while i < |listing|
        invariant i <= |listing| && Halfway(before.profiles, profiles, listing, i, updated)
        invariant State() == ToLatest(registry.parse, before, latest, refused, listing[..i])
      {
        HalfwayMeans(before.profiles, profiles, listing, i, updated);
        assert listing[..i + 1][..i] == listing[..i];
        ghost var now := profiles;
        var p := profiles[listing[i]];
        var moved := UpdateStopped(listing[i], latest, refused);
        HalfwayStep(before.profiles, now, profiles, listing, i, updated, moved);
        assert updated + [] == updated;
        if moved {
          updated := updated + [p.name];
        }
        i := i + 1;
      }
      assert listing[..i] == listing;
      AllTheWay(before.profiles, profiles, listing, updated);
    }

    /** Moves every stopped profile to the newest installed version of its browser, and names those it moved. */
    method UpdateProfilesToLatestInstalled(refused: set<Id>)
      returns (updated: seq<string>, ghost latest: map<string, string>, ghost ids: seq<Id>)
      modifies this`profiles
      ensures Lists(ids, old(profiles)) && ValidLatest(registry.parse, registry.browsers, latest)
      ensures State() == ToLatest(registry.parse, old(State()), latest, refused, ids)
      ensures profiles.Keys == old(profiles).Keys && updated == Moved(old(profiles), profiles, ids)
      ensures Safe(old(State())) ==> Safe(State()) && NoDowngrade(registry.parse, old(State()), State())
    {
      hide ToLatest, Safe, NoDowngrade, ValidLatest, Moved;
      ghost var before := State();
      var listing := ListProfiles();
      var newest := LatestInstalled();
      ids, latest := listing, newest;
      assert forall j :: 0 <= j < |listing| ==> listing[j] in listing;
      updated := UpdateListed(listing, newest, refused);
      if Safe(before) {
        ToLatestIsSafe(registry.parse, before, newest, refused, listing);
      }
    }

    /** Drops the notification with this id; no other one is touched. */
    method DismissUpdateNotification(id: string)
      modifies this`pending
      ensures pending == Undismissed(old(pending), id)
      ensures forall n :: n in pending <==> n in old(pending) && n.id != id
    {
      UndismissedMeaning(pending, id);
      pending := Undismissed(pending, id);
    }

    /** The (browser, version) pairs with a pending update. */
    method GetPendingUpdateVersions() returns (versions: set<Pair>)
      ensures versions == PendingVersions(pending)
    {
      versions := {};
      var i := 0;
      while i < |pending|
        invariant i <= |pending| && versions == PendingVersions(pending[..i])
      {
        versions := versions + {(pending[i].browser, pending[i].newVersion)};
        assert pending[..i + 1] == pending[..i] + [pending[i]];
        PendingOfAppend(pending[..i], pending[i]);
        i := i + 1;
      }
      assert pending[..i] == pending;
    }

    /** Collects what the profiles use and lets the registry clean up around it. */
    method CleanupUnusedBinaries(stuck: set<Pair>) returns (cleanedUp: set<Pair>, ghost keep: map<string, string>)
      modifies registry
      ensures Next(registry.parse, old(State()), Cleanup(keep), State())
      ensures Safe(old(State())) ==> Safe(State())
    {
      hide ValidKeep, CleanedUp, Safe;
      var pendingVersions := GetPendingUpdateVersions();
      var uses := Uses(ActiveVersions(profiles), RunningVersions(profiles), pendingVersions);
      cleanedUp, keep := registry.CleanupUnusedBinariesInternal(uses, stuck);
      if Safe(old(State())) {
        CleanupIsSafe(old(State()), keep, registry.browsers);
      }
    }
  }

  lemma PendingOfAppend(pending: seq<Notification>, n: Notification)
    ensures PendingVersions(pending + [n]) == PendingVersions(pending) + {(n.browser, n.newVersion)}
  {
    var all := pending + [n];
    forall i | 0 <= i < |pending|
      ensures (pending[i].browser, pending[i].newVersion) in PendingVersions(all)
    {
      assert all[i] == pending[i];
    }
    assert (all[|pending|].browser, all[|pending|].newVersion) in PendingVersions(all);
  }
}
