/**
  Chromium's cookie table as src-tauri/src/cookie_manager.rs reads and writes it: the upsert loop, the
  reader, and the copy from one profile to another.
 */
module CookieStore {
  import opened Prelude
  import opened Text
  import opened Cookies
  import opened ChromeTime

  /** One row of the table `cookies`; `topFrameSiteKey` is part of the unique index but not of the lookup. */
  datatype Row = Row(creationUtc: I64, hostKey: string, topFrameSiteKey: string, name: string, value: string,
                     encryptedValue: Bytes, path: string, expiresUtc: I64, isSecure: int, isHttpOnly: int,
                     lastAccessUtc: I64, hasExpires: int, isPersistent: int, priority: int, sameSite: int,
                     sourceScheme: int, sourcePort: int, lastUpdateUtc: I64, sourceType: int, hasCrossSiteAncestor: int)

  datatype Key = Key(host: string, name: string, path: string)

  function KeyOf(row: Row): Key {
    Key(row.hostKey, row.name, row.path)
  }

  function CookieKey(c: UnifiedCookie): Key {
    Key(c.domain, c.name, c.path)
  }

  predicate HasKey(rows: seq<Row>, key: Key) {
    exists i :: 0 <= i < |rows| && KeyOf(rows[i]) == key
  }

  /** No two rows agree on (host_key, top_frame_site_key, name, path). */
  predicate UniqueIndex(rows: seq<Row>) {
    forall i, j :: 0 <= i < j < |rows|
      ==> KeyOf(rows[i]) != KeyOf(rows[j]) || rows[i].topFrameSiteKey != rows[j].topFrameSiteKey
  }

  // ----- Writing one cookie -----

  const SESSION_LIFETIME := 30 * 86400

  /** Session cookies are kept for thirty days. */
  function Expiry(c: UnifiedCookie, now: I64): I64 {
    if c.expires > 0 then c.expires else Wrap(now + SESSION_LIFETIME)
  }

  function Overwrite(row: Row, c: UnifiedCookie, now: I64): Row {
    row.(value := c.value, encryptedValue := [], expiresUtc := UnixToChrome(Expiry(c, now)),
         isSecure := if c.isSecure then 1 else 0, isHttpOnly := if c.isHttpOnly then 1 else 0, sameSite := c.sameSite,
         lastAccessUtc := UnixToChrome(c.lastAccessed), lastUpdateUtc := UnixToChrome(now),
         hasExpires := 1, isPersistent := 1,
         sourceScheme := if c.isSecure then 2 else 1, sourcePort := if c.isSecure then 443 else 80)
  }

  function NewRow(c: UnifiedCookie, now: I64): Row {
    Row(UnixToChrome(c.creationTime), c.domain, "", c.name, c.value, [], c.path, UnixToChrome(Expiry(c, now)),
        if c.isSecure then 1 else 0, if c.isHttpOnly then 1 else 0, UnixToChrome(c.lastAccessed), 1, 1, 1, c.sameSite,
        if c.isSecure then 2 else 1, if c.isSecure then 443 else 80, UnixToChrome(now), 0, 0)
  }

  function UpdateRow(row: Row, c: UnifiedCookie, now: I64): Row {
    if KeyOf(row) == CookieKey(c) then Overwrite(row, c, now) else row
  }

  function Update(rows: seq<Row>, c: UnifiedCookie, now: I64): seq<Row> {
    seq(|rows|, i requires 0 <= i < |rows| => UpdateRow(rows[i], c, now))
  }

  function Upsert(rows: seq<Row>, c: UnifiedCookie, now: I64): seq<Row> {
    if HasKey(rows, CookieKey(c)) then Update(rows, c, now) else rows + [NewRow(c, now)]
  }

  // ----- Writing a list -----

  datatype Written = Written(rows: seq<Row>, copied: nat, replaced: nat)

  function WriteAll(rows: seq<Row>, cookies: seq<UnifiedCookie>, now: I64): Written {
    if cookies == [] then Written(rows, 0, 0)
    else
      var n := |cookies| - 1;
      var w := WriteAll(rows, cookies[..n], now);
      var rows' := Upsert(w.rows, cookies[n], now);
      if HasKey(w.rows, CookieKey(cookies[n])) then Written(rows', w.copied, w.replaced + 1)
      else Written(rows', w.copied + 1, w.replaced)
  }

  // ----- What the written table must be -----

  /** The last listed cookie with this key. */
  function LastFor(cookies: seq<UnifiedCookie>, key: Key): Option<UnifiedCookie> {
    if cookies == [] then None
    else
      var n := |cookies| - 1;
      if CookieKey(cookies[n]) == key then Some(cookies[n]) else LastFor(cookies[..n], key)
  }

  /** A row after the whole list: the last listed cookie with its key wins, other rows stay as they are. */
  function Settled(row: Row, cookies: seq<UnifiedCookie>, now: I64): Row {
    match LastFor(cookies, KeyOf(row))
    case None => row
    case Some(c) => Overwrite(row, c, now)
  }

  function SettledAll(rows: seq<Row>, cookies: seq<UnifiedCookie>, now: I64): seq<Row> {
    seq(|rows|, i requires 0 <= i < |rows| => Settled(rows[i], cookies, now))
  }

  /** The rows that appear: one for the first cookie of each key the table lacks. */
  function Inserted(rows: seq<Row>, cookies: seq<UnifiedCookie>, now: I64): seq<Row> {
    if cookies == [] then []
    else
      var n := |cookies| - 1;
      var before := Inserted(rows, cookies[..n], now);
      if HasKey(rows + before, CookieKey(cookies[n])) then before else before + [NewRow(cookies[n], now)]
  }

  // ----- The upsert loop computes it -----

  lemma SettledStep(row: Row, cookies: seq<UnifiedCookie>, c: UnifiedCookie, now: I64)
    ensures Settled(row, cookies + [c], now) == UpdateRow(Settled(row, cookies, now), c, now)
    ensures KeyOf(Settled(row, cookies, now)) == KeyOf(row)
  {
    assert (cookies + [c])[..|cookies|] == cookies;
  }

  lemma SettledKeepsKeys(rows: seq<Row>, cookies: seq<UnifiedCookie>, now: I64, key: Key)
    ensures HasKey(SettledAll(rows, cookies, now), key) <==> HasKey(rows, key)
  {
    var settled := SettledAll(rows, cookies, now);
    assert forall i :: 0 <= i < |rows| ==> KeyOf(settled[i]) == KeyOf(rows[i]);
  }

  lemma SettledAllStep(rows: seq<Row>, cookies: seq<UnifiedCookie>, c: UnifiedCookie, now: I64)
    ensures SettledAll(rows, cookies + [c], now) == Update(SettledAll(rows, cookies, now), c, now)
  {
    forall i | 0 <= i < |rows|
      ensures Settled(rows[i], cookies + [c], now) == UpdateRow(Settled(rows[i], cookies, now), c, now)
    {
      SettledStep(rows[i], cookies, c, now);
    }
  }

  lemma UpdateWithoutMatch(rows: seq<Row>, c: UnifiedCookie, now: I64)
    requires !HasKey(rows, CookieKey(c))
    ensures Update(rows, c, now) == rows
  {
  }

  lemma InsertedRowIsSettled(cookies: seq<UnifiedCookie>, c: UnifiedCookie, now: I64)
    ensures Settled(NewRow(c, now), cookies + [c], now) == NewRow(c, now)
  {
  }

  /** After writing any list the old rows and the new ones are all settled, in place, and the two counters
      say how many cookies found a row and how many made one. */
  lemma {:induction false} WriteAllSettles(rows: seq<Row>, cookies: seq<UnifiedCookie>, now: I64)
    ensures var w := WriteAll(rows, cookies, now);
            && w.rows == SettledAll(rows + Inserted(rows, cookies, now), cookies, now)
            && w.copied == |Inserted(rows, cookies, now)|
            && w.copied + w.replaced == |cookies|
    decreases |cookies|
  {
    hide Settled, NewRow, HasKey, KeyOf, CookieKey;
    if cookies == [] {
      assert rows + [] == rows;
      SettledByNothing(rows, now);
    } else {
      var n := |cookies| - 1;
      var before, c := cookies[..n], cookies[n];
      assert before + [c] == cookies;
      WriteAllSettles(rows, before, now);
      var all := rows + Inserted(rows, before, now);
      SettledKeepsKeys(all, before, now, CookieKey(c));
      SettledAllStep(all, before, c, now);
      if !HasKey(all, CookieKey(c)) {
        UpdateWithoutMatch(SettledAll(all, before, now), c, now);
        InsertedRowIsSettled(before, c, now);
        assert rows + Inserted(rows, cookies, now) == all + [NewRow(c, now)];
        SettledAllOfAppend(all, NewRow(c, now), cookies, now);
      }
    }
  }

  lemma SettledByNothing(rows: seq<Row>, now: I64)
    ensures SettledAll(rows, [], now) == rows
  {
  }

  lemma SettledAllOfAppend(rows: seq<Row>, row: Row, cookies: seq<UnifiedCookie>, now: I64)
    ensures SettledAll(rows + [row], cookies, now) == SettledAll(rows, cookies, now) + [Settled(row, cookies, now)]
  {
    hide Settled;
  }

  // ----- Consequences for every table -----

  /** The m-th cookie is the first listed with its key. */
  ghost predicate IsFirst(cookies: seq<UnifiedCookie>, m: nat) {
    m < |cookies| && forall k :: 0 <= k < m ==> CookieKey(cookies[k]) != CookieKey(cookies[m])
  }

  /** A row is made by the first listed cookie of its key, and only for keys the table lacked. */
  ghost predicate MadeByFirst(rows: seq<Row>, row: Row, cookies: seq<UnifiedCookie>, now: I64) {
    !HasKey(rows, KeyOf(row)) && exists m: nat :: IsFirst(cookies, m) && row == NewRow(cookies[m], now)
  }

  lemma MadeByFirstExtends(rows: seq<Row>, row: Row, cookies: seq<UnifiedCookie>, c: UnifiedCookie, now: I64)
    requires MadeByFirst(rows, row, cookies, now)
    ensures MadeByFirst(rows, row, cookies + [c], now)
  {
    hide NewRow, HasKey;
    var m: nat :| IsFirst(cookies, m) && row == NewRow(cookies[m], now);
    IsFirstExtends(cookies, c, m);
  }

  lemma IsFirstExtends(cookies: seq<UnifiedCookie>, c: UnifiedCookie, m: nat)
    requires IsFirst(cookies, m)
    ensures m < |cookies| && IsFirst(cookies + [c], m) && (cookies + [c])[m] == cookies[m]
  {
  }

  lemma {:induction false} EveryKeyHasARow(rows: seq<Row>, cookies: seq<UnifiedCookie>, now: I64)
    ensures forall k :: 0 <= k < |cookies| ==> HasKey(rows + Inserted(rows, cookies, now), CookieKey(cookies[k]))
    decreases |cookies|
  {
    if cookies != [] {
      var n := |cookies| - 1;
      EveryKeyHasARow(rows, cookies[..n], now);
      var before, after := rows + Inserted(rows, cookies[..n], now), rows + Inserted(rows, cookies, now);
      assert before <= after;
      if !HasKey(before, CookieKey(cookies[n])) {
        assert KeyOf(after[|after| - 1]) == CookieKey(cookies[n]);
      }
      forall k | 0 <= k < n
        ensures HasKey(after, CookieKey(cookies[k]))
      {
        assert cookies[..n][k] == cookies[k];
        var i :| 0 <= i < |before| && KeyOf(before[i]) == CookieKey(cookies[k]);
        assert KeyOf(after[i]) == CookieKey(cookies[k]);
      }
    }
  }

  lemma {:induction false} InsertedRowsAreFirst(rows: seq<Row>, cookies: seq<UnifiedCookie>, now: I64)
    ensures forall j :: 0 <= j < |Inserted(rows, cookies, now)| ==>
              MadeByFirst(rows, Inserted(rows, cookies, now)[j], cookies, now)
    decreases |cookies|
  {
    hide MadeByFirst, NewRow;
    if cookies != [] {
      var n := |cookies| - 1;
      var before := Inserted(rows, cookies[..n], now);
      assert cookies[..n] + [cookies[n]] == cookies;
      InsertedRowsAreFirst(rows, cookies[..n], now);
      forall j | 0 <= j < |before|
        ensures MadeByFirst(rows, before[j], cookies, now)
      {
        MadeByFirstExtends(rows, before[j], cookies[..n], cookies[n], now);
      }
      if !HasKey(rows + before, CookieKey(cookies[n])) {
        EveryKeyHasARow(rows, cookies[..n], now);
        NewestIsFirst(rows, before, cookies, now);
      }
    }
  }

  lemma NewestIsFirst(rows: seq<Row>, before: seq<Row>, cookies: seq<UnifiedCookie>, now: I64)
    requires cookies != []
    requires var n := |cookies| - 1;
             && !HasKey(rows + before, CookieKey(cookies[n]))
             && forall k :: 0 <= k < n ==> HasKey(rows + before, CookieKey(cookies[..n][k]))
    ensures MadeByFirst(rows, NewRow(cookies[|cookies| - 1], now), cookies, now)
  {
    var n := |cookies| - 1;
    forall i | 0 <= i < |rows|
      ensures KeyOf(rows[i]) != CookieKey(cookies[n])
    {
      assert (rows + before)[i] == rows[i];
    }
    forall k | 0 <= k < n
      ensures CookieKey(cookies[k]) != CookieKey(cookies[n])
    {
      assert HasKey(rows + before, CookieKey(cookies[..n][k]));
    }
    assert IsFirst(cookies, n);
  }

  lemma UpsertKeepsIndex(rows: seq<Row>, c: UnifiedCookie, now: I64)
    requires UniqueIndex(rows)
    ensures UniqueIndex(Upsert(rows, c, now))
  {
    var rows' := Upsert(rows, c, now);
    assert forall i :: 0 <= i < |rows| ==>
             KeyOf(rows'[i]) == KeyOf(rows[i]) && rows'[i].topFrameSiteKey == rows[i].topFrameSiteKey;
  }

  /** No list of cookies can break the unique index. */
  lemma {:induction false} WriteAllKeepsIndex(rows: seq<Row>, cookies: seq<UnifiedCookie>, now: I64)
    requires UniqueIndex(rows)
    ensures UniqueIndex(WriteAll(rows, cookies, now).rows)
    decreases |cookies|
  {
    if cookies != [] {
      var n := |cookies| - 1;
      WriteAllKeepsIndex(rows, cookies[..n], now);
      UpsertKeepsIndex(WriteAll(rows, cookies[..n], now).rows, cookies[n], now);
    }
  }

  /** What one written row is: an old row in its old place, or a new one for the first cookie of a key the
      table lacked; either way under the last listed cookie of its key. Keys and creation times never change. */
  lemma WrittenRowMeaning(rows: seq<Row>, cookies: seq<UnifiedCookie>, now: I64, i: nat)
    ensures var w := WriteAll(rows, cookies, now);
            && |w.rows| == |rows| + w.copied
            && (i < |rows| ==> w.rows[i] == Settled(rows[i], cookies, now))
            && (|rows| <= i < |w.rows| ==>
                  exists m: nat :: IsFirst(cookies, m) && !HasKey(rows, CookieKey(cookies[m]))
                                   && w.rows[i] == Settled(NewRow(cookies[m], now), cookies, now))
  {
    hide Settled, NewRow, WriteAll, MadeByFirst, Inserted;
    WriteAllSettles(rows, cookies, now);
    if |rows| <= i < |WriteAll(rows, cookies, now).rows| {
      InsertedRowsAreFirst(rows, cookies, now);
      MadeByFirstMeaning(rows, Inserted(rows, cookies, now)[i - |rows|], cookies, now);
    }
  }

  lemma MadeByFirstMeaning(rows: seq<Row>, row: Row, cookies: seq<UnifiedCookie>, now: I64)
    requires MadeByFirst(rows, row, cookies, now)
    ensures exists m: nat ::
            IsFirst(cookies, m) && row == NewRow(cookies[m], now) && !HasKey(rows, CookieKey(cookies[m]))
  {
    hide NewRow, HasKey;
    var m: nat :| IsFirst(cookies, m) && row == NewRow(cookies[m], now);
    NewRowKey(cookies[m], now);
  }

  lemma NewRowKey(c: UnifiedCookie, now: I64)
    ensures KeyOf(NewRow(c, now)) == CookieKey(c)
  {
  }

  // ----- Reading -----

  /** Decryption of an encrypted value for its host; None when the profile has no key. */
  type Decryptor = Option<(Bytes, string) -> Option<string>>

  function ReadValue(row: Row, decryptor: Decryptor): string {
    if row.value != "" then row.value
    else if row.encryptedValue != [] then
      match decryptor
      case None => ""
      case Some(decrypt) =>
        match decrypt(row.encryptedValue, row.hostKey)
        case Some(value) => value
        case None => ""
    else ""
  }

  function ReadRow(row: Row, decryptor: Decryptor): UnifiedCookie {
    UnifiedCookie(row.name, ReadValue(row, decryptor), row.hostKey, row.path, ChromeToUnix(row.expiresUtc),
                  row.isSecure != 0, row.isHttpOnly != 0, row.sameSite, ChromeToUnix(row.creationUtc),
                  ChromeToUnix(row.lastAccessUtc))
  }

  function ReadAll(rows: seq<Row>, decryptor: Decryptor): seq<UnifiedCookie> {
    seq(|rows|, i requires 0 <= i < |rows| => ReadRow(rows[i], decryptor))
  }

  /** A plaintext value is read as it is; an encrypted one as what the profile's key makes of it for the row's
      host, and as nothing without a key or when the key does not fit. */
  lemma ReadValueMeaning(row: Row, decryptor: Decryptor, v: string)
    ensures row.value != "" ==> ReadRow(row, decryptor).value == row.value
    ensures row.value == "" && row.encryptedValue != [] && decryptor.Some?
            && decryptor.value(row.encryptedValue, row.hostKey) == Some(v)
            ==> ReadRow(row, decryptor).value == v
    ensures row.value == ""
            && (row.encryptedValue == [] || decryptor.None?
                || decryptor.value(row.encryptedValue, row.hostKey).None?)
            ==> ReadRow(row, decryptor).value == ""
  {
  }

  // ----- Copying between profiles -----

  datatype Selection = Selection(domain: string, name: string)

  /** An empty selection means everything; an empty name means the whole domain. */
  predicate Selected(c: UnifiedCookie, wanted: seq<Selection>) {
    wanted == []
    || exists i :: 0 <= i < |wanted| && c.domain == wanted[i].domain
                   && (wanted[i].name == "" || c.name == wanted[i].name)
  }

  function Pick(cookies: seq<UnifiedCookie>, wanted: seq<Selection>): seq<UnifiedCookie> {
    if cookies == [] then []
    else (if Selected(cookies[0], wanted) then [cookies[0]] else []) + Pick(cookies[1..], wanted)
  }

  /** What a reader of the target gets for a copied cookie: everything but the creation time, with times
      exact to the second. */
  ghost predicate Delivered(c: UnifiedCookie, got: UnifiedCookie, now: I64) {
    && got.name == c.name && got.value == c.value && got.domain == c.domain && got.path == c.path
    && got.isSecure == c.isSecure && got.isHttpOnly == c.isHttpOnly && got.sameSite == c.sameSite
    && (got.lastAccessed == c.lastAccessed <==> Storable(c.lastAccessed))
    && (c.expires > 0 ==> (got.expires == c.expires <==> Storable(c.expires)))
    && var monthLater := Wrap(now + 30 * 24 * 60 * 60);
       (c.expires <= 0 && Storable(monthLater) ==> got.expires == monthLater)
  }

  /** Chromium will neither drop such a row at its next flush nor try to decrypt it, and its port and scheme agree
      with its secure flag. */
  predicate SurvivesRelaunch(row: Row) {
    && row.encryptedValue == [] && row.hasExpires == 1 && row.isPersistent == 1 && row.expiresUtc > 0
    && (row.isSecure != 0 <==> row.sourceScheme == 2) && (row.isSecure == 0 <==> row.sourceScheme == 1)
    && (row.isSecure != 0 <==> row.sourcePort == 443) && (row.isSecure == 0 <==> row.sourcePort == 80)
  }

  /** A time from 1970 on that Chromium's clock can hold, with thirty days to spare. */
  predicate OrdinaryTime(unix: I64) {
    unix >= 0 && Fits((unix + SESSION_LIFETIME + WINDOWS_EPOCH_DIFF) * MICROS)
  }

  lemma PositiveTimesStayPositive(unix: I64)
    requires unix > 0 && Fits((unix + WINDOWS_EPOCH_DIFF) * MICROS)
    ensures UnixToChrome(unix) > 0
  {
  }

  /** Written under an ordinary clock, every cookie survives a relaunch, session cookies included. */
  lemma WrittenRowSurvivesRelaunch(row: Row, c: UnifiedCookie, now: I64)
    requires OrdinaryTime(now) && (c.expires > 0 ==> Storable(c.expires))
    ensures SurvivesRelaunch(Overwrite(row, c, now)) && SurvivesRelaunch(NewRow(c, now))
  {
    PositiveTimesStayPositive(Expiry(c, now));
  }

  lemma OverwrittenRowDelivers(row: Row, c: UnifiedCookie, now: I64, decryptor: Decryptor)
    requires KeyOf(row) == CookieKey(c)
    ensures Delivered(c, ReadRow(Overwrite(row, c, now), decryptor), now)
  {
    hide UnixToChrome, ChromeToUnix, Storable, Wrap;
    UnixRoundTripIff(c.lastAccessed);
    UnixRoundTripIff(Expiry(c, now));
  }

  /** An update keeps what identifies a row and what only Chromium knows about it. */
  lemma OverwrittenRowKeeps(row: Row, c: UnifiedCookie, now: I64)
    ensures var row' := Overwrite(row, c, now);
            && row'.creationUtc == row.creationUtc && row'.hostKey == row.hostKey && row'.name == row.name
            && row'.path == row.path && row'.topFrameSiteKey == row.topFrameSiteKey
            && row'.priority == row.priority && row'.sourceType == row.sourceType
            && row'.hasCrossSiteAncestor == row.hasCrossSiteAncestor
  {
  }

  /** Writing any list, an old row stays in its place with its creation time and site; a new one is a first-party
      row of medium priority, created when the first listed cookie of its key was. */
  lemma WrittenRowOrigin(rows: seq<Row>, cookies: seq<UnifiedCookie>, now: I64, i: nat)
    requires i < |WriteAll(rows, cookies, now).rows|
    ensures var row := WriteAll(rows, cookies, now).rows[i];
            if i < |rows| then
              && KeyOf(row) == KeyOf(rows[i]) && row.creationUtc == rows[i].creationUtc
              && row.topFrameSiteKey == rows[i].topFrameSiteKey && row.priority == rows[i].priority
            else
              exists m: nat :: IsFirst(cookies, m) && KeyOf(row) == CookieKey(cookies[m])
                && (ChromeToUnix(row.creationUtc) == cookies[m].creationTime <==> Storable(cookies[m].creationTime))
                && row.topFrameSiteKey == "" && row.priority == 1 && row.sourceType == 0
                && row.hasCrossSiteAncestor == 0
  {
    hide WriteAll, Overwrite, LastFor, Storable, ChromeToUnix, UnixToChrome;
    WrittenRowMeaning(rows, cookies, now, i);
    if i < |rows| {
      SettledRowOrigin(rows[i], cookies, now);
    } else {
      var m: nat :| IsFirst(cookies, m)
                    && WriteAll(rows, cookies, now).rows[i] == Settled(NewRow(cookies[m], now), cookies, now);
      SettledRowOrigin(NewRow(cookies[m], now), cookies, now);
      UnixRoundTripIff(cookies[m].creationTime);
    }
  }

  /** A reader sees when a cookie was first written: an update does not change what it reads, and a new row reads
      as the cookie's own creation time exactly if that is storable. */
  lemma CreationTimeReads(row: Row, c: UnifiedCookie, now: I64, decryptor: Decryptor)
    ensures ReadRow(Overwrite(row, c, now), decryptor).creationTime == ReadRow(row, decryptor).creationTime
    ensures ReadRow(NewRow(c, now), decryptor).creationTime == c.creationTime <==> Storable(c.creationTime)
  {
    hide UnixToChrome, ChromeToUnix, Storable, ReadValue;
    UnixRoundTripIff(c.creationTime);
  }

  lemma SettledRowOrigin(row: Row, cookies: seq<UnifiedCookie>, now: I64)
    ensures var row' := Settled(row, cookies, now);
            && row'.creationUtc == row.creationUtc && KeyOf(row') == KeyOf(row)
            && row'.topFrameSiteKey == row.topFrameSiteKey && row'.priority == row.priority
            && row'.sourceType == row.sourceType && row'.hasCrossSiteAncestor == row.hasCrossSiteAncestor
  {
    hide LastFor;
    LastForMeaning(cookies, KeyOf(row));
    match LastFor(cookies, KeyOf(row))
    case None =>
    case Some(c) => OverwrittenRowKeeps(row, c, now);
  }

  /** Flags are written as Chromium stores them, as 0 or 1, and the time of the last update is now. */
  lemma WrittenColumns(row: Row, c: UnifiedCookie, now: I64)
    ensures forall written :: written in [Overwrite(row, c, now), NewRow(c, now)] ==>
              && written.isSecure in [0, 1] && written.isHttpOnly in [0, 1]
              && (written.isSecure == 1 <==> c.isSecure) && (written.isHttpOnly == 1 <==> c.isHttpOnly)
              && written.sameSite == c.sameSite
              && (ChromeToUnix(written.lastUpdateUtc) == now <==> Storable(now))
  {
    hide UnixToChrome, ChromeToUnix, Storable;
    UnixRoundTripIff(now);
  }

  /** The k-th cookie is the last listed with this key. */
  ghost predicate IsLast(cookies: seq<UnifiedCookie>, k: nat, key: Key) {
    k < |cookies| && CookieKey(cookies[k]) == key && forall j :: k < j < |cookies| ==> CookieKey(cookies[j]) != key
  }

  lemma {:induction false} LastForMeaning(cookies: seq<UnifiedCookie>, key: Key)
    ensures match LastFor(cookies, key)
            case None => forall k :: 0 <= k < |cookies| ==> CookieKey(cookies[k]) != key
            case Some(c) => exists k: nat :: IsLast(cookies, k, key) && cookies[k] == c
    decreases |cookies|
  {
    hide CookieKey;
    if cookies != [] {
      var n := |cookies| - 1;
      var before := cookies[..n];
      LastForMeaning(before, key);
      if CookieKey(cookies[n]) == key {
        assert IsLast(cookies, n, key);
      } else if LastFor(before, key).Some? {
        var k: nat :| IsLast(before, k, key) && before[k] == LastFor(before, key).value;
        assert IsLast(cookies, k, key);
      }
    }
  }

  /** Whoever reads the target after a copy finds, for each copied key, the last copied cookie of that key,
      and for every other key the row that was there. */
  lemma CopyDelivers(target: seq<Row>, picked: seq<UnifiedCookie>, now: I64, decryptor: Decryptor, i: nat)
    requires i < |WriteAll(target, picked, now).rows|
    ensures var row := WriteAll(target, picked, now).rows[i];
            match LastFor(picked, KeyOf(row))
            case Some(c) => Delivered(c, ReadRow(row, decryptor), now)
            case None => i < |target| && row == target[i]
  {
    hide ReadRow, WriteAll, Overwrite, NewRow, Delivered;
    WrittenRowMeaning(target, picked, now, i);
    var row := WriteAll(target, picked, now).rows[i];
    if i < |target| {
      SettledRowDelivers(target[i], picked, now, decryptor);
    } else {
      var m: nat :| IsFirst(picked, m) && row == Settled(NewRow(picked[m], now), picked, now);
      NewRowKey(picked[m], now);
      LastForMeaning(picked, CookieKey(picked[m]));
      SettledRowDelivers(NewRow(picked[m], now), picked, now, decryptor);
    }
  }

  lemma SettledRowDelivers(base: Row, picked: seq<UnifiedCookie>, now: I64, decryptor: Decryptor)
    ensures var row := Settled(base, picked, now);
            && KeyOf(row) == KeyOf(base)
            && match LastFor(picked, KeyOf(row))
               case Some(c) => Delivered(c, ReadRow(row, decryptor), now)
               case None => row == base
  {
    hide Delivered, ReadRow;
    hide LastFor;
    LastForMeaning(picked, KeyOf(base));
    match LastFor(picked, KeyOf(base))
    case Some(c) => OverwrittenRowDelivers(base, c, now, decryptor);
    case None =>
  }

  /** Every copied cookie is in the target afterwards. */
  lemma CopyLosesNothing(target: seq<Row>, picked: seq<UnifiedCookie>, now: I64)
    ensures forall k :: 0 <= k < |picked| ==> HasKey(WriteAll(target, picked, now).rows, CookieKey(picked[k]))
  {
    hide WriteAll;
    WriteAllSettles(target, picked, now);
    EveryKeyHasARow(target, picked, now);
    var all := target + Inserted(target, picked, now);
    forall k | 0 <= k < |picked|
      ensures HasKey(WriteAll(target, picked, now).rows, CookieKey(picked[k]))
    {
      SettledKeepsKeys(all, picked, now, CookieKey(picked[k]));
    }
  }

  /** Cookies that come out of a Chromium table carry storable times, unless a raw time was within a second
      of zero. */
  lemma ReadCookieTimes(row: Row, decryptor: Decryptor)
    ensures Storable(ReadRow(row, decryptor).lastAccessed)
            <==> row.lastAccessUtc == 0 || row.lastAccessUtc <= -MICROS || row.lastAccessUtc >= MICROS
    ensures ReadRow(row, decryptor).expires > 0 ==> Storable(ReadRow(row, decryptor).expires)
  {
    hide Storable, ChromeToUnix;
    ReadTimesAreStorable(row.lastAccessUtc);
    ReadTimesAreStorable(row.expiresUtc);
    if -MICROS < row.expiresUtc < MICROS {
      SmallTimesAreNotPositive(row.expiresUtc);
    }
  }

  lemma SmallTimesAreNotPositive(chrome: I64)
    requires -MICROS < chrome < MICROS
    ensures ChromeToUnix(chrome) <= 0
  {
  }

  lemma {:induction false} PickIsPart(cookies: seq<UnifiedCookie>, wanted: seq<Selection>)
    ensures forall c :: c in Pick(cookies, wanted) <==> c in cookies && Selected(c, wanted)
  {
    hide Selected;
    if cookies != [] {
      PickIsPart(cookies[1..], wanted);
      assert cookies == [cookies[0]] + cookies[1..];
    }
  }

  /** Picking keeps the order, so the last picked cookie of a key is the last wanted one that was read. */
  lemma {:induction false} PickDistributes(before: seq<UnifiedCookie>, after: seq<UnifiedCookie>,
                                           wanted: seq<Selection>)
    ensures Pick(before + after, wanted) == Pick(before, wanted) + Pick(after, wanted)
  {
    hide Selected, Pick;
    PickOfNothing(wanted);
    if before == [] {
      assert before + after == after;
      assert [] + Pick(after, wanted) == Pick(after, wanted);
    } else {
      PickDistributes(before[1..], after, wanted);
      PickFirst(before, wanted);
      PickFirst(before + after, wanted);
      assert (before + after)[1..] == before[1..] + after;
    }
  }

  lemma PickOfNothing(wanted: seq<Selection>)
    ensures Pick([], wanted) == []
  {
  }

  lemma PickFirst(cookies: seq<UnifiedCookie>, wanted: seq<Selection>)
    requires cookies != []
    ensures Pick(cookies, wanted)
            == (if Selected(cookies[0], wanted) then [cookies[0]] else []) + Pick(cookies[1..], wanted)
  {
    hide Selected;
  }

  /** The request asks for this row: nothing in particular is asked for, or its host is, with this name or all. */
  ghost predicate AskedFor(row: Row, wanted: seq<Selection>) {
    wanted == [] || exists s :: s in wanted && s.domain == row.hostKey && (s.name == "" || s.name == row.name)
  }

  lemma SelectedIff(row: Row, from: Decryptor, wanted: seq<Selection>)
    ensures Selected(ReadRow(row, from), wanted) <==> AskedFor(row, wanted)
  {
    hide ReadValue, ChromeToUnix;
    if s :| s in wanted && s.domain == row.hostKey && (s.name == "" || s.name == row.name) {
      var i :| 0 <= i < |wanted| && wanted[i] == s;
    }
  }

  /** Some row that is asked for has this key. */
  ghost predicate KeyAskedFor(source: seq<Row>, wanted: seq<Selection>, key: Key) {
    exists k :: 0 <= k < |source| && AskedFor(source[k], wanted) && KeyOf(source[k]) == key
  }

  /** Every key that is asked for has a row in the target afterwards, and a row of any other key is an old one,
      untouched. */
  ghost predicate CopiedWhatWasAsked(source: seq<Row>, target: seq<Row>, wanted: seq<Selection>, after: seq<Row>) {
    && (forall key :: KeyAskedFor(source, wanted, key) ==> HasKey(after, key))
    && (forall i :: 0 <= i < |after| && !KeyAskedFor(source, wanted, KeyOf(after[i]))
          ==> i < |target| && after[i] == target[i])
  }

  lemma KeyIsPickedIff(source: seq<Row>, wanted: seq<Selection>, from: Decryptor, key: Key)
    ensures KeyAskedFor(source, wanted, key)
            <==> exists c :: c in Pick(ReadAll(source, from), wanted) && CookieKey(c) == key
  {
    hide Selected, AskedFor, ReadRow, Pick;
    var all := ReadAll(source, from);
    PickIsPart(all, wanted);
    if k :| 0 <= k < |source| && AskedFor(source[k], wanted) && KeyOf(source[k]) == key {
      SelectedIff(source[k], from, wanted);
      ReadRowKey(source[k], from);
      assert all[k] in all;
    }
    if c :| c in Pick(all, wanted) && CookieKey(c) == key {
      var k :| 0 <= k < |all| && all[k] == c;
      SelectedIff(source[k], from, wanted);
      ReadRowKey(source[k], from);
    }
  }

  lemma CopyIsSelective(source: seq<Row>, target: seq<Row>, wanted: seq<Selection>, now: I64, from: Decryptor)
    ensures CopiedWhatWasAsked(source, target, wanted,
                               WriteAll(target, Pick(ReadAll(source, from), wanted), now).rows)
  {
    hide WriteAll, KeyAskedFor, ReadAll, Pick, HasKey, LastFor, Delivered;
    var picked := Pick(ReadAll(source, from), wanted);
    var after := WriteAll(target, picked, now).rows;
    CopyLosesNothing(target, picked, now);
    forall key | KeyAskedFor(source, wanted, key)
      ensures HasKey(after, key)
    {
      KeyIsPickedIff(source, wanted, from, key);
    }
    forall i | 0 <= i < |after| && !KeyAskedFor(source, wanted, KeyOf(after[i]))
      ensures i < |target| && after[i] == target[i]
    {
      CopyDelivers(target, picked, now, from, i);
      KeyIsPickedIff(source, wanted, from, KeyOf(after[i]));
      LastForMeaning(picked, KeyOf(after[i]));
    }
  }

  lemma ReadRowKey(row: Row, decryptor: Decryptor)
    ensures CookieKey(ReadRow(row, decryptor)) == KeyOf(row)
  {
  }

  /** `got` is the cookie read from `row`, unchanged but for its creation time, the expiry of a session cookie,
      and an access time within a second of Chromium's zero. */
  ghost predicate Arrives(row: Row, from: Decryptor, got: UnifiedCookie) {
    var c := ReadRow(row, from);
    && got == c.(creationTime := got.creationTime, lastAccessed := got.lastAccessed,
                 expires := if c.expires > 0 then c.expires else got.expires)
    && (got.lastAccessed == c.lastAccessed
        <==> row.lastAccessUtc == 0 || row.lastAccessUtc <= -MICROS || row.lastAccessUtc >= MICROS)
  }

  /** From one profile to another: for every copied key the target's reader finds the last selected cookie of
      the source, and it has arrived from its row there; any other row is as it was. */
  lemma CopyIsExact(source: seq<Row>, target: seq<Row>, wanted: seq<Selection>, now: I64, from: Decryptor,
                    to: Decryptor, i: nat)
    requires i < |WriteAll(target, Pick(ReadAll(source, from), wanted), now).rows|
    ensures var picked := Pick(ReadAll(source, from), wanted);
            var row := WriteAll(target, picked, now).rows[i];
            match LastFor(picked, KeyOf(row))
            case None => i < |target| && row == target[i]
            case Some(c) =>
              exists j :: 0 <= j < |source| && c == ReadRow(source[j], from) && AskedFor(source[j], wanted)
                             && Arrives(source[j], from, ReadRow(row, to))
  {
    hide WriteAll, Selected, AskedFor, Storable, ReadRow, Pick, LastFor;
    var all := ReadAll(source, from);
    var picked := Pick(all, wanted);
    CopyDelivers(target, picked, now, to, i);
    var key := KeyOf(WriteAll(target, picked, now).rows[i]);
    LastForMeaning(picked, key);
    PickIsPart(all, wanted);
    if LastFor(picked, key).Some? {
      var c := LastFor(picked, key).value;
      var k: nat :| IsLast(picked, k, key) && picked[k] == c;
      assert c in picked;
      var j :| 0 <= j < |all| && all[j] == c;
      ReadCookieTimes(source[j], from);
      SelectedIff(source[j], from, wanted);
    }
  }

  // ----- The code's form -----

  /** A cookie database; the SQL statements are its one-line methods. */
  class CookieDb {
    var rows: seq<Row>

    constructor ()
      ensures rows == []
    {
      rows := [];
    }

    method SelectRowid(key: Key) returns (found: bool)
      ensures found == HasKey(rows, key)
    {
      found := HasKey(rows, key);
    }

    /** Reads every row in turn. */
    method ReadChromeCookies(decryptor: Decryptor) returns (cookies: seq<UnifiedCookie>)
      ensures cookies == ReadAll(rows, decryptor)
    {
      hide ReadRow;
      cookies := [];
      var i := 0;
      while i < |rows|
        invariant i <= |rows| && cookies == ReadAll(rows[..i], decryptor)
      {
        cookies := cookies + [ReadRow(rows[i], decryptor)];
        i := i + 1;
      }
      assert rows[..i] == rows;
    }

    /** The upsert loop. */
    method WriteChromeCookies(cookies: seq<UnifiedCookie>, now: I64) returns (copied: nat, replaced: nat)
      modifies this
      ensures Written(rows, copied, replaced) == WriteAll(old(rows), cookies, now)
      ensures copied + replaced == |cookies| && |rows| == |old(rows)| + copied
      ensures forall i :: 0 <= i < |old(rows)| ==> rows[i] == Settled(old(rows)[i], cookies, now)
      ensures UniqueIndex(old(rows)) ==> UniqueIndex(rows)
    {
      hide Upsert, Settled, HasKey, Inserted;
      copied, replaced := 0, 0;
      var i := 0;
      while i < |cookies|
        invariant i <= |cookies|
        invariant Written(rows, copied, replaced) == WriteAll(old(rows), cookies[..i], now)
      {
        var c := cookies[i];
        assert cookies[..i + 1][..i] == cookies[..i];
        var existing := SelectRowid(CookieKey(c));
        if existing {
          UpsertUpdates(rows, c, now);
          rows := Update(rows, c, now);
          replaced := replaced + 1;
        } else {
          UpsertInserts(rows, c, now);
          rows := rows + [NewRow(c, now)];
          copied := copied + 1;
        }
        i := i + 1;
      }
      assert cookies[..i] == cookies;
      WriteAllSettles(old(rows), cookies, now);
      if UniqueIndex(old(rows)) {
        WriteAllKeepsIndex(old(rows), cookies, now);
      }
    }
  }

  /** Copies the wanted cookies of one profile into another. */
  method CopyCookies(source: CookieDb, target: CookieDb, wanted: seq<Selection>, now: I64, decryptor: Decryptor)
      returns (copied: nat, replaced: nat)
    modifies target
    ensures Written(target.rows, copied, replaced)
            == WriteAll(old(target.rows), Pick(ReadAll(old(source.rows), decryptor), wanted), now)
    ensures CopiedWhatWasAsked(old(source.rows), old(target.rows), wanted, target.rows)
  {
    hide WriteAll, ReadAll, CopiedWhatWasAsked;
    CopyIsSelective(source.rows, target.rows, wanted, now, decryptor);
    var cookies := source.ReadChromeCookies(decryptor);
    copied, replaced := target.WriteChromeCookies(Pick(cookies, wanted), now);
  }

  lemma UpsertUpdates(rows: seq<Row>, c: UnifiedCookie, now: I64)
    requires HasKey(rows, CookieKey(c))
    ensures Upsert(rows, c, now) == Update(rows, c, now)
  {
  }

  lemma UpsertInserts(rows: seq<Row>, c: UnifiedCookie, now: I64)
    requires !HasKey(rows, CookieKey(c))
    ensures Upsert(rows, c, now) == rows + [NewRow(c, now)]
  {
  }
}
