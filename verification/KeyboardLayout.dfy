/** The keyboard of src-tauri/src/human_typing.rs: where its keys are and which key is hit by mistake. */
module KeyboardLayout {
  import opened Prelude

  function Lower(c: char): char {
    if 'A' <= c <= 'Z' then (c as int + 32) as char else c
  }

  /** The twenty-six ASCII capitals are lowered, nothing else is touched. */
  lemma LowerMeaning(c: char)
    ensures Lower(c) as int == c as int + if 65 <= c as int <= 90 then 32 else 0
  {
  }

  function IndexIn(row: string, c: char): (k: Option<nat>)
    ensures k.Some? ==> k.value < |row| && row[k.value] == c
  {
    if row == [] then None
    else if row[0] == c then Some(0)
    else match IndexIn(row[1..], c)
      case None => None
      case Some(k) => Some(k + 1)
  }

  function PositionIn(rows: seq<string>, c: char): (p: Option<(nat, nat)>)
    ensures p.Some? ==> p.value.0 < |rows| && p.value.1 < |rows[p.value.0]| && rows[p.value.0][p.value.1] == c
  {
    if rows == [] then None
    else match IndexIn(rows[0], c)
      case Some(k) => Some((0, k))
      case None =>
        match PositionIn(rows[1..], c)
        case Some((r, k)) => Some((r + 1, k))
        case None => None
  }

  function Flatten(rows: seq<string>): string {
    if rows == [] then [] else rows[0] + Flatten(rows[1..])
  }

  lemma {:induction false} FlattenNonEmpty(rows: seq<string>, r: nat)
    requires r < |rows| && rows[r] != []
    ensures Flatten(rows) != []
  {
    if r > 0 { FlattenNonEmpty(rows[1..], r - 1); }
  }

  /** A key layout; the results below hold for every layout, QWERTY is the one the code builds. */
  datatype Keyboard = Keyboard(grid: seq<string>) {

    /** Position of the key that produces `c`, ignoring ASCII case. */
    function KeyPos(c: char): Option<(nat, nat)> {
      PositionIn(grid, Lower(c))
    }

    predicate HasKey(c: char) {
      KeyPos(c).Some?
    }

    function KeyAt(r: int, k: int): string {
      if 0 <= r < |grid| && 0 <= k < |grid[r]| then [grid[r][k]] else []
    }

    /** The keys around `c`, in the order the source lists its eight offsets. */
    function NeighborKeys(c: char): string {
      match KeyPos(c)
      case None => []
      case Some((r, k)) =>
        KeyAt(r - 1, k - 1) + KeyAt(r - 1, k) + KeyAt(r - 1, k + 1) + KeyAt(r, k - 1)
        + KeyAt(r, k + 1) + KeyAt(r + 1, k - 1) + KeyAt(r + 1, k) + KeyAt(r + 1, k + 1)
    }

    /** `pick` stands for the uniform index draw. */
    function RandomNeighbor(c: char, pick: nat): char
      requires HasKey(c)
    {
      var neighbors := NeighborKeys(c);
      assert Flatten(grid) != [] by { FlattenNonEmpty(grid, KeyPos(c).value.0); }
      if neighbors == [] then Flatten(grid)[pick % |Flatten(grid)|] else neighbors[pick % |neighbors|]
    }
  }

  // ----- QWERTY -----

  const ROW0 := "`1234567890-="
  const ROW1 := "qwertyuiop[]\\"
  const ROW2 := "asdfghjkl;'"
  const ROW3 := "zxcvbnm,./"
  const QWERTY := Keyboard([ROW0, ROW1, ROW2, ROW3])

  /** No key twice, none upper case, at least two in a row. */
  ghost predicate WellLaidOut(kb: Keyboard) {
    && (forall r, k, r', k' | 0 <= r < |kb.grid| && 0 <= r' < |kb.grid|
                              && 0 <= k < |kb.grid[r]| && 0 <= k' < |kb.grid[r']| ::
          kb.grid[r][k] == kb.grid[r'][k'] ==> r == r' && k == k')
    && (forall r, k :: 0 <= r < |kb.grid| && 0 <= k < |kb.grid[r]| ==> Lower(kb.grid[r][k]) == kb.grid[r][k])
    && (forall r :: 0 <= r < |kb.grid| ==> |kb.grid[r]| >= 2)
  }

  /** Position of `c` if it is a key, at most one row and one column away from (r, k) but not there. */
  ghost predicate IsBeside(kb: Keyboard, c: char, r: int, k: int) {
    exists r', k' :: 0 <= r' < |kb.grid| && 0 <= k' < |kb.grid[r']| && kb.grid[r'][k'] == c
                     && -1 <= r' - r <= 1 && -1 <= k' - k <= 1 && !(r' == r && k' == k)
  }

  lemma KeyAtBeside(kb: Keyboard, r: int, k: int, r': int, k': int)
    requires -1 <= r' - r <= 1 && -1 <= k' - k <= 1 && !(r' == r && k' == k)
    ensures forall c :: c in kb.KeyAt(r', k') ==> IsBeside(kb, c, r, k)
  {
  }

  /** The keys around a position, row by row. */
  function Around(kb: Keyboard, r: int, k: int): seq<string> {
    [kb.KeyAt(r - 1, k - 1), kb.KeyAt(r - 1, k), kb.KeyAt(r - 1, k + 1), kb.KeyAt(r, k - 1),
     kb.KeyAt(r, k + 1), kb.KeyAt(r + 1, k - 1), kb.KeyAt(r + 1, k), kb.KeyAt(r + 1, k + 1)]
  }

  lemma InAround(kb: Keyboard, r: int, k: int, r': int, k': int) returns (i: nat)
    requires -1 <= r' - r <= 1 && -1 <= k' - k <= 1 && !(r' == r && k' == k)
    ensures i < 8 && Around(kb, r, k)[i] == kb.KeyAt(r', k')
  {
    hide Keyboard.KeyAt;
    var p := 3 * (r' - r + 1) + (k' - k + 1);
    i := if p < 4 then p else p - 1;
  }

  lemma NeighborsHoldAround(kb: Keyboard, c: char, i: nat, n: char)
    requires kb.HasKey(c) && i < 8
    requires var (r, k) := kb.KeyPos(c).value; n in Around(kb, r, k)[i]
    ensures n in kb.NeighborKeys(c)
  {
    hide Keyboard.KeyAt, PositionIn;
    var (r, k) := kb.KeyPos(c).value;
    var s := Around(kb, r, k);
    assert kb.NeighborKeys(c) == s[0] + s[1] + s[2] + s[3] + s[4] + s[5] + s[6] + s[7];
    InOneOf(s, i, n);
  }

  lemma InOneOf(s: seq<string>, i: nat, n: char)
    requires |s| == 8 && i < 8 && n in s[i]
    ensures n in s[0] + s[1] + s[2] + s[3] + s[4] + s[5] + s[6] + s[7]
  {
  }

  /** The neighbours of a key are exactly the keys at most one row and one column away from it. */
  lemma NeighborsAreBesideIff(kb: Keyboard, c: char, n: char)
    requires kb.HasKey(c)
    ensures var (r, k) := kb.KeyPos(c).value; n in kb.NeighborKeys(c) <==> IsBeside(kb, n, r, k)
  {
    hide Keyboard.NeighborKeys, PositionIn;
    var (r, k) := kb.KeyPos(c).value;
    NeighborsAreBeside(kb, c);
    if IsBeside(kb, n, r, k) {
      var r': int, k': int :| 0 <= r' < |kb.grid| && 0 <= k' < |kb.grid[r']| && kb.grid[r'][k'] == n
                    && -1 <= r' - r <= 1 && -1 <= k' - k <= 1 && !(r' == r && k' == k);
      var i := InAround(kb, r, k, r', k');
      NeighborsHoldAround(kb, c, i, n);
    }
  }

  lemma NeighborsAreBeside(kb: Keyboard, c: char)
    requires kb.HasKey(c)
    ensures var (r, k) := kb.KeyPos(c).value;
            forall n :: n in kb.NeighborKeys(c) ==> IsBeside(kb, n, r, k)
  {
    hide IsBeside, Keyboard.KeyAt, PositionIn;
    var (r, k) := kb.KeyPos(c).value;
    KeyAtBeside(kb, r, k, r - 1, k - 1);
    KeyAtBeside(kb, r, k, r - 1, k);
    KeyAtBeside(kb, r, k, r - 1, k + 1);
    KeyAtBeside(kb, r, k, r, k - 1);
    KeyAtBeside(kb, r, k, r, k + 1);
    KeyAtBeside(kb, r, k, r + 1, k - 1);
    KeyAtBeside(kb, r, k, r + 1, k);
    KeyAtBeside(kb, r, k, r + 1, k + 1);
  }

  lemma SomeNeighbor(kb: Keyboard, c: char)
    requires kb.HasKey(c) && forall r :: 0 <= r < |kb.grid| ==> |kb.grid[r]| >= 2
    ensures kb.NeighborKeys(c) != []
  {
    var (r, k) := kb.KeyPos(c).value;
    assert kb.KeyAt(r, k - 1) != [] || kb.KeyAt(r, k + 1) != [];
  }

  /** A neighbour draw never yields the intended character, in either case. */
  lemma NeighborIsWrong(kb: Keyboard, c: char, pick: nat)
    requires WellLaidOut(kb) && kb.HasKey(c)
    ensures kb.RandomNeighbor(c, pick) != c
    ensures Lower(kb.RandomNeighbor(c, pick)) != Lower(c)
  {
    hide Keyboard.NeighborKeys, PositionIn, Flatten;
    NeighborsAreBeside(kb, c);
    SomeNeighbor(kb, c);
    var (r, k) := kb.KeyPos(c).value;
    var n := kb.RandomNeighbor(c, pick);
    assert n in kb.NeighborKeys(c);
    assert IsBeside(kb, n, r, k);
    assert kb.grid[r][k] == Lower(c);
  }

  lemma DrawnNeighborIsBeside(kb: Keyboard, c: char, pick: nat)
    requires WellLaidOut(kb) && kb.HasKey(c)
    ensures var (r, k) := kb.KeyPos(c).value; IsBeside(kb, kb.RandomNeighbor(c, pick), r, k)
  {
    hide Keyboard.NeighborKeys, PositionIn, Flatten, IsBeside;
    NeighborsAreBeside(kb, c);
    SomeNeighbor(kb, c);
    assert kb.RandomNeighbor(c, pick) in kb.NeighborKeys(c);
  }

  /** Every neighbour can be the one drawn, and each draw is one. */
  lemma DrawIffNeighbor(kb: Keyboard, c: char, n: char)
    requires kb.HasKey(c) && kb.NeighborKeys(c) != []
    ensures n in kb.NeighborKeys(c) <==> exists pick: nat :: kb.RandomNeighbor(c, pick) == n
  {
    hide Keyboard.NeighborKeys, PositionIn, Flatten;
    var neighbors := kb.NeighborKeys(c);
    if n in neighbors {
      var i :| 0 <= i < |neighbors| && neighbors[i] == n;
      assert i % |neighbors| == i;
      assert kb.RandomNeighbor(c, i) == n;
    }
  }

  /** Columns of each row's keys; 99 for any other character. */
  function Column0(c: char): nat {
    match c
    case '`' => 0 case '1' => 1 case '2' => 2 case '3' => 3 case '4' => 4 case '5' => 5 case '6' => 6
    case '7' => 7 case '8' => 8 case '9' => 9 case '0' => 10 case '-' => 11 case '=' => 12
    case _ => 99
  }

  function Column1(c: char): nat {
    match c
    case 'q' => 0 case 'w' => 1 case 'e' => 2 case 'r' => 3 case 't' => 4 case 'y' => 5 case 'u' => 6
    case 'i' => 7 case 'o' => 8 case 'p' => 9 case '[' => 10 case ']' => 11 case '\\' => 12
    case _ => 99
  }

  function Column2(c: char): nat {
    match c
    case 'a' => 0 case 's' => 1 case 'd' => 2 case 'f' => 3 case 'g' => 4 case 'h' => 5 case 'j' => 6
    case 'k' => 7 case 'l' => 8 case ';' => 9 case '\'' => 10
    case _ => 99
  }

  function Column3(c: char): nat {
    match c
    case 'z' => 0 case 'x' => 1 case 'c' => 2 case 'v' => 3 case 'b' => 4 case 'n' => 5 case 'm' => 6
    case ',' => 7 case '.' => 8 case '/' => 9
    case _ => 99
  }

  lemma Row0()
    ensures 2 <= |ROW0| < 99 && forall k :: 0 <= k < |ROW0| ==> Column0(ROW0[k]) == k && Lower(ROW0[k]) == ROW0[k]
  {
  }

  lemma Row1()
    ensures 2 <= |ROW1| < 99 && forall k :: 0 <= k < |ROW1| ==> Column1(ROW1[k]) == k && Lower(ROW1[k]) == ROW1[k]
  {
  }

  lemma Row2()
    ensures 2 <= |ROW2| < 99 && forall k :: 0 <= k < |ROW2| ==> Column2(ROW2[k]) == k && Lower(ROW2[k]) == ROW2[k]
  {
  }

  lemma Row3()
    ensures 2 <= |ROW3| < 99 && forall k :: 0 <= k < |ROW3| ==> Column3(ROW3[k]) == k && Lower(ROW3[k]) == ROW3[k]
  {
  }

  lemma RowsAreDisjoint(c: char)
    ensures Column0(c) < 99 ==> Column1(c) == Column2(c) == Column3(c) == 99
    ensures Column1(c) < 99 ==> Column2(c) == Column3(c) == 99
    ensures Column2(c) < 99 ==> Column3(c) == 99
  {
  }

  function RowOf(c: char): nat {
    if Column0(c) < 99 then 0 else if Column1(c) < 99 then 1 else if Column2(c) < 99 then 2 else 3
  }

  function ColumnOf(c: char): nat {
    if Column0(c) < 99 then Column0(c) else if Column1(c) < 99 then Column1(c)
    else if Column2(c) < 99 then Column2(c) else Column3(c)
  }

  lemma QwertyKeyIndex(r: nat, k: nat)
    requires r < 4 && k < |QWERTY.grid[r]|
    ensures var c := QWERTY.grid[r][k]; RowOf(c) == r && ColumnOf(c) == k && Lower(c) == c
    ensures |QWERTY.grid[r]| >= 2
  {
    hide ROW0, ROW1, ROW2, ROW3, Column0, Column1, Column2, Column3, Lower;
    Row0();
    Row1();
    Row2();
    Row3();
    RowsAreDisjoint(QWERTY.grid[r][k]);
  }

  lemma QwertyIsWellLaidOut()
    ensures WellLaidOut(QWERTY)
  {
    hide ROW0, ROW1, ROW2, ROW3, RowOf, ColumnOf, Lower;
    forall r | 0 <= r < 4
      ensures |QWERTY.grid[r]| >= 2
    {
      RowIsLong(r);
    }
    forall r, k | 0 <= r < 4 && 0 <= k < |QWERTY.grid[r]|
      ensures var c := QWERTY.grid[r][k]; RowOf(c) == r && ColumnOf(c) == k && Lower(c) == c
    {
      QwertyKeyIndex(r, k);
    }
  }

  lemma RowIsLong(r: nat)
    requires r < 4
    ensures |QWERTY.grid[r]| >= 2
  {
    hide Column0, Column1, Column2, Column3, Lower;
    Row0();
    Row1();
    Row2();
    Row3();
  }

  // ----- Which keys there are, and their first neighbours -----

  lemma {:induction false} IndexInIff(row: string, c: char)
    ensures IndexIn(row, c).Some? <==> c in row
  {
    if row != [] { IndexInIff(row[1..], c); }
  }

  lemma {:induction false} PositionInIff(rows: seq<string>, c: char)
    ensures PositionIn(rows, c).Some? <==> exists r :: 0 <= r < |rows| && c in rows[r]
  {
    if rows != [] {
      IndexInIff(rows[0], c);
      PositionInIff(rows[1..], c);
      if r :| 0 <= r < |rows| && c in rows[r] {
        assert r > 0 ==> c in rows[1..][r - 1];
      }
    }
  }

  /** A character has a key exactly when it stands in some row, ignoring ASCII case. */
  lemma HasKeyIff(kb: Keyboard, c: char)
    ensures kb.HasKey(c) <==> exists r :: 0 <= r < |kb.grid| && Lower(c) in kb.grid[r]
  {
    PositionInIff(kb.grid, Lower(c));
  }

  /** The first neighbour is the upper left key, or what comes next where that is off the board. */
  lemma FirstNeighbor(kb: Keyboard, c: char)
    requires kb.HasKey(c)
    ensures var (r, k) := kb.KeyPos(c).value;
            var left := if k == 0 then 0 else k - 1;
            && (r > 0 && left < |kb.grid[r - 1]| ==> kb.RandomNeighbor(c, 0) == kb.grid[r - 1][left])
            && (r == 0 && k > 0 ==> kb.RandomNeighbor(c, 0) == kb.grid[0][k - 1])
            && (r == 0 && k == 0 && |kb.grid[0]| >= 2 ==> kb.RandomNeighbor(c, 0) == kb.grid[0][1])
  {
    hide PositionIn, Flatten;
    var (r, k) := kb.KeyPos(c).value;
    assert forall r', k' :: kb.KeyAt(r', k') != [] ==> |kb.KeyAt(r', k')| == 1;
    FirstOf(kb, c, r, k);
  }

  lemma FirstOf(kb: Keyboard, c: char, r: nat, k: nat)
    requires kb.KeyPos(c) == Some((r, k))
    ensures var neighbors := kb.NeighborKeys(c);
            var left := if k == 0 then 0 else k - 1;
            && (r > 0 && left < |kb.grid[r - 1]| ==> neighbors != [] && neighbors[0] == kb.grid[r - 1][left])
            && (r == 0 && k > 0 ==> neighbors != [] && neighbors[0] == kb.grid[0][k - 1])
            && (r == 0 && k == 0 && |kb.grid[0]| >= 2 ==> neighbors != [] && neighbors[0] == kb.grid[0][1])
  {
    hide PositionIn;
  }
}
