/**
  The Netscape cookie file printer and parser of src-tauri/src/cookie_manager.rs, and exactly which
  cookies survive a trip through both.
 */
module NetscapeCookies {
  import opened Prelude
  import opened Text
  import opened Cookies

  const HEADER := "# Netscape HTTP Cookie File"

  // ----- Printing -----

  function Flag(b: bool): string {
    if b then "TRUE" else "FALSE"
  }

  function Fields(c: UnifiedCookie): seq<string> {
    [c.domain, Flag(c.domain != [] && c.domain[0] == '.'), c.path, Flag(c.isSecure), ShowInt(c.expires),
     c.name, c.value]
  }

  function FormatLine(c: UnifiedCookie): string {
    Join(Fields(c), '\t')
  }

  function FormatLines(cookies: seq<UnifiedCookie>): seq<string> {
    if cookies == [] then [] else [FormatLine(cookies[0])] + FormatLines(cookies[1..])
  }

  function FormatNetscape(cookies: seq<UnifiedCookie>): string {
    Join([HEADER] + FormatLines(cookies), '\n')
  }

  // ----- Parsing -----

  /** "Line n: expected 7 tab-separated fields, got m". */
  datatype ParseError = ParseError(line: nat, got: nat)

  datatype LineResult = Skip | Bad(got: nat) | Good(cookie: UnifiedCookie)

  function ToUpper(c: char): char {
    if 'a' <= c <= 'z' then (c as int - 32) as char else c
  }

  predicate SaysTrue(s: string) {
    |s| == 4 && ToUpper(s[0]) == 'T' && ToUpper(s[1]) == 'R' && ToUpper(s[2]) == 'U' && ToUpper(s[3]) == 'E'
  }

  function CookieOf(fields: seq<string>, now: I64): UnifiedCookie
    requires |fields| >= 7
  {
    var expires := match ParseI64(fields[4]) case Some(n) => n case None => 0;
    UnifiedCookie(fields[5], fields[6], fields[0], fields[2], expires, SaysTrue(fields[3]), false, 0, now, now)
  }

  function ParseLine(raw: string, now: I64): LineResult {
    var line := Trim(raw);
    if line == "" || line[0] == '#' then Skip
    else
      var fields := Split(line, '\t');
      if |fields| < 7 then Bad(|fields|) else Good(CookieOf(fields, now))
  }

  /** Parses `lines`, the first of which has index `i`. */
  function ParseLines(lines: seq<string>, i: nat, now: I64): (seq<UnifiedCookie>, seq<ParseError>)
    decreases |lines|
  {
    if lines == [] then ([], [])
    else
      var (cookies, errors) := ParseLines(lines[1..], i + 1, now);
      match ParseLine(lines[0], now)
      case Skip => (cookies, errors)
      case Bad(got) => (cookies, [ParseError(i + 1, got)] + errors)
      case Good(c) => ([c] + cookies, errors)
  }

  function ParseNetscape(content: string, now: I64): (seq<UnifiedCookie>, seq<ParseError>) {
    ParseLines(Lines(content), 0, now)
  }

  /** What the format keeps of a cookie. */
  function Recovered(c: UnifiedCookie, now: I64): UnifiedCookie {
    c.(isHttpOnly := false, sameSite := 0, creationTime := now, lastAccessed := now)
  }

  function RecoveredAll(cookies: seq<UnifiedCookie>, now: I64): seq<UnifiedCookie> {
    seq(|cookies|, i requires 0 <= i < |cookies| => Recovered(cookies[i], now))
  }

  // ----- Which cookies survive -----

  predicate Plain(s: string) {
    '\t' !in s && '\n' !in s
  }

  /** Checkable before printing: no tab or line break in a text field, a domain that does not start like a
      comment or with a space, a value that is there and does not end with a space. */
  predicate Survives(c: UnifiedCookie) {
    && Plain(c.domain) && Plain(c.path) && Plain(c.name) && Plain(c.value)
    && c.domain != [] && !IsSpace(c.domain[0]) && c.domain[0] != '#'
    && c.value != [] && !IsSpace(c.value[|c.value| - 1])
  }

  predicate RoundTrips(cookies: seq<UnifiedCookie>, now: I64) {
    ParseNetscape(FormatNetscape(cookies), now) == (RecoveredAll(cookies, now), [])
  }

  // ----- Lines of the file -----

  lemma StrippedLineParsesAlike(l: string, now: I64)
    ensures ParseLine(StripCarriageReturn(l), now) == ParseLine(l, now)
  {
    if l != [] && l[|l| - 1] == '\r' {
      assert l == l[..|l| - 1] + ['\r'];
      TrimDropsLast(l[..|l| - 1], '\r');
    }
  }

  lemma FirstLineAlike(lines: seq<string>, lines': seq<string>, i: nat, now: I64)
    requires lines != [] && lines' != [] && ParseLine(lines[0], now) == ParseLine(lines'[0], now)
    requires ParseLines(lines[1..], i + 1, now) == ParseLines(lines'[1..], i + 1, now)
    ensures ParseLines(lines, i, now) == ParseLines(lines', i, now)
  {
    hide ParseLine;
  }

  /** Carriage returns at line ends make no difference to the parser. */
  lemma {:induction false} StrippedLinesParseAlike(lines: seq<string>, last: seq<string>, i: nat, now: I64)
    ensures ParseLines(StripAll(lines) + last, i, now) == ParseLines(lines + last, i, now)
  {
    hide ParseLine, ParseLines, StripCarriageReturn;
    if lines == [] {
      assert StripAll(lines) + last == lines + last;
    } else {
      StrippedLineParsesAlike(lines[0], now);
      StrippedLinesParseAlike(lines[1..], last, i + 1, now);
      assert (lines + last)[1..] == lines[1..] + last;
      assert (StripAll(lines) + last)[1..] == StripAll(lines[1..]) + last;
      FirstLineAlike(StripAll(lines) + last, lines + last, i, now);
    }
  }

  lemma {:induction false} EmptyLastLine(lines: seq<string>, i: nat, now: I64)
    ensures ParseLines(lines + [""], i, now) == ParseLines(lines, i, now)
    decreases |lines|
  {
    if lines == [] {
      assert (lines + [""])[1..] == [];
    } else {
      assert (lines + [""])[1..] == lines[1..] + [""];
      EmptyLastLine(lines[1..], i + 1, now);
    }
  }

  /** The parser may take the pieces between line breaks for the lines. */
  lemma ParseNetscapeByPieces(content: string, now: I64)
    ensures ParseNetscape(content, now) == ParseLines(Split(content, '\n'), 0, now)
  {
    hide ParseLine, ParseLines, StripAll, Split;
    var pieces := Split(content, '\n');
    var n := |pieces| - 1;
    var last := if pieces[n] == "" then [] else [pieces[n]];
    StrippedLinesParseAlike(pieces[..n], last, 0, now);
    assert pieces[..n] + [pieces[n]] == pieces;
    if pieces[n] == "" {
      EmptyLastLine(pieces[..n], 0, now);
      assert pieces[..n] + last == pieces[..n];
    }
  }

  // ----- Other line endings -----

  /** The text with every line break written as carriage return and line feed. */
  function CrLf(s: string): string {
    if s == [] then [] else (if s[0] == '\n' then "\r\n" else [s[0]]) + CrLf(s[1..])
  }

  function ReturnAfterAllButLast(pieces: seq<string>): seq<string> {
    if |pieces| <= 1 then pieces else [pieces[0] + "\r"] + ReturnAfterAllButLast(pieces[1..])
  }

  lemma {:induction false} SplitOfCrLf(s: string)
    ensures Split(CrLf(s), '\n') == ReturnAfterAllButLast(Split(s, '\n'))
  {
    if s != [] {
      var rest := Split(s[1..], '\n');
      SplitOfCrLf(s[1..]);
      if s[0] == '\n' {
        assert CrLf(s) == "\r" + ['\n'] + CrLf(s[1..]);
        SplitOfConcat("\r", CrLf(s[1..]), '\n');
        assert ([""] + rest)[1..] == rest;
        assert "" + "\r" == "\r";
      } else {
        assert CrLf(s)[1..] == CrLf(s[1..]);
        var first := [s[0]] + rest[0];
        assert ([first] + rest[1..])[1..] == rest[1..];
        assert first + "\r" == [s[0]] + (rest[0] + "\r");
      }
    }
  }

  lemma {:induction false} SplitOfEnded(s: string)
    ensures Split(s + "\n", '\n') == Split(s, '\n') + [""]
  {
    if s == [] {
      assert ("" + "\n")[1..] == "";
    } else {
      assert (s + "\n")[1..] == s[1..] + "\n";
      SplitOfEnded(s[1..]);
    }
  }

  lemma {:induction false} ReturnsParseAlike(pieces: seq<string>, i: nat, now: I64)
    ensures ParseLines(ReturnAfterAllButLast(pieces), i, now) == ParseLines(pieces, i, now)
    decreases |pieces|
  {
    hide ParseLine;
    if |pieces| > 1 {
      ReturnParsesAlike(pieces[0], now);
      ReturnsParseAlike(pieces[1..], i + 1, now);
    }
  }

  lemma ReturnParsesAlike(l: string, now: I64)
    ensures ParseLine(l + "\r", now) == ParseLine(l, now)
  {
    TrimDropsLast(l, '\r');
  }

  /** A file parses alike, down to its errors' line numbers, with either kind of line break and with or without
      a last one. */
  lemma LineEndsDoNotMatter(content: string, now: I64)
    ensures ParseNetscape(CrLf(content), now) == ParseNetscape(content, now)
    ensures ParseNetscape(content + "\n", now) == ParseNetscape(content, now)
  {
    hide ParseLines, ParseNetscape;
    var pieces := Split(content, '\n');
    ParseNetscapeByPieces(content, now);
    ParseNetscapeByPieces(CrLf(content), now);
    SplitOfCrLf(content);
    ReturnsParseAlike(pieces, 0, now);
    ParseNetscapeByPieces(content + "\n", now);
    SplitOfEnded(content);
    EmptyLastLine(pieces, 0, now);
  }

  lemma {:induction false} FormatLinesAt(cookies: seq<UnifiedCookie>, i: nat)
    requires i < |cookies|
    ensures |FormatLines(cookies)| == |cookies| && FormatLines(cookies)[i] == FormatLine(cookies[i])
    decreases |cookies|
  {
    if |cookies| > 1 {
      FormatLinesAt(cookies[1..], if i > 0 then i - 1 else 0);
    }
  }

  lemma FormatLinesCount(cookies: seq<UnifiedCookie>)
    ensures |FormatLines(cookies)| == |cookies|
  {
    if cookies != [] { FormatLinesAt(cookies, 0); }
  }

  lemma {:induction false} JoinLacks(pieces: seq<string>, sep: char, c: char)
    requires c != sep && forall i :: 0 <= i < |pieces| ==> c !in pieces[i]
    ensures c !in Join(pieces, sep)
  {
    if |pieces| > 1 {
      JoinLacks(pieces[1..], sep, c);
    }
  }

  ghost predicate AllPlain(cookies: seq<UnifiedCookie>) {
    forall i :: 0 <= i < |cookies| ==>
      Plain(cookies[i].domain) && Plain(cookies[i].path) && Plain(cookies[i].name) && Plain(cookies[i].value)
  }

  lemma PlainFields(c: UnifiedCookie)
    requires Plain(c.domain) && Plain(c.path) && Plain(c.name) && Plain(c.value)
    ensures Split(FormatLine(c), '\t') == Fields(c)
    ensures '\n' !in FormatLine(c)
  {
    hide Flag, ShowInt, Split, Join;
    PlainFlag(c.isSecure);
    PlainFlag(c.domain != [] && c.domain[0] == '.');
    PlainNumber(c.expires);
    SplitOfJoin(Fields(c), '\t');
    JoinLacks(Fields(c), '\t', '\n');
  }

  lemma PlainFlag(b: bool)
    ensures Plain(Flag(b))
  {
  }

  lemma PlainNumber(n: I64)
    ensures Plain(ShowInt(n))
  {
    ParseOfShow(n);
  }

  /** A file of plain cookies has the header and one line a cookie, in order. */
  lemma PlainFileLines(cookies: seq<UnifiedCookie>)
    requires AllPlain(cookies)
    ensures Split(FormatNetscape(cookies), '\n') == [HEADER] + FormatLines(cookies)
  {
    hide FormatLine, FormatLines, HEADER, Split, Join;
    HeaderIsComment();
    FormatLinesCount(cookies);
    var lines := [HEADER] + FormatLines(cookies);
    forall i | 0 <= i < |lines|
      ensures '\n' !in lines[i]
    {
      if i > 0 {
        FormatLinesAt(cookies, i - 1);
        PlainFields(cookies[i - 1]);
      }
    }
    SplitOfJoin(lines, '\n');
  }

  lemma CommentIsSkipped(raw: string, now: I64)
    requires raw != [] && raw[0] == '#'
    ensures ParseLine(raw, now) == Skip
  {
    TrimEndMeaning(raw);
  }

  lemma HeaderIsSkipped(lines: seq<string>, i: nat, now: I64)
    ensures ParseLines([HEADER] + lines, i, now) == ParseLines(lines, i + 1, now)
  {
    hide ParseLine;
    assert HEADER[0] == '#';
    CommentIsSkipped(HEADER, now);
    assert ([HEADER] + lines)[1..] == lines;
  }

  // ----- Surviving is sufficient -----

  lemma JoinEnds(fields: seq<string>, sep: char)
    requires |fields| == 7 && fields[0] != [] && fields[6] != []
    ensures var s := Join(fields, sep);
            s != [] && s[0] == fields[0][0] && s[|s| - 1] == fields[6][|fields[6]| - 1]
  {
    JoinLast(fields, sep);
  }

  lemma {:induction false} JoinLast(fields: seq<string>, sep: char)
    requires fields != [] && fields[|fields| - 1] != []
    ensures var s := Join(fields, sep);
            s != [] && s[|s| - 1] == fields[|fields| - 1][|fields[|fields| - 1]| - 1]
  {
    if |fields| > 1 {
      JoinLast(fields[1..], sep);
    }
  }

  lemma CookieOfItsFields(c: UnifiedCookie, now: I64)
    ensures CookieOf(Fields(c), now) == Recovered(c, now)
  {
    hide ShowInt, ParseI64;
    ParseOfShow(c.expires);
  }

  lemma SurvivorParses(c: UnifiedCookie, now: I64)
    requires Survives(c)
    ensures ParseLine(FormatLine(c), now) == Good(Recovered(c, now))
  {
    hide Split, Trim, Fields, FormatLine, CookieOf, IsSpace;
    var line := FormatLine(c);
    PlainFields(c);
    SurvivorLineIsTight(c);
    CookieOfItsFields(c, now);
  }

  lemma SurvivorLineIsTight(c: UnifiedCookie)
    requires Survives(c)
    ensures var line := FormatLine(c); Trim(line) == line != "" && line[0] != '#' && |Fields(c)| == 7
  {
    hide Trim, IsSpace, Join;
    JoinEnds(Fields(c), '\t');
    TrimMeaning(FormatLine(c));
  }

  lemma {:induction false} SurvivorsParse(cookies: seq<UnifiedCookie>, i: nat, now: I64)
    requires forall k :: 0 <= k < |cookies| ==> Survives(cookies[k])
    ensures ParseLines(FormatLines(cookies), i, now) == (RecoveredAll(cookies, now), [])
    decreases |cookies|
  {
    hide ParseLine, FormatLine, Recovered, Survives;
    if cookies != [] {
      SurvivorParses(cookies[0], now);
      SurvivorsParse(cookies[1..], i + 1, now);
      assert FormatLines(cookies)[1..] == FormatLines(cookies[1..]);
      assert RecoveredAll(cookies, now) == [Recovered(cookies[0], now)] + RecoveredAll(cookies[1..], now);
    }
  }

  lemma SurvivorIsPlain(c: UnifiedCookie)
    requires Survives(c)
    ensures Plain(c.domain) && Plain(c.path) && Plain(c.name) && Plain(c.value)
  {
  }

  lemma SurvivingIsEnough(cookies: seq<UnifiedCookie>, now: I64)
    requires forall k :: 0 <= k < |cookies| ==> Survives(cookies[k])
    ensures RoundTrips(cookies, now)
  {
    hide ParseLines, FormatLines, FormatNetscape, ParseNetscape, RecoveredAll, HEADER, Survives, Split;
    forall i | 0 <= i < |cookies|
      ensures Plain(cookies[i].domain) && Plain(cookies[i].path) && Plain(cookies[i].name) && Plain(cookies[i].value)
    {
      SurvivorIsPlain(cookies[i]);
    }
    ParseNetscapeByPieces(FormatNetscape(cookies), now);
    PlainFileLines(cookies);
    HeaderIsSkipped(FormatLines(cookies), 0, now);
    SurvivorsParse(cookies, 1, now);
  }

  // ----- What a printed line says, and what any line is read as -----

  /** The seven fields of a printed cookie; the second says if the domain covers its subdomains. */
  lemma PrintedFields(c: UnifiedCookie)
    requires Plain(c.domain) && Plain(c.path) && Plain(c.name) && Plain(c.value)
    ensures var fields := Split(FormatLine(c), '\t');
            && |fields| == 7 && fields[0] == c.domain && fields[2] == c.path && fields[5] == c.name
            && fields[6] == c.value && Denotes(fields[4], c.expires)
            && fields[1] == (if "." <= c.domain then "TRUE" else "FALSE")
            && fields[3] == (if c.isSecure then "TRUE" else "FALSE")
  {
    hide Split, FormatLine, ShowInt, Denotes, ParseI64;
    PlainFields(c);
    ParseOfShow(c.expires);
    ParseI64Iff(ShowInt(c.expires), c.expires);
  }

  predicate IsTrueInSomeCase(s: string) {
    |s| == 4 && s[0] in "tT" && s[1] in "rR" && s[2] in "uU" && s[3] in "eE"
  }

  /** The cookie a line of at least seven fields stands for: later fields are ignored, the secure flag is read in
      any case, and an expiry that is no 64-bit integer counts as none. */
  ghost predicate StandsFor(fields: seq<string>, c: UnifiedCookie, now: I64)
    requires |fields| >= 7
  {
    && c.domain == fields[0] && c.path == fields[2] && c.name == fields[5] && c.value == fields[6]
    && (c.isSecure <==> IsTrueInSomeCase(fields[3]))
    && (Denotes(fields[4], c.expires) || (c.expires == 0 && forall n: I64 :: !Denotes(fields[4], n)))
    && !c.isHttpOnly && c.sameSite == 0 && c.creationTime == now && c.lastAccessed == now
  }

  /** Without the spaces around it, a line is skipped if it is empty or starts with a hash; an error if it has
      fewer than six tabs; else the cookie its fields, joined by tabs, stand for. */
  lemma LineMeaning(raw: string, now: I64)
    ensures exists before, line, after ::
              && raw == before + line + after && AllSpaces(before) && AllSpaces(after) && Tight(line)
              && match ParseLine(raw, now)
                 case Skip => line == "" || line[0] == '#'
                 case Bad(got) =>
                   line != "" && line[0] != '#' && got == 1 + multiset(line)['\t'] < 7
                 case Good(c) =>
                   line != "" && line[0] != '#'
                   && exists fields :: |fields| >= 7 && Join(fields, '\t') == line && StandsFor(fields, c, now)
                        && forall i :: 0 <= i < |fields| ==> '\t' !in fields[i]
  {
    hide IsSpace, Trim, Split, Join, CookieOf, StandsFor, AllSpaces, Tight;
    TrimDropsSpaces(raw);
    var line := Trim(raw);
    var before, after :| AllSpaces(before) && AllSpaces(after) && raw == before + line + after;
    PieceCount(line, '\t');
    JoinOfSplit(line, '\t');
    SplitPiecesLackSeparator(line, '\t');
    var fields := Split(line, '\t');
    if |fields| >= 7 {
      FieldsStandForCookie(fields, now);
    }
  }

  lemma FieldsStandForCookie(fields: seq<string>, now: I64)
    requires |fields| >= 7
    ensures StandsFor(fields, CookieOf(fields, now), now)
  {
    hide ParseI64, Denotes;
    forall n: I64
      ensures ParseI64(fields[4]) == Some(n) <==> Denotes(fields[4], n)
    {
      ParseI64Iff(fields[4], n);
    }
    SaysTrueIff(fields[3]);
  }

  lemma SaysTrueIff(s: string)
    ensures SaysTrue(s) <==> IsTrueInSomeCase(s)
  {
  }

  // ----- Surviving is necessary -----

  ghost predicate ParsedWell(c: UnifiedCookie) {
    && Plain(c.domain) && Plain(c.path) && Plain(c.name) && Plain(c.value)
    && c.domain != [] && !IsSpace(c.domain[0]) && c.domain[0] != '#'
  }

  /** Whatever one line yields has plain fields and a domain that starts no comment. */
  lemma ParsedLineIsPlain(raw: string, now: I64)
    requires '\n' !in raw && ParseLine(raw, now).Good?
    ensures ParsedWell(ParseLine(raw, now).cookie)
  {
    hide Trim, IsSpace;
    var line := Trim(raw);
    TrimMeaning(raw);
    assert IsSpace('\t') by { TabIsSpace(); }
    var fields := Split(line, '\t');
    SplitPiecesLackSeparator(line, '\t');
    SplitPiecesAreParts(line, '\t');
    assert Split(line, '\t')[0] == [line[0]] + Split(line[1..], '\t')[0];
    assert forall i :: 0 <= i < |fields| ==> Plain(fields[i]);
  }

  lemma TabIsSpace()
    ensures IsSpace('\t')
  {
  }

  lemma {:induction false} ParsedLinesArePlain(lines: seq<string>, i: nat, now: I64)
    requires forall k :: 0 <= k < |lines| ==> '\n' !in lines[k]
    ensures forall k :: 0 <= k < |ParseLines(lines, i, now).0| ==> ParsedWell(ParseLines(lines, i, now).0[k])
    decreases |lines|
  {
    hide ParseLine, ParsedWell;
    if lines != [] {
      ParsedLinesArePlain(lines[1..], i + 1, now);
      if ParseLine(lines[0], now).Good? {
        ParsedLineIsPlain(lines[0], now);
      }
    }
  }

  /** A file without errors and with as many cookies as lines has one cookie on each line. */
  lemma {:induction false} EveryLineIsACookie(lines: seq<string>, i: nat, now: I64)
    ensures |ParseLines(lines, i, now).0| <= |lines|
    ensures |ParseLines(lines, i, now).0| == |lines| ==>
              forall k :: 0 <= k < |lines| ==> ParseLine(lines[k], now) == Good(ParseLines(lines, i, now).0[k])
    decreases |lines|
  {
    hide ParseLine;
    if lines != [] {
      EveryLineIsACookie(lines[1..], i + 1, now);
    }
  }

  /** The error list names exactly the lines with fewer than seven fields, numbered from one. */
  lemma {:induction false} ErrorsNameBadLines(lines: seq<string>, i: nat, now: I64)
    ensures forall e: ParseError :: e in ParseLines(lines, i, now).1
                                    <==> i < e.line <= i + |lines|
                                         && ParseLine(lines[e.line - 1 - i], now) == Bad(e.got)
    decreases |lines|
  {
    hide ParseLine;
    if lines != [] {
      ErrorsNameBadLines(lines[1..], i + 1, now);
      var first, rest := ParseLine(lines[0], now), ParseLines(lines[1..], i + 1, now).1;
      assert forall e: ParseError :: e in ParseLines(lines, i, now).1
                                     <==> e in rest || (first.Bad? && e == ParseError(i + 1, first.got));
    }
  }

  /** Seven fields are left of a line only if the last one is there and ends in no space. */
  lemma ValueOfParsedLine(raw: string, now: I64)
    requires ParseLine(raw, now).Good? && |Split(raw, '\t')| == 7
    ensures var value := ParseLine(raw, now).cookie.value;
            value != [] && !IsSpace(value[|value| - 1])
  {
    hide Trim, IsSpace, Split;
    var line := Trim(raw);
    TrimMeaning(raw);
    PieceCount(line, '\t');
    PieceCount(raw, '\t');
    TabIsSpace();
    SplitLast(line, '\t');
  }

  /** What comes back from the printed lines equals the cookies, so the cookies are as plain as parsed ones. */
  lemma RoundTripIsParsedWell(cookies: seq<UnifiedCookie>, now: I64)
    ensures RoundTrips(cookies, now) ==> forall k :: 0 <= k < |cookies| ==> ParsedWell(cookies[k])
  {
    hide ParseLine, IsSpace, Split, FormatLine, FormatNetscape, ParseNetscape, ParsedWell;
    var content := FormatNetscape(cookies);
    ParseNetscapeByPieces(content, now);
    SplitPiecesLackSeparator(content, '\n');
    ParsedLinesArePlain(Split(content, '\n'), 0, now);
    var recovered := RecoveredAll(cookies, now);
    forall k | RoundTrips(cookies, now) && 0 <= k < |cookies|
      ensures ParsedWell(cookies[k])
    {
      assert ParsedWell(recovered[k]);
      RecoveredIsParsedWell(cookies[k], now);
    }
  }

  lemma RecoveredIsParsedWell(c: UnifiedCookie, now: I64)
    ensures ParsedWell(Recovered(c, now)) ==> ParsedWell(c)
  {
  }

  /** Plain cookies print to one line each, so every value must have survived its own line. */
  lemma PlainRoundTripSurvives(cookies: seq<UnifiedCookie>, now: I64, k: nat)
    requires k < |cookies| && forall i :: 0 <= i < |cookies| ==> ParsedWell(cookies[i])
    ensures RoundTrips(cookies, now) ==> Survives(cookies[k])
  {
    hide ParseLine, IsSpace, Split, FormatLine, FormatNetscape, ParseNetscape, ParseLines, HEADER;
    var content := FormatNetscape(cookies);
    ParseNetscapeByPieces(content, now);
    PlainFileLines(cookies);
    HeaderIsSkipped(FormatLines(cookies), 0, now);
    FormatLinesCount(cookies);
    EveryLineIsACookie(FormatLines(cookies), 1, now);
    FormatLinesAt(cookies, k);
    PlainFields(cookies[k]);
    if RoundTrips(cookies, now) {
      assert ParseLine(FormatLine(cookies[k]), now) == Good(RecoveredAll(cookies, now)[k]);
      ValueOfParsedLine(FormatLine(cookies[k]), now);
    }
  }

  lemma SurvivingIsNecessary(cookies: seq<UnifiedCookie>, now: I64)
    ensures RoundTrips(cookies, now) ==> forall k :: 0 <= k < |cookies| ==> Survives(cookies[k])
  {
    hide RoundTrips, Survives, ParsedWell;
    RoundTripIsParsedWell(cookies, now);
    forall k | RoundTrips(cookies, now) && 0 <= k < |cookies|
      ensures Survives(cookies[k])
    {
      PlainRoundTripSurvives(cookies, now, k);
    }
  }

  /** Printing a cookie list and parsing it back loses nothing the format holds, and reports no error,
      exactly when every cookie of the list survives. */
  lemma NetscapeRoundTripIff(cookies: seq<UnifiedCookie>, now: I64)
    ensures RoundTrips(cookies, now) <==> forall k :: 0 <= k < |cookies| ==> Survives(cookies[k])
  {
    hide RoundTrips, Survives;
    SurvivingIsNecessary(cookies, now);
    if forall k :: 0 <= k < |cookies| ==> Survives(cookies[k]) {
      SurvivingIsEnough(cookies, now);
    }
  }

  // ----- Format detection -----

  /** The JSON parser is a parameter: None when the text is not an array. */
  type JsonParser = string -> Option<(seq<UnifiedCookie>, seq<ParseError>)>

  function ParseCookies(content: string, now: I64, json: JsonParser): (seq<UnifiedCookie>, seq<ParseError>) {
    var trimmed := Trim(content);
    if trimmed != [] && trimmed[0] == '[' && json(trimmed).Some? then json(trimmed).value
    else ParseNetscape(content, now)
  }

  /** A text is taken for JSON exactly when it starts, after spaces, with a bracket and is a JSON array without
      the spaces around it. */
  lemma DetectionIff(before: string, text: string, after: string, now: I64, json: JsonParser)
    requires AllSpaces(before) && AllSpaces(after) && Tight(text)
    ensures ParseCookies(before + text + after, now, json)
            == if "[" <= text && json(text).Some? then json(text).value
               else ParseNetscape(before + text + after, now)
  {
    hide IsSpace, ParseNetscape, Tight;
    TrimIsUnique(before, text, after);
  }

  /** A printed file starts with the format's header line and is never taken for JSON, whatever the JSON parser
      accepts. */
  lemma PrintedFileIsDetected(cookies: seq<UnifiedCookie>, now: I64, json: JsonParser)
    ensures "# Netscape HTTP Cookie File" <= FormatNetscape(cookies)
    ensures ParseCookies(FormatNetscape(cookies), now, json) == ParseNetscape(FormatNetscape(cookies), now)
  {
    hide ParseNetscape, HEADER, IsSpace, TrimEnd, FormatLines;
    var content := FormatNetscape(cookies);
    HeaderText();
    HeaderIsComment();
    assert HEADER <= content;
    assert !IsSpace('#') by { HashIsNoSpace(); }
    TrimEndIsPrefix(content);
  }

  lemma HashIsNoSpace()
    ensures !IsSpace('#')
  {
  }

  lemma HeaderText()
    ensures HEADER == "# Netscape HTTP Cookie File"
  {
  }

  lemma HeaderIsComment()
    ensures HEADER != [] && HEADER[0] == '#' && '\n' !in HEADER
  {
  }

  // ----- The code's form -----

  method FormatNetscapeCookies(cookies: seq<UnifiedCookie>) returns (text: string)
    ensures text == FormatNetscape(cookies)
  {
    hide FormatLine, Join, HEADER;
    var lines := [HEADER];
    var i := 0;
    assert cookies[0..] == cookies;
    while i < |cookies|
      invariant i <= |cookies|
      invariant lines + FormatLines(cookies[i..]) == [HEADER] + FormatLines(cookies)
    {
      assert cookies[i..][1..] == cookies[i + 1..];
      assert lines + ([FormatLine(cookies[i])] + FormatLines(cookies[i + 1..]))
             == (lines + [FormatLine(cookies[i])]) + FormatLines(cookies[i + 1..]);
      lines := lines + [FormatLine(cookies[i])];
      i := i + 1;
    }
    assert lines + [] == lines;
    text := Join(lines, '\n');
  }

  /** With `cookies` and `errors` found so far, parsing the lines from index `i` on completes `whole`. */
  ghost predicate Completes(whole: (seq<UnifiedCookie>, seq<ParseError>), cookies: seq<UnifiedCookie>,
                            errors: seq<ParseError>, rest: (seq<UnifiedCookie>, seq<ParseError>)) {
    whole == (cookies + rest.0, errors + rest.1)
  }

  lemma CompletesAfterLine(whole: (seq<UnifiedCookie>, seq<ParseError>), cookies: seq<UnifiedCookie>,
                           errors: seq<ParseError>, lines: seq<string>, i: nat, now: I64)
    requires i < |lines| && Completes(whole, cookies, errors, ParseLines(lines[i..], i, now))
    ensures var rest := ParseLines(lines[i + 1..], i + 1, now);
            match ParseLine(lines[i], now)
            case Skip => Completes(whole, cookies, errors, rest)
            case Bad(got) => Completes(whole, cookies, errors + [ParseError(i + 1, got)], rest)
            case Good(c) => Completes(whole, cookies + [c], errors, rest)
  {
    hide ParseLine;
    assert lines[i..][1..] == lines[i + 1..];
    var rest := ParseLines(lines[i + 1..], i + 1, now);
    match ParseLine(lines[i], now)
    case Skip =>
    case Bad(got) => assert errors + ([ParseError(i + 1, got)] + rest.1) == errors + [ParseError(i + 1, got)] + rest.1;
    case Good(c) => assert cookies + ([c] + rest.0) == cookies + [c] + rest.0;
  }

  method ParseNetscapeCookies(content: string, now: I64) returns (cookies: seq<UnifiedCookie>, errors: seq<ParseError>)
    ensures (cookies, errors) == ParseNetscape(content, now)
  {
    hide ParseLine, Lines, Completes;
    var lines := Lines(content);
    ghost var whole := ParseNetscape(content, now);
    cookies, errors := [], [];
    var i := 0;
    assert Completes(whole, [], [], ParseLines(lines[0..], 0, now)) by { StartCompletes(content, now); }
    while i < |lines|
      invariant i <= |lines|
      invariant Completes(whole, cookies, errors, ParseLines(lines[i..], i, now))
    {
      CompletesAfterLine(whole, cookies, errors, lines, i, now);
      match ParseLine(lines[i], now) {
        case Skip =>
        case Bad(got) => errors := errors + [ParseError(i + 1, got)];
        case Good(c) => cookies := cookies + [c];
      }
      i := i + 1;
    }
    EndCompletes(whole, cookies, errors);
  }

  lemma StartCompletes(content: string, now: I64)
    ensures Completes(ParseNetscape(content, now), [], [], ParseLines(Lines(content)[0..], 0, now))
  {
    hide Lines, ParseLines;
    assert Lines(content)[0..] == Lines(content);
    var whole := ParseNetscape(content, now);
    assert [] + whole.0 == whole.0 && [] + whole.1 == whole.1;
  }

  lemma EndCompletes(whole: (seq<UnifiedCookie>, seq<ParseError>), cookies: seq<UnifiedCookie>, errors: seq<ParseError>)
    requires Completes(whole, cookies, errors, ([], []))
    ensures whole == (cookies, errors)
  {
    assert cookies + [] == cookies && errors + [] == errors;
  }
}
