/** The string operations the Rust code takes from its standard library. */
module Text {
  import opened Prelude

  /** The pieces between occurrences of `sep`: never none, one more than the occurrences. */
  function Split(s: string, sep: char): (pieces: seq<string>)
    ensures pieces != []
  {
    if s == [] then [""]
    else if s[0] == sep then [""] + Split(s[1..], sep)
    else
      var rest := Split(s[1..], sep);
      [[s[0]] + rest[0]] + rest[1..]
  }

  function Join(pieces: seq<string>, sep: char): string {
    if pieces == [] then ""
    else if |pieces| == 1 then pieces[0]
    else pieces[0] + [sep] + Join(pieces[1..], sep)
  }

  predicate Contains(s: string, part: string) {
    part <= s || (s != [] && Contains(s[1..], part))
  }

  lemma {:induction false} ContainsIff(s: string, part: string)
    ensures Contains(s, part) <==> exists i :: 0 <= i <= |s| && part <= s[i..]
  {
    if Contains(s, part) && !(part <= s) {
      ContainsIff(s[1..], part);
      var i :| 0 <= i <= |s[1..]| && part <= s[1..][i..];
      assert s[i + 1..] == s[1..][i..];
    }
    if i :| 0 <= i <= |s| && part <= s[i..] {
      if i == 0 {
        assert s[0..] == s;
      } else {
        ContainsIff(s[1..], part);
        assert s[1..][i - 1..] == s[i..];
      }
    }
    assert s[0..] == s;
  }

  lemma {:induction false} ContainsMiddle(before: string, part: string, after: string)
    ensures Contains(before + part + after, part)
  {
    var s := before + part + after;
    if before == [] {
      assert s == part + after;
    } else {
      assert s[1..] == before[1..] + part + after;
      ContainsMiddle(before[1..], part, after);
    }
  }

  lemma {:induction false} SplitPiecesLackSeparator(s: string, sep: char)
    ensures forall i :: 0 <= i < |Split(s, sep)| ==> sep !in Split(s, sep)[i]
  {
    if s != [] {
      SplitPiecesLackSeparator(s[1..], sep);
    }
  }

  lemma {:induction false} SplitPiecesAreParts(s: string, sep: char)
    ensures forall i, c :: 0 <= i < |Split(s, sep)| && c in Split(s, sep)[i] ==> c in s
  {
    if s != [] {
      SplitPiecesAreParts(s[1..], sep);
      assert s == [s[0]] + s[1..];
    }
  }

  /** The last piece ends as the string does, unless a separator ends the string. */
  lemma {:induction false} SplitLast(s: string, sep: char)
    requires s != [] && s[|s| - 1] != sep
    ensures var pieces := Split(s, sep);
            var last := pieces[|pieces| - 1];
            last != [] && last[|last| - 1] == s[|s| - 1]
  {
    if |s| > 1 {
      SplitLast(s[1..], sep);
    } else {
      assert Split(s[1..], sep) == [""];
    }
  }

  lemma {:induction false} JoinOfSplit(s: string, sep: char)
    ensures Join(Split(s, sep), sep) == s
  {
    if s != [] {
      JoinOfSplit(s[1..], sep);
      var rest := Split(s[1..], sep);
      if s[0] == sep {
        assert ([""] + rest)[1..] == rest;
      } else {
        var first := [s[0]] + rest[0];
        assert ([first] + rest[1..])[1..] == rest[1..];
      }
    }
  }

  lemma {:induction false} SplitOfPiece(piece: string, sep: char)
    requires sep !in piece
    ensures Split(piece, sep) == [piece]
  {
    if piece != [] {
      assert sep !in piece[1..];
      SplitOfPiece(piece[1..], sep);
      assert piece == [piece[0]] + piece[1..];
    }
  }

  lemma {:induction false} SplitOfConcat(piece: string, rest: string, sep: char)
    requires sep !in piece
    ensures Split(piece + [sep] + rest, sep) == [piece] + Split(rest, sep)
  {
    var s := piece + [sep] + rest;
    if piece == [] {
      assert s[1..] == rest;
    } else {
      assert s[1..] == piece[1..] + [sep] + rest;
      SplitOfConcat(piece[1..], rest, sep);
      var pieces := Split(s[1..], sep);
      assert pieces[0] == piece[1..] && pieces[1..] == Split(rest, sep);
      assert [piece[0]] + piece[1..] == piece;
    }
  }

  /** Splitting undoes joining when no piece holds the separator. */
  lemma {:induction false} SplitOfJoin(pieces: seq<string>, sep: char)
    requires pieces != [] && forall i :: 0 <= i < |pieces| ==> sep !in pieces[i]
    ensures Split(Join(pieces, sep), sep) == pieces
  {
    if |pieces| == 1 {
      SplitOfPiece(pieces[0], sep);
    } else {
      SplitOfJoin(pieces[1..], sep);
      SplitOfConcat(pieces[0], Join(pieces[1..], sep), sep);
    }
  }

  /** One separator ends one piece. */
  lemma {:induction false} PieceCount(s: string, sep: char)
    ensures |Split(s, sep)| == 1 + multiset(s)[sep]
  {
    if s != [] {
      PieceCount(s[1..], sep);
      assert s == [s[0]] + s[1..];
    }
  }

  // ----- Whitespace -----

  /** The characters with the Unicode property White_Space. */
  predicate IsSpace(c: char) {
    || '\U{9}' <= c <= '\U{D}' || c == ' ' || c == '\U{85}' || c == '\U{A0}' || c == '\U{1680}'
    || '\U{2000}' <= c <= '\U{200A}' || c == '\U{2028}' || c == '\U{2029}' || c == '\U{202F}'
    || c == '\U{205F}' || c == '\U{3000}'
  }

  const WHITE_SPACE := "\t\n\U{B}\U{C}\r \U{85}\U{A0}\U{1680}\U{2000}\U{2001}\U{2002}\U{2003}\U{2004}\U{2005}"
                       + "\U{2006}\U{2007}\U{2008}\U{2009}\U{200A}\U{2028}\U{2029}\U{202F}\U{205F}\U{3000}"

  lemma SpacesAreListed(c: char)
    ensures IsSpace(c) <==> c in WHITE_SPACE
  {
  }

  function TrimStart(s: string): string {
    if s != [] && IsSpace(s[0]) then TrimStart(s[1..]) else s
  }

  function TrimEnd(s: string): string {
    if s != [] && IsSpace(s[|s| - 1]) then TrimEnd(s[..|s| - 1]) else s
  }

  function Trim(s: string): string {
    TrimEnd(TrimStart(s))
  }

  /** Nothing, or bounded by two characters that are not spaces. */
  predicate Tight(s: string) {
    s != [] ==> !IsSpace(s[0]) && !IsSpace(s[|s| - 1])
  }

  lemma {:induction false} TrimStartMeaning(s: string)
    ensures TrimStart(s) != [] ==> !IsSpace(TrimStart(s)[0])
    ensures multiset(TrimStart(s)) <= multiset(s)
    ensures forall c :: c in TrimStart(s) ==> c in s
  {
    hide IsSpace;
    if s != [] && IsSpace(s[0]) {
      TrimStartMeaning(s[1..]);
      assert s == [s[0]] + s[1..];
    }
  }

  lemma {:induction false} TrimEndMeaning(s: string)
    ensures TrimEnd(s) <= s
    ensures TrimEnd(s) != [] ==> !IsSpace(TrimEnd(s)[|TrimEnd(s)| - 1])
    ensures multiset(TrimEnd(s)) <= multiset(s)
  {
    hide IsSpace;
    TrimEndIsPrefix(s);
    if s != [] && IsSpace(s[|s| - 1]) {
      TrimEndMeaning(s[..|s| - 1]);
      assert s == s[..|s| - 1] + [s[|s| - 1]];
    }
  }

  lemma {:induction false} TrimEndIsPrefix(s: string)
    ensures TrimEnd(s) <= s
  {
    hide IsSpace;
    if s != [] {
      TrimEndIsPrefix(s[..|s| - 1]);
    }
  }

  lemma TrimMeaning(s: string)
    ensures Tight(Trim(s))
    ensures multiset(Trim(s)) <= multiset(s)
    ensures forall c :: c in Trim(s) ==> c in s
    ensures s != [] && Tight(s) ==> Trim(s) == s
  {
    TrimStartMeaning(s);
    TrimEndMeaning(TrimStart(s));
  }

  predicate AllSpaces(s: string) {
    forall i :: 0 <= i < |s| ==> IsSpace(s[i])
  }

  lemma {:induction false} TrimStartDrops(s: string) returns (before: string)
    ensures AllSpaces(before) && s == before + TrimStart(s)
  {
    if s != [] && IsSpace(s[0]) {
      before := TrimStartDrops(s[1..]);
      before := [s[0]] + before;
    } else {
      before := [];
    }
  }

  lemma {:induction false} TrimEndDrops(s: string) returns (after: string)
    ensures AllSpaces(after) && s == TrimEnd(s) + after
  {
    if s != [] && IsSpace(s[|s| - 1]) {
      after := TrimEndDrops(s[..|s| - 1]);
      assert s == s[..|s| - 1] + [s[|s| - 1]];
      after := after + [s[|s| - 1]];
    } else {
      after := [];
    }
  }

  /** Trimming drops spaces at both ends and nothing else. */
  lemma TrimDropsSpaces(s: string)
    ensures exists before, after :: AllSpaces(before) && AllSpaces(after) && s == before + Trim(s) + after
    ensures Tight(Trim(s))
  {
    hide IsSpace;
    var before := TrimStartDrops(s);
    var after := TrimEndDrops(TrimStart(s));
    TrimMeaning(s);
    assert s == before + Trim(s) + after;
  }

  lemma {:induction false} TrimStartOf(before: string, text: string)
    requires AllSpaces(before) && (text != [] ==> !IsSpace(text[0]))
    ensures TrimStart(before + text) == text
  {
    hide IsSpace;
    if before == [] {
      assert before + text == text;
    } else {
      assert (before + text)[1..] == before[1..] + text;
      TrimStartOf(before[1..], text);
    }
  }

  lemma {:induction false} TrimEndOf(text: string, after: string)
    requires AllSpaces(after) && (text != [] ==> !IsSpace(text[|text| - 1]))
    ensures TrimEnd(text + after) == text
  {
    hide IsSpace;
    if after == [] {
      assert text + after == text;
    } else {
      var n := |after| - 1;
      assert (text + after)[..|text + after| - 1] == text + after[..n];
      TrimEndOf(text, after[..n]);
    }
  }

  /** What is between the spaces is what trimming leaves. */
  lemma TrimIsUnique(before: string, text: string, after: string)
    requires AllSpaces(before) && AllSpaces(after) && Tight(text)
    ensures Trim(before + text + after) == text
  {
    hide IsSpace;
    if text == [] {
      assert AllSpaces(before + text + after);
      TrimStartOf(before + text + after, []);
      assert before + text + after + [] == before + text + after;
    } else {
      assert before + text + after == before + (text + after);
      TrimStartOf(before, text + after);
      TrimEndOf(text, after);
    }
  }

  /** A trailing space does not matter to a trimmed string. */
  lemma {:induction false} TrimDropsLast(s: string, c: char)
    requires IsSpace(c)
    ensures Trim(s + [c]) == Trim(s)
  {
    if s == [] {
      assert TrimStart([c]) == TrimStart([c][1..]) == [];
    } else if IsSpace(s[0]) {
      assert (s + [c])[1..] == s[1..] + [c];
      TrimDropsLast(s[1..], c);
    } else {
      assert (s + [c])[..|s|] == s;
    }
  }

  // ----- Lines -----

  function StripCarriageReturn(line: string): string {
    if line != [] && line[|line| - 1] == '\r' then line[..|line| - 1] else line
  }

  function StripAll(lines: seq<string>): seq<string> {
    if lines == [] then [] else [StripCarriageReturn(lines[0])] + StripAll(lines[1..])
  }

  /** Like `str::lines`: a final line break ends the last line, and a carriage return before a break goes with it. */
  function Lines(s: string): seq<string> {
    var pieces := Split(s, '\n');
    var n := |pieces| - 1;
    StripAll(pieces[..n]) + if pieces[n] == "" then [] else [pieces[n]]
  }

  // ----- Decimal numbers -----

  function Digit(d: nat): char
    requires d < 10
  {
    ('0' as int + d) as char
  }

  predicate IsDigit(c: char) {
    '0' <= c <= '9'
  }

  function ShowNat(n: nat): string {
    if n < 10 then [Digit(n)] else ShowNat(n / 10) + [Digit(n % 10)]
  }

  function ShowInt(n: int): string {
    if n < 0 then ['-'] + ShowNat(-n) else ShowNat(n)
  }

  predicate AllDigits(s: string) {
    forall i :: 0 <= i < |s| ==> IsDigit(s[i])
  }

  function DigitsValue(s: string): nat
    requires AllDigits(s)
  {
    if s == [] then 0 else 10 * DigitsValue(s[..|s| - 1]) + (s[|s| - 1] as int - '0' as int)
  }

  type I64 = n: int | -0x8000_0000_0000_0000 <= n <= 0x7fff_ffff_ffff_ffff

  /** Like `str::parse::<i64>`: an optional sign, at least one digit, no overflow. */
  function ParseI64(s: string): Option<I64> {
    if s == "" then None
    else
      var digits := if s[0] == '-' || s[0] == '+' then s[1..] else s;
      if digits == "" || !AllDigits(digits) then None
      else
        var magnitude: int := DigitsValue(digits);
        var n := if s[0] == '-' then -magnitude else magnitude;
        if -0x8000_0000_0000_0000 <= n <= 0x7fff_ffff_ffff_ffff then Some(n) else None
  }

  /** The text is an optional sign and at least one digit, and stands for `n`. */
  ghost predicate Denotes(s: string, n: int) {
    exists sign, digits :: s == sign + digits && digits != "" && AllDigits(digits)
      && ((sign in ["", "+"] && n == DigitsValue(digits)) || (sign == "-" && n + DigitsValue(digits) == 0))
  }

  /** Exactly the texts of 64-bit integers are read, each as the number it stands for. */
  lemma ParseI64Iff(s: string, n: I64)
    ensures ParseI64(s) == Some(n) <==> Denotes(s, n)
  {
    hide DigitsValue;
    if ParseI64(s) == Some(n) {
      ParsedIsDenoted(s, n);
    }
    if Denotes(s, n) {
      DenotedIsParsed(s, n);
    }
  }

  lemma ParsedIsDenoted(s: string, n: I64)
    requires ParseI64(s) == Some(n)
    ensures Denotes(s, n)
  {
    hide DigitsValue;
    if s[0] == '-' {
      assert s == "-" + s[1..];
    } else if s[0] == '+' {
      assert s == "+" + s[1..];
    } else {
      assert s == "" + s;
    }
  }

  lemma DenotedIsParsed(s: string, n: I64)
    requires Denotes(s, n)
    ensures ParseI64(s) == Some(n)
  {
    hide DigitsValue;
    var sign, digits :| s == sign + digits && digits != "" && AllDigits(digits)
      && ((sign in ["", "+"] && n == DigitsValue(digits)) || (sign == "-" && n + DigitsValue(digits) == 0));
    if sign == "" {
      assert s == digits && IsDigit(s[0]);
    } else {
      assert s[0] == sign[0] && s[1..] == digits;
    }
  }

  lemma {:induction false} ShowNatReads(n: nat)
    ensures ShowNat(n) != [] && AllDigits(ShowNat(n)) && DigitsValue(ShowNat(n)) == n
  {
    var s := ShowNat(n);
    if n >= 10 {
      ShowNatReads(n / 10);
      assert s[..|s| - 1] == ShowNat(n / 10);
    } else {
      assert s[..0] == [];
    }
  }

  /** Every 64-bit integer is read back from its decimal text. */
  lemma ParseOfShow(n: I64)
    ensures ParseI64(ShowInt(n)) == Some(n)
    ensures forall c :: c in ShowInt(n) ==> c == '-' || IsDigit(c)
  {
    hide ShowNat, DigitsValue;
    if n < 0 {
      var m: int := n;
      ShowNatReads(-m);
      assert (['-'] + ShowNat(-m))[1..] == ShowNat(-m);
    } else {
      ShowNatReads(n);
      assert IsDigit(ShowNat(n)[0]);
    }
  }
}
