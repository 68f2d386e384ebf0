/**
  The typing simulator of src-tauri/src/human_typing.rs: a typer that types, mistypes,
  swaps, overlooks its errors and erases in bursts until the text is right.

  `Next` and `RunFrom` are the specification; class `MarkovTyper` is the code's form. Every
  random draw is an arbitrary value supplied by the caller.
 */
module HumanTyping {
  import opened Prelude
  import opened KeyboardLayout

  // ----- One step -----

  const PROB_ERROR := 0.04
  const PROB_SWAP_ERROR := 0.015
  const PROB_NOTICE_ERROR := 0.85
  const PROB_NOTICE_DISTANT_ERROR := 0.8
  const MIN_KEYSTROKE_TIME := 0.02
  const MIN_REACTION_TIME := 0.1

  datatype Action = Char(c: char) | Backspace

  datatype Event = Event(time: real, action: Action)

  datatype Difficulty = Common | Complex | Normal

  /** Everything one step may draw: three uniform samples, a neighbour index, the difficulty of
      the current word, and the three normal samples that become delays. */
  datatype Draw = Draw(notice: real, swap: real, error: real, pick: nat, difficulty: Difficulty,
                       keystroke: real, reaction: real, backspace: real)

  datatype TyperState = TyperState(current: string, cursor: nat, lastWasBackspace: bool, time: real)

  const INITIAL := TyperState("", 0, false, 0.0)

  function Max(a: real, b: real): real {
    if a < b then b else a
  }

  function ErrorProbability(d: Difficulty): real {
    match d
    case Complex => PROB_ERROR * 1.5
    case Common => PROB_ERROR * 0.5
    case Normal => PROB_ERROR
  }

  predicate IsSentenceBreak(c: char) {
    || c == ' ' || c == '\n' || c == '\t' || c == '.' || c == ',' || c == ';' || c == '!' || c == '?' || c == ':'
    || c == '(' || c == ')' || c == '[' || c == ']' || c == '{' || c == '}' || c == '\"' || c == '\''
    || c == '<' || c == '>'
  }

  /** Length of the longest common prefix: how much of the text is right so far. */
  function CommonPrefix(a: string, b: string): nat {
    if a != [] && b != [] && a[0] == b[0] then 1 + CommonPrefix(a[1..], b[1..]) else 0
  }

  function Pop(text: string): string {
    if text == [] then [] else text[..|text| - 1]
  }

  function Pause(s: TyperState, d: Draw): real {
    (if s.lastWasBackspace then 0.0 else Max(d.reaction, MIN_REACTION_TIME)) + d.backspace
  }

  /** What stays fixed while a text is typed. */
  datatype Typist = Typist(target: string, keyboard: Keyboard) {

    function FirstErrorPos(current: string): nat {
      var l := CommonPrefix(current, target);
      if l < |current| && l < |target| then l else |target|
    }

    predicate ShouldCorrect(s: TyperState, d: Draw) {
      var first := FirstErrorPos(s.current);
      && first < |s.current|
      && (|| s.lastWasBackspace
          || s.cursor >= |target|
          || IsSentenceBreak(s.current[|s.current| - 1])
          || d.notice < if |s.current| - first >= 2 then PROB_NOTICE_DISTANT_ERROR else PROB_NOTICE_ERROR)
    }

    predicate Swaps(cursor: nat, d: Draw)
      requires cursor < |target|
    {
      && keyboard.HasKey(target[cursor])
      && cursor + 1 < |target|
      && target[cursor + 1] != ' '
      && target[cursor + 1] != target[cursor]
      && keyboard.HasKey(target[cursor + 1])
      && d.swap < PROB_SWAP_ERROR
    }

    predicate Mistypes(cursor: nat, d: Draw)
      requires cursor < |target|
    {
      keyboard.HasKey(target[cursor]) && d.error < ErrorProbability(d.difficulty)
    }

    function TypedChar(cursor: nat, d: Draw): char
      requires cursor < |target|
    {
      if Swaps(cursor, d) then target[cursor + 1]
      else if Mistypes(cursor, d) then keyboard.RandomNeighbor(target[cursor], d.pick)
      else target[cursor]
    }

    function Next(s: TyperState, d: Draw): (TyperState, Option<Event>) {
      if s.current == target then (s, None)
      else if ShouldCorrect(s, d) then
        var current := Pop(s.current);
        var time := s.time + Pause(s, d);
        (TyperState(current, |current|, true, time), Some(Event(time, Backspace)))
      else
        var cursor := if s.cursor > |s.current| then |s.current| else s.cursor;
        if cursor >= |target| then (s.(cursor := cursor, lastWasBackspace := false), None)
        else
          var c := TypedChar(cursor, d);
          var time := s.time + Max(d.keystroke, MIN_KEYSTROKE_TIME);
          (TyperState(s.current + [c], cursor + 1, false, time), Some(Event(time, Char(c))))
    }

    /** The step at `s` draws an error: a swap or a random neighbour. */
    predicate Errs(s: TyperState, d: Draw) {
      && s.current != target
      && !ShouldCorrect(s, d)
      && s.cursor < |target|
      && (Swaps(s.cursor, d) || Mistypes(s.cursor, d))
    }

    predicate Inv(s: TyperState) {
      s.cursor == |s.current| <= |target|
    }

    /** The loop of `run` gives up once more than ten events per character were emitted. */
    function CutOff(): nat {
      10 * |target| + 1
    }

    /** The events of steps `i` to `stop` (exclusive), cut short when a step returns None, and the state reached. */
    function RunFrom(s: TyperState, draws: nat -> Draw, i: nat, stop: nat): (seq<Event>, TyperState)
      decreases stop - i
    {
      if i >= stop then ([], s)
      else
        var (s', event) := Next(s, draws(i));
        if event.None? then ([], s')
        else
          var (events, final) := RunFrom(s', draws, i + 1, stop);
          ([event.value] + events, final)
    }

    /** Number of erroneous draws along the same run. */
    function ErrorDraws(s: TyperState, draws: nat -> Draw, i: nat, stop: nat): nat
      decreases stop - i
    {
      if i >= stop then 0
      else
        var (s', event) := Next(s, draws(i));
        if event.None? then 0
        else (if Errs(s, draws(i)) then 1 else 0) + ErrorDraws(s', draws, i + 1, stop)
    }
  }

  function Replay(text: string, events: seq<Event>): string
    decreases |events|
  {
    if events == [] then text
    else match events[0].action
      case Char(c) => Replay(text + [c], events[1..])
      case Backspace => Replay(Pop(text), events[1..])
  }

  // ----- Common prefixes and mismatches -----

  lemma {:induction false} CommonPrefixMeaning(a: string, b: string)
    ensures var l := CommonPrefix(a, b);
            && l <= |a| && l <= |b| && a[..l] == b[..l]
            && (l < |a| && l < |b| ==> a[l] != b[l])
  {
    if a != [] && b != [] && a[0] == b[0] {
      CommonPrefixMeaning(a[1..], b[1..]);
      var l := CommonPrefix(a[1..], b[1..]);
      assert a[..l + 1] == [a[0]] + a[1..][..l];
      assert b[..l + 1] == [b[0]] + b[1..][..l];
    }
  }

  lemma {:induction false} CommonPrefixIs(a: string, b: string, l: nat)
    requires l <= |a| && l <= |b| && a[..l] == b[..l]
    requires l < |a| && l < |b| ==> a[l] != b[l]
    ensures CommonPrefix(a, b) == l
  {
    if l > 0 {
      assert a[0] == a[..l][0] == b[0];
      assert a[1..][..l - 1] == a[..l][1..] == b[1..][..l - 1];
      CommonPrefixIs(a[1..], b[1..], l - 1);
    }
  }

  lemma {:induction false} CommonPrefixOfAppend(a: string, c: char, b: string)
    ensures CommonPrefix(a, b) <= CommonPrefix(a + [c], b)
    ensures CommonPrefix(a, b) == |a| < |b| && c == b[|a|] ==> CommonPrefix(a + [c], b) == |a| + 1
  {
    if a != [] && b != [] && a[0] == b[0] {
      assert (a + [c])[1..] == a[1..] + [c];
      CommonPrefixOfAppend(a[1..], c, b[1..]);
    }
  }

  lemma CommonPrefixOfPop(a: string, b: string)
    requires CommonPrefix(a, b) < |a|
    ensures CommonPrefix(Pop(a), b) == CommonPrefix(a, b)
  {
    CommonPrefixMeaning(a, b);
    var l := CommonPrefix(a, b);
    assert Pop(a)[..l] == a[..l];
    CommonPrefixIs(Pop(a), b, l);
  }

  function Mismatches(a: string, b: string): nat {
    if a == [] || b == [] then 0
    else (if a[0] == b[0] then 0 else 1) + Mismatches(a[1..], b[1..])
  }

  lemma {:induction false} NoMismatchIsPrefix(a: string, b: string)
    requires |a| <= |b|
    ensures Mismatches(a, b) == 0 <==> CommonPrefix(a, b) == |a|
  {
    if a != [] {
      NoMismatchIsPrefix(a[1..], b[1..]);
      CommonPrefixMeaning(a[1..], b[1..]);
    }
  }

  lemma {:induction false} MismatchesOfAppend(a: string, c: char, b: string)
    requires |a| < |b|
    ensures Mismatches(a + [c], b) == Mismatches(a, b) + if c == b[|a|] then 0 else 1
  {
    if a == [] {
      assert (a + [c])[1..] == [];
    } else {
      assert (a + [c])[1..] == a[1..] + [c];
      MismatchesOfAppend(a[1..], c, b[1..]);
    }
  }

  // ----- What one step does -----

  /** From a reachable state a step stops exactly at the target; otherwise it erases the last of some
      wrong tail, or types one character, the right one unless the draw is erroneous. While a burst
      lasts it types only once nothing wrong is left. */
  ghost predicate StepResult(t: Typist, s: TyperState, d: Draw, s': TyperState, event: Option<Event>) {
    var l := CommonPrefix(s.current, t.target);
    && t.Inv(s')
    && (event.None? <==> s.current == t.target)
    && (event.None? ==> s' == s)
    && (event.Some? ==> match event.value.action
          case Backspace =>
            && l < |s.current| && s'.lastWasBackspace
            && s'.current == Pop(s.current)
            && CommonPrefix(s'.current, t.target) == l
            && !t.Errs(s, d)
          case Char(c) =>
            && |s.current| < |t.target| && !s'.lastWasBackspace
            && s'.current == s.current + [c]
            && CommonPrefix(s'.current, t.target) >= l
            && (s.lastWasBackspace ==> l == |s.current|)
            && (!t.Errs(s, d) ==> c == t.target[|s.current|]))
  }

  lemma FullTextHasError(current: string, target: string)
    requires |current| == |target| && current != target
    ensures CommonPrefix(current, target) < |current|
  {
    CommonPrefixMeaning(current, target);
    var l := CommonPrefix(current, target);
    assert current[..|current|] == current && target[..|target|] == target;
  }

  lemma StepShape(t: Typist, s: TyperState, d: Draw)
    requires t.Inv(s)
    ensures StepResult(t, s, d, t.Next(s, d).0, t.Next(s, d).1)
  {
    CommonPrefixMeaning(s.current, t.target);
    if s.current != t.target {
      if |s.current| == |t.target| {
        FullTextHasError(s.current, t.target);
      }
      if t.ShouldCorrect(s, d) {
        CommonPrefixOfPop(s.current, t.target);
      } else {
        CommonPrefixOfAppend(s.current, t.TypedChar(s.cursor, d), t.target);
      }
    }
  }

  // ----- The budget of a run -----

  /** Steps still affordable from `s` when `r` more draws may err. */
  function Potential(t: Typist, s: TyperState, r: nat): int {
    var n, m, l := |t.target|, |s.current|, CommonPrefix(s.current, t.target);
    if s.lastWasBackspace then 2 * n * r + (n - l) + (m - l)
    else 2 * n * (Mismatches(s.current, t.target) + r) + (n - m)
  }

  lemma PotentialNonNegative(t: Typist, s: TyperState, r: nat)
    requires t.Inv(s)
    ensures Potential(t, s, r) >= 0
  {
    CommonPrefixMeaning(s.current, t.target);
    Monotone(|t.target|, 0, r);
    Monotone(|t.target|, 0, Mismatches(s.current, t.target) + r);
  }

  /** Every event costs at least one unit; an erroneous draw uses up one of the `r` allowed errors too. */
  lemma StepPaysPotential(t: Typist, s: TyperState, d: Draw, s': TyperState, event: Event, r: nat)
    requires t.Inv(s) && StepResult(t, s, d, s', Some(event))
    requires t.Errs(s, d) ==> r > 0
    ensures Potential(t, s', if t.Errs(s, d) then r - 1 else r) < Potential(t, s, r)
  {
    var n, m, l, e := |t.target|, |s.current|, CommonPrefix(s.current, t.target), Mismatches(s.current, t.target);
    CommonPrefixMeaning(s.current, t.target);
    NoMismatchIsPrefix(s.current, t.target);
    if event.action.Backspace? {
      if !s.lastWasBackspace {
        BurstIsPaid(n, m, l, e, r);
      }
    } else {
      MismatchesOfAppend(s.current, event.action.c, t.target);
      var e' := Mismatches(s'.current, t.target);
      assert s.lastWasBackspace ==> e == 0;
      if t.Errs(s, d) {
        Monotone(n, e' + (r - 1), e + r);
      }
    }
  }

  lemma BurstIsPaid(n: nat, m: nat, l: nat, e: nat, r: nat)
    requires l < m <= n && e >= 1
    ensures 2 * n * r + (n - l) + (m - 1 - l) < 2 * n * (e + r) + (n - m)
  {
    Monotone(n, 1 + r, e + r);
    assert 2 * n * (1 + r) == 2 * n * r + 2 * n;
  }

  lemma Monotone(n: nat, a: nat, b: nat)
    requires a <= b
    ensures 2 * n * a <= 2 * n * b
  {
    var k := 2 * n;
    assert k * b == k * a + k * (b - a);
    assert k * (b - a) >= 0;
  }

  lemma {:induction false} RunWithinPotential(t: Typist, s: TyperState, draws: nat -> Draw, i: nat, stop: nat, r: nat)
    requires t.Inv(s) && t.ErrorDraws(s, draws, i, stop) <= r
    ensures |t.RunFrom(s, draws, i, stop).0| <= Potential(t, s, r)
    decreases stop - i
  {
    PotentialNonNegative(t, s, r);
    if i < stop {
      var (s', event) := t.Next(s, draws(i));
      StepShape(t, s, draws(i));
      if event.Some? {
        var r' := if t.Errs(s, draws(i)) then r - 1 else r;
        StepPaysPotential(t, s, draws(i), s', event.value, r);
        RunWithinPotential(t, s', draws, i + 1, stop, r');
      }
    }
  }

  /** With at most `k` erroneous draws a run emits at most n + 2kn events; up to four errors the
      cut-off never bites and the replayed text is the target. */
  lemma TypingBudget(t: Typist, draws: nat -> Draw, k: nat)
    requires t.ErrorDraws(INITIAL, draws, 0, t.CutOff()) <= k
    ensures var events := t.RunFrom(INITIAL, draws, 0, t.CutOff()).0;
            && |events| <= |t.target| + 2 * k * |t.target|
            && (k <= 4 ==> Replay("", events) == t.target)
  {
    RunWithinPotential(t, INITIAL, draws, 0, t.CutOff(), k);
    RunRefines(t, INITIAL, draws, 0, t.CutOff());
    InitialPotential(t, k);
  }

  lemma InitialPotential(t: Typist, k: nat)
    ensures Potential(t, INITIAL, k) == |t.target| + 2 * k * |t.target|
    ensures k <= 4 ==> Potential(t, INITIAL, k) < t.CutOff()
  {
    assert CommonPrefix("", t.target) == Mismatches("", t.target) == 0;
    Reorder(|t.target|, k);
    if k <= 4 {
      Monotone(|t.target|, k, 4);
    }
  }

  lemma Reorder(n: nat, k: nat)
    ensures 2 * n * k == 2 * k * n
  {
  }

  // ----- Replay and progress -----

  /** What `n` steps from `s` may lead to: `final` is what replaying the events leaves on the screen, its
      cursor is on the text, no correct prefix was lost, and only the target ends a run early. */
  ghost predicate Refines(t: Typist, s: TyperState, events: seq<Event>, final: TyperState, n: int) {
    && t.Inv(final)
    && Replay(s.current, events) == final.current
    && |events| <= n
    && (|events| < n ==> final.current == t.target)
    && CommonPrefix(s.current, t.target) <= CommonPrefix(final.current, t.target)
  }

  lemma RefinesStep(t: Typist, s: TyperState, d: Draw, s': TyperState, event: Event, events: seq<Event>,
                    final: TyperState, n: int)
    requires StepResult(t, s, d, s', Some(event)) && Refines(t, s', events, final, n)
    ensures Refines(t, s, [event] + events, final, n + 1)
  {
    assert ([event] + events)[1..] == events;
  }

  lemma RefinesNothing(t: Typist, s: TyperState, n: nat)
    requires t.Inv(s) && (n > 0 ==> s.current == t.target)
    ensures Refines(t, s, [], s, n)
  {
  }

  /** Every state a run can reach refines it: the run may be stopped after any number of steps. */
  lemma {:induction false} RunRefines(t: Typist, s: TyperState, draws: nat -> Draw, i: nat, stop: nat)
    requires t.Inv(s) && i <= stop
    ensures var (events, final) := t.RunFrom(s, draws, i, stop);
            Refines(t, s, events, final, stop - i)
    decreases stop - i
  {
    hide Typist.Next, Typist.Errs, CommonPrefix;
    var (s', event) := t.Next(s, draws(i));
    StepShape(t, s, draws(i));
    if i == stop || event.None? {
      RefinesNothing(t, s, stop - i);
    } else {
      RunRefines(t, s', draws, i + 1, stop);
      var (events, final) := t.RunFrom(s', draws, i + 1, stop);
      RefinesStep(t, s, draws(i), s', event.value, events, final, stop - i - 1);
    }
  }

  /** A burst, once begun, erases the whole wrong tail and nothing else. */
  lemma {:induction false} BurstErasesWrongTail(t: Typist, s: TyperState, draws: nat -> Draw, i: nat)
    requires t.Inv(s) && s.lastWasBackspace
    ensures CommonPrefix(s.current, t.target) <= |s.current|
    ensures var tail := |s.current| - CommonPrefix(s.current, t.target);
            var (events, final) := t.RunFrom(s, draws, i, i + tail);
            && |events| == tail
            && (forall j :: 0 <= j < tail ==> events[j].action == Backspace)
            && s.current[..CommonPrefix(s.current, t.target)] == final.current <= t.target
    decreases |s.current|
  {
    hide Typist.Next, Typist.Errs;
    CommonPrefixMeaning(s.current, t.target);
    var l := CommonPrefix(s.current, t.target);
    if l < |s.current| {
      StepShape(t, s, draws(i));
      var s' := t.Next(s, draws(i)).0;
      BurstErasesWrongTail(t, s', draws, i + 1);
      assert s'.current[..l] == s.current[..l];
    } else {
      assert s.current == s.current[..l];
    }
  }

  /** A text with no keyboard characters is typed without a single error, one event a character. */
  lemma {:induction false} OffKeyboardTextIsSpelled(t: Typist, s: TyperState, draws: nat -> Draw, i: nat, stop: nat)
    requires forall j :: 0 <= j < |t.target| ==> !t.keyboard.HasKey(t.target[j])
    requires t.Inv(s) && s.current == t.target[..|s.current|] && stop - i >= |t.target| - |s.current|
    ensures var events := t.RunFrom(s, draws, i, stop).0;
            && |events| == |t.target| - |s.current|
            && forall j :: 0 <= j < |events| ==> events[j].action == Char(t.target[|s.current| + j])
    ensures t.ErrorDraws(s, draws, i, stop) == 0
    decreases |t.target| - |s.current|
  {
    hide Typist.Next, Typist.Errs, CommonPrefix;
    if |s.current| < |t.target| {
      RightStep(t, s, draws(i));
      var (s', event) := t.Next(s, draws(i));
      OffKeyboardTextIsSpelled(t, s', draws, i + 1, stop);
      var (events, _) := t.RunFrom(s', draws, i + 1, stop);
      assert t.RunFrom(s, draws, i, stop).0 == [event.value] + events;
    } else {
      assert s.current == t.target;
      StepShape(t, s, draws(i));
    }
  }

  /** Where the text is right so far and the draw does not err, the next right character is typed. */
  lemma RightStep(t: Typist, s: TyperState, d: Draw)
    requires t.Inv(s) && s.current == t.target[..|s.current|] && |s.current| < |t.target|
    requires !t.Swaps(s.cursor, d) && !t.Mistypes(s.cursor, d)
    ensures !t.Errs(s, d)
    ensures var (s', event) := t.Next(s, d);
            && event.Some? && event.value.action == Char(t.target[|s.current|])
            && t.Inv(s') && s'.current == t.target[..|s.current| + 1] && !s'.lastWasBackspace
  {
    CommonPrefixIs(s.current, t.target, |s.current|);
    StepShape(t, s, d);
    assert t.target[..|s.current|] + [t.target[|s.current|]] == t.target[..|s.current| + 1];
  }

  // ----- Event times -----

  predicate NonDecreasing(from: real, events: seq<Event>)
    decreases |events|
  {
    events == [] || (from <= events[0].time && NonDecreasing(events[0].time, events[1..]))
  }

  /** No erasing step of the run draws a pause below zero; the backspace sample is not clamped. */
  predicate NoNegativePause(t: Typist, s: TyperState, draws: nat -> Draw, i: nat, stop: nat)
    decreases stop - i
  {
    i >= stop ||
    var (s', event) := t.Next(s, draws(i));
    event.None?
    || ((event.value.action == Backspace ==> Pause(s, draws(i)) >= 0.0) && NoNegativePause(t, s', draws, i + 1, stop))
  }

  /** Event times never decrease exactly when no erasing step draws a negative pause. */
  lemma {:induction false} TimesNeverDecreaseIff(t: Typist, s: TyperState, draws: nat -> Draw, i: nat, stop: nat)
    ensures NonDecreasing(s.time, t.RunFrom(s, draws, i, stop).0) <==> NoNegativePause(t, s, draws, i, stop)
    decreases stop - i
  {
    if i < stop {
      TimeOfStep(t, s, draws(i));
      hide Typist.Next;
      var (s', event) := t.Next(s, draws(i));
      if event.Some? {
        TimesNeverDecreaseIff(t, s', draws, i + 1, stop);
        var events := t.RunFrom(s', draws, i + 1, stop).0;
        assert ([event.value] + events)[1..] == events;
      }
    }
  }

  lemma TimeOfStep(t: Typist, s: TyperState, d: Draw)
    ensures var (s', event) := t.Next(s, d);
            event.Some? ==>
              && s'.time == event.value.time
              && (if event.value.action == Backspace then s'.time == s.time + Pause(s, d) else s'.time > s.time)
  {
  }

  /** Inside a burst a negative backspace sample makes the clock run backwards. */
  lemma BurstCanTurnBackTime(t: Typist, s: TyperState, draws: nat -> Draw, i: nat, stop: nat)
    requires t.Inv(s) && s.lastWasBackspace && CommonPrefix(s.current, t.target) < |s.current|
    requires draws(i).backspace < 0.0 && i < stop
    ensures !NonDecreasing(s.time, t.RunFrom(s, draws, i, stop).0)
  {
    if s.current == t.target {
      CommonPrefixIs(s.current, t.target, |s.current|);
    }
    StepShape(t, s, draws(i));
    assert t.Next(s, draws(i)).1.value.action == Backspace;
    assert !NoNegativePause(t, s, draws, i, stop);
    TimesNeverDecreaseIff(t, s, draws, i, stop);
  }

  // ----- Which wrong tails are erased -----

  const SENTENCE_ENDS := " \n\t.,;!?:()[]{}\"'<>"

  /** A wrong tail is erased now, if and only if a burst is under way, the text is typed to its end, the last
      character looks like the end of a sentence, or the notice draw falls below 0.8, for a tail of at least
      two characters, or below 0.85 for a tail of one. */
  lemma WrongTailIsErasedIff(t: Typist, s: TyperState, d: Draw)
    requires t.Inv(s) && CommonPrefix(s.current, t.target) < |s.current|
    ensures var n := |s.current|;
            var event := t.Next(s, d).1;
            event.Some?
            && (event.value.action == Backspace
                <==> s.lastWasBackspace || n == |t.target| || s.current[n - 1] in SENTENCE_ENDS
                     || d.notice < if n - CommonPrefix(s.current, t.target) >= 2 then 0.8 else 0.85)
  {
    hide Typist.Next, Typist.ShouldCorrect, IsSentenceBreak, SENTENCE_ENDS, CommonPrefix;
    SentenceEnds(s.current[|s.current| - 1]);
    CorrectsIff(t, s, d);
    ErasesIfItCorrects(t, s, d);
  }

  lemma CorrectsIff(t: Typist, s: TyperState, d: Draw)
    requires t.Inv(s) && CommonPrefix(s.current, t.target) < |s.current|
    ensures var n := |s.current|;
            t.ShouldCorrect(s, d)
            <==> s.lastWasBackspace || n == |t.target| || IsSentenceBreak(s.current[n - 1])
                 || d.notice < if n - CommonPrefix(s.current, t.target) >= 2 then 0.8 else 0.85
  {
    hide IsSentenceBreak, CommonPrefix;
    CommonPrefixMeaning(s.current, t.target);
  }

  lemma ErasesIfItCorrects(t: Typist, s: TyperState, d: Draw)
    requires t.Inv(s) && CommonPrefix(s.current, t.target) < |s.current|
    ensures var event := t.Next(s, d).1;
            event.Some? && (event.value.action == Backspace <==> t.ShouldCorrect(s, d))
  {
    hide Typist.ShouldCorrect, Typist.TypedChar;
    if s.current == t.target {
      CommonPrefixIs(s.current, t.target, |s.current|);
    }
    StepShape(t, s, d);
  }

  lemma SentenceEnds(c: char)
    ensures IsSentenceBreak(c) <==> c in SENTENCE_ENDS
  {
  }

  // ----- How long a step takes -----

  /** A keystroke takes its sample but no less than 20 ms; a backspace takes its sample, after a reaction of no
      less than 100 ms when it begins a burst. */
  lemma StepTakes(t: Typist, s: TyperState, d: Draw)
    requires t.Next(s, d).1.Some?
    ensures var (s', event) := t.Next(s, d);
            var took := event.value.time - s.time;
            && s'.time == event.value.time
            && (event.value.action.Char? ==>
                  took >= 0.02 && took >= d.keystroke && (took == 0.02 || took == d.keystroke))
            && (event.value.action == Backspace && s.lastWasBackspace ==> took == d.backspace)
            && (event.value.action == Backspace && !s.lastWasBackspace ==>
                  var reaction := took - d.backspace;
                  reaction >= 0.1 && reaction >= d.reaction && (reaction == 0.1 || reaction == d.reaction))
  {
  }

  // ----- Which draws err -----

  /** The next two characters may be swapped: both have keys, they differ, and the later one is no space. */
  predicate Swappable(t: Typist, m: nat) {
    && m + 1 < |t.target| && t.target[m + 1] != t.target[m] && t.target[m + 1] != ' '
    && t.keyboard.HasKey(t.target[m]) && t.keyboard.HasKey(t.target[m + 1])
  }

  /** On a well laid out keyboard the wrong character is typed, if and only if the swap draw falls below 0.015
      where the next two characters may be swapped, or the error draw falls below 0.04 where the character has a
      key, half that in a common word and half as much again in a complex one. A swap types the character after
      the intended one, a slip a key beside it. */
  lemma WrongCharIff(t: Typist, s: TyperState, d: Draw)
    requires WellLaidOut(t.keyboard) && t.Inv(s)
    requires var event := t.Next(s, d).1; event.Some? && event.value.action.Char?
    ensures s.cursor < |t.target|
    ensures var c := t.Next(s, d).1.value.action.c;
            var intended := t.target[s.cursor];
            var swap := Swappable(t, s.cursor) && d.swap < 0.015;
            var slip := t.keyboard.HasKey(intended)
                        && d.error < (match d.difficulty case Common => 0.02 case Normal => 0.04 case Complex => 0.06);
            && (c != intended <==> swap || slip)
            && (swap ==> c == t.target[s.cursor + 1])
            && (slip && !swap ==>
                  var (r, k) := t.keyboard.KeyPos(intended).value; IsBeside(t.keyboard, c, r, k))
  {
    hide WellLaidOut, Keyboard.HasKey, Typist.FirstErrorPos, IsBeside, Typist.Next, IsSentenceBreak;
    StepShape(t, s, d);
    NextTypes(t, s, d);
    var intended := t.target[s.cursor];
    if t.Mistypes(s.cursor, d) {
      NeighborIsWrong(t.keyboard, intended, d.pick);
      DrawnNeighborIsBeside(t.keyboard, intended, d.pick);
    }
  }

  lemma NextTypes(t: Typist, s: TyperState, d: Draw)
    requires t.Inv(s)
    requires var event := t.Next(s, d).1; event.Some? && event.value.action.Char?
    ensures s.cursor < |t.target| && t.Next(s, d).1.value.action.c == t.TypedChar(s.cursor, d)
  {
    hide Typist.ShouldCorrect, Typist.TypedChar;
  }

  /** On such a keyboard the character typed is wrong exactly when the draw errs. */
  lemma ErrsIffWrong(t: Typist, s: TyperState, d: Draw)
    requires WellLaidOut(t.keyboard) && t.Inv(s)
    requires var event := t.Next(s, d).1; event.Some? && event.value.action.Char?
    ensures t.Errs(s, d) <==> t.Next(s, d).1.value.action.c != t.target[s.cursor]
  {
    hide WellLaidOut, Keyboard.RandomNeighbor, Keyboard.HasKey, Typist.FirstErrorPos;
    StepShape(t, s, d);
    if t.Mistypes(s.cursor, d) {
      NeighborIsWrong(t.keyboard, t.target[s.cursor], d.pick);
    }
  }

  // ----- The code's form -----

  /** After `i` steps that emitted `events` and reached `s`, the rest of the run completes `whole`. */
  ghost predicate Continues(t: Typist, draws: nat -> Draw, whole: (seq<Event>, TyperState), events: seq<Event>,
                            s: TyperState, i: nat, stop: nat) {
    whole == (events + t.RunFrom(s, draws, i, stop).0, t.RunFrom(s, draws, i, stop).1)
  }

  lemma ContinuesAfterStep(t: Typist, draws: nat -> Draw, whole: (seq<Event>, TyperState), events: seq<Event>,
                           s: TyperState, i: nat, stop: nat)
    requires i < stop && Continues(t, draws, whole, events, s, i, stop)
    ensures var (s', event) := t.Next(s, draws(i));
            if event.None? then whole == (events, s')
            else Continues(t, draws, whole, events + [event.value], s', i + 1, stop)
  {
    hide Typist.Next;
    var (s', event) := t.Next(s, draws(i));
    if event.None? {
      assert events + [] == events;
    } else {
      var rest := t.RunFrom(s', draws, i + 1, stop).0;
      assert events + ([event.value] + rest) == (events + [event.value]) + rest;
    }
  }

  /** The typer and the fields its methods update. */
  class MarkovTyper {
    const target: string
    const keyboard: Keyboard
    var current: string
    var mentalCursorPos: nat
    var lastWasBackspace: bool
    var totalTime: real

    constructor (text: string, keyboard: Keyboard)
      ensures Text() == Typist(text, keyboard) && State() == INITIAL
    {
      target, this.keyboard := text, keyboard;
      current, mentalCursorPos, lastWasBackspace, totalTime := "", 0, false, 0.0;
    }

    ghost function Text(): Typist {
      Typist(target, keyboard)
    }

    ghost function State(): TyperState
      reads this
    {
      TyperState(current, mentalCursorPos, lastWasBackspace, totalTime)
    }

    /** Scans for the first wrong character, as the code does before every step. */
    method FindFirstError() returns (pos: nat)
      ensures pos == Text().FirstErrorPos(current)
    {
      pos := |target|;
      var i := 0;
      while i < |current| && i < |target|
        invariant i <= |current| && i <= |target| && pos == |target|
        invariant current[..i] == target[..i]
      {
        if current[i] != target[i] {
          pos := i;
          break;
        }
        i := i + 1;
      }
      CommonPrefixIs(current, target, i);
    }

    /** Decides whether the error at `firstErrorPos` is noticed now. */
    method NoticesError(firstErrorPos: nat, d: Draw) returns (shouldCorrect: bool)
      requires firstErrorPos == Text().FirstErrorPos(current)
      ensures shouldCorrect == Text().ShouldCorrect(State(), d)
    {
      shouldCorrect := false;
      if firstErrorPos < |current| {
        if lastWasBackspace || mentalCursorPos >= |target| {
          shouldCorrect := true;
        } else if current != [] {
          var lastChar := current[|current| - 1];
          var distance := |current| - firstErrorPos;
          if IsSentenceBreak(lastChar) {
            shouldCorrect := true;
          } else if distance >= 2 {
            if d.notice < PROB_NOTICE_DISTANT_ERROR {
              shouldCorrect := true;
            }
          } else if distance == 1 && d.notice < PROB_NOTICE_ERROR {
            shouldCorrect := true;
          }
        }
      }
    }

    /** The character typed next: the following one on a swap, a neighbour on a slip, else the intended one. */
    method ChooseChar(d: Draw) returns (c: char)
      requires mentalCursorPos < |target|
      ensures c == Text().TypedChar(mentalCursorPos, d)
    {
      var intended := target[mentalCursorPos];
      var onKeyboard := keyboard.HasKey(intended);
      if onKeyboard && mentalCursorPos + 1 < |target| {
        var after := target[mentalCursorPos + 1];
        if after != ' ' && after != intended && keyboard.HasKey(after) && d.swap < PROB_SWAP_ERROR {
          return after;
        }
      }
      if onKeyboard {
        if d.error < ErrorProbability(d.difficulty) {
          return keyboard.RandomNeighbor(intended, d.pick);
        }
      }
      return intended;
    }

    /** Takes the last character back, after a reaction time when a burst begins. */
    method Erase(d: Draw) returns (event: Option<Event>)
      requires current != []
      modifies this
      ensures State() == TyperState(Pop(old(current)), |old(current)| - 1, true,
                                    old(totalTime) + Pause(old(State()), d))
      ensures event == Some(Event(totalTime, Backspace))
    {
      if !lastWasBackspace {
        totalTime := totalTime + Max(d.reaction, MIN_REACTION_TIME);
      }
      totalTime := totalTime + d.backspace;
      current := current[..|current| - 1];
      mentalCursorPos := |current|;
      lastWasBackspace := true;
      event := Some(Event(totalTime, Backspace));
    }

    method Step(d: Draw) returns (event: Option<Event>)
      modifies this
      ensures (State(), event) == Text().Next(old(State()), d)
    {
      if current == target {
        return None;
      }
      var firstErrorPos := FindFirstError();
      var shouldCorrect := NoticesError(firstErrorPos, d);
      if shouldCorrect {
        event := Erase(d);
        return;
      }
      lastWasBackspace := false;
      if mentalCursorPos > |current| {
        mentalCursorPos := |current|;
      }
      if mentalCursorPos >= |target| {
        return None;
      }
      var c := ChooseChar(d);
      event := Press(c, d);
    }

    /** Puts the chosen character on the screen: the tail of the swap branch and of the normal one. */
    method Press(c: char, d: Draw) returns (event: Option<Event>)
      modifies this`current, this`mentalCursorPos, this`totalTime
      ensures current == old(current) + [c] && mentalCursorPos == old(mentalCursorPos) + 1
      ensures totalTime == old(totalTime) + Max(d.keystroke, MIN_KEYSTROKE_TIME)
      ensures event == Some(Event(totalTime, Char(c)))
    {
      totalTime := totalTime + Max(d.keystroke, MIN_KEYSTROKE_TIME);
      current := current + [c];
      mentalCursorPos := mentalCursorPos + 1;
      event := Some(Event(totalTime, Char(c)));
    }

    /** Types the whole text: the replayed events are the text on the screen, and the run ends at the
        target or at the cut-off. */
    method Run(draws: nat -> Draw) returns (events: seq<Event>)
      requires State() == INITIAL
      modifies this
      ensures (events, State()) == Text().RunFrom(INITIAL, draws, 0, Text().CutOff())
      ensures Replay("", events) == current
      ensures |events| <= 10 * |target| + 1
      ensures current == target || |events| == 10 * |target| + 1
    {
      hide Typist.Next;
      var maxSteps := |target| * 10;
      events := [];
      var steps := 0;
      ghost var t, stop := Text(), Text().CutOff();
      ghost var whole := t.RunFrom(INITIAL, draws, 0, stop);
      assert Continues(t, draws, whole, events, State(), steps, stop) by { assert [] + whole.0 == whole.0; }
      while true
        invariant steps <= maxSteps && t.Inv(State())
        invariant Continues(t, draws, whole, events, State(), steps, stop)
        decreases maxSteps - steps
      {
        ghost var before := State();
        StepShape(t, before, draws(steps));
        var event := Step(draws(steps));
        ContinuesAfterStep(t, draws, whole, events, before, steps, stop);
        if event.None? {
          break;
        }
        events := events + [event.value];
        steps := steps + 1;
        if steps > maxSteps {
          break;
        }
      }
      assert events + [] == events;
      RunRefines(t, INITIAL, draws, 0, stop);
    }
  }
}
