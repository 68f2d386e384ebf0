/**
  What the typing simulator does not promise: on which texts every run comes out right, on which the
  event times of every run never decrease, and how many errors the cut-off tolerates.

  The conditions are on the text and the keyboard alone; every failing run is given by its draws.
 */
module TypingLimits {
  import opened Prelude
  import opened KeyboardLayout
  import opened HumanTyping

  /** The smallest backspace sample lies just above: the sampler's mean of 0.12 less 6.79 deviations of 0.02. */
  const LEAST_BACKSPACE_TIME := -0.016

  /** What the code's samplers can return: uniform samples below one, and no backspace time below the least. */
  predicate Sampled(d: Draw) {
    && 0.0 <= d.notice < 1.0 && 0.0 <= d.swap < 1.0 && 0.0 <= d.error < 1.0
    && d.backspace >= LEAST_BACKSPACE_TIME
  }

  ghost predicate AllSampled(draws: nat -> Draw) {
    forall i: nat :: Sampled(draws(i))
  }

  ghost predicate ComesOutRight(t: Typist, draws: nat -> Draw) {
    Replay("", t.RunFrom(INITIAL, draws, 0, t.CutOff()).0) == t.target
  }

  ghost predicate KeepsTime(t: Typist, draws: nat -> Draw) {
    NonDecreasing(0.0, t.RunFrom(INITIAL, draws, 0, t.CutOff()).0)
  }

  /** None of the first `n` characters has a key. */
  ghost predicate NoKeyBefore(t: Typist, n: int) {
    forall j :: 0 <= j < n && j < |t.target| ==> !t.keyboard.HasKey(t.target[j])
  }

  lemma {:induction false} FirstKey(t: Typist, n: nat) returns (j: nat)
    requires n <= |t.target| && !NoKeyBefore(t, n)
    ensures j < n && t.keyboard.HasKey(t.target[j]) && NoKeyBefore(t, j)
  {
    if NoKeyBefore(t, n - 1) {
      j := n - 1;
    } else {
      j := FirstKey(t, n - 1);
    }
  }

  // ----- Steps that go wrong -----

  ghost predicate RightSoFar(t: Typist, s: TyperState) {
    t.Inv(s) && s.current == t.target[..|s.current|]
  }

  /** The whole of `current` from `l` on is a wrong tail. */
  ghost predicate WrongFrom(t: Typist, s: TyperState, l: nat) {
    t.Inv(s) && l < |s.current| && CommonPrefix(s.current, t.target) == l
  }

  ghost predicate CanSlip(t: Typist, j: nat, pick: nat)
    requires j < |t.target|
  {
    t.keyboard.HasKey(t.target[j]) && t.keyboard.RandomNeighbor(t.target[j], pick) != t.target[j]
  }

  lemma SlipStep(t: Typist, s: TyperState, d: Draw)
    requires RightSoFar(t, s) && |s.current| < |t.target| && CanSlip(t, |s.current|, d.pick)
    requires !t.Swaps(s.cursor, d) && t.Mistypes(s.cursor, d)
    ensures t.Errs(s, d)
    ensures var (s', event) := t.Next(s, d);
            && event.Some? && WrongFrom(t, s', |s.current|) && !s'.lastWasBackspace
            && s'.current == s.current + [t.keyboard.RandomNeighbor(t.target[s.cursor], d.pick)]
  {
    hide Keyboard.HasKey, Keyboard.RandomNeighbor, IsSentenceBreak;
    var l := |s.current|;
    CommonPrefixIs(s.current, t.target, l);
    StepShape(t, s, d);
    var s' := t.Next(s, d).0;
    assert s'.current[..l] == s.current;
    CommonPrefixIs(s'.current, t.target, l);
  }

  lemma EraseStep(t: Typist, s: TyperState, d: Draw, l: nat)
    requires WrongFrom(t, s, l) && t.ShouldCorrect(s, d)
    ensures !t.Errs(s, d)
    ensures var (s', event) := t.Next(s, d);
            && event.Some? && event.value.action == Backspace && s'.lastWasBackspace
            && s'.current == Pop(s.current) && t.Inv(s') && CommonPrefix(s'.current, t.target) == l
  {
    hide Typist.ShouldCorrect, IsSentenceBreak;
    if s.current == t.target {
      CommonPrefixIs(s.current, t.target, |s.current|);
    }
    StepShape(t, s, d);
  }

  /** An error is overlooked: the next character is typed behind it. */
  lemma OverlookStep(t: Typist, s: TyperState, d: Draw, l: nat)
    requires WrongFrom(t, s, l) && |s.current| < |t.target| && !s.lastWasBackspace
    requires !IsSentenceBreak(s.current[|s.current| - 1]) && d.notice >= PROB_NOTICE_ERROR
    requires !t.Swaps(s.cursor, d) && !t.Mistypes(s.cursor, d)
    ensures !t.Errs(s, d)
    ensures var (s', event) := t.Next(s, d);
            && event.Some? && WrongFrom(t, s', l) && !s'.lastWasBackspace
            && s'.current == s.current + [t.target[|s.current|]]
  {
    hide Keyboard.HasKey, Keyboard.RandomNeighbor, IsSentenceBreak;
    CommonPrefixMeaning(s.current, t.target);
    var s' := t.Next(s, d).0;
    assert s'.current == s.current + [t.target[|s.current|]];
    assert s'.current[..l] == s.current[..l];
    CommonPrefixIs(s'.current, t.target, l);
  }

  // ----- On which texts every run comes out right -----

  /** Slips wherever there is a key, and notices at once. */
  const SLIP := Draw(0.0, 0.99, 0.0, 0, Normal, 0.1, 0.3, 0.1)

  function AlwaysSlip(): nat -> Draw {
    (i: nat) => SLIP
  }

  /** The typer never gets past the character at `j`: the text is right up to there, or one wrong character longer. */
  ghost predicate Stuck(t: Typist, s: TyperState, j: nat) {
    && |s.current| <= j + 1
    && ((RightSoFar(t, s) && |s.current| <= j) || (WrongFrom(t, s, j) && |s.current| == j + 1))
  }

  lemma StuckStep(t: Typist, s: TyperState, j: nat)
    requires j < |t.target| && CanSlip(t, j, 0) && NoKeyBefore(t, j) && Stuck(t, s, j)
    ensures Stuck(t, t.Next(s, SLIP).0, j)
  {
    hide Typist.Next, Keyboard.HasKey, Keyboard.RandomNeighbor, IsSentenceBreak, CommonPrefix;
    if |s.current| == j + 1 {
      EraseStep(t, s, SLIP, j);
      CommonPrefixMeaning(s.current, t.target);
    } else if |s.current| == j {
      SlipStep(t, s, SLIP);
    } else {
      RightStep(t, s, SLIP);
    }
  }

  lemma StuckIsShort(t: Typist, s: TyperState, j: nat)
    requires j < |t.target| && Stuck(t, s, j)
    ensures s.current != t.target
  {
    if s.current == t.target {
      CommonPrefixIs(s.current, t.target, |s.current|);
    }
  }

  lemma {:induction false} StuckRun(t: Typist, s: TyperState, j: nat, i: nat, stop: nat)
    requires j < |t.target| && CanSlip(t, j, 0) && NoKeyBefore(t, j) && Stuck(t, s, j)
    ensures t.RunFrom(s, AlwaysSlip(), i, stop).1.current != t.target
    decreases stop - i
  {
    hide Typist.Next, CanSlip, Stuck, NoKeyBefore;
    StuckIsShort(t, s, j);
    if i < stop {
      StuckStep(t, s, j);
      var s' := t.Next(s, SLIP).0;
      StuckIsShort(t, s', j);
      StuckRun(t, s', j, i + 1, stop);
    }
  }

  /** Whatever is drawn, the replayed events are the text: this holds exactly for texts without a keyboard
      character, and no text with one is safe from what the code can sample. */
  lemma TextIsAlwaysTypedIff(t: Typist)
    requires WellLaidOut(t.keyboard)
    ensures (forall draws :: ComesOutRight(t, draws)) <==> NoKeyBefore(t, |t.target|)
    ensures (forall draws :: AllSampled(draws) ==> ComesOutRight(t, draws)) <==> NoKeyBefore(t, |t.target|)
  {
    hide WellLaidOut, Typist.Next, Keyboard.HasKey, Keyboard.RandomNeighbor;
    if NoKeyBefore(t, |t.target|) {
      forall draws
        ensures ComesOutRight(t, draws)
      {
        OffKeyboardTextIsSpelled(t, INITIAL, draws, 0, t.CutOff());
        RunRefines(t, INITIAL, draws, 0, t.CutOff());
      }
    } else {
      var j := FirstKey(t, |t.target|);
      NeighborIsWrong(t.keyboard, t.target[j], 0);
      StuckRun(t, INITIAL, j, 0, t.CutOff());
      RunRefines(t, INITIAL, AlwaysSlip(), 0, t.CutOff());
      assert AllSampled(AlwaysSlip()) && !ComesOutRight(t, AlwaysSlip());
    }
  }

  // ----- On which texts event times never decrease -----

  lemma TimeGoesOn(t: Typist, s: TyperState, draws: nat -> Draw, i: nat, stop: nat)
    requires i < stop && t.Next(s, draws(i)).1.Some?
    ensures var s' := t.Next(s, draws(i)).0;
            NonDecreasing(s.time, t.RunFrom(s, draws, i, stop).0)
            ==> NonDecreasing(s'.time, t.RunFrom(s', draws, i + 1, stop).0)
  {
    TimesNeverDecreaseIff(t, s, draws, i, stop);
    TimesNeverDecreaseIff(t, t.Next(s, draws(i)).0, draws, i + 1, stop);
  }

  /** Off the keyboard the first `j` characters are typed whatever is drawn. */
  lemma {:induction false} UpToFirstKey(t: Typist, s: TyperState, draws: nat -> Draw, i: nat, j: nat, stop: nat)
    returns (s': TyperState)
    requires RightSoFar(t, s) && |s.current| == i <= j <= |t.target| && j <= stop && NoKeyBefore(t, j)
    ensures RightSoFar(t, s') && |s'.current| == j
    ensures NonDecreasing(s.time, t.RunFrom(s, draws, i, stop).0)
            ==> NonDecreasing(s'.time, t.RunFrom(s', draws, j, stop).0)
    decreases j - i
  {
    hide Typist.Next, Typist.RunFrom, Keyboard.HasKey, NonDecreasing;
    if i == j {
      s' := s;
    } else {
      RightStep(t, s, draws(i));
      TimeGoesOn(t, s, draws, i, stop);
      s' := UpToFirstKey(t, t.Next(s, draws(i)).0, draws, i + 1, j, stop);
    }
  }

  lemma {:induction false} TypingKeepsTime(t: Typist, s: TyperState, draws: nat -> Draw, i: nat, stop: nat)
    requires forall e <- t.RunFrom(s, draws, i, stop).0 :: e.action.Char?
    ensures NoNegativePause(t, s, draws, i, stop)
    decreases stop - i
  {
    hide Typist.Next;
    if i < stop {
      var (s', event) := t.Next(s, draws(i));
      if event.Some? {
        var rest := t.RunFrom(s', draws, i + 1, stop).0;
        assert t.RunFrom(s, draws, i, stop).0 == [event.value] + rest;
        assert forall e <- rest :: e in [event.value] + rest;
        assert event.value in [event.value] + rest;
        TypingKeepsTime(t, s', draws, i + 1, stop);
      }
    }
  }

  /** A slip that is noticed at once, with a backspace sample far below zero. */
  function SlipBack(): nat -> Draw {
    (i: nat) => SLIP.(backspace := -1.0)
  }

  lemma SlipTurnsBackTime(t: Typist, j: nat)
    requires j < |t.target| && CanSlip(t, j, 0) && NoKeyBefore(t, j)
    ensures !KeepsTime(t, SlipBack())
  {
    hide Typist.Next, Typist.RunFrom, Keyboard.HasKey, Keyboard.RandomNeighbor, IsSentenceBreak, CommonPrefix,
         NonDecreasing, NoNegativePause;
    var stop, draws := t.CutOff(), SlipBack();
    var s := UpToFirstKey(t, INITIAL, draws, 0, j, stop);
    var s' := t.Next(s, draws(j)).0;
    SlipStep(t, s, draws(j));
    TimeGoesOn(t, s, draws, j, stop);
    EraseStep(t, s', draws(j + 1), j);
    NegativePauseShows(t, s', draws, j + 1, stop);
  }

  lemma NegativePauseShows(t: Typist, s: TyperState, draws: nat -> Draw, i: nat, stop: nat)
    requires i < stop && Pause(s, draws(i)) < 0.0
    requires var event := t.Next(s, draws(i)).1; event.Some? && event.value.action == Backspace
    ensures !NonDecreasing(s.time, t.RunFrom(s, draws, i, stop).0)
  {
    TimesNeverDecreaseIff(t, s, draws, i, stop);
  }

  /** With unbounded delay samples, event times never decrease exactly for texts without a keyboard character. */
  lemma TimesNeverDecreaseForAnyDrawsIff(t: Typist)
    requires WellLaidOut(t.keyboard)
    ensures (forall draws :: KeepsTime(t, draws)) <==> NoKeyBefore(t, |t.target|)
  {
    hide WellLaidOut, Typist.Next, Keyboard.HasKey, Keyboard.RandomNeighbor, NonDecreasing, NoNegativePause;
    if NoKeyBefore(t, |t.target|) {
      forall draws
        ensures KeepsTime(t, draws)
      {
        OffKeyboardTextIsSpelled(t, INITIAL, draws, 0, t.CutOff());
        TypingKeepsTime(t, INITIAL, draws, 0, t.CutOff());
        TimesNeverDecreaseIff(t, INITIAL, draws, 0, t.CutOff());
      }
    } else {
      var j := FirstKey(t, |t.target|);
      NeighborIsWrong(t.keyboard, t.target[j], 0);
      SlipTurnsBackTime(t, j);
    }
  }

  /** No first neighbour of a key looks like the end of a sentence, so a slip onto it can be overlooked. */
  ghost predicate HidesSlips(kb: Keyboard) {
    forall c | kb.HasKey(c) :: !IsSentenceBreak(kb.RandomNeighbor(c, 0))
  }

  lemma QwertyHidesSlips()
    ensures HidesSlips(QWERTY)
  {
    hide IsSentenceBreak, Keyboard.HasKey, Keyboard.RandomNeighbor, QWERTY;
    forall c | QWERTY.HasKey(c)
      ensures !IsSentenceBreak(QWERTY.RandomNeighbor(c, 0))
    {
      FirstQwertyNeighborIsPlain(c);
    }
  }

  lemma FirstQwertyNeighborIsPlain(c: char)
    requires QWERTY.HasKey(c)
    ensures !IsSentenceBreak(QWERTY.RandomNeighbor(c, 0))
  {
    hide ROW0, ROW1, ROW2, ROW3, IsSentenceBreak, Keyboard.RandomNeighbor, PositionIn;
    RowLengths();
    PlainRow0();
    PlainRow1();
    PlainRow2();
    FirstNeighbor(QWERTY, c);
    var (r, k) := QWERTY.KeyPos(c).value;
    if r == 0 {
      assert QWERTY.grid[0] == ROW0;
    } else if r == 1 {
      assert QWERTY.grid[0] == ROW0 && QWERTY.grid[1] == ROW1;
    } else if r == 2 {
      assert QWERTY.grid[1] == ROW1 && QWERTY.grid[2] == ROW2;
    } else {
      assert QWERTY.grid[2] == ROW2 && QWERTY.grid[3] == ROW3;
    }
  }

  lemma RowLengths()
    ensures |ROW0| == |ROW1| == 13 && |ROW2| == 11 && |ROW3| == 10
  {
  }

  lemma PlainRow0()
    ensures forall k :: 0 <= k < |ROW0| ==> !IsSentenceBreak(ROW0[k])
  {
  }

  lemma PlainRow1()
    ensures forall k :: 0 <= k < 10 && k < |ROW1| ==> !IsSentenceBreak(ROW1[k])
  {
  }

  lemma PlainRow2()
    ensures forall k :: 0 <= k < 9 && k < |ROW2| ==> !IsSentenceBreak(ROW2[k])
  {
  }

  /** Slip at step `j`, overlook it at the next, then notice and erase with samples just below zero. */
  function OverlookedSlip(j: nat): nat -> Draw {
    (i: nat) => Draw(if i == j + 1 then 0.99 else 0.0, 0.99, if i == j then 0.0 else 0.99, 0, Normal, 0.1, 0.3, -0.01)
  }

  /** The fourth event of such a slip lies before the third. */
  lemma OverlookedSlipTurnsBackTime(t: Typist, j: nat)
    requires j + 1 < |t.target| && CanSlip(t, j, 0) && NoKeyBefore(t, j)
    requires !IsSentenceBreak(t.keyboard.RandomNeighbor(t.target[j], 0))
    ensures AllSampled(OverlookedSlip(j)) && !KeepsTime(t, OverlookedSlip(j))
  {
    hide Typist.Next, Typist.RunFrom, Keyboard.HasKey, Keyboard.RandomNeighbor, IsSentenceBreak, CommonPrefix,
         NonDecreasing, NoNegativePause;
    var stop, draws := t.CutOff(), OverlookedSlip(j);
    var s := UpToFirstKey(t, INITIAL, draws, 0, j, stop);
    SlipStep(t, s, draws(j));
    TimeGoesOn(t, s, draws, j, stop);
    var s1 := t.Next(s, draws(j)).0;
    OverlookStep(t, s1, draws(j + 1), j);
    TimeGoesOn(t, s1, draws, j + 1, stop);
    var s2 := t.Next(s1, draws(j + 1)).0;
    EraseStep(t, s2, draws(j + 2), j);
    TimeGoesOn(t, s2, draws, j + 2, stop);
    var s3 := t.Next(s2, draws(j + 2)).0;
    BurstCanTurnBackTime(t, s3, draws, j + 3, stop);
  }

  /** Only the last character can be wrong, and it is erased alone. */
  ghost predicate WrongAtMostLast(t: Typist, s: TyperState) {
    var l := CommonPrefix(s.current, t.target);
    && t.Inv(s) && l <= |s.current|
    && (l < |s.current| ==> |s.current| == |t.target| && l == |s.current| - 1 && !s.lastWasBackspace)
  }

  lemma LastCharStep(t: Typist, s: TyperState, d: Draw)
    requires NoKeyBefore(t, |t.target| - 1) && WrongAtMostLast(t, s) && d.backspace >= -MIN_REACTION_TIME
    ensures var (s', event) := t.Next(s, d);
            && WrongAtMostLast(t, s')
            && (event.Some? && event.value.action == Backspace ==> Pause(s, d) >= 0.0)
  {
    hide Typist.Next, Keyboard.HasKey, CommonPrefix;
    StepShape(t, s, d);
    CommonPrefixMeaning(s.current, t.target);
    var (s', event) := t.Next(s, d);
    CommonPrefixMeaning(s'.current, t.target);
    if event.Some? && event.value.action.Char? && |s.current| < |t.target| - 1 {
      assert !t.Errs(s, d);
      assert s'.current == t.target[..|s.current|] + [t.target[|s.current|]] == t.target[..|s'.current|];
      CommonPrefixIs(s'.current, t.target, |s'.current|);
    }
  }

  lemma {:induction false} LastCharKeepsTime(t: Typist, s: TyperState, draws: nat -> Draw, i: nat, stop: nat)
    requires NoKeyBefore(t, |t.target| - 1) && WrongAtMostLast(t, s) && AllSampled(draws)
    ensures NoNegativePause(t, s, draws, i, stop)
    decreases stop - i
  {
    hide Typist.Next, WrongAtMostLast, NoKeyBefore;
    if i < stop {
      LastCharStep(t, s, draws(i));
      LastCharKeepsTime(t, t.Next(s, draws(i)).0, draws, i + 1, stop);
    }
  }

  /** For everything the code can sample, event times never decrease exactly for texts in which only the
      last character may have a key: it takes a burst of two to turn back time, since its first
      backspace is preceded by a reaction time. */
  lemma TimesNeverDecreaseForSampledIff(t: Typist)
    requires WellLaidOut(t.keyboard) && HidesSlips(t.keyboard)
    ensures (forall draws :: AllSampled(draws) ==> KeepsTime(t, draws)) <==> NoKeyBefore(t, |t.target| - 1)
  {
    hide WellLaidOut, Typist.Next, Keyboard.HasKey, Keyboard.RandomNeighbor, NonDecreasing, NoNegativePause,
         IsSentenceBreak;
    if NoKeyBefore(t, |t.target| - 1) {
      forall draws | AllSampled(draws)
        ensures KeepsTime(t, draws)
      {
        LastCharKeepsTime(t, INITIAL, draws, 0, t.CutOff());
        TimesNeverDecreaseIff(t, INITIAL, draws, 0, t.CutOff());
      }
    } else {
      var j := FirstKey(t, |t.target| - 1);
      NeighborIsWrong(t.keyboard, t.target[j], 0);
      OverlookedSlipTurnsBackTime(t, j);
    }
  }

  // ----- How many errors the cut-off tolerates -----

  /** The first character can be mistyped unseen and nothing behind it makes the typer look back. */
  ghost predicate Overlooks(t: Typist) {
    && t.target != [] && CanSlip(t, 0, 0)
    && !IsSentenceBreak(t.keyboard.RandomNeighbor(t.target[0], 0))
    && (forall j :: 1 <= j < |t.target| ==> !IsSentenceBreak(t.target[j]))
  }

  /** Whether step `i` begins one of the first `k` cycles of `n` keystrokes and `n` backspaces. */
  predicate BeginsCycle(n: nat, k: nat, i: nat) {
    k > 0 && (i == 0 || (i >= 2 * n && BeginsCycle(n, k - 1, i - 2 * n)))
  }

  const CAREFUL := Draw(0.99, 0.99, 0.99, 0, Normal, 0.1, 0.3, 0.1)
  const CARELESS := CAREFUL.(error := 0.0)

  /** Mistype the first of `n` characters, overlook it to the end, erase everything; `k` times over. */
  function Slips(n: nat, k: nat): nat -> Draw {
    (i: nat) => if BeginsCycle(n, k, i) then CARELESS else CAREFUL
  }

  /** The run from `s` at step `i` is, after `j - i` more events of which `e` err, the run from `s'` at step `j`. */
  ghost predicate Leads(t: Typist, draws: nat -> Draw, stop: nat, s: TyperState, i: nat, s': TyperState, j: nat,
                        e: nat) {
    && i <= j <= stop
    && |t.RunFrom(s, draws, i, stop).0| == j - i + |t.RunFrom(s', draws, j, stop).0|
    && t.RunFrom(s, draws, i, stop).1 == t.RunFrom(s', draws, j, stop).1
    && t.ErrorDraws(s, draws, i, stop) == e + t.ErrorDraws(s', draws, j, stop)
  }

  lemma OneStepLeads(t: Typist, draws: nat -> Draw, stop: nat, s: TyperState, i: nat)
    requires i < stop && t.Next(s, draws(i)).1.Some?
    ensures Leads(t, draws, stop, s, i, t.Next(s, draws(i)).0, i + 1, if t.Errs(s, draws(i)) then 1 else 0)
  {
    hide Typist.Next, Typist.Errs;
  }

  lemma LeadsOn(t: Typist, draws: nat -> Draw, stop: nat, s: TyperState, i: nat, s': TyperState, j: nat, e: nat,
                s'': TyperState, k: nat, f: nat)
    requires Leads(t, draws, stop, s, i, s', j, e) && Leads(t, draws, stop, s', j, s'', k, f)
    ensures Leads(t, draws, stop, s, i, s'', k, e + f)
  {
  }

  /** No step from `i` to `j` is careless. */
  ghost predicate CarefulBetween(draws: nat -> Draw, i: nat, j: nat) {
    forall x: nat :: i <= x < j ==> draws(x) == CAREFUL
  }

  lemma {:induction false} TypeToTheEnd(t: Typist, draws: nat -> Draw, stop: nat, s: TyperState, i: nat, j: nat)
    returns (s': TyperState)
    requires Overlooks(t) && WrongFrom(t, s, 0) && !s.lastWasBackspace
    requires !IsSentenceBreak(s.current[|s.current| - 1])
    requires j == i + |t.target| - |s.current| && j <= stop && CarefulBetween(draws, i, j)
    ensures WrongFrom(t, s', 0) && |s'.current| == |t.target|
    ensures Leads(t, draws, stop, s, i, s', j, 0)
    decreases j - i
  {
    hide Typist.Next, Typist.RunFrom, Typist.ErrorDraws, Keyboard.HasKey, IsSentenceBreak, CommonPrefix;
    if i == j {
      s' := s;
    } else {
      OverlookStep(t, s, CAREFUL, 0);
      OneStepLeads(t, draws, stop, s, i);
      var s1 := t.Next(s, CAREFUL).0;
      s' := TypeToTheEnd(t, draws, stop, s1, i + 1, j);
      LeadsOn(t, draws, stop, s, i, s1, i + 1, 0, s', j, 0);
    }
  }

  lemma {:induction false} EraseAll(t: Typist, draws: nat -> Draw, stop: nat, s: TyperState, i: nat, j: nat)
    returns (s': TyperState)
    requires t.Inv(s) && CommonPrefix(s.current, t.target) == 0 && t.target != []
    requires s.lastWasBackspace || |s.current| == |t.target|
    requires j == i + |s.current| && j <= stop
    ensures s'.current == "" && s'.cursor == 0
    ensures Leads(t, draws, stop, s, i, s', j, 0)
    decreases j - i
  {
    hide Typist.Next, Typist.RunFrom, Typist.ErrorDraws, IsSentenceBreak, CommonPrefix;
    if i == j {
      s' := s;
    } else {
      EraseStep(t, s, draws(i), 0);
      OneStepLeads(t, draws, stop, s, i);
      var s1 := t.Next(s, draws(i)).0;
      s' := EraseAll(t, draws, stop, s1, i + 1, j);
      LeadsOn(t, draws, stop, s, i, s1, i + 1, 0, s', j, 0);
    }
  }

  lemma Cycle(t: Typist, draws: nat -> Draw, stop: nat, s: TyperState, i: nat) returns (s': TyperState)
    requires Overlooks(t) && s.current == "" && s.cursor == 0 && i + 2 * |t.target| <= stop
    requires draws(i) == CARELESS && CarefulBetween(draws, i + 1, i + |t.target|)
    ensures s'.current == "" && s'.cursor == 0
    ensures Leads(t, draws, stop, s, i, s', i + 2 * |t.target|, 1)
  {
    hide Typist.Next, Typist.Errs, Typist.RunFrom, Typist.ErrorDraws, Keyboard.HasKey, Keyboard.RandomNeighbor,
         IsSentenceBreak, CommonPrefix, Leads;
    var n := |t.target|;
    SlipStep(t, s, CARELESS);
    OneStepLeads(t, draws, stop, s, i);
    var s1 := t.Next(s, CARELESS).0;
    var s2 := TypeToTheEnd(t, draws, stop, s1, i + 1, i + n);
    s' := EraseAll(t, draws, stop, s2, i + n, i + 2 * n);
    LeadsOn(t, draws, stop, s, i, s1, i + 1, 1, s2, i + n, 0);
    LeadsOn(t, draws, stop, s, i, s2, i + n, 1, s', i + 2 * n, 0);
  }

  /** From step `i` on, the draws are those of `k` more cycles. */
  ghost predicate CyclesAhead(draws: nat -> Draw, i: nat, n: nat, k: nat) {
    forall x: nat :: x >= i ==> draws(x) == Slips(n, k)(x - i)
  }

  lemma SlipsAhead(n: nat, k: nat)
    ensures CyclesAhead(Slips(n, k), 0, n, k)
  {
  }

  lemma CyclesStep(draws: nat -> Draw, i: nat, n: nat, k: nat)
    requires n > 0 && CyclesAhead(draws, i, n, k) && k > 0
    ensures draws(i) == CARELESS && CarefulBetween(draws, i + 1, i + n) && CyclesAhead(draws, i + 2 * n, n, k - 1)
  {
  }

  lemma {:induction false} Cycles(t: Typist, draws: nat -> Draw, stop: nat, s: TyperState, i: nat, k: nat)
    returns (s': TyperState)
    requires Overlooks(t) && s.current == "" && s.cursor == 0
    requires CyclesAhead(draws, i, |t.target|, k) && i + k * (2 * |t.target|) <= stop
    ensures s'.current == "" && s'.cursor == 0
    ensures var j := i + k * (2 * |t.target|);
            Leads(t, draws, stop, s, i, s', j, k) && CyclesAhead(draws, j, |t.target|, 0)
    decreases k
  {
    hide Typist.RunFrom, Typist.ErrorDraws, Overlooks, CyclesAhead, CarefulBetween;
    var n := |t.target|;
    if k == 0 {
      s' := s;
    } else {
      hide Leads;
      NonEmptyIfOverlooks(t);
      CyclesStep(draws, i, n, k);
      OneLess(k, 2 * n);
      var s1 := Cycle(t, draws, stop, s, i);
      s' := Cycles(t, draws, stop, s1, i + 2 * n, k - 1);
      LeadsOn(t, draws, stop, s, i, s1, i + 2 * n, 1, s', i + k * (2 * n), k - 1);
    }
  }

  lemma NonEmptyIfOverlooks(t: Typist)
    requires Overlooks(t)
    ensures |t.target| > 0
  {
  }

  lemma OneLess(k: nat, m: nat)
    requires k > 0
    ensures k * m == m + (k - 1) * m && (k - 1) * m >= 0
  {
  }

  /** Without further errors the rest is typed until the text is there or the run is cut off. */
  lemma {:induction false} CarefulRest(t: Typist, draws: nat -> Draw, s: TyperState, i: nat, stop: nat)
    requires RightSoFar(t, s) && i <= stop && CyclesAhead(draws, i, |t.target|, 0)
    ensures var (events, final) := t.RunFrom(s, draws, i, stop);
            var m := if stop - i < |t.target| - |s.current| then stop - i else |t.target| - |s.current|;
            && |events| == m && final.current == t.target[..|s.current| + m]
    ensures t.ErrorDraws(s, draws, i, stop) == 0
    decreases stop - i
  {
    hide Typist.Next, Typist.Errs, Keyboard.HasKey;
    if |s.current| == |t.target| {
      assert s.current == t.target;
      StepShape(t, s, draws(i));
    } else if i < stop {
      assert draws(i) == CAREFUL;
      RightStep(t, s, CAREFUL);
      CarefulRest(t, draws, t.Next(s, CAREFUL).0, i + 1, stop);
    }
  }

  /** What `k` overlooked slips on the first character lead to. */
  lemma SlipsLeadTo(t: Typist, k: nat)
    requires Overlooks(t) && k * (2 * |t.target|) <= t.CutOff()
    ensures var n, draws, stop := |t.target|, Slips(|t.target|, k), t.CutOff();
            var rest := if stop - k * (2 * n) < n then stop - k * (2 * n) else n;
            && t.ErrorDraws(INITIAL, draws, 0, stop) == k
            && |t.RunFrom(INITIAL, draws, 0, stop).0| == k * (2 * n) + rest
            && Replay("", t.RunFrom(INITIAL, draws, 0, stop).0) == t.target[..rest]
  {
    hide Typist.Next, Typist.Errs, Typist.RunFrom, Typist.ErrorDraws, CyclesAhead, Overlooks, CommonPrefix;
    var n, draws, stop := |t.target|, Slips(|t.target|, k), t.CutOff();
    SlipsAhead(n, k);
    var s := Cycles(t, draws, stop, INITIAL, 0, k);
    CarefulRest(t, draws, s, k * (2 * n), stop);
    RunRefines(t, INITIAL, draws, 0, stop);
  }

  ghost predicate ToleratesErrors(t: Typist, k: nat) {
    forall draws :: AllSampled(draws) && FewErrors(t, draws, k) ==> ComesOutRight(t, draws)
  }

  ghost predicate FewErrors(t: Typist, draws: nat -> Draw, k: nat) {
    t.ErrorDraws(INITIAL, draws, 0, t.CutOff()) <= k
  }

  /** The budget n + 2kn is attained for every length and every count of errors the cut-off leaves room for. */
  lemma TypingBudgetIsAttained(t: Typist, k: nat)
    requires Overlooks(t) && k <= 4
    ensures AllSampled(Slips(|t.target|, k)) && t.ErrorDraws(INITIAL, Slips(|t.target|, k), 0, t.CutOff()) == k
    ensures |t.RunFrom(INITIAL, Slips(|t.target|, k), 0, t.CutOff()).0| == |t.target| + 2 * k * |t.target|
  {
    hide Typist.RunFrom, Typist.ErrorDraws, Overlooks;
    Monotone(|t.target|, k, 4);
    Reorder(|t.target|, k);
    assert k * (2 * |t.target|) == 2 * |t.target| * k;
    SlipsLeadTo(t, k);
  }

  /** On every such text of at least two characters the cut-off tolerates four errors and no fifth. */
  lemma ToleratesErrorsIff(t: Typist, k: nat)
    requires Overlooks(t) && |t.target| >= 2
    ensures ToleratesErrors(t, k) <==> k <= 4
  {
    hide Typist.RunFrom, Typist.ErrorDraws, Overlooks;
    if k <= 4 {
      forall draws | AllSampled(draws) && FewErrors(t, draws, k)
        ensures ComesOutRight(t, draws)
      {
        TypingBudget(t, draws, k);
      }
    } else {
      SlipsLeadTo(t, 5);
      var draws := Slips(|t.target|, 5);
      assert AllSampled(draws) && FewErrors(t, draws, k) && !ComesOutRight(t, draws);
    }
  }

  // ----- Concrete runs -----

  lemma OverlooksOnQwerty()
    ensures Overlooks(Typist("aa", QWERTY))
  {
    hide Keyboard.RandomNeighbor, Keyboard.HasKey, QWERTY;
    QwertyIsWellLaidOut();
    QwertyHidesSlips();
    KeyA();
    NeighborIsWrong(QWERTY, 'a', 0);
  }

  lemma KeyA()
    ensures QWERTY.HasKey('a')
  {
    HasKeyIff(QWERTY, 'a');
    assert QWERTY.grid[2][0] == 'a';
  }

  /** Five slips leave the two-letter text "aa" half typed. */
  lemma FiveErrorsCanCutTheTextShort(t: Typist)
    requires t == Typist("aa", QWERTY)
    ensures AllSampled(Slips(2, 5)) && t.ErrorDraws(INITIAL, Slips(2, 5), 0, t.CutOff()) == 5
    ensures Replay("", t.RunFrom(INITIAL, Slips(2, 5), 0, t.CutOff()).0) == "a"
  {
    hide Typist.RunFrom, Typist.ErrorDraws, Overlooks, QWERTY;
    OverlooksOnQwerty();
    SlipsLeadTo(t, 5);
  }

  /** One slip on "aa", overlooked and then erased: the fourth event lies before the third. */
  lemma OneSlipCanTurnBackTime(t: Typist)
    requires t == Typist("aa", QWERTY)
    ensures AllSampled(OverlookedSlip(0)) && !KeepsTime(t, OverlookedSlip(0))
  {
    hide Keyboard.RandomNeighbor, Keyboard.HasKey, QWERTY;
    OverlooksOnQwerty();
    OverlookedSlipTurnsBackTime(t, 0);
  }
}
