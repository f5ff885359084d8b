/**
 * The step-by-step tutorial (src/hooks/useTutorial.ts): one key press shown
 * as a list of entries — the key, each stage of the signal path, the lamp —
 * and the cursor that walks through them.
 */
module Tutorial {
  import opened Wrappers
  import opened Alphabet
  import opened Machine

  /** `highlightComponent`: the key, a stage of the signal path, or the lamp. */
  datatype Highlight = KeyPress | Part(component: Component) | Lamp

  /**
   * `TutorialStep`, without its label and description prose. `direction` is
   * `None` for 'none'; `described` says whether `COMPONENT_DESCRIPTIONS` has
   * an entry for it.
   */
  datatype TutorialStep = TutorialStep(
    stepIndex: int,
    totalSteps: int,
    highlight: Highlight,
    direction: Option<Direction>,
    inputLetter: string,
    outputLetter: string,
    described: bool)

  /**
   * `COMPONENT_DESCRIPTIONS` has the key `${component}-${direction}`: it has
   * none for the Greek rotor, and for the reflector only 'reflector-forward'.
   */
  predicate Described(c: Component, d: Direction) {
    c != RotorG && (c != Ukw || d == Forward)
  }

  /** The entry for signal step `s`. */
  function SignalEntry(s: SignalStep, stepIndex: int, totalSteps: int): TutorialStep {
    TutorialStep(stepIndex, totalSteps, Part(s.component), Some(s.direction),
                 [s.inputLetter], [s.outputLetter], Described(s.component, s.direction))
  }

  /**
   * `buildTutorialSteps`: the key-press bookend, one entry per signal step,
   * and the lamp bookend; each entry knows its own index and the count.
   */
  function TutorialSteps(result: EncryptionResult): (t: seq<TutorialStep>)
    ensures |t| == |result.steps| + 2
    ensures forall i :: 0 <= i < |t| ==> t[i].stepIndex == i && t[i].totalSteps == |t|
    ensures t[0].highlight == KeyPress && t[0].direction == None
    ensures t[0].inputLetter == result.inputLetter && t[0].outputLetter == result.inputLetter
    ensures t[|t| - 1].highlight == Lamp && t[|t| - 1].direction == None
    ensures t[|t| - 1].inputLetter == [result.outputLetter] && t[|t| - 1].outputLetter == [result.outputLetter]
    ensures forall i :: 0 <= i < |result.steps| ==>
      && t[i + 1].highlight == Part(result.steps[i].component)
      && t[i + 1].direction == Some(result.steps[i].direction)
      && t[i + 1].inputLetter == [result.steps[i].inputLetter]
      && t[i + 1].outputLetter == [result.steps[i].outputLetter]
    ensures t[0].described && t[|t| - 1].described
    ensures forall i :: 0 <= i < |result.steps| ==>
      t[i + 1].described == Described(result.steps[i].component, result.steps[i].direction)
  {
    var total := |result.steps| + 2;
    [TutorialStep(0, total, KeyPress, None, result.inputLetter, result.inputLetter, true)]
    + seq(|result.steps|, i requires 0 <= i < |result.steps| => SignalEntry(result.steps[i], i + 1, total))
    + [TutorialStep(total - 1, total, Lamp, None, [result.outputLetter], [result.outputLetter], true)]
  }

  /** `buildTutorialSteps` as the source runs it: push the key entry, then one entry per step, then the lamp. */
  method BuildTutorialSteps(result: EncryptionResult) returns (steps: seq<TutorialStep>)
    ensures steps == TutorialSteps(result)
  {
    var allSteps := result.steps;
    var totalSteps := |allSteps| + 2;
    ghost var want := TutorialSteps(result);
    steps := [TutorialStep(0, totalSteps, KeyPress, None, result.inputLetter, result.inputLetter, true)];
    for i := 0 to |allSteps|
      invariant steps == want[..i + 1]
    {
      var s := allSteps[i];
      steps := steps + [SignalEntry(s, i + 1, totalSteps)];
      assert want[..i + 2] == want[..i + 1] + [want[i + 1]];
    }
    steps := steps + [TutorialStep(|allSteps| + 1, totalSteps, Lamp, None, [result.outputLetter], [result.outputLetter], true)];
    assert want == want[..|allSteps| + 1] + [want[|allSteps| + 1]];
  }

  /**
   * The tutorial of one key press follows the signal: 11 entries (13 with a
   * Greek rotor), starting with the key's letter, each entry handing its
   * letter to the next, and ending with the lamp's letter, which is never
   * the key's.
   */
  lemma KeyPressTutorial(s: Setting, inputLetter: string)
    requires s.Sound() && IsSingleLetter(inputLetter)
    ensures EncryptLetter(s, inputLetter).0.Success?
    ensures var t := TutorialSteps(EncryptLetter(s, inputLetter).0.value);
      && |t| == (if s.greek.Some? then 13 else 11)
      && t[0].inputLetter == inputLetter
      && (forall k :: 0 <= k < |t| - 1 ==> t[k].outputLetter == t[k + 1].inputLetter)
      && t[|t| - 1].outputLetter != inputLetter
  {
    EncryptLetterResult(s, inputLetter);
    var result := EncryptLetter(s, inputLetter).0.value;
    var t := TutorialSteps(result);
    var n := |result.steps|;
    forall k | 0 <= k < |t| - 1
      ensures t[k].outputLetter == t[k + 1].inputLetter
    {
      if k == 0 {
        assert t[1].inputLetter == [result.steps[0].inputLetter];
        assert inputLetter == [inputLetter[0]];
      } else if k < n {
        assert t[k].outputLetter == [result.steps[k - 1].outputLetter];
        assert t[k + 1].inputLetter == [result.steps[k].inputLetter];
      }
    }
    assert t[|t| - 1].outputLetter == [result.outputLetter];
    assert inputLetter == [inputLetter[0]];
  }

  /**
   * Which entries of a key press's tutorial have a description: all of them
   * on a three-rotor machine; on an M4 all but the two Greek-rotor entries
   * (6th and 8th), for which `COMPONENT_DESCRIPTIONS` has no key.
   */
  lemma KeyPressDescriptions(s: Setting, inputLetter: string)
    requires s.Sound() && IsSingleLetter(inputLetter)
    ensures EncryptLetter(s, inputLetter).0.Success?
    ensures var t := TutorialSteps(EncryptLetter(s, inputLetter).0.value);
      && (s.greek.None? ==> forall k :: 0 <= k < |t| ==> t[k].described)
      && (s.greek.Some? ==> forall k :: 0 <= k < |t| ==> (t[k].described <==> k != 5 && k != 7))
  {
    EncryptLetterResult(s, inputLetter);
    var u := StepRotors(s);
    var x := LetterToIndex(inputLetter[0]);
    PathFits(u);
    TraceShape(u, SignalPath(u), x);
    PathDescribed(u);
    var result := EncryptLetter(s, inputLetter).0.value;
    assert result.steps == Trace(u, SignalPath(u), x);
    var t := TutorialSteps(result);
    forall k | 1 <= k < |t| - 1
      ensures t[k].described == Described(SignalPath(u)[k - 1].component, SignalPath(u)[k - 1].direction)
    {
      assert t[k].described == Described(result.steps[k - 1].component, result.steps[k - 1].direction);
    }
  }

  /** Every stage of the signal path has a description but the Greek rotor's two. */
  lemma PathDescribed(s: Setting)
    ensures forall k :: 0 <= k < |SignalPath(s)| ==>
      (Described(SignalPath(s)[k].component, SignalPath(s)[k].direction) <==> s.greek.None? || (k != 4 && k != 6))
  {
    SignalPathStages(s);
  }

  /** `encryptionResult` then `tutorialSteps`: no entries when the machine cannot be built or the letter is refused. */
  function TutorialFor(config: MachineConfig, inputLetter: string): (t: seq<TutorialStep>)
    ensures t == [] <==> ConfigError(config).Some? || !IsSingleLetter(inputLetter)
    ensures t != [] ==> t == TutorialSteps(EncryptLetter(InitialSetting(config), inputLetter).0.value)
  {
    if ConfigError(config).Some? || !IsSingleLetter(inputLetter) then []
    else
      match EncryptLetter(InitialSetting(config), inputLetter).0
      case Failure(_) => []
      case Success(result) => TutorialSteps(result)
  }

  /** The tutorial of a buildable machine and a letter has 11 entries, 13 on an M4, and follows the signal. */
  lemma TutorialFollowsSignal(config: MachineConfig, inputLetter: string)
    requires ConfigError(config).None? && IsSingleLetter(inputLetter)
    ensures var t := TutorialFor(config, inputLetter);
      && |t| == (if config.greekRotor.Some? then 13 else 11)
      && t[0].inputLetter == inputLetter
      && (forall k :: 0 <= k < |t| - 1 ==> t[k].outputLetter == t[k + 1].inputLetter)
      && t[|t| - 1].outputLetter != inputLetter
  {
    KeyPressTutorial(InitialSetting(config), inputLetter);
  }

  // ---------------------------------------------------------------------------
  // The cursor

  function Min(a: int, b: int): int {
    if a <= b then a else b
  }

  function Max(a: int, b: int): int {
    if a >= b then a else b
  }

  /**
   * `nextStep`: one entry on, stopping at the last. With no entries at all
   * it gives -1, where `tutorialSteps[-1] ?? null` shows nothing.
   */
  function NextStep(prev: int, len: int): (next: int)
    ensures 0 <= prev < len ==> 0 <= next < len
    ensures prev < len - 1 ==> next == prev + 1
    ensures prev >= len - 1 ==> next == len - 1
  {
    Min(prev + 1, len - 1)
  }

  /** `prevStep`: one entry back, stopping at the first. */
  function PrevStep(prev: int): (next: int)
    ensures prev > 0 ==> next == prev - 1
    ensures prev <= 0 ==> next == 0
  {
    Max(prev - 1, 0)
  }

  /** `goToStep`: the requested entry, clamped to the first and the last. */
  function GoToStep(step: int, len: int): (r: int)
    ensures len >= 1 ==> 0 <= r < len
    ensures 0 <= step < len ==> r == step
  {
    Max(0, Min(step, len - 1))
  }

  /** Of all entries, `goToStep` lands on one nearest to the request. */
  lemma GoToStepNearest(step: int, len: int, j: int)
    requires 0 <= j < len
    ensures 0 <= GoToStep(step, len) < len
    ensures Distance(GoToStep(step, len), step) <= Distance(j, step)
  {
  }

  function Distance(a: int, b: int): nat {
    if a >= b then a - b else b - a
  }

  /** Forward then back returns to the same entry, except from the last one. */
  lemma NextThenPrev(prev: int, len: int)
    requires 0 <= prev < len - 1
    ensures PrevStep(NextStep(prev, len)) == prev
  {
  }

  /** Back then forward returns to the same entry, except from the first one. */
  lemma PrevThenNext(prev: int, len: int)
    requires 0 < prev < len
    ensures NextStep(PrevStep(prev), len) == prev
  {
  }

  /** `nextStep` pressed `n` times. */
  function NextTimes(prev: int, len: int, n: nat): int
    decreases n
  {
    if n == 0 then prev else NextStep(NextTimes(prev, len, n - 1), len)
  }

  /** Pressing `nextStep` `n` times moves `n` entries on, but never past the last. */
  lemma {:induction false} NextTimesStops(prev: int, len: int, n: nat)
    requires 0 <= prev < len
    ensures NextTimes(prev, len, n) == Min(prev + n, len - 1)
    decreases n
  {
    if n > 0 {
      NextTimesStops(prev, len, n - 1);
    }
  }

  // ---------------------------------------------------------------------------
  // The input letter

  /**
   * The one letter A–Z that `letter.toUpperCase()` is, if it is one: only a
   * single character A–Z, a–z, 'ı' (U+0131, upper-cased to 'I') or 'ſ'
   * (U+017F, upper-cased to 'S') upper-cases to one letter A–Z.
   */
  function UpperLetter(letter: string): (u: Option<char>)
    ensures u.Some? ==> IsLetter(u.value)
  {
    if |letter| != 1 then None
    else
      var c := letter[0];
      if 'A' <= c <= 'Z' then Some(c)
      else if 'a' <= c <= 'z' then Some((c as int - 'a' as int + 'A' as int) as char)
      else if c == '\U{0131}' then Some('I')
      else if c == '\U{017F}' then Some('S')
      else None
  }

  /** The tutorial's state: the letter pressed and the entry shown. */
  datatype TutorialState = TutorialState(inputLetter: string, currentStep: int)

  /** `updateInputLetter`: an accepted letter is taken upper-cased and the walk restarts; anything else changes nothing. */
  function UpdateInputLetter(st: TutorialState, letter: string): (r: TutorialState)
    ensures UpperLetter(letter).Some? ==> r == TutorialState([UpperLetter(letter).value], 0)
    ensures UpperLetter(letter).None? ==> r == st
    ensures IsSingleLetter(r.inputLetter) || r.inputLetter == st.inputLetter
  {
    match UpperLetter(letter)
    case Some(u) => TutorialState([u], 0)
    case None => st
  }

  /** Upper-case and lower-case keys choose the same letter; digits and longer strings are ignored. */
  lemma UpdateInputLetterCases(st: TutorialState, c: char)
    requires 'a' <= c <= 'z'
    ensures UpdateInputLetter(st, [c]) == UpdateInputLetter(st, [(c as int - 32) as char])
    ensures UpdateInputLetter(st, [c]).inputLetter[0] == (c as int - 32) as char
    ensures UpdateInputLetter(st, "1") == st
    ensures UpdateInputLetter(st, [c, c]) == st
  {
  }

  /** A letter already accepted is accepted again unchanged. */
  lemma UpdateInputLetterTwice(st: TutorialState, letter: string)
    ensures UpdateInputLetter(UpdateInputLetter(st, letter), letter) == UpdateInputLetter(st, letter)
  {
  }

  /** An accepted letter is one the engine encrypts. */
  lemma AcceptedLetterEncrypts(st: TutorialState, letter: string)
    requires UpperLetter(letter).Some?
    ensures IsSingleLetter(UpdateInputLetter(st, letter).inputLetter)
  {
  }
}
