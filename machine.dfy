/**
 * The machine as a value (src/engine/enigma.ts).
 *
 * A `Setting` is everything an `EnigmaMachine` holds: three stepping rotors,
 * an optional Greek rotor (the M4's fourth wheel, which never steps), a
 * reflector and a plugboard table. A key press first steps the rotors (with
 * the double-step of the middle rotor) and then sends the signal through a
 * path of stages: plugboard, right, middle and left rotor, the Greek rotor
 * when fitted, the reflector, and the same stages back in the opposite
 * order and direction. Because the way back mirrors the way in and the
 * reflector is an involution without a fixed point, the cipher of a fixed
 * setting is its own inverse and never maps a letter to itself.
 */
module Machine {
  import opened Wrappers
  import opened Alphabet
  import opened Wirings
  import opened Rotors
  import opened Reflectors
  import opened Plugboards

  // ---------------------------------------------------------------------------
  // Configuration

  /** One of the three stepping rotor slots: wheel, ring setting 1–26, start letter. */
  datatype RotorConfig = RotorConfig(name: RotorName, ringSetting: int, position: string)

  /** The M4's Greek rotor slot. */
  datatype GreekConfig = GreekConfig(name: GreekName, ringSetting: int, position: string)

  /** `MachineConfig`: `rotors` is `[left, middle, right]`. */
  datatype MachineConfig = MachineConfig(
    left: RotorConfig,
    middle: RotorConfig,
    right: RotorConfig,
    reflector: ReflectorName,
    plugboardPairs: seq<Pair>,
    greekRotor: Option<GreekConfig>)

  /** Every error the engine throws. */
  datatype MachineError =
    | DuplicateRotors
    | GreekNeedsThinReflector
    | ThinReflectorNeedsGreek
    | BadRotor(rotorError: RotorError)
    | BadPlugboard(plugboardError: PlugboardError)
    | NotALetter(input: string)

  /** The rotor constructor's error for a slot, as the machine passes it on. */
  function SlotError(ringSetting: int, position: string): (e: Option<MachineError>)
    ensures e.None? <==> RotorArgsError(ringSetting, position).None?
  {
    match RotorArgsError(ringSetting, position)
    case None => None
    case Some(err) => Some(BadRotor(err))
  }

  /**
   * The constructor's checks in the order it makes them: distinct rotors,
   * the M4 / thin reflector pairing both ways, then the rotors left, middle,
   * right and Greek, then the plugboard.
   */
  function ConfigError(c: MachineConfig): (e: Option<MachineError>)
    ensures e.Some? ==> !e.value.NotALetter?
  {
    if c.left.name == c.middle.name || c.left.name == c.right.name || c.middle.name == c.right.name then
      Some(DuplicateRotors)
    else if c.greekRotor.Some? && !IsThin(c.reflector) then Some(GreekNeedsThinReflector)
    else if c.greekRotor.None? && IsThin(c.reflector) then Some(ThinReflectorNeedsGreek)
    else if SlotError(c.left.ringSetting, c.left.position).Some? then SlotError(c.left.ringSetting, c.left.position)
    else if SlotError(c.middle.ringSetting, c.middle.position).Some? then SlotError(c.middle.ringSetting, c.middle.position)
    else if SlotError(c.right.ringSetting, c.right.position).Some? then SlotError(c.right.ringSetting, c.right.position)
    else if c.greekRotor.Some? && SlotError(c.greekRotor.value.ringSetting, c.greekRotor.value.position).Some? then
      SlotError(c.greekRotor.value.ringSetting, c.greekRotor.value.position)
    else if PairsError(c.plugboardPairs).Some? then Some(BadPlugboard(PairsError(c.plugboardPairs).value))
    else None
  }

  /** A slot's ring setting is 1..26 and its position one letter A–Z. */
  ghost predicate GoodSlot(ringSetting: int, position: string) {
    1 <= ringSetting <= ALPHABET_SIZE && IsSingleLetter(position)
  }

  /** A configuration the machine accepts, said declaratively. */
  ghost predicate ValidConfig(c: MachineConfig) {
    && c.left.name != c.middle.name && c.left.name != c.right.name && c.middle.name != c.right.name
    && (c.greekRotor.Some? <==> IsThin(c.reflector))
    && GoodSlot(c.left.ringSetting, c.left.position)
    && GoodSlot(c.middle.ringSetting, c.middle.position)
    && GoodSlot(c.right.ringSetting, c.right.position)
    && (c.greekRotor.Some? ==> GoodSlot(c.greekRotor.value.ringSetting, c.greekRotor.value.position))
    && ValidPairs(c.plugboardPairs)
  }

  /** Each error the constructor reports is about the part it names. */
  lemma ConfigErrorMeaning(c: MachineConfig)
    ensures var e := ConfigError(c);
      && (e == Some(DuplicateRotors) <==> c.left.name == c.middle.name || c.left.name == c.right.name || c.middle.name == c.right.name)
      && (e == Some(GreekNeedsThinReflector) ==> c.greekRotor.Some? && !IsThin(c.reflector))
      && (e == Some(ThinReflectorNeedsGreek) ==> c.greekRotor.None? && IsThin(c.reflector))
      && (e.Some? && e.value.BadRotor? ==>
        || Some(e.value.rotorError) == RotorArgsError(c.left.ringSetting, c.left.position)
        || Some(e.value.rotorError) == RotorArgsError(c.middle.ringSetting, c.middle.position)
        || Some(e.value.rotorError) == RotorArgsError(c.right.ringSetting, c.right.position)
        || (c.greekRotor.Some? && Some(e.value.rotorError) == RotorArgsError(c.greekRotor.value.ringSetting, c.greekRotor.value.position)))
      && (e.Some? && e.value.BadPlugboard? ==> PairsError(c.plugboardPairs) == Some(e.value.plugboardError))
  {
  }

  /** The constructor accepts exactly the valid configurations. */
  lemma ConfigErrorNoneIffValid(c: MachineConfig)
    ensures ConfigError(c).None? <==> ValidConfig(c)
  {
    PairsErrorNoneIffValid(c.plugboardPairs);
  }

  /** A Greek rotor goes with a thin reflector and only with one. */
  lemma M4NeedsThinReflector(c: MachineConfig)
    requires ConfigError(c).None?
    ensures c.greekRotor.Some? <==> c.reflector == UkwBThin || c.reflector == UkwCThin
  {
  }

  // ---------------------------------------------------------------------------
  // The machine's state

  /** Everything an `EnigmaMachine` holds that encryption reads. */
  datatype Setting = Setting(
    left: RotorState,
    middle: RotorState,
    right: RotorState,
    greek: Option<RotorState>,
    reflector: Reflector,
    plugs: seq<int>)
  {
    /** Each part is well formed. */
    ghost predicate Sound() {
      && left.Sound() && middle.Sound() && right.Sound()
      && (greek.Some? ==> greek.value.Sound())
      && reflector.Sound()
      && IsSwap(plugs)
    }

    /** Every rotor holds its named wheel's tables and notch. */
    ghost predicate Wired() {
      && left.Wired() && middle.Wired() && right.Wired()
      && (greek.Some? ==> greek.value.Wired())
    }
  }

  /** What the constructor builds from a configuration it accepts. */
  function InitialSetting(c: MachineConfig): (s: Setting)
    requires ConfigError(c).None?
    ensures s.Sound()
    ensures s.greek.Some? <==> c.greekRotor.Some?
    ensures s.reflector.name == c.reflector
  {
    ConfigErrorNoneIffValid(c);
    SwapTableInvolution(c.plugboardPairs);
    Setting(
      InitialRotorState(Standard(c.left.name), c.left.ringSetting, c.left.position),
      InitialRotorState(Standard(c.middle.name), c.middle.ringSetting, c.middle.position),
      InitialRotorState(Standard(c.right.name), c.right.ringSetting, c.right.position),
      if c.greekRotor.Some? then
        Some(InitialRotorState(Greek(c.greekRotor.value.name), c.greekRotor.value.ringSetting, c.greekRotor.value.position))
      else None,
      NewReflector(c.reflector),
      SwapTable(c.plugboardPairs))
  }

  /** Every rotor of the initial setting holds its named wheel's tables and notch. */
  lemma InitialSettingWired(c: MachineConfig)
    requires ConfigError(c).None?
    ensures InitialSetting(c).Wired()
  {
  }

  /** The initial setting part by part, each rotor built from its own slot. */
  lemma InitialSettingParts(c: MachineConfig)
    requires ConfigError(c).None?
    ensures InitialSetting(c).left == InitialRotorState(Standard(c.left.name), c.left.ringSetting, c.left.position)
    ensures InitialSetting(c).middle == InitialRotorState(Standard(c.middle.name), c.middle.ringSetting, c.middle.position)
    ensures InitialSetting(c).right == InitialRotorState(Standard(c.right.name), c.right.ringSetting, c.right.position)
    ensures c.greekRotor.Some? ==> InitialSetting(c).greek == Some(InitialRotorState(
      Greek(c.greekRotor.value.name), c.greekRotor.value.ringSetting, c.greekRotor.value.position))
    ensures InitialSetting(c).reflector == NewReflector(c.reflector)
    ensures InitialSetting(c).plugs == SwapTable(c.plugboardPairs)
  {
  }

  /** `s` and `t` are the same machine, perhaps with its rotors turned. */
  ghost predicate SameMachine(s: Setting, t: Setting) {
    && s.left == t.left.(position := s.left.position)
    && s.middle == t.middle.(position := s.middle.position)
    && s.right == t.right.(position := s.right.position)
    && s.greek == t.greek
    && s.reflector == t.reflector
    && s.plugs == t.plugs
  }

  /** `getPositions`: the window letters, `[G, L, M, R]` on an M4 and `[L, M, R]` otherwise. */
  function Positions(s: Setting): (p: seq<char>)
    ensures |p| == if s.greek.Some? then 4 else 3
    ensures forall i :: 0 <= i < |p| ==> IsLetter(p[i])
    ensures p[|p| - 3..] == [IndexToLetter(s.left.position), IndexToLetter(s.middle.position), IndexToLetter(s.right.position)]
    ensures s.greek.Some? ==> p[0] == IndexToLetter(s.greek.value.position)
  {
    (if s.greek.Some? then [IndexToLetter(s.greek.value.position)] else [])
      + [IndexToLetter(s.left.position), IndexToLetter(s.middle.position), IndexToLetter(s.right.position)]
  }

  /** Two sound settings of the same machine with the same window letters are equal. */
  lemma PositionsDetermineSetting(s: Setting, t: Setting)
    requires s.Sound() && t.Sound() && SameMachine(s, t)
    requires Positions(s) == Positions(t)
    ensures s == t
  {
    var n := |Positions(s)|;
    assert Positions(s)[n - 3..] == Positions(t)[n - 3..];
    LetterIndexRoundTrip('A', s.left.position);
    LetterIndexRoundTrip('A', t.left.position);
    LetterIndexRoundTrip('A', s.middle.position);
    LetterIndexRoundTrip('A', t.middle.position);
    LetterIndexRoundTrip('A', s.right.position);
    LetterIndexRoundTrip('A', t.right.position);
  }

  // ---------------------------------------------------------------------------
  // Stepping

  /**
   * `stepRotors`: a middle rotor at its notch steps itself and the left rotor;
   * otherwise a right rotor at its notch steps the middle rotor; the right
   * rotor always steps. The Greek rotor never does.
   */
  function StepRotors(s: Setting): (t: Setting)
    ensures SameMachine(t, s)
    ensures s.Sound() ==> t.Sound()
  {
    var middleAtNotch := RotorAtNotch(s.middle);
    var rightAtNotch := RotorAtNotch(s.right);
    if middleAtNotch then
      s.(left := Advance(s.left), middle := Advance(s.middle), right := Advance(s.right))
    else if rightAtNotch then
      s.(middle := Advance(s.middle), right := Advance(s.right))
    else
      s.(right := Advance(s.right))
  }

  /** Which rotors a key press moves, each by exactly one position. */
  lemma StepRotorsMoves(s: Setting)
    ensures StepRotors(s).right == Advance(s.right)
    ensures StepRotors(s).middle == if RotorAtNotch(s.middle) || RotorAtNotch(s.right) then Advance(s.middle) else s.middle
    ensures StepRotors(s).left == if RotorAtNotch(s.middle) then Advance(s.left) else s.left
  {
  }

  /**
   * The double-step: with the right rotor at its notch and the middle rotor one
   * short of its own, the middle rotor steps on two key presses in a row, and
   * the second time it takes the left rotor with it.
   */
  lemma DoubleStep(s: Setting)
    requires s.Sound()
    requires RotorAtNotch(s.right) && !RotorAtNotch(s.middle)
    requires RotorAtNotch(Advance(s.middle))
    ensures StepRotors(s).middle == Advance(s.middle)
    ensures StepRotors(s).left == s.left
    ensures StepRotors(StepRotors(s)).middle == Advance(Advance(s.middle))
    ensures StepRotors(StepRotors(s)).left == Advance(s.left)
  {
  }

  /** `n` key presses. */
  function StepTimes(s: Setting, n: nat): (t: Setting)
    ensures SameMachine(t, s)
  {
    if n == 0 then s else StepRotors(StepTimes(s, n - 1))
  }

  /** The right rotor moves once per key press, so it is back where it started after 26. */
  lemma {:induction false} RightRotorTurns(s: Setting, n: nat)
    ensures StepTimes(s, n).right == AdvanceTimes(s.right, n)
  {
    if n > 0 {
      RightRotorTurns(s, n - 1);
      StepRotorsMoves(StepTimes(s, n - 1));
    }
  }

  /** After 26 key presses the right rotor shows its starting letter again. */
  lemma RightRotorFullRevolution(s: Setting)
    requires s.Sound()
    ensures StepTimes(s, ALPHABET_SIZE).right == s.right
  {
    RightRotorTurns(s, ALPHABET_SIZE);
    AdvanceFullTurn(s.right);
  }

  /** The configuration of the double-step scenario: rotors I, II, III at A, D, U, rings at 1, UKW-B, no cables. */
  function DoubleStepConfig(): MachineConfig {
    MachineConfig(RotorConfig(I, 1, "A"), RotorConfig(II, 1, "D"), RotorConfig(III, 1, "U"), UkwB, [], None)
  }

  /** Starting at A-D-U, three key presses show A-D-V, A-E-W and then B-F-X. */
  lemma DoubleStepScenario()
    ensures ConfigError(DoubleStepConfig()).None?
    ensures Positions(StepTimes(InitialSetting(DoubleStepConfig()), 1)) == "ADV"
    ensures Positions(StepTimes(InitialSetting(DoubleStepConfig()), 2)) == "AEW"
    ensures Positions(StepTimes(InitialSetting(DoubleStepConfig()), 3)) == "BFX"
  {
    var s := InitialSetting(DoubleStepConfig());
    assert s.middle.notch == 4 && s.right.notch == 21;
    assert s.left.position == 0 && s.middle.position == 3 && s.right.position == 20;
  }

  // ---------------------------------------------------------------------------
  // The signal path

  /** `SignalStep['component']`: 'plugboard', 'rotor-r', 'rotor-m', 'rotor-l', 'rotor-g', 'reflector'. */
  datatype Component = Plug | RotorR | RotorM | RotorL | RotorG | Ukw

  /** `SignalStep['direction']`. */
  datatype Direction = Forward | Reverse

  /** One stage of the path: a component passed in one direction. */
  datatype Stage = Stage(component: Component, direction: Direction)

  /** One entry of the trace: the stage and the letters going in and coming out. */
  datatype SignalStep = SignalStep(component: Component, direction: Direction, inputLetter: char, outputLetter: char)

  /** The same component, the other way. */
  function Flip(st: Stage): (f: Stage)
    ensures f.component == st.component && f.direction != st.direction
  {
    Stage(st.component, if st.direction == Forward then Reverse else Forward)
  }

  /** The stages in the opposite order, each the other way: the path back. */
  function Mirror(stages: seq<Stage>): (m: seq<Stage>)
    ensures |m| == |stages|
  {
    if stages == [] then [] else Mirror(stages[1..]) + [Flip(stages[0])]
  }

  /** Mirroring a path with one stage added at its end adds the flipped stage at the front. */
  lemma {:induction false} MirrorSnoc(stages: seq<Stage>, st: Stage)
    ensures Mirror(stages + [st]) == [Flip(st)] + Mirror(stages)
  {
    if stages != [] {
      assert (stages + [st])[1..] == stages[1..] + [st];
      MirrorSnoc(stages[1..], st);
    } else {
      assert Mirror([st]) == Mirror([]) + [Flip(st)];
    }
  }

  /** Mirroring twice gives the path back. */
  lemma {:induction false} MirrorTwice(stages: seq<Stage>)
    ensures Mirror(Mirror(stages)) == stages
  {
    if stages != [] {
      MirrorTwice(stages[1..]);
      MirrorSnoc(Mirror(stages[1..]), Flip(stages[0]));
      assert Flip(Flip(stages[0])) == stages[0];
      assert [stages[0]] + stages[1..] == stages;
    }
  }

  /** The way in: plugboard, right, middle and left rotor, then the Greek rotor when fitted. */
  function Inbound(s: Setting): seq<Stage> {
    [Stage(Plug, Forward), Stage(RotorR, Forward), Stage(RotorM, Forward), Stage(RotorL, Forward)]
      + (if s.greek.Some? then [Stage(RotorG, Forward)] else [])
  }

  /** The whole path of `encryptLetter`: in, the reflector, and back out the mirrored way. */
  function SignalPath(s: Setting): (p: seq<Stage>)
    ensures |p| == if s.greek.Some? then 11 else 9
  {
    Inbound(s) + [Stage(Ukw, Forward)] + Mirror(Inbound(s))
  }

  /** The mirrored way back is Greek, left, middle, right rotor reversed, then the plugboard. */
  lemma PathBack(s: Setting)
    ensures Mirror(Inbound(s)) ==
      (if s.greek.Some? then [Stage(RotorG, Reverse)] else [])
      + [Stage(RotorL, Reverse), Stage(RotorM, Reverse), Stage(RotorR, Reverse), Stage(Plug, Reverse)]
  {
    var base := [Stage(Plug, Forward), Stage(RotorR, Forward), Stage(RotorM, Forward), Stage(RotorL, Forward)];
    assert Mirror(base[3..]) == [Stage(RotorL, Reverse)] by {
      assert base[3..][1..] == [];
    }
    assert Mirror(base[2..]) == [Stage(RotorL, Reverse), Stage(RotorM, Reverse)] by {
      assert base[2..][1..] == base[3..];
    }
    assert Mirror(base[1..]) == [Stage(RotorL, Reverse), Stage(RotorM, Reverse), Stage(RotorR, Reverse)] by {
      assert base[1..][1..] == base[2..];
    }
    assert Mirror(base) == [Stage(RotorL, Reverse), Stage(RotorM, Reverse), Stage(RotorR, Reverse), Stage(Plug, Reverse)];
    if s.greek.Some? {
      MirrorSnoc(base, Stage(RotorG, Forward));
    } else {
      assert Inbound(s) == base;
    }
  }

  /** The path stage by stage, as `encryptLetter` runs it. */
  lemma SignalPathStages(s: Setting)
    ensures SignalPath(s) ==
      if s.greek.Some? then
        [Stage(Plug, Forward), Stage(RotorR, Forward), Stage(RotorM, Forward), Stage(RotorL, Forward), Stage(RotorG, Forward),
         Stage(Ukw, Forward),
         Stage(RotorG, Reverse), Stage(RotorL, Reverse), Stage(RotorM, Reverse), Stage(RotorR, Reverse), Stage(Plug, Reverse)]
      else
        [Stage(Plug, Forward), Stage(RotorR, Forward), Stage(RotorM, Forward), Stage(RotorL, Forward),
         Stage(Ukw, Forward),
         Stage(RotorL, Reverse), Stage(RotorM, Reverse), Stage(RotorR, Reverse), Stage(Plug, Reverse)]
  {
    PathBack(s);
  }

  /** The stages of the way in, one by one, and the reflector right after them. */
  lemma PathFront(s: Setting)
    ensures |Inbound(s)| == if s.greek.Some? then 5 else 4
    ensures SignalPath(s)[0] == Stage(Plug, Forward) && SignalPath(s)[1] == Stage(RotorR, Forward)
    ensures SignalPath(s)[2] == Stage(RotorM, Forward) && SignalPath(s)[3] == Stage(RotorL, Forward)
    ensures s.greek.Some? ==> SignalPath(s)[4] == Stage(RotorG, Forward)
    ensures SignalPath(s)[|Inbound(s)|] == Stage(Ukw, Forward)
  {
    var p := SignalPath(s);
    assert p == Inbound(s) + ([Stage(Ukw, Forward)] + Mirror(Inbound(s)));
  }

  /** Every stage of the path is one the setting has: the Greek rotor only on an M4. */
  ghost predicate Fits(s: Setting, stages: seq<Stage>) {
    forall i :: 0 <= i < |stages| ==> stages[i].component == RotorG ==> s.greek.Some?
  }

  /** A rotor passed one way or the other. */
  function Turn(r: RotorState, d: Direction, x: int): (y: int)
    requires r.Sound()
    ensures 0 <= y < ALPHABET_SIZE
  {
    if d == Forward then RotorForward(r, x) else RotorReverse(r, x)
  }

  /** The signal through one stage: `swap`, `forward`/`reverse` of a rotor, or `reflect`. */
  function Pass(s: Setting, st: Stage, x: int): (y: int)
    requires s.Sound() && 0 <= x < ALPHABET_SIZE
    requires st.component == RotorG ==> s.greek.Some?
    ensures 0 <= y < ALPHABET_SIZE
  {
    match st.component
    case Plug => s.plugs[x]
    case RotorR => Turn(s.right, st.direction, x)
    case RotorM => Turn(s.middle, st.direction, x)
    case RotorL => Turn(s.left, st.direction, x)
    case RotorG => Turn(s.greek.value, st.direction, x)
    case Ukw => Reflect(s.reflector, x)
  }

  /** Passing a component one way and then the other gives the signal back; only the reflector is not like that. */
  lemma PassUndo(s: Setting, st: Stage, x: int)
    requires s.Sound() && 0 <= x < ALPHABET_SIZE
    requires st.component == RotorG ==> s.greek.Some?
    requires st.component != Ukw
    ensures Pass(s, Flip(st), Pass(s, st, x)) == x
  {
    match st.component
    case Plug =>
    case RotorR => RotorReverseUndoesForward(s.right, x);
    case RotorM => RotorReverseUndoesForward(s.middle, x);
    case RotorL => RotorReverseUndoesForward(s.left, x);
    case RotorG => RotorReverseUndoesForward(s.greek.value, x);
  }

  /** The signal after a sequence of stages. */
  function Signal(s: Setting, stages: seq<Stage>, x: int): (y: int)
    requires s.Sound() && 0 <= x < ALPHABET_SIZE && Fits(s, stages)
    ensures 0 <= y < ALPHABET_SIZE
  {
    if stages == [] then x else Signal(s, stages[1..], Pass(s, stages[0], x))
  }

  /** The trace `encryptLetter` records: one entry per stage, with the letters in and out. */
  function Trace(s: Setting, stages: seq<Stage>, x: int): (t: seq<SignalStep>)
    requires s.Sound() && 0 <= x < ALPHABET_SIZE && Fits(s, stages)
  {
    if stages == [] then []
    else
      var y := Pass(s, stages[0], x);
      [SignalStep(stages[0].component, stages[0].direction, IndexToLetter(x), IndexToLetter(y))]
        + Trace(s, stages[1..], y)
  }

  /**
   * The trace follows the path stage by stage, starts with the key's letter,
   * hands each stage's output to the next one, and ends with the lamp's letter.
   */
  lemma {:induction false} TraceShape(s: Setting, stages: seq<Stage>, x: int)
    requires s.Sound() && 0 <= x < ALPHABET_SIZE && Fits(s, stages)
    ensures |Trace(s, stages, x)| == |stages|
    ensures forall i :: 0 <= i < |stages| ==>
      Trace(s, stages, x)[i].component == stages[i].component && Trace(s, stages, x)[i].direction == stages[i].direction
    ensures stages != [] ==> Trace(s, stages, x)[0].inputLetter == IndexToLetter(x)
    ensures stages != [] ==> Trace(s, stages, x)[|stages| - 1].outputLetter == IndexToLetter(Signal(s, stages, x))
    ensures forall i :: 0 <= i < |stages| - 1 ==> Trace(s, stages, x)[i].outputLetter == Trace(s, stages, x)[i + 1].inputLetter
  {
    if stages != [] {
      var y := Pass(s, stages[0], x);
      var rest := stages[1..];
      assert Fits(s, rest) by {
        forall i | 0 <= i < |rest| ensures rest[i].component == RotorG ==> s.greek.Some? {
          assert rest[i] == stages[i + 1];
        }
      }
      TraceShape(s, rest, y);
      var t := Trace(s, stages, x);
      var head := SignalStep(stages[0].component, stages[0].direction, IndexToLetter(x), IndexToLetter(y));
      assert t == [head] + Trace(s, rest, y);
      forall i | 0 <= i < |stages|
        ensures t[i].component == stages[i].component && t[i].direction == stages[i].direction
      {
        if i > 0 {
          assert t[i] == Trace(s, rest, y)[i - 1] && stages[i] == rest[i - 1];
        }
      }
    }
  }

  /** Running two paths one after the other is running their concatenation. */
  lemma {:induction false} SignalAppend(s: Setting, a: seq<Stage>, b: seq<Stage>, x: int)
    requires s.Sound() && 0 <= x < ALPHABET_SIZE && Fits(s, a) && Fits(s, b)
    ensures Fits(s, a + b)
    ensures Signal(s, a + b, x) == Signal(s, b, Signal(s, a, x))
  {
    assert Fits(s, a + b) by {
      forall i | 0 <= i < |a + b| ensures (a + b)[i].component == RotorG ==> s.greek.Some? {
        if i < |a| {
          assert (a + b)[i] == a[i];
        } else {
          assert (a + b)[i] == b[i - |a|];
        }
      }
    }
    if a != [] {
      assert (a + b)[1..] == a[1..] + b;
      assert Fits(s, a[1..]) by {
        forall i | 0 <= i < |a[1..]| ensures a[1..][i].component == RotorG ==> s.greek.Some? {
          assert a[1..][i] == a[i + 1];
        }
      }
      SignalAppend(s, a[1..], b, Pass(s, a[0], x));
    } else {
      assert a + b == b;
    }
  }

  /** One more stage at the end of a path: the signal goes through it and the trace gains its entry. */
  lemma {:induction false} TraceSnoc(s: Setting, a: seq<Stage>, st: Stage, x: int)
    requires s.Sound() && 0 <= x < ALPHABET_SIZE && Fits(s, a)
    requires st.component == RotorG ==> s.greek.Some?
    ensures Fits(s, a + [st])
    ensures Signal(s, a + [st], x) == Pass(s, st, Signal(s, a, x))
    ensures Trace(s, a + [st], x) == Trace(s, a, x)
      + [SignalStep(st.component, st.direction, IndexToLetter(Signal(s, a, x)), IndexToLetter(Signal(s, a + [st], x)))]
  {
    assert Fits(s, [st]);
    SignalAppend(s, a, [st], x);
    assert Signal(s, [st], Signal(s, a, x)) == Signal(s, [], Pass(s, st, Signal(s, a, x)));
    if a == [] {
      assert a + [st] == [st];
    } else {
      var rest := a[1..];
      assert (a + [st])[1..] == rest + [st];
      assert Fits(s, rest) by {
        forall i | 0 <= i < |rest| ensures rest[i].component == RotorG ==> s.greek.Some? {
          assert rest[i] == a[i + 1];
        }
      }
      TraceSnoc(s, rest, st, Pass(s, a[0], x));
    }
  }

  /** A path without the reflector, and the path that mirrors it. */
  ghost predicate Invertible(s: Setting, stages: seq<Stage>) {
    Fits(s, stages) && forall i :: 0 <= i < |stages| ==> stages[i].component != Ukw
  }

  /** The mirror of an invertible path is invertible. */
  lemma {:induction false} MirrorInvertible(s: Setting, stages: seq<Stage>)
    requires Invertible(s, stages)
    ensures Invertible(s, Mirror(stages))
  {
    if stages != [] {
      var rest := stages[1..];
      assert Invertible(s, rest) by {
        forall i | 0 <= i < |rest| ensures rest[i].component == RotorG ==> s.greek.Some? {
          assert rest[i] == stages[i + 1];
        }
        forall i | 0 <= i < |rest| ensures rest[i].component != Ukw {
          assert rest[i] == stages[i + 1];
        }
      }
      MirrorInvertible(s, rest);
      var m := Mirror(stages);
      assert m == Mirror(rest) + [Flip(stages[0])];
      forall i | 0 <= i < |m|
        ensures m[i].component != Ukw && (m[i].component == RotorG ==> s.greek.Some?)
      {
        if i < |rest| {
          assert m[i] == Mirror(rest)[i];
        }
      }
    }
  }

  /** Going back along the mirrored path undoes any invertible path. */
  lemma {:induction false} MirrorUndoes(s: Setting, stages: seq<Stage>, x: int)
    requires s.Sound() && 0 <= x < ALPHABET_SIZE && Invertible(s, stages)
    ensures Invertible(s, Mirror(stages))
    ensures Signal(s, Mirror(stages), Signal(s, stages, x)) == x
  {
    MirrorInvertible(s, stages);
    if stages != [] {
      var rest := stages[1..];
      var y := Pass(s, stages[0], x);
      assert Invertible(s, rest) by {
        forall i | 0 <= i < |rest| ensures rest[i].component == RotorG ==> s.greek.Some? {
          assert rest[i] == stages[i + 1];
        }
        forall i | 0 <= i < |rest| ensures rest[i].component != Ukw {
          assert rest[i] == stages[i + 1];
        }
      }
      MirrorUndoes(s, rest, y);
      var back := [Flip(stages[0])];
      assert Fits(s, back);
      SignalAppend(s, Mirror(rest), back, Signal(s, rest, y));
      assert stages[0].component != Ukw;
      PassUndo(s, stages[0], x);
      assert Signal(s, back, y) == Signal(s, [], Pass(s, Flip(stages[0]), y));
    }
  }

  /** The way in fits the setting and has no reflector in it. */
  lemma InboundInvertible(s: Setting)
    ensures Invertible(s, Inbound(s))
  {
  }

  /** The whole path fits the setting it was built for. */
  lemma PathFits(s: Setting)
    ensures Fits(s, SignalPath(s))
  {
    var inb := Inbound(s);
    InboundInvertible(s);
    MirrorInvertible(s, inb);
    var p := SignalPath(s);
    forall i | 0 <= i < |p| ensures p[i].component == RotorG ==> s.greek.Some? {
      if i < |inb| {
        assert p[i] == inb[i];
      } else if i > |inb| {
        assert p[i] == Mirror(inb)[i - |inb| - 1];
      }
    }
  }

  /** `encryptLetter`'s signal: from the key to the lamp, in a setting already stepped. */
  function Encipher(s: Setting, x: int): (y: int)
    requires s.Sound() && 0 <= x < ALPHABET_SIZE
    ensures 0 <= y < ALPHABET_SIZE
  {
    PathFits(s);
    Signal(s, SignalPath(s), x)
  }

  /** The path as three pieces: in, reflect, back. */
  lemma EncipherPieces(s: Setting, x: int)
    requires s.Sound() && 0 <= x < ALPHABET_SIZE
    ensures Invertible(s, Inbound(s)) && Invertible(s, Mirror(Inbound(s)))
    ensures Encipher(s, x) == Signal(s, Mirror(Inbound(s)), Reflect(s.reflector, Signal(s, Inbound(s), x)))
  {
    var inb := Inbound(s);
    var ukw := [Stage(Ukw, Forward)];
    InboundInvertible(s);
    MirrorInvertible(s, inb);
    SignalAppend(s, inb, ukw, x);
    SignalAppend(s, inb + ukw, Mirror(inb), x);
    assert Signal(s, ukw, Signal(s, inb, x)) == Signal(s, [], Reflect(s.reflector, Signal(s, inb, x)));
  }

  /** The way back followed by the way in is the identity too. */
  lemma InboundUndoesOutbound(s: Setting, z: int)
    requires s.Sound() && 0 <= z < ALPHABET_SIZE
    ensures Invertible(s, Mirror(Inbound(s)))
    ensures Signal(s, Inbound(s), Signal(s, Mirror(Inbound(s)), z)) == z
  {
    InboundInvertible(s);
    MirrorInvertible(s, Inbound(s));
    MirrorUndoes(s, Mirror(Inbound(s)), z);
    MirrorTwice(Inbound(s));
  }

  /** Reciprocity: in one setting, enciphering the output gives back the input. */
  lemma EncipherReciprocal(s: Setting, x: int)
    requires s.Sound() && 0 <= x < ALPHABET_SIZE
    ensures Encipher(s, Encipher(s, x)) == x
  {
    var inb := Inbound(s);
    EncipherPieces(s, x);
    var y := Signal(s, inb, x);
    var z := Reflect(s.reflector, y);
    var e := Encipher(s, x);
    assert e == Signal(s, Mirror(inb), z);
    EncipherPieces(s, e);
    InboundUndoesOutbound(s, z);
    assert Signal(s, inb, e) == z;
    assert Reflect(s.reflector, z) == y;
    MirrorUndoes(s, inb, x);
  }

  /** No letter is ever enciphered as itself. */
  lemma EncipherNoFixedPoint(s: Setting, x: int)
    requires s.Sound() && 0 <= x < ALPHABET_SIZE
    ensures Encipher(s, x) != x
  {
    var inb := Inbound(s);
    EncipherPieces(s, x);
    var y := Signal(s, inb, x);
    var z := Reflect(s.reflector, y);
    InboundUndoesOutbound(s, z);
    assert Signal(s, inb, Encipher(s, x)) == z;
    assert z != y;
  }

  /** Enciphering is one-to-one in a fixed setting. */
  lemma EncipherInjective(s: Setting, x: int, x': int)
    requires s.Sound() && 0 <= x < ALPHABET_SIZE && 0 <= x' < ALPHABET_SIZE
    ensures Encipher(s, x) == Encipher(s, x') <==> x == x'
  {
    EncipherReciprocal(s, x);
    EncipherReciprocal(s, x');
  }

  // ---------------------------------------------------------------------------
  // Key presses

  /** `EncryptionResult`. */
  datatype EncryptionResult = EncryptionResult(
    inputLetter: string,
    outputLetter: char,
    steps: seq<SignalStep>,
    rotorPositionsBefore: seq<char>,
    rotorPositionsAfter: seq<char>)

  /**
   * `encryptLetter`: anything but one letter A–Z is refused and nothing moves;
   * otherwise the rotors step, then the signal runs the path of the stepped
   * setting. Returns the result and the new setting.
   */
  function EncryptLetter(s: Setting, letter: string): (out: (Result<EncryptionResult, MachineError>, Setting))
    requires s.Sound()
    ensures out.1.Sound() && SameMachine(out.1, s)
    ensures out.0.Failure? <==> !IsSingleLetter(letter)
    ensures out.0.Failure? ==> out.1 == s && out.0.error == NotALetter(letter)
    ensures out.0.Success? ==> out.1 == StepRotors(s)
  {
    if !IsSingleLetter(letter) then (Failure(NotALetter(letter)), s)
    else
      var t := StepRotors(s);
      var x := LetterToIndex(letter[0]);
      var y := Encipher(t, x);
      PathFits(t);
      (Success(EncryptionResult(letter, IndexToLetter(y), Trace(t, SignalPath(t), x), Positions(s), Positions(t))), t)
  }

  /** A key press on a letter, given the trace and the signal of the stepped setting's path. */
  lemma KeyPressOutcome(s: Setting, letter: string, steps: seq<SignalStep>, y: int)
    requires s.Sound() && IsSingleLetter(letter)
    requires var t := StepRotors(s);
      && Fits(t, SignalPath(t))
      && steps == Trace(t, SignalPath(t), LetterToIndex(letter[0]))
      && y == Signal(t, SignalPath(t), LetterToIndex(letter[0]))
    ensures EncryptLetter(s, letter) ==
      (Success(EncryptionResult(letter, IndexToLetter(y), steps, Positions(s), Positions(StepRotors(s)))), StepRotors(s))
  {
  }

  /** What a successful key press reports: the stepped setting's cipher of the key, a lamp letter different from the key, and the full trace. */
  lemma EncryptLetterResult(s: Setting, letter: string)
    requires s.Sound() && IsSingleLetter(letter)
    ensures var (r, t) := EncryptLetter(s, letter);
      && r.Success?
      && r.value.inputLetter == letter
      && LetterToIndex(r.value.outputLetter) == Encipher(t, LetterToIndex(letter[0]))
      && r.value.outputLetter != letter[0]
      && |r.value.steps| == (if s.greek.Some? then 11 else 9)
      && r.value.steps[0].inputLetter == letter[0]
      && r.value.steps[|r.value.steps| - 1].outputLetter == r.value.outputLetter
      && (forall i :: 0 <= i < |r.value.steps| - 1 ==> r.value.steps[i].outputLetter == r.value.steps[i + 1].inputLetter)
      && r.value.rotorPositionsBefore == Positions(s)
      && r.value.rotorPositionsAfter == Positions(t)
  {
    var t := StepRotors(s);
    var x := LetterToIndex(letter[0]);
    var y := Encipher(t, x);
    EncipherNoFixedPoint(t, x);
    PathFits(t);
    TraceShape(t, SignalPath(t), x);
    LetterIndexRoundTrip(letter[0], y);
  }

  /** `encryptMessage`: letter by letter; the first non-letter throws, after the letters before it have moved the rotors. */
  function EncryptMessage(s: Setting, message: string): (out: (Result<string, MachineError>, Setting))
    requires s.Sound()
    ensures out.1.Sound() && SameMachine(out.1, s)
    decreases |message|
  {
    if message == [] then (Success([]), s)
    else
      var (r, t) := EncryptLetter(s, [message[0]]);
      if r.Failure? then (Failure(r.error), t)
      else
        var (rest, u) := EncryptMessage(t, message[1..]);
        if rest.Failure? then (rest, u) else (Success([r.value.outputLetter] + rest.value), u)
  }

  /** The first character of a message is one key press; the rest of the message follows it. */
  lemma MessageFront(s: Setting, m: string)
    requires s.Sound() && m != []
    ensures EncryptMessage(s, m) ==
      var (r, t) := EncryptLetter(s, [m[0]]);
      if r.Failure? then (Failure(r.error), t)
      else
        var rest := EncryptMessage(t, m[1..]);
        if rest.0.Failure? then rest else (Success([r.value.outputLetter] + rest.0.value), rest.1)
  {
  }

  /** Every character is a letter A–Z. */
  ghost predicate AllLetters(m: string) {
    forall i :: 0 <= i < |m| ==> IsLetter(m[i])
  }

  lemma AllLettersTail(m: string)
    requires |m| > 0 && AllLetters(m)
    ensures AllLetters(m[1..])
  {
    forall i | 0 <= i < |m| - 1 ensures IsLetter(m[1..][i]) {
      assert m[1..][i] == m[i + 1];
    }
  }

  /** `n` key presses, counted from the first. */
  lemma {:induction false} StepTimesFront(s: Setting, n: nat)
    ensures StepTimes(StepRotors(s), n) == StepTimes(s, n + 1)
  {
    if n > 0 {
      StepTimesFront(s, n - 1);
    }
  }

  /**
   * The ciphertext of a message of letters, as a reference definition: the
   * letter at each position is enciphered by the setting after one more key
   * press.
   */
  function Cipher(s: Setting, m: string): (c: string)
    requires s.Sound() && AllLetters(m)
    decreases |m|
  {
    if m == [] then []
    else
      var t := StepRotors(s);
      AllLettersTail(m);
      [IndexToLetter(Encipher(t, LetterToIndex(m[0])))] + Cipher(t, m[1..])
  }

  /** A key press on a letter lights a different letter and steps the rotors. */
  lemma KeyPressLetter(s: Setting, k: char)
    requires s.Sound() && IsLetter(k)
    ensures var (r, t) := EncryptLetter(s, [k]);
      && r.Success? && t == StepRotors(s)
      && r.value.outputLetter == IndexToLetter(Encipher(t, LetterToIndex(k)))
  {
    assert IsSingleLetter([k]);
  }

  /** The first letter of the ciphertext, in front of the ciphertext of the rest. */
  lemma CipherFirstLetter(s: Setting, m: string)
    requires s.Sound() && |m| > 0 && AllLetters(m)
    ensures AllLetters(m[1..])
    ensures Cipher(s, m) == [IndexToLetter(Encipher(StepRotors(s), LetterToIndex(m[0])))] + Cipher(StepRotors(s), m[1..])
  {
    AllLettersTail(m);
  }

  /** One letter of `encryptMessage`: its lamp letter goes in front of what the rest of the message gives. */
  lemma MessageFirstLetter(s: Setting, m: string)
    requires s.Sound() && |m| > 0 && IsLetter(m[0])
    ensures var t := StepRotors(s);
      var (rest, u) := EncryptMessage(t, m[1..]);
      EncryptMessage(s, m) ==
        if rest.Failure? then (rest, u)
        else (Success([IndexToLetter(Encipher(t, LetterToIndex(m[0])))] + rest.value), u)
  {
    KeyPressLetter(s, m[0]);
  }

  /** `encryptMessage` on a message of letters succeeds with its `Cipher`, after one key press per letter. */
  lemma {:induction false} MessageIsCipher(s: Setting, m: string)
    requires s.Sound() && AllLetters(m)
    decreases |m|
    ensures EncryptMessage(s, m) == (Success(Cipher(s, m)), StepTimes(s, |m|))
  {
    if m != [] {
      var t := StepRotors(s);
      var rest := m[1..];
      AllLettersTail(m);
      MessageFirstLetter(s, m);
      MessageIsCipher(t, rest);
      StepTimesFront(s, |rest|);
      CipherFirstLetter(s, m);
    }
  }

  /**
   * `encryptMessage` on letters followed by a non-letter: it fails on that
   * character, and the rotors have moved once for each letter before it;
   * the rest of the message is never read.
   */
  lemma {:induction false} EncryptMessageStops(s: Setting, p: string, c: char, q: string)
    requires s.Sound() && AllLetters(p) && !IsLetter(c)
    ensures EncryptMessage(s, p + [c] + q) == (Failure(NotALetter([c])), StepTimes(s, |p|))
    decreases |p|
  {
    var m := p + [c] + q;
    if p == [] {
      assert m[0] == c;
      MessageFront(s, m);
    } else {
      var t := StepRotors(s);
      assert m[0] == p[0] && m[1..] == p[1..] + [c] + q;
      AllLettersTail(p);
      EncryptMessageStops(t, p[1..], c, q);
      StepTimesFront(s, |p| - 1);
      StopsAfterLetter(s, m, StepTimes(s, |p|), [c]);
    }
  }

  /** A letter in front of a message that fails keeps the failure. */
  lemma StopsAfterLetter(s: Setting, m: string, u: Setting, bad: string)
    requires s.Sound() && |m| > 0 && IsLetter(m[0])
    requires EncryptMessage(StepRotors(s), m[1..]) == (Failure(NotALetter(bad)), u)
    ensures EncryptMessage(s, m) == (Failure(NotALetter(bad)), u)
  {
    MessageFirstLetter(s, m);
  }

  /** Position by position, the ciphertext differs from the message and is made of letters. */
  lemma {:induction false} CipherShape(s: Setting, m: string)
    requires s.Sound() && AllLetters(m)
    decreases |m|
    ensures |Cipher(s, m)| == |m|
    ensures AllLetters(Cipher(s, m))
    ensures forall i :: 0 <= i < |m| ==> Cipher(s, m)[i] != m[i]
  {
    if m != [] {
      var t := StepRotors(s);
      var x := LetterToIndex(m[0]);
      var rest := m[1..];
      AllLettersTail(m);
      CipherShape(t, rest);
      EncipherNoFixedPoint(t, x);
      LetterIndexRoundTrip(m[0], Encipher(t, x));
      var c := Cipher(s, m);
      var cr := Cipher(t, rest);
      assert c == [IndexToLetter(Encipher(t, x))] + cr;
      forall i | 0 <= i < |m| ensures c[i] != m[i] && IsLetter(c[i]) {
        if i > 0 {
          assert c[i] == cr[i - 1] && m[i] == rest[i - 1];
        }
      }
    }
  }

  /** Enciphering the ciphertext from the same setting gives the message back. */
  lemma {:induction false} CipherReciprocal(s: Setting, m: string)
    requires s.Sound() && AllLetters(m)
    decreases |m|
    ensures AllLetters(Cipher(s, m)) && Cipher(s, Cipher(s, m)) == m
  {
    CipherShape(s, m);
    if m != [] {
      var t := StepRotors(s);
      var x := LetterToIndex(m[0]);
      var rest := m[1..];
      AllLettersTail(m);
      CipherReciprocal(t, rest);
      var c := Cipher(s, m);
      var y := Encipher(t, x);
      assert c == [IndexToLetter(y)] + Cipher(t, rest);
      assert c[0] == IndexToLetter(y) && c[1..] == Cipher(t, rest);
      LetterIndexRoundTrip(m[0], y);
      EncipherReciprocal(t, x);
      assert [m[0]] + rest == m;
    }
  }

  /**
   * Reciprocity of messages: from the same starting setting, the ciphertext of
   * a message of letters enciphers back to the message, and both runs leave the
   * rotors in the same place. The ciphertext is as long as the message and
   * differs from it at every position.
   */
  lemma MessageReciprocal(s: Setting, m: string)
    requires s.Sound() && AllLetters(m)
    ensures EncryptMessage(s, m).0.Success?
    ensures var c := EncryptMessage(s, m).0.value;
      && |c| == |m|
      && (forall i :: 0 <= i < |m| ==> c[i] != m[i])
      && EncryptMessage(s, c) == (Success(m), EncryptMessage(s, m).1)
  {
    MessageIsCipher(s, m);
    CipherShape(s, m);
    CipherReciprocal(s, m);
    MessageIsCipher(s, Cipher(s, m));
  }

  /** `MachineState`: the configuration and the window letters. */
  datatype MachineState = MachineState(config: MachineConfig, rotorPositions: seq<char>)
}
