/**
 * The machine object (src/engine/enigma.ts).
 *
 * `EnigmaMachine` owns three stepping rotors, an optional Greek rotor, a
 * reflector and a plugboard, all fixed at construction; the rotors'
 * positions are the only thing that ever changes. Every method is proved to
 * do to the object exactly what the value-level model in module `Machine`
 * does to a `Setting`, so the properties proved there (reciprocity, no
 * letter enciphered as itself, the double-step) hold of the object too.
 */
module Enigma {
  import opened Wrappers
  import opened Alphabet
  import opened Wirings
  import opened Rotors
  import opened Reflectors
  import opened Plugboards
  import opened Machine

  /** `initialPositions`: the start letters in window order, the Greek rotor's first on an M4. */
  function InitialPositions(c: MachineConfig): (p: seq<string>)
    ensures |p| == if c.greekRotor.Some? then 4 else 3
  {
    if c.greekRotor.Some? then [c.greekRotor.value.position, c.left.position, c.middle.position, c.right.position]
    else [c.left.position, c.middle.position, c.right.position]
  }

  /** The start letters a setting's rotors show, as one-letter strings in window order. */
  function StartLetters(s: Setting): seq<string> {
    var lmr := [[IndexToLetter(s.left.position)], [IndexToLetter(s.middle.position)], [IndexToLetter(s.right.position)]];
    if s.greek.Some? then [[IndexToLetter(s.greek.value.position)]] + lmr else lmr
  }

  /** A slot's start letter is the one its freshly built rotor shows. */
  lemma SlotStartLetter(name: Wheel, ringSetting: int, position: string)
    requires RotorArgsError(ringSetting, position).None?
    ensures [IndexToLetter(InitialRotorState(name, ringSetting, position).position)] == position
  {
  }

  /** The configuration's start letters are the ones shown by a setting whose rotors were built from its slots. */
  lemma StartLettersOfConfig(c: MachineConfig, s: Setting)
    requires RotorArgsError(c.left.ringSetting, c.left.position).None?
    requires RotorArgsError(c.middle.ringSetting, c.middle.position).None?
    requires RotorArgsError(c.right.ringSetting, c.right.position).None?
    requires s.left == InitialRotorState(Standard(c.left.name), c.left.ringSetting, c.left.position)
    requires s.middle == InitialRotorState(Standard(c.middle.name), c.middle.ringSetting, c.middle.position)
    requires s.right == InitialRotorState(Standard(c.right.name), c.right.ringSetting, c.right.position)
    requires s.greek.Some? <==> c.greekRotor.Some?
    requires c.greekRotor.Some? ==>
      && RotorArgsError(c.greekRotor.value.ringSetting, c.greekRotor.value.position).None?
      && s.greek.value == InitialRotorState(Greek(c.greekRotor.value.name), c.greekRotor.value.ringSetting, c.greekRotor.value.position)
    ensures InitialPositions(c) == StartLetters(s)
  {
    SlotStartLetter(Standard(c.left.name), c.left.ringSetting, c.left.position);
    SlotStartLetter(Standard(c.middle.name), c.middle.ringSetting, c.middle.position);
    SlotStartLetter(Standard(c.right.name), c.right.ringSetting, c.right.position);
    if c.greekRotor.Some? {
      var g := c.greekRotor.value;
      SlotStartLetter(Greek(g.name), g.ringSetting, g.position);
    }
  }

  /** A message result with `out` already produced in front of it; a failure stays a failure. */
  function Prepend(out: string, rest: (Result<string, MachineError>, Setting)): (Result<string, MachineError>, Setting) {
    if rest.0.Failure? then rest else (Success(out + rest.0.value), rest.1)
  }

  /** Nothing in front changes nothing. */
  lemma PrependNothing(rest: (Result<string, MachineError>, Setting))
    ensures Prepend("", rest) == rest
  {
    if rest.0.Success? {
      assert "" + rest.0.value == rest.0.value;
    }
  }

  /** One key press of `encryptMessage`, seen from the output produced so far. */
  lemma PrependStep(s: Setting, m: string, out: string)
    requires s.Sound() && m != []
    ensures var (r, t) := Machine.EncryptLetter(s, [m[0]]);
      Prepend(out, Machine.EncryptMessage(s, m)) ==
        if r.Failure? then (Failure(r.error), t)
        else Prepend(out + [r.value.outputLetter], Machine.EncryptMessage(t, m[1..]))
  {
    MessageFront(s, m);
    var (r, t) := Machine.EncryptLetter(s, [m[0]]);
    if r.Success? {
      var rest := Machine.EncryptMessage(t, m[1..]);
      if rest.0.Success? {
        assert out + ([r.value.outputLetter] + rest.0.value) == (out + [r.value.outputLetter]) + rest.0.value;
      }
    }
  }

  /** `class EnigmaMachine`. */
  class EnigmaMachine {
    const leftRotor: Rotor
    const middleRotor: Rotor
    const rightRotor: Rotor
    const greekRotor: Option<Rotor>
    const reflector: Reflector
    const plugboard: Plugboard
    const config: MachineConfig
    const initialPositions: seq<string>
    const isM4: bool
    /** The setting the configuration builds; the machine only ever turns its rotors away from it. */
    ghost const initial: Setting

    /** The rotor objects; their positions are the machine's only mutable state. */
    function Wheels(): set<Rotor> {
      {leftRotor, middleRotor, rightRotor} + if greekRotor.Some? then {greekRotor.value} else {}
    }

    /** The machine as a `Setting`: what encryption reads. */
    function State(): Setting
      reads Wheels()
    {
      Setting(
        leftRotor.State(), middleRotor.State(), rightRotor.State(),
        if greekRotor.Some? then Some(greekRotor.value.State()) else None,
        reflector, plugboard.swapTable)
    }

    /** Four distinct rotor objects, each valid, and the initial setting with only the positions moved. */
    ghost predicate Valid()
      reads Wheels()
    {
      && leftRotor != middleRotor && leftRotor != rightRotor && middleRotor != rightRotor
      && (greekRotor.Some? ==> greekRotor.value != leftRotor && greekRotor.value != middleRotor && greekRotor.value != rightRotor)
      && leftRotor.Valid() && middleRotor.Valid() && rightRotor.Valid()
      && (greekRotor.Some? ==> greekRotor.value.Valid())
      && plugboard.Valid() && reflector.Sound()
      && initial.Sound() && SameMachine(State(), initial)
      && isM4 == initial.greek.Some?
      && initialPositions == StartLetters(initial)
    }

    /** What encryption needs: every part well formed. */
    ghost predicate Ready()
      reads Wheels()
    {
      State().Sound()
    }

    /** The fixed parts agree with an accepted configuration; nothing can change this once built. */
    ghost predicate Configured() {
      && ConfigError(config).None?
      && initial == InitialSetting(config)
      && isM4 == config.greekRotor.Some?
      && initialPositions == InitialPositions(config)
    }

    /** The constructor once every part of `initial`, the setting `config` builds, has been built. */
    constructor(config: MachineConfig, ghost initial: Setting,
                left: Rotor, middle: Rotor, right: Rotor, greek: Option<Rotor>, board: Plugboard)
      requires ConfigError(config).None? && initial == InitialSetting(config)
      requires left != middle && left != right && middle != right
      requires greek.Some? ==> greek.value != left && greek.value != middle && greek.value != right
      requires left.Valid() && left.State() == initial.left
      requires middle.Valid() && middle.State() == initial.middle
      requires right.Valid() && right.State() == initial.right
      requires greek.Some? <==> initial.greek.Some?
      requires greek.Some? ==> greek.value.Valid() && greek.value.State() == initial.greek.value
      requires board.Valid() && board.swapTable == initial.plugs
      ensures Valid() && Configured()
      ensures State() == initial
      ensures leftRotor == left && middleRotor == middle && rightRotor == right && greekRotor == greek
    {
      InitialSettingParts(config);
      ConfigErrorNoneIffValid(config);
      StartLettersOfConfig(config, initial);
      isM4 := config.greekRotor.Some?;
      this.config := config;
      leftRotor := left;
      middleRotor := middle;
      rightRotor := right;
      greekRotor := greek;
      reflector := NewReflector(config.reflector);
      plugboard := board;
      initialPositions := InitialPositions(config);
      this.initial := initial;
    }

    /**
     * `new EnigmaMachine(config)`: the checks in the constructor's order
     * (distinct rotors, the M4 and thin reflector pairing, each rotor's own
     * checks, the plugboard's), failing with the first; otherwise a fresh
     * machine in the configuration's initial setting.
     */
    static method New(config: MachineConfig) returns (r: Result<EnigmaMachine, MachineError>)
      ensures r.Failure? <==> ConfigError(config).Some?
      ensures r.Failure? ==> r.error == ConfigError(config).value
      ensures r.Success? ==> fresh(r.value) && r.value.Valid() && r.value.Configured()
      ensures r.Success? ==> fresh(r.value.leftRotor) && fresh(r.value.middleRotor) && fresh(r.value.rightRotor)
      ensures r.Success? && r.value.greekRotor.Some? ==> fresh(r.value.greekRotor.value)
      ensures r.Success? ==> r.value.State() == InitialSetting(config)
    {
      if config.left.name == config.middle.name || config.left.name == config.right.name || config.middle.name == config.right.name {
        return Failure(DuplicateRotors);
      }
      var isM4 := config.greekRotor.Some?;
      if isM4 && !IsThin(config.reflector) {
        return Failure(GreekNeedsThinReflector);
      }
      if !isM4 && IsThin(config.reflector) {
        return Failure(ThinReflectorNeedsGreek);
      }
      var left := Rotor.New(Standard(config.left.name), config.left.ringSetting, config.left.position);
      if left.Failure? {
        return Failure(BadRotor(left.error));
      }
      var middle := Rotor.New(Standard(config.middle.name), config.middle.ringSetting, config.middle.position);
      if middle.Failure? {
        return Failure(BadRotor(middle.error));
      }
      var right := Rotor.New(Standard(config.right.name), config.right.ringSetting, config.right.position);
      if right.Failure? {
        return Failure(BadRotor(right.error));
      }
      var greek: Option<Rotor> := None;
      if config.greekRotor.Some? {
        var g := config.greekRotor.value;
        var built := Rotor.New(Greek(g.name), g.ringSetting, g.position);
        if built.Failure? {
          return Failure(BadRotor(built.error));
        }
        greek := Some(built.value);
      }
      var board := Plugboard.New(config.plugboardPairs);
      if board.Failure? {
        return Failure(BadPlugboard(board.error));
      }
      ghost var initial := InitialSetting(config);
      InitialSettingParts(config);
      var machine := new EnigmaMachine(config, initial, left.value, middle.value, right.value, greek, board.value);
      return Success(machine);
    }

    /** `stepRotors`: the double-stepping mechanism; the Greek rotor is not touched. */
    method StepRotors()
      requires Valid()
      modifies leftRotor, middleRotor, rightRotor
      ensures Valid()
      ensures State() == Machine.StepRotors(old(State()))
    {
      var middleAtNotch := middleRotor.AtNotch();
      var rightAtNotch := rightRotor.AtNotch();
      if middleAtNotch {
        middleRotor.Step();
        leftRotor.Step();
      } else if rightAtNotch {
        middleRotor.Step();
      }
      rightRotor.Step();
    }

    /** `getPositions`: the window letters, `[G, L, M, R]` on an M4 and `[L, M, R]` otherwise. */
    method GetPositions() returns (positions: seq<char>)
      requires Valid()
      ensures positions == Positions(State())
    {
      positions := [];
      if greekRotor.Some? {
        positions := positions + [greekRotor.value.PositionLetter()];
      }
      positions := positions + [leftRotor.PositionLetter(), middleRotor.PositionLetter(), rightRotor.PositionLetter()];
    }

    /** `getState`: the configuration and the window letters. */
    method GetState() returns (state: MachineState)
      requires Valid()
      ensures state == MachineState(config, Positions(State()))
    {
      var positions := GetPositions();
      state := MachineState(config, positions);
    }

    /**
     * One line of `encryptLetter`'s signal path: the signal goes through one
     * component in one direction and the trace records the letters in and out.
     * `st` is stage `k` of `path`, and `x` the key's index.
     */
    method Record(st: Stage, signal: int, steps: seq<SignalStep>, ghost path: seq<Stage>, ghost k: nat, ghost x: int)
      returns (signal': int, steps': seq<SignalStep>)
      requires Ready() && 0 <= x < ALPHABET_SIZE && Fits(State(), path)
      requires k < |path| && path[k] == st
      requires Fits(State(), path[..k])
      requires signal == Signal(State(), path[..k], x) && steps == Trace(State(), path[..k], x)
      ensures Fits(State(), path[..k + 1])
      ensures signal' == Signal(State(), path[..k + 1], x) && steps' == Trace(State(), path[..k + 1], x)
    {
      assert path[..k + 1] == path[..k] + [st];
      TraceSnoc(State(), path[..k], st, x);
      match st.component {
        case Plug => signal' := plugboard.Swap(signal);
        case RotorR => signal' := if st.direction == Forward then rightRotor.Forward(signal) else rightRotor.Reverse(signal);
        case RotorM => signal' := if st.direction == Forward then middleRotor.Forward(signal) else middleRotor.Reverse(signal);
        case RotorL => signal' := if st.direction == Forward then leftRotor.Forward(signal) else leftRotor.Reverse(signal);
        case RotorG => signal' := if st.direction == Forward then greekRotor.value.Forward(signal) else greekRotor.value.Reverse(signal);
        case Ukw => signal' := Reflect(reflector, signal);
      }
      steps' := steps + [SignalStep(st.component, st.direction, IndexToLetter(signal), IndexToLetter(signal'))];
    }

    /** The first half of `encryptLetter`'s signal path: plugboard, right, middle, left, (Greek,) reflector. */
    method SignalIn(ghost path: seq<Stage>, x: int) returns (signal: int, steps: seq<SignalStep>, ghost k: nat)
      requires Ready() && 0 <= x < ALPHABET_SIZE
      requires path == SignalPath(State()) && Fits(State(), path)
      ensures k == |Inbound(State())| + 1 && k < |path|
      ensures Fits(State(), path[..k])
      ensures signal == Signal(State(), path[..k], x) && steps == Trace(State(), path[..k], x)
    {
      PathFront(State());
      signal := x;
      steps := [];
      k := 0;
      assert path[..0] == [];
      signal, steps := Record(Stage(Plug, Forward), signal, steps, path, k, x);
      k := k + 1;
      signal, steps := Record(Stage(RotorR, Forward), signal, steps, path, k, x);
      k := k + 1;
      signal, steps := Record(Stage(RotorM, Forward), signal, steps, path, k, x);
      k := k + 1;
      signal, steps := Record(Stage(RotorL, Forward), signal, steps, path, k, x);
      k := k + 1;
      if greekRotor.Some? {
        signal, steps := Record(Stage(RotorG, Forward), signal, steps, path, k, x);
        k := k + 1;
      }
      signal, steps := Record(Stage(Ukw, Forward), signal, steps, path, k, x);
      k := k + 1;
    }

    /** The second half: (Greek,) left, middle, right rotor reversed, then the plugboard. */
    method SignalOut(ghost path: seq<Stage>, x: int, signal: int, steps: seq<SignalStep>, ghost k: nat)
      returns (signal': int, steps': seq<SignalStep>)
      requires Ready() && 0 <= x < ALPHABET_SIZE
      requires path == SignalPath(State()) && Fits(State(), path)
      requires k == |Inbound(State())| + 1 && k < |path|
      requires Fits(State(), path[..k])
      requires signal == Signal(State(), path[..k], x) && steps == Trace(State(), path[..k], x)
      ensures signal' == Signal(State(), path, x) && steps' == Trace(State(), path, x)
    {
      SignalPathStages(State());
      signal', steps' := signal, steps;
      ghost var j := k;
      if greekRotor.Some? {
        signal', steps' := Record(Stage(RotorG, Reverse), signal', steps', path, j, x);
        j := j + 1;
      }
      signal', steps' := Record(Stage(RotorL, Reverse), signal', steps', path, j, x);
      j := j + 1;
      signal', steps' := Record(Stage(RotorM, Reverse), signal', steps', path, j, x);
      j := j + 1;
      signal', steps' := Record(Stage(RotorR, Reverse), signal', steps', path, j, x);
      j := j + 1;
      signal', steps' := Record(Stage(Plug, Reverse), signal', steps', path, j, x);
      j := j + 1;
      assert path[..j] == path;
    }

    /**
     * `encryptLetter`: refuses anything but one letter A–Z without moving;
     * otherwise steps the rotors and sends the signal plugboard, right,
     * middle, left, (Greek,) reflector, (Greek,) left, middle, right,
     * plugboard, recording each stage.
     */
    method EncryptLetter(letter: string) returns (r: Result<EncryptionResult, MachineError>)
      requires Valid()
      modifies leftRotor, middleRotor, rightRotor
      ensures Valid()
      ensures (r, State()) == Machine.EncryptLetter(old(State()), letter)
    {
      if !IsSingleLetter(letter) {
        return Failure(NotALetter(letter));
      }
      ghost var before := State();
      var positionsBefore := GetPositions();
      StepRotors();
      var positionsAfter := GetPositions();
      ghost var path := SignalPath(State());
      PathFits(State());
      assert Ready();
      var x := LetterToIndex(letter[0]);
      var signal, steps, k := SignalIn(path, x);
      signal, steps := SignalOut(path, x, signal, steps, k);
      KeyPressOutcome(before, letter, steps, signal);
      return Success(EncryptionResult(letter, IndexToLetter(signal), steps, positionsBefore, positionsAfter));
    }

    /** `encryptMessage`: one key press per character; the first refused character ends it with that error. */
    method EncryptMessage(message: string) returns (r: Result<string, MachineError>)
      requires Valid()
      modifies leftRotor, middleRotor, rightRotor
      ensures Valid()
      ensures (r, State()) == Machine.EncryptMessage(old(State()), message)
    {
      ghost var start := State();
      var out := "";
      assert message[0..] == message;
      PrependNothing(Machine.EncryptMessage(State(), message));
      for i := 0 to |message|
        invariant Valid()
        invariant Machine.EncryptMessage(start, message) == Prepend(out, Machine.EncryptMessage(State(), message[i..]))
      {
        assert message[i..][0] == message[i] && message[i..][1..] == message[i + 1..];
        PrependStep(State(), message[i..], out);
        var result := EncryptLetter([message[i]]);
        if result.Failure? {
          return Failure(result.error);
        }
        out := out + [result.value.outputLetter];
      }
      assert out + [] == out;
      return Success(out);
    }

    /** `reset`: every rotor goes back to its start letter; nothing else changes. */
    method Reset()
      requires Valid()
      modifies Wheels()
      ensures Valid()
      ensures State() == initial
    {
      LetterIndexRoundTrip('A', initial.left.position);
      LetterIndexRoundTrip('A', initial.middle.position);
      LetterIndexRoundTrip('A', initial.right.position);
      if initial.greek.Some? {
        LetterIndexRoundTrip('A', initial.greek.value.position);
      }
      if isM4 && greekRotor.Some? {
        greekRotor.value.ResetPosition(initialPositions[0]);
        leftRotor.ResetPosition(initialPositions[1]);
        middleRotor.ResetPosition(initialPositions[2]);
        rightRotor.ResetPosition(initialPositions[3]);
      } else {
        leftRotor.ResetPosition(initialPositions[0]);
        middleRotor.ResetPosition(initialPositions[1]);
        rightRotor.ResetPosition(initialPositions[2]);
      }
    }
  }
}
