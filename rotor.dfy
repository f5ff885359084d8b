/**
 * One Enigma rotor (src/engine/rotor.ts).
 *
 * A rotor is a fixed wiring permutation, its precomputed inverse, a fixed
 * ring offset and a position that stepping changes. The signal is shifted by
 * `position - ringSetting` into the rotor's frame, looked up, and shifted
 * back. `RotorState` and the functions over it are the value-level view the
 * machine model computes with; class `Rotor` is the object the engine
 * mutates, and its members are proved equal to that view.
 */
module Rotors {
  import opened Wrappers
  import opened Alphabet
  import opened Wirings

  /** Why the rotor constructor refuses its arguments. */
  datatype RotorError =
    | RingOutOfRange(ring: int)
    | BadPosition(position: string)

  /** The constructor's two checks, in order: ring setting 1..26, then a single letter A–Z. */
  function RotorArgsError(ringSetting: int, initialPosition: string): (e: Option<RotorError>)
    ensures e.None? <==> 1 <= ringSetting <= 26 && IsSingleLetter(initialPosition)
    ensures e == Some(RingOutOfRange(ringSetting)) <==> !(1 <= ringSetting <= 26)
  {
    if ringSetting < 1 || ringSetting > 26 then Some(RingOutOfRange(ringSetting))
    else if !IsSingleLetter(initialPosition) then Some(BadPosition(initialPosition))
    else None
  }

  /**
   * A rotor as a value, field for field as the engine's object holds it: the
   * wheel's name, its forward table and the reverse table built from it, its
   * notch index, its ring setting (0..25) and its position (0..25).
   */
  datatype RotorState = RotorState(
    name: Wheel,
    wiringForward: seq<int>,
    wiringReverse: seq<int>,
    notch: int,
    ringSetting: int,
    position: int)
  {
    /** The reverse table undoes the forward one; ring and position are indices. */
    ghost predicate Sound() {
      && InAlphabet(wiringForward)
      && IsInverse(wiringForward, wiringReverse)
      && 0 <= ringSetting < ALPHABET_SIZE
      && 0 <= position < ALPHABET_SIZE
    }

    /** The tables and the notch are the named wheel's. */
    ghost predicate Wired() {
      WiredTables(name, wiringForward, wiringReverse, notch)
    }
  }

  /** What the constructor installs for wheel `name`: its wiring, the inverse of that, its notch. */
  ghost predicate WiredTables(name: Wheel, wiringForward: seq<int>, wiringReverse: seq<int>, notch: int) {
    && wiringForward == WiringTable(name)
    && wiringReverse == InverseTable(wiringForward)
    && notch == NotchIndex(name)
  }

  /** A wheel's reverse table is the inverse of its forward table. */
  lemma WheelTablesInverse(w: Wheel)
    ensures InAlphabet(WiringTable(w))
    ensures IsInverse(WiringTable(w), InverseTable(WiringTable(w)))
  {
    RotorWiringIsPermutation(w);
    InverseTableIsInverse(WiringTable(w));
  }

  /** The state a freshly built rotor has: the wheel's tables, the ring setting less one, the letter's index. */
  function InitialRotorState(name: Wheel, ringSetting: int, initialPosition: string): (r: RotorState)
    requires RotorArgsError(ringSetting, initialPosition).None?
    ensures r.Sound() && r.Wired() && r.name == name
    ensures IndexToLetter(r.position) == initialPosition[0]
    ensures r.ringSetting + 1 == ringSetting
  {
    LetterIndexRoundTrip(initialPosition[0], 0);
    WheelTablesInverse(name);
    var forward := WiringTable(name);
    RotorState(name, forward, InverseTable(forward), NotchIndex(name), ringSetting - 1, LetterToIndex(initialPosition[0]))
  }

  /** Shift `x` into the rotor's frame by `offset`, look it up in `table`, shift back. */
  function Through(table: seq<int>, offset: int, x: int): (y: int)
    requires |table| == ALPHABET_SIZE
    ensures 0 <= y < ALPHABET_SIZE
  {
    Mod(table[Mod(x + offset, ALPHABET_SIZE)] - offset, ALPHABET_SIZE)
  }

  /** Passing through a table and then through its inverse with the same offset gives the input back. */
  lemma ThroughInverse(t: seq<int>, u: seq<int>, offset: int, x: int)
    requires InAlphabet(t) && IsInverse(t, u)
    requires 0 <= x < ALPHABET_SIZE
    ensures Through(u, offset, Through(t, offset, x)) == x
  {
    var a := Mod(x + offset, ALPHABET_SIZE);
    var b := t[a];
    var y := Mod(b - offset, ALPHABET_SIZE);
    AddMod(b - offset, offset, ALPHABET_SIZE);
    RemainderUnique(b, ALPHABET_SIZE, 0, b);
    assert Mod(y + offset, ALPHABET_SIZE) == b;
    AddMod(x + offset, -offset, ALPHABET_SIZE);
    RemainderUnique(x, ALPHABET_SIZE, 0, x);
    assert Mod(u[b] - offset, ALPHABET_SIZE) == x;
  }

  /** `forward`: the signal entering from the right, leaving towards the reflector. */
  function RotorForward(r: RotorState, x: int): (y: int)
    requires r.Sound()
    ensures 0 <= y < ALPHABET_SIZE
  {
    Through(r.wiringForward, r.position - r.ringSetting, x)
  }

  /** `reverse`: the signal coming back from the reflector, through the reverse table. */
  function RotorReverse(r: RotorState, x: int): (y: int)
    requires r.Sound()
    ensures 0 <= y < ALPHABET_SIZE
  {
    Through(r.wiringReverse, r.position - r.ringSetting, x)
  }

  /** Each of two tables that undo each other undoes the other. */
  lemma InverseOfInverse(t: seq<int>, u: seq<int>)
    requires InAlphabet(t) && IsInverse(t, u)
    ensures IsInverse(u, t)
  {
  }

  /** `reverse` undoes `forward` and `forward` undoes `reverse`, at every position and ring setting. */
  lemma RotorReverseUndoesForward(r: RotorState, x: int)
    requires r.Sound()
    requires 0 <= x < ALPHABET_SIZE
    ensures RotorReverse(r, RotorForward(r, x)) == x
    ensures RotorForward(r, RotorReverse(r, x)) == x
  {
    var offset := r.position - r.ringSetting;
    ThroughInverse(r.wiringForward, r.wiringReverse, offset, x);
    InverseOfInverse(r.wiringForward, r.wiringReverse);
    ThroughInverse(r.wiringReverse, r.wiringForward, offset, x);
  }

  /** The forward pass is one-to-one: different inputs give different outputs. */
  lemma RotorForwardInjective(r: RotorState, x: int, x': int)
    requires r.Sound()
    requires 0 <= x < ALPHABET_SIZE && 0 <= x' < ALPHABET_SIZE
    ensures RotorForward(r, x) == RotorForward(r, x') <==> x == x'
  {
    RotorReverseUndoesForward(r, x);
    RotorReverseUndoesForward(r, x');
  }

  /** `atNotch`: the position equals the notch index. */
  predicate RotorAtNotch(r: RotorState)
  {
    r.position == r.notch
  }

  /**
   * A rotor at its notch is one of the five stepping rotors, sitting on its
   * notch letter; Beta and Gamma, whose notch is -1, never are.
   */
  lemma AtNotchMeansNotchLetter(r: RotorState)
    requires r.Sound() && r.Wired()
    ensures RotorAtNotch(r) <==> r.name.Standard? && IndexToLetter(r.position) == RotorNotch(r.name.rotor)
  {
    if r.name.Standard? {
      LetterIndexRoundTrip(RotorNotch(r.name.rotor), r.position);
    }
  }

  /** `step`: one position on, Z wrapping to A; nothing else changes. */
  function Advance(r: RotorState): (s: RotorState)
    ensures s == r.(position := s.position)
    ensures 0 <= s.position < ALPHABET_SIZE
    ensures r.Sound() ==> s.Sound()
    ensures 0 <= r.position < ALPHABET_SIZE - 1 ==> s.position == r.position + 1
    ensures r.position == ALPHABET_SIZE - 1 ==> s.position == 0
  {
    r.(position := Mod(r.position + 1, ALPHABET_SIZE))
  }

  /** `n` steps in a row. */
  function AdvanceTimes(r: RotorState, n: nat): RotorState
  {
    if n == 0 then r else Advance(AdvanceTimes(r, n - 1))
  }

  /** `n` steps move a rotor `n` positions on, modulo 26. */
  lemma {:induction false} AdvanceTimesPosition(r: RotorState, n: nat)
    requires r.Sound()
    ensures AdvanceTimes(r, n) == r.(position := (r.position + n) % ALPHABET_SIZE)
  {
    if n > 0 {
      AdvanceTimesPosition(r, n - 1);
      AddMod(r.position + n - 1, 1, ALPHABET_SIZE);
    }
  }

  /** Twenty-six steps bring a rotor back where it started. */
  lemma AdvanceFullTurn(r: RotorState)
    requires r.Sound()
    ensures AdvanceTimes(r, ALPHABET_SIZE) == r
  {
    AdvanceTimesPosition(r, ALPHABET_SIZE);
    AddMod(r.position, ALPHABET_SIZE, ALPHABET_SIZE);
    RemainderUnique(r.position, ALPHABET_SIZE, 0, r.position);
  }

  /** `class Rotor`. The tables, notch and ring are fixed at construction; only the position moves. */
  class Rotor {
    const name: Wheel
    const wiringForward: seq<int>
    const wiringReverse: seq<int>
    const notch: int
    const ringSetting: int
    var position: int

    /** The reverse table inverts the forward one; ring and position are indices. */
    ghost predicate Valid()
      reads this
    {
      State().Sound()
    }

    /** The tables and the notch are the named wheel's; they are fixed, so no method can change this. */
    ghost predicate Wired() {
      WiredTables(name, wiringForward, wiringReverse, notch)
    }

    /** The rotor as a value. */
    function State(): RotorState
      reads this
    {
      RotorState(name, wiringForward, wiringReverse, notch, ringSetting, position)
    }

    /** The constructor once its checks have passed: it builds the reverse table by inverting the forward one. */
    constructor(name: Wheel, ringSetting: int, initialPosition: string)
      requires RotorArgsError(ringSetting, initialPosition).None?
      ensures Valid()
      ensures State() == InitialRotorState(name, ringSetting, initialPosition)
    {
      var forward := WiringTable(name);
      RotorWiringIsPermutation(name);
      var reverse := new int[ALPHABET_SIZE];
      for i := 0 to ALPHABET_SIZE
        invariant forall j :: 0 <= j < i ==> reverse[forward[j]] == j
      {
        reverse[forward[i]] := i;
      }
      InverseIsUnique(forward, reverse[..]);
      InverseTableIsInverse(forward);
      this.name := name;
      wiringForward := forward;
      wiringReverse := reverse[..];
      notch := NotchIndex(name);
      this.ringSetting := ringSetting - 1;
      position := LetterToIndex(initialPosition[0]);
    }

    /** `new Rotor(...)`: fails with the first failed check, otherwise a fresh valid rotor. */
    static method New(name: Wheel, ringSetting: int, initialPosition: string) returns (r: Result<Rotor, RotorError>)
      ensures r.Failure? <==> RotorArgsError(ringSetting, initialPosition).Some?
      ensures r.Failure? ==> r.error == RotorArgsError(ringSetting, initialPosition).value
      ensures r.Success? ==> fresh(r.value) && r.value.Valid()
      ensures r.Success? ==> r.value.State() == InitialRotorState(name, ringSetting, initialPosition)
    {
      var e := RotorArgsError(ringSetting, initialPosition);
      if e.Some? {
        return Failure(e.value);
      }
      var rotor := new Rotor(name, ringSetting, initialPosition);
      return Success(rotor);
    }

    /** `forward`. */
    function Forward(inputIndex: int): (outputIndex: int)
      reads this
      requires Valid()
      ensures outputIndex == RotorForward(State(), inputIndex)
    {
      Through(wiringForward, position - ringSetting, inputIndex)
    }

    /** `reverse`. */
    function Reverse(inputIndex: int): (outputIndex: int)
      reads this
      requires Valid()
      ensures outputIndex == RotorReverse(State(), inputIndex)
    {
      Through(wiringReverse, position - ringSetting, inputIndex)
    }

    /** `step`: only the position changes. */
    method Step()
      requires Valid()
      modifies this
      ensures Valid()
      ensures State() == Advance(old(State()))
    {
      position := Mod(position + 1, ALPHABET_SIZE);
    }

    /** `atNotch`. */
    predicate AtNotch()
      reads this
      requires Valid()
      ensures AtNotch() <==> RotorAtNotch(State())
    {
      position == notch
    }

    /** `positionLetter`. */
    function PositionLetter(): (c: char)
      reads this
      requires Valid()
      ensures IsLetter(c) && LetterToIndex(c) == position
    {
      IndexToLetter(position)
    }

    /** `resetPosition`: the position becomes the letter's index; nothing else changes. */
    method ResetPosition(letter: string)
      requires Valid()
      requires |letter| > 0 && IsLetter(letter[0])
      modifies this
      ensures Valid()
      ensures State() == old(State()).(position := LetterToIndex(letter[0]))
    {
      position := LetterToIndex(letter[0]);
    }
  }
}
