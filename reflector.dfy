/**
 * The reflector, or Umkehrwalze (src/engine/reflector.ts).
 *
 * A reflector never moves: it is its name and the table built from that
 * name's wiring once, at construction. Its wiring pairs every letter with a
 * different one, which is why an Enigma never enciphers a letter as itself.
 */
module Reflectors {
  import opened Alphabet
  import opened Wirings

  /** `class Reflector`: a name and a fixed table. */
  datatype Reflector = Reflector(name: ReflectorName, wiring: seq<int>)
  {
    /** The table is an involution of 0..25 without a fixed point. */
    ghost predicate Sound() {
      IsReflection(wiring)
    }
  }

  /** `new Reflector(name)`: the table is the named wiring, letter by letter. */
  function NewReflector(name: ReflectorName): (r: Reflector)
    ensures r.Sound()
    ensures r.name == name && r.wiring == ReflectorTable(name)
  {
    ReflectorWiringIsReflection(name);
    Reflector(name, ReflectorTable(name))
  }

  /** `reflect`: an index 0..25 goes to its partner, never to itself, and the partner comes back. */
  function Reflect(r: Reflector, inputIndex: int): (outputIndex: int)
    requires r.Sound()
    requires 0 <= inputIndex < ALPHABET_SIZE
    ensures 0 <= outputIndex < ALPHABET_SIZE
    ensures outputIndex != inputIndex
    ensures r.wiring[outputIndex] == inputIndex
  {
    r.wiring[inputIndex]
  }

  /** Reflecting twice is the identity. */
  lemma ReflectTwice(r: Reflector, i: int)
    requires r.Sound()
    requires 0 <= i < ALPHABET_SIZE
    ensures Reflect(r, Reflect(r, i)) == i
  {
  }

  /** UKW-B pairs A with Y. */
  lemma UkwBPairsAWithY()
    ensures Reflect(NewReflector(UkwB), 0) == 24
    ensures Reflect(NewReflector(UkwB), 24) == 0
  {
    ToIndicesAt(ReflectorWiring(UkwB));
  }

  /** UKW-C sends A to F. */
  lemma UkwCSendsAToF()
    ensures Reflect(NewReflector(UkwC), 0) == 5
  {
    ToIndicesAt(ReflectorWiring(UkwC));
  }
}
