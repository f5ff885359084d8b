/**
 * The historical wiring and notch tables (src/engine/constants.ts) and the
 * permutation facts the engine relies on: every rotor wiring is a
 * permutation of the alphabet, every reflector wiring an involution without
 * a fixed point.
 */
module Wirings {
  import opened Alphabet

  /** The five stepping rotors of the Enigma I. */
  datatype RotorName = I | II | III | IV | V

  /** The two non-stepping rotors of the M4. */
  datatype GreekName = Beta | Gamma

  /** Any rotor a `Rotor` can be built from. */
  datatype Wheel = Standard(rotor: RotorName) | Greek(greek: GreekName)

  /** The two standard and the two thin reflectors. */
  datatype ReflectorName = UkwB | UkwC | UkwBThin | UkwCThin

  predicate IsThin(f: ReflectorName) {
    f == UkwBThin || f == UkwCThin
  }

  /** `ROTOR_WIRINGS`: position k of the string is the output letter for input letter k. */
  function RotorWiring(w: Wheel): string {
    match w
    case Standard(I) => "EKMFLGDQVZNTOWYHXUSPAIBRCJ"
    case Standard(II) => "AJDKSIRUXBLHWTMCQGZNPYFVOE"
    case Standard(III) => "BDFHJLCPRTXVZNYEIWGAKMUSQO"
    case Standard(IV) => "ESOVPZJAYQUIRHXLNFTGKDCMWB"
    case Standard(V) => "VZBRGITYUPSDNHLXAWMJQOFECK"
    case Greek(Beta) => "LEYJVCNIXWPBQMDRTAKZGFUHOS"
    case Greek(Gamma) => "FSOKANUERHMBTIYCWLQPZXVGJD"
  }

  /** `ROTOR_NOTCHES`: only the five stepping rotors have one. */
  function RotorNotch(r: RotorName): char {
    match r
    case I => 'Q'
    case II => 'E'
    case III => 'V'
    case IV => 'J'
    case V => 'Z'
  }

  /** `REFLECTOR_WIRINGS`. */
  function ReflectorWiring(f: ReflectorName): string {
    match f
    case UkwB => "YRUHQSLDPXNGOKMIEBFZCWVJAT"
    case UkwC => "FVPJIAOYEDRZXWGCTKUQSBNMHL"
    case UkwBThin => "ENKQAUYWJICOPBLMDXZVFTHRGS"
    case UkwCThin => "RDOBJNTKVEHMLFCWZAXGYIPSUQ"
  }

  /** `Array.from(wiring, letterToIndex)`. */
  function ToIndices(s: string): (t: seq<int>)
    ensures |t| == |s|
  {
    if s == [] then [] else ToIndices(s[..|s| - 1]) + [LetterToIndex(s[|s| - 1])]
  }

  /** Entry `i` of the table is the index of letter `i` of the string. */
  lemma {:induction false} ToIndicesAt(s: string)
    ensures forall i :: 0 <= i < |s| ==> ToIndices(s)[i] == LetterToIndex(s[i])
  {
    if s != [] {
      ToIndicesAt(s[..|s| - 1]);
    }
  }

  /** A rotor's forward table. */
  function WiringTable(w: Wheel): (t: seq<int>)
    ensures |t| == ALPHABET_SIZE
  {
    ToIndices(RotorWiring(w))
  }

  /** A reflector's table. */
  function ReflectorTable(f: ReflectorName): (t: seq<int>)
    ensures |t| == ALPHABET_SIZE
  {
    ToIndices(ReflectorWiring(f))
  }

  /** The rotor's notch index, or -1 for Beta and Gamma, which never turn over. */
  function NotchIndex(w: Wheel): (n: int)
    ensures w.Standard? <==> 0 <= n < ALPHABET_SIZE
    ensures w.Greek? <==> n == -1
  {
    match w
    case Standard(r) => LetterToIndex(RotorNotch(r))
    case Greek(_) => -1
  }

  // ---------------------------------------------------------------------------
  // Permutations of 0..25

  /** A table of 26 entries, each an index 0..25. */
  ghost predicate InAlphabet(t: seq<int>) {
    |t| == ALPHABET_SIZE && forall i :: 0 <= i < |t| ==> 0 <= t[i] < ALPHABET_SIZE
  }

  /** A bijection of 0..25: no two inputs share an output, and every index is hit. */
  ghost predicate IsPermutation(t: seq<int>) {
    && InAlphabet(t)
    && (forall i, j :: 0 <= i < j < |t| ==> t[i] != t[j])
    && (forall y :: 0 <= y < ALPHABET_SIZE ==> y in t)
  }

  /** `u` undoes `t` and `t` undoes `u`. */
  ghost predicate IsInverse(t: seq<int>, u: seq<int>)
    requires InAlphabet(t)
  {
    && InAlphabet(u)
    && (forall i :: 0 <= i < |t| ==> u[t[i]] == i)
    && (forall y :: 0 <= y < |u| ==> t[u[y]] == y)
  }

  /** A reflector table: a permutation that is its own inverse and moves every index. */
  ghost predicate IsReflection(t: seq<int>) {
    && InAlphabet(t)
    && (forall i :: 0 <= i < |t| ==> t[t[i]] == i)
    && (forall i :: 0 <= i < |t| ==> t[i] != i)
  }

  /** The first position at or after `k` that holds `y`, or `|t|` when there is none. */
  function IndexOf(t: seq<int>, y: int, k: nat): (r: nat)
    requires k <= |t|
    ensures k <= r <= |t|
    ensures r < |t| ==> t[r] == y
    ensures forall i :: k <= i < r ==> t[i] != y
    decreases |t| - k
  {
    if k == |t| then k else if t[k] == y then k else IndexOf(t, y, k + 1)
  }

  /** The reverse table: the position of each index in `t`. */
  function InverseTable(t: seq<int>): (u: seq<int>)
    ensures |u| == ALPHABET_SIZE
  {
    seq(ALPHABET_SIZE, y => IndexOf(t, y, 0))
  }

  /** The reverse table of a permutation is its inverse. */
  lemma InverseTableIsInverse(t: seq<int>)
    requires IsPermutation(t)
    ensures IsInverse(t, InverseTable(t))
  {
    var u := InverseTable(t);
    forall y | 0 <= y < ALPHABET_SIZE
      ensures 0 <= u[y] < ALPHABET_SIZE && t[u[y]] == y
    {
      assert y in t;
      var i :| 0 <= i < |t| && t[i] == y;
      assert u[y] <= i;
    }
    forall i | 0 <= i < |t|
      ensures u[t[i]] == i
    {
      var k := u[t[i]];
      assert k <= i;
      assert t[k] == t[i];
    }
  }

  /** A table that undoes a permutation at every position is its reverse table. */
  lemma InverseIsUnique(t: seq<int>, u: seq<int>)
    requires IsPermutation(t)
    requires |u| == ALPHABET_SIZE
    requires forall i :: 0 <= i < |t| ==> u[t[i]] == i
    ensures u == InverseTable(t)
  {
    InverseTableIsInverse(t);
    var v := InverseTable(t);
    forall y | 0 <= y < ALPHABET_SIZE
      ensures u[y] == v[y]
    {
      assert y in t;
      var i :| 0 <= i < |t| && t[i] == y;
    }
  }

  // ---------------------------------------------------------------------------
  // The tables satisfy the laws

  /** The indices below `n`. */
  function Below(n: nat): (s: set<int>)
    ensures forall y :: y in s <==> 0 <= y < n
    ensures |s| == n
  {
    if n == 0 then {} else Below(n - 1) + {n - 1}
  }

  /** The values a sequence holds; there are no more of them than entries. */
  function Values(t: seq<int>): (s: set<int>)
    ensures forall x :: x in s <==> x in t
    ensures |s| <= |t|
  {
    if t == [] then {} else Values(t[..|t| - 1]) + {t[|t| - 1]}
  }

  /** A subset is no larger than the set holding it. */
  lemma SubsetSize(a: set<int>, b: set<int>)
    requires a <= b
    ensures |a| <= |b|
  {
    assert b == (b - a) + a;
  }

  /**
   * Pigeonhole: a table of 26 entries that hits every index 0..25 cannot
   * repeat one, because the 25 entries left after dropping a repeat would
   * still have to cover 26 values.
   */
  lemma CoveringIsInjective(t: seq<int>)
    requires |t| == ALPHABET_SIZE
    requires forall y :: 0 <= y < ALPHABET_SIZE ==> y in t
    ensures forall i, j :: 0 <= i < j < |t| ==> t[i] != t[j]
  {
    forall i, j | 0 <= i < j < |t|
      ensures t[i] != t[j]
    {
      if t[i] == t[j] {
        var rest := t[..j] + t[j + 1..];
        forall y | 0 <= y < ALPHABET_SIZE
          ensures y in rest
        {
          assert y in t;
          var k :| 0 <= k < |t| && t[k] == y;
          if k == j {
            assert rest[i] == y;
          } else if k < j {
            assert rest[k] == y;
          } else {
            assert rest[k - 1] == y;
          }
        }
        SubsetSize(Below(ALPHABET_SIZE), Values(rest));
        assert false;
      }
    }
  }

  /** A wiring string of 26 letters in which every letter occurs. */
  ghost predicate UsesEveryLetter(s: string) {
    && |s| == ALPHABET_SIZE
    && (forall i :: 0 <= i < |s| ==> IsLetter(s[i]))
    && (forall c :: IsLetter(c) ==> c in s)
  }

  /** A wiring string that uses only letters and contains every letter gives a permutation table. */
  lemma PermutationFromString(s: string)
    requires UsesEveryLetter(s)
    ensures IsPermutation(ToIndices(s))
  {
    var t := ToIndices(s);
    ToIndicesAt(s);
    forall y | 0 <= y < ALPHABET_SIZE
      ensures y in t
    {
      var c := (y + 65) as char;
      assert IsLetter(c);
      var i :| 0 <= i < |s| && s[i] == c;
      assert t[i] == y;
    }
    CoveringIsInjective(t);
  }

  lemma RotorIUsesEveryLetter() ensures UsesEveryLetter(RotorWiring(Standard(I))) {}
  lemma RotorIIUsesEveryLetter() ensures UsesEveryLetter(RotorWiring(Standard(II))) {}
  lemma RotorIIIUsesEveryLetter() ensures UsesEveryLetter(RotorWiring(Standard(III))) {}
  lemma RotorIVUsesEveryLetter() ensures UsesEveryLetter(RotorWiring(Standard(IV))) {}
  lemma RotorVUsesEveryLetter() ensures UsesEveryLetter(RotorWiring(Standard(V))) {}
  lemma BetaUsesEveryLetter() ensures UsesEveryLetter(RotorWiring(Greek(Beta))) {}
  lemma GammaUsesEveryLetter() ensures UsesEveryLetter(RotorWiring(Greek(Gamma))) {}

  /** Each of the seven rotor wiring strings uses every letter exactly once. */
  lemma WheelUsesEveryLetter(w: Wheel)
    ensures UsesEveryLetter(RotorWiring(w))
  {
    match w
    case Standard(I) => RotorIUsesEveryLetter();
    case Standard(II) => RotorIIUsesEveryLetter();
    case Standard(III) => RotorIIIUsesEveryLetter();
    case Standard(IV) => RotorIVUsesEveryLetter();
    case Standard(V) => RotorVUsesEveryLetter();
    case Greek(Beta) => BetaUsesEveryLetter();
    case Greek(Gamma) => GammaUsesEveryLetter();
  }

  /** Each of the seven rotor wirings is a permutation of the alphabet. */
  lemma RotorWiringIsPermutation(w: Wheel)
    ensures IsPermutation(WiringTable(w))
  {
    WheelUsesEveryLetter(w);
    PermutationFromString(RotorWiring(w));
  }

  /** A reflector string of 26 letters, none in its own place. */
  ghost predicate MovesEveryLetter(s: string) {
    && |s| == ALPHABET_SIZE
    && (forall i :: 0 <= i < |s| ==> IsLetter(s[i]))
    && (forall i :: 0 <= i < |s| ==> s[i] != (i + 65) as char)
  }

  /** A reflector string in which the partner of each letter's partner is the letter itself. */
  ghost predicate PairsLetters(s: string)
    requires MovesEveryLetter(s)
  {
    forall i :: 0 <= i < |s| ==> s[s[i] as int - 65] == (i + 65) as char
  }

  /** Turns the per-letter facts about a reflector string into the table's laws. */
  lemma ReflectionFromString(s: string)
    requires MovesEveryLetter(s) && PairsLetters(s)
    ensures IsReflection(ToIndices(s))
  {
    ToIndicesAt(s);
  }

  /** The pairing law for the indices `lo` to `hi - 1`, so that it can be checked a few indices at a time. */
  ghost predicate PairsLettersBetween(s: string, lo: int, hi: int)
    requires MovesEveryLetter(s)
  {
    forall i :: lo <= i < hi && 0 <= i < |s| ==> s[s[i] as int - 65] == (i + 65) as char
  }

  /** Names the indices 0..6 one by one. */
  lemma FirstQuarterCases(i: int)
    requires 0 <= i < 7
    ensures i == 0 || i == 1 || i == 2 || i == 3 || i == 4 || i == 5 || i == 6
  {
  }

  /** Names the indices 7..12 one by one. */
  lemma SecondQuarterCases(i: int)
    requires 7 <= i < 13
    ensures i == 7 || i == 8 || i == 9 || i == 10 || i == 11 || i == 12
  {
  }

  /** Names the indices 13..19 one by one. */
  lemma ThirdQuarterCases(i: int)
    requires 13 <= i < 20
    ensures i == 13 || i == 14 || i == 15 || i == 16 || i == 17 || i == 18 || i == 19
  {
  }

  /** Names the indices 20..25 one by one. */
  lemma FourthQuarterCases(i: int)
    requires 20 <= i < 26
    ensures i == 20 || i == 21 || i == 22 || i == 23 || i == 24 || i == 25
  {
  }

  lemma UkwBMovesEveryLetter()
    ensures MovesEveryLetter(ReflectorWiring(UkwB))
  {
  }

  lemma UkwBPairsFirstQuarter()
    requires MovesEveryLetter(ReflectorWiring(UkwB))
    ensures PairsLettersBetween(ReflectorWiring(UkwB), 0, 7)
  {
    var s := ReflectorWiring(UkwB);
    forall i | 0 <= i < 7
      ensures s[s[i] as int - 65] == (i + 65) as char
    {
      FirstQuarterCases(i);
    }
  }

  lemma UkwBPairsSecondQuarter()
    requires MovesEveryLetter(ReflectorWiring(UkwB))
    ensures PairsLettersBetween(ReflectorWiring(UkwB), 7, 13)
  {
    var s := ReflectorWiring(UkwB);
    forall i | 7 <= i < 13
      ensures s[s[i] as int - 65] == (i + 65) as char
    {
      SecondQuarterCases(i);
    }
  }

  lemma UkwBPairsThirdQuarter()
    requires MovesEveryLetter(ReflectorWiring(UkwB))
    ensures PairsLettersBetween(ReflectorWiring(UkwB), 13, 20)
  {
    var s := ReflectorWiring(UkwB);
    forall i | 13 <= i < 20
      ensures s[s[i] as int - 65] == (i + 65) as char
    {
      ThirdQuarterCases(i);
    }
  }

  lemma UkwBPairsFourthQuarter()
    requires MovesEveryLetter(ReflectorWiring(UkwB))
    ensures PairsLettersBetween(ReflectorWiring(UkwB), 20, 26)
  {
    var s := ReflectorWiring(UkwB);
    forall i | 20 <= i < 26
      ensures s[s[i] as int - 65] == (i + 65) as char
    {
      FourthQuarterCases(i);
    }
  }

  lemma UkwCMovesEveryLetter()
    ensures MovesEveryLetter(ReflectorWiring(UkwC))
  {
  }

  lemma UkwCPairsFirstQuarter()
    requires MovesEveryLetter(ReflectorWiring(UkwC))
    ensures PairsLettersBetween(ReflectorWiring(UkwC), 0, 7)
  {
    var s := ReflectorWiring(UkwC);
    forall i | 0 <= i < 7
      ensures s[s[i] as int - 65] == (i + 65) as char
    {
      FirstQuarterCases(i);
    }
  }

  lemma UkwCPairsSecondQuarter()
    requires MovesEveryLetter(ReflectorWiring(UkwC))
    ensures PairsLettersBetween(ReflectorWiring(UkwC), 7, 13)
  {
    var s := ReflectorWiring(UkwC);
    forall i | 7 <= i < 13
      ensures s[s[i] as int - 65] == (i + 65) as char
    {
      SecondQuarterCases(i);
    }
  }

  lemma UkwCPairsThirdQuarter()
    requires MovesEveryLetter(ReflectorWiring(UkwC))
    ensures PairsLettersBetween(ReflectorWiring(UkwC), 13, 20)
  {
    var s := ReflectorWiring(UkwC);
    forall i | 13 <= i < 20
      ensures s[s[i] as int - 65] == (i + 65) as char
    {
      ThirdQuarterCases(i);
    }
  }

  lemma UkwCPairsFourthQuarter()
    requires MovesEveryLetter(ReflectorWiring(UkwC))
    ensures PairsLettersBetween(ReflectorWiring(UkwC), 20, 26)
  {
    var s := ReflectorWiring(UkwC);
    forall i | 20 <= i < 26
      ensures s[s[i] as int - 65] == (i + 65) as char
    {
      FourthQuarterCases(i);
    }
  }

  lemma UkwBThinMovesEveryLetter()
    ensures MovesEveryLetter(ReflectorWiring(UkwBThin))
  {
  }

  lemma UkwBThinPairsFirstQuarter()
    requires MovesEveryLetter(ReflectorWiring(UkwBThin))
    ensures PairsLettersBetween(ReflectorWiring(UkwBThin), 0, 7)
  {
    var s := ReflectorWiring(UkwBThin);
    forall i | 0 <= i < 7
      ensures s[s[i] as int - 65] == (i + 65) as char
    {
      FirstQuarterCases(i);
    }
  }

  lemma UkwBThinPairsSecondQuarter()
    requires MovesEveryLetter(ReflectorWiring(UkwBThin))
    ensures PairsLettersBetween(ReflectorWiring(UkwBThin), 7, 13)
  {
    var s := ReflectorWiring(UkwBThin);
    forall i | 7 <= i < 13
      ensures s[s[i] as int - 65] == (i + 65) as char
    {
      SecondQuarterCases(i);
    }
  }

  lemma UkwBThinPairsThirdQuarter()
    requires MovesEveryLetter(ReflectorWiring(UkwBThin))
    ensures PairsLettersBetween(ReflectorWiring(UkwBThin), 13, 20)
  {
    var s := ReflectorWiring(UkwBThin);
    forall i | 13 <= i < 20
      ensures s[s[i] as int - 65] == (i + 65) as char
    {
      ThirdQuarterCases(i);
    }
  }

  lemma UkwBThinPairsFourthQuarter()
    requires MovesEveryLetter(ReflectorWiring(UkwBThin))
    ensures PairsLettersBetween(ReflectorWiring(UkwBThin), 20, 26)
  {
    var s := ReflectorWiring(UkwBThin);
    forall i | 20 <= i < 26
      ensures s[s[i] as int - 65] == (i + 65) as char
    {
      FourthQuarterCases(i);
    }
  }

  lemma UkwCThinMovesEveryLetter()
    ensures MovesEveryLetter(ReflectorWiring(UkwCThin))
  {
  }

  lemma UkwCThinPairsFirstQuarter()
    requires MovesEveryLetter(ReflectorWiring(UkwCThin))
    ensures PairsLettersBetween(ReflectorWiring(UkwCThin), 0, 7)
  {
    var s := ReflectorWiring(UkwCThin);
    forall i | 0 <= i < 7
      ensures s[s[i] as int - 65] == (i + 65) as char
    {
      FirstQuarterCases(i);
    }
  }

  lemma UkwCThinPairsSecondQuarter()
    requires MovesEveryLetter(ReflectorWiring(UkwCThin))
    ensures PairsLettersBetween(ReflectorWiring(UkwCThin), 7, 13)
  {
    var s := ReflectorWiring(UkwCThin);
    forall i | 7 <= i < 13
      ensures s[s[i] as int - 65] == (i + 65) as char
    {
      SecondQuarterCases(i);
    }
  }

  lemma UkwCThinPairsThirdQuarter()
    requires MovesEveryLetter(ReflectorWiring(UkwCThin))
    ensures PairsLettersBetween(ReflectorWiring(UkwCThin), 13, 20)
  {
    var s := ReflectorWiring(UkwCThin);
    forall i | 13 <= i < 20
      ensures s[s[i] as int - 65] == (i + 65) as char
    {
      ThirdQuarterCases(i);
    }
  }

  lemma UkwCThinPairsFourthQuarter()
    requires MovesEveryLetter(ReflectorWiring(UkwCThin))
    ensures PairsLettersBetween(ReflectorWiring(UkwCThin), 20, 26)
  {
    var s := ReflectorWiring(UkwCThin);
    forall i | 20 <= i < 26
      ensures s[s[i] as int - 65] == (i + 65) as char
    {
      FourthQuarterCases(i);
    }
  }

  /** Each of the four reflector strings pairs its letters. */
  lemma ReflectorPairsLetters(f: ReflectorName)
    ensures MovesEveryLetter(ReflectorWiring(f)) && PairsLetters(ReflectorWiring(f))
  {
    var s := ReflectorWiring(f);
    match f
    case UkwB =>
      UkwBMovesEveryLetter();
      UkwBPairsFirstQuarter(); UkwBPairsSecondQuarter(); UkwBPairsThirdQuarter(); UkwBPairsFourthQuarter();
    case UkwC =>
      UkwCMovesEveryLetter();
      UkwCPairsFirstQuarter(); UkwCPairsSecondQuarter(); UkwCPairsThirdQuarter(); UkwCPairsFourthQuarter();
    case UkwBThin =>
      UkwBThinMovesEveryLetter();
      UkwBThinPairsFirstQuarter(); UkwBThinPairsSecondQuarter(); UkwBThinPairsThirdQuarter(); UkwBThinPairsFourthQuarter();
    case UkwCThin =>
      UkwCThinMovesEveryLetter();
      UkwCThinPairsFirstQuarter(); UkwCThinPairsSecondQuarter(); UkwCThinPairsThirdQuarter(); UkwCThinPairsFourthQuarter();
    assert PairsLettersBetween(s, 0, 7) && PairsLettersBetween(s, 7, 13);
    assert PairsLettersBetween(s, 13, 20) && PairsLettersBetween(s, 20, 26);
  }

  /** Each of the four reflector wirings is an involution without a fixed point. */
  lemma ReflectorWiringIsReflection(f: ReflectorName)
    ensures IsReflection(ReflectorTable(f))
  {
    ReflectorPairsLetters(f);
    ReflectionFromString(ReflectorWiring(f));
  }

  /** A reflection is a permutation. */
  lemma ReflectionIsPermutation(t: seq<int>)
    requires IsReflection(t)
    ensures IsPermutation(t)
  {
    forall y | 0 <= y < ALPHABET_SIZE
      ensures y in t
    {
      assert t[t[y]] == y;
    }
    forall i, j | 0 <= i < j < |t|
      ensures t[i] != t[j]
    {
      assert t[t[i]] == i && t[t[j]] == j;
    }
  }
}
