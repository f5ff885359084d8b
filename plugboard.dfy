/**
 * The plugboard, or Steckerbrett (src/engine/plugboard.ts).
 *
 * Each cable swaps two letters both ways; a letter without a cable goes
 * through unchanged. Construction first validates the pairs (at most 13, no
 * letter paired with itself, no letter in two pairs), then writes the swap
 * table in place, pair by pair.
 */
module Plugboards {
  import opened Wrappers
  import opened Alphabet
  import opened Wirings

  /** A letter A–Z, the element type of a plug pair. */
  type Letter = c: char | 'A' <= c <= 'Z' witness 'A'

  /** One cable. */
  type Pair = (Letter, Letter)

  /** Why `validate` rejects a list of pairs. */
  datatype PlugboardError =
    | TooManyPairs(count: nat)
    | SelfPair(letter: Letter)
    | LetterReused(letter: Letter)

  /** The most cables a plugboard takes. */
  const MAX_PAIRS: nat := 13

  /** Index `x` is the index of a letter on one end of some cable. */
  ghost predicate Plugged(pairs: seq<Pair>, x: int) {
    exists i :: 0 <= i < |pairs| && (LetterToIndex(pairs[i].0) == x || LetterToIndex(pairs[i].1) == x)
  }

  /** No cable uses a letter of `used`. */
  ghost predicate AvoidsLetters(pairs: seq<Pair>, used: set<Letter>) {
    forall i :: 0 <= i < |pairs| ==> pairs[i].0 !in used && pairs[i].1 !in used
  }

  /** No cable joins a letter to itself. */
  ghost predicate NoSelfPairs(pairs: seq<Pair>) {
    forall i :: 0 <= i < |pairs| ==> pairs[i].0 != pairs[i].1
  }

  /** No letter is in two different cables, in either slot. */
  ghost predicate NoSharedLetters(pairs: seq<Pair>) {
    forall i, j :: 0 <= i < j < |pairs| ==>
      && pairs[i].0 != pairs[j].0 && pairs[i].0 != pairs[j].1
      && pairs[i].1 != pairs[j].0 && pairs[i].1 != pairs[j].1
  }

  /** A list of pairs `validate` accepts. */
  ghost predicate ValidPairs(pairs: seq<Pair>) {
    |pairs| <= MAX_PAIRS && NoSelfPairs(pairs) && NoSharedLetters(pairs)
  }

  /** The loop of `validate` from some pair on, with the letters `used` by the pairs before it. */
  function PairsErrorFrom(pairs: seq<Pair>, used: set<Letter>): (e: Option<PlugboardError>)
    ensures e.Some? ==> !e.value.TooManyPairs?
  {
    if pairs == [] then None
    else
      var (a, b) := pairs[0];
      if a == b then Some(SelfPair(a))
      else if a in used then Some(LetterReused(a))
      else if b in used then Some(LetterReused(b))
      else PairsErrorFrom(pairs[1..], used + {a, b})
  }

  /** What `validate` throws, if anything: the count check first, then the first offending pair. */
  function PairsError(pairs: seq<Pair>): (e: Option<PlugboardError>)
    ensures e == Some(TooManyPairs(|pairs|)) <==> |pairs| > MAX_PAIRS
  {
    if |pairs| > MAX_PAIRS then Some(TooManyPairs(|pairs|)) else PairsErrorFrom(pairs, {})
  }

  /** Cable `i` has letter `l` on one of its ends. */
  ghost predicate OnPair(pairs: seq<Pair>, i: int, l: Letter)
    requires 0 <= i < |pairs|
  {
    pairs[i].0 == l || pairs[i].1 == l
  }

  /**
   * The letter the loop reports is a real one: a self-pair names the letter of
   * a cable joining it to itself, and a reused letter is on some cable and was
   * already used, before the loop or by an earlier cable.
   */
  lemma {:induction false} PairsErrorFromNames(pairs: seq<Pair>, used: set<Letter>)
    ensures var e := PairsErrorFrom(pairs, used);
      e.Some? && e.value.SelfPair? ==>
        exists i :: 0 <= i < |pairs| && pairs[i].0 == e.value.letter && pairs[i].1 == e.value.letter
    ensures var e := PairsErrorFrom(pairs, used);
      e.Some? && e.value.LetterReused? ==>
        exists i :: 0 <= i < |pairs| && OnPair(pairs, i, e.value.letter)
          && (e.value.letter in used || exists j :: 0 <= j < i && OnPair(pairs, j, e.value.letter))
  {
    if pairs != [] {
      var (a, b) := pairs[0];
      var rest := pairs[1..];
      var e := PairsErrorFrom(pairs, used);
      if a == b {
        assert pairs[0].0 == e.value.letter && pairs[0].1 == e.value.letter;
      } else if a in used {
        assert OnPair(pairs, 0, e.value.letter);
      } else if b in used {
        assert OnPair(pairs, 0, e.value.letter);
      } else {
        PairsErrorFromNames(rest, used + {a, b});
        assert e == PairsErrorFrom(rest, used + {a, b});
        if e.Some? && e.value.SelfPair? {
          var i :| 0 <= i < |rest| && rest[i].0 == e.value.letter && rest[i].1 == e.value.letter;
          assert pairs[i + 1] == rest[i];
        }
        if e.Some? && e.value.LetterReused? {
          var l := e.value.letter;
          var i :| 0 <= i < |rest| && OnPair(rest, i, l)
            && (l in used + {a, b} || exists j :: 0 <= j < i && OnPair(rest, j, l));
          assert pairs[i + 1] == rest[i];
          assert OnPair(pairs, i + 1, l);
          if l in used {
          } else if l == a || l == b {
            assert OnPair(pairs, 0, l);
          } else {
            var j :| 0 <= j < i && OnPair(rest, j, l);
            assert pairs[j + 1] == rest[j];
            assert OnPair(pairs, j + 1, l);
          }
        }
      }
    }
  }

  /** The letter `validate` reports: a self-pair's letter, or a letter on two cables. */
  lemma PairsErrorNames(pairs: seq<Pair>)
    ensures PairsError(pairs).Some? && PairsError(pairs).value.SelfPair? ==>
      exists i :: 0 <= i < |pairs| && pairs[i].0 == PairsError(pairs).value.letter && pairs[i].1 == PairsError(pairs).value.letter
    ensures PairsError(pairs).Some? && PairsError(pairs).value.LetterReused? ==>
      exists i, j :: 0 <= j < i < |pairs| && OnPair(pairs, i, PairsError(pairs).value.letter) && OnPair(pairs, j, PairsError(pairs).value.letter)
  {
    if |pairs| <= MAX_PAIRS {
      PairsErrorFromNames(pairs, {});
    }
  }

  /** The loop finds nothing exactly when no pair is a self-pair, no two pairs share a letter, and none reuses `used`. */
  lemma {:induction false} PairsErrorFromNone(pairs: seq<Pair>, used: set<Letter>)
    ensures PairsErrorFrom(pairs, used).None? <==>
      NoSelfPairs(pairs) && NoSharedLetters(pairs) && AvoidsLetters(pairs, used)
  {
    if pairs != [] {
      var (a, b) := pairs[0];
      var rest := pairs[1..];
      PairsErrorFromNone(rest, used + {a, b});
      assert forall i :: 0 <= i < |rest| ==> rest[i] == pairs[i + 1];
      if NoSelfPairs(pairs) && NoSharedLetters(pairs) && AvoidsLetters(pairs, used) {
        assert pairs[0].0 != pairs[0].1;
        assert NoSelfPairs(rest);
        assert NoSharedLetters(rest) by {
          forall i, j | 0 <= i < j < |rest|
            ensures rest[i].0 != rest[j].0 && rest[i].0 != rest[j].1
            ensures rest[i].1 != rest[j].0 && rest[i].1 != rest[j].1
          {
            assert rest[i] == pairs[i + 1] && rest[j] == pairs[j + 1];
          }
        }
        assert AvoidsLetters(rest, used + {a, b}) by {
          forall i | 0 <= i < |rest|
            ensures rest[i].0 !in used + {a, b} && rest[i].1 !in used + {a, b}
          {
            assert rest[i] == pairs[i + 1];
          }
        }
      }
      if PairsErrorFrom(pairs, used).None? {
        assert a != b && a !in used && b !in used;
        forall i, j | 0 <= i < j < |pairs|
          ensures pairs[i].0 != pairs[j].0 && pairs[i].0 != pairs[j].1
          ensures pairs[i].1 != pairs[j].0 && pairs[i].1 != pairs[j].1
        {
          assert pairs[j] == rest[j - 1];
          if i > 0 {
            assert pairs[i] == rest[i - 1];
          }
        }
        forall i | 0 <= i < |pairs|
          ensures pairs[i].0 != pairs[i].1
          ensures pairs[i].0 !in used && pairs[i].1 !in used
        {
          if i > 0 {
            assert pairs[i] == rest[i - 1];
          }
        }
      }
    }
  }

  /** `validate` accepts exactly the valid lists of pairs. */
  lemma PairsErrorNoneIffValid(pairs: seq<Pair>)
    ensures PairsError(pairs).None? <==> ValidPairs(pairs)
  {
    PairsErrorFromNone(pairs, {});
  }

  /** More than 13 pairs are refused before anything else is looked at. */
  lemma TooManyPairsFirst(pairs: seq<Pair>)
    ensures PairsError(pairs) == Some(TooManyPairs(|pairs|)) <==> |pairs| > MAX_PAIRS
  {
    if |pairs| <= MAX_PAIRS {
      PairsErrorFromNotTooMany(pairs, {});
    }
  }

  /** The pair loop only ever reports a self-pair or a reused letter. */
  lemma {:induction false} PairsErrorFromNotTooMany(pairs: seq<Pair>, used: set<Letter>)
    ensures !PairsErrorFrom(pairs, used).Some? || !PairsErrorFrom(pairs, used).value.TooManyPairs?
  {
    if pairs != [] {
      var (a, b) := pairs[0];
      PairsErrorFromNotTooMany(pairs[1..], used + {a, b});
    }
  }

  /** The unplugged board: every index maps to itself. */
  function IdentityTable(): (t: seq<int>)
    ensures |t| == ALPHABET_SIZE
  {
    seq(ALPHABET_SIZE, i => i)
  }

  /** The table the constructor leaves behind: start from the identity and, for each pair in turn, write both directions. */
  function SwapTable(pairs: seq<Pair>): (t: seq<int>)
    ensures InAlphabet(t)
  {
    if pairs == [] then IdentityTable()
    else
      var (a, b) := pairs[|pairs| - 1];
      SwapTable(pairs[..|pairs| - 1])[LetterToIndex(a) := LetterToIndex(b)][LetterToIndex(b) := LetterToIndex(a)]
  }

  /** The indices of the letters of the pairs. */
  function IndicesOf(pairs: seq<Pair>): (s: set<int>)
    ensures forall x :: x in s ==> 0 <= x < ALPHABET_SIZE
  {
    if pairs == [] then {}
    else
      var (a, b) := pairs[|pairs| - 1];
      IndicesOf(pairs[..|pairs| - 1]) + {LetterToIndex(a), LetterToIndex(b)}
  }

  /** Letters in no pair keep their own index. */
  ghost predicate FixesUnplugged(pairs: seq<Pair>, t: seq<int>)
    requires |t| == ALPHABET_SIZE
  {
    forall x :: 0 <= x < ALPHABET_SIZE && x !in IndicesOf(pairs) ==> t[x] == x
  }

  /** Each pair's letters are swapped with each other. */
  ghost predicate SwapsPairs(pairs: seq<Pair>, t: seq<int>)
    requires |t| == ALPHABET_SIZE
  {
    forall i :: 0 <= i < |pairs| ==>
      && t[LetterToIndex(pairs[i].0)] == LetterToIndex(pairs[i].1)
      && t[LetterToIndex(pairs[i].1)] == LetterToIndex(pairs[i].0)
  }

  /** A prefix of pairs that share no letter shares no letter either. */
  lemma PrefixNoSharedLetters(pairs: seq<Pair>, n: nat)
    requires NoSharedLetters(pairs) && n <= |pairs|
    ensures NoSharedLetters(pairs[..n])
  {
    forall i, j | 0 <= i < j < n
      ensures pairs[..n][i].0 != pairs[..n][j].0 && pairs[..n][i].0 != pairs[..n][j].1
      ensures pairs[..n][i].1 != pairs[..n][j].0 && pairs[..n][i].1 != pairs[..n][j].1
    {
      assert pairs[..n][i] == pairs[i] && pairs[..n][j] == pairs[j];
    }
  }

  /** For pairs that share no letter, the table swaps each pair and fixes every other letter. */
  lemma {:induction false} SwapTableMeaning(pairs: seq<Pair>)
    requires NoSharedLetters(pairs)
    ensures SwapsPairs(pairs, SwapTable(pairs))
    ensures FixesUnplugged(pairs, SwapTable(pairs))
  {
    if pairs != [] {
      var n := |pairs| - 1;
      var init := pairs[..n];
      PrefixNoSharedLetters(pairs, n);
      SwapTableMeaning(init);
      SwapTableStep(pairs);
    }
  }

  /** Writing a swap of `a` and `b` leaves the entry of any other letter alone. */
  lemma UpdateElsewhere(t: seq<int>, a: Letter, b: Letter, c: Letter)
    requires |t| == ALPHABET_SIZE
    requires c != a && c != b
    ensures t[LetterToIndex(a) := LetterToIndex(b)][LetterToIndex(b) := LetterToIndex(a)][LetterToIndex(c)] == t[LetterToIndex(c)]
  {
  }

  /** The step of `SwapTableMeaning`: adding a last pair that shares no letter with the others. */
  lemma SwapTableStep(pairs: seq<Pair>)
    requires pairs != [] && NoSharedLetters(pairs)
    requires SwapsPairs(pairs[..|pairs| - 1], SwapTable(pairs[..|pairs| - 1]))
    requires FixesUnplugged(pairs[..|pairs| - 1], SwapTable(pairs[..|pairs| - 1]))
    ensures SwapsPairs(pairs, SwapTable(pairs))
    ensures FixesUnplugged(pairs, SwapTable(pairs))
  {
    var n := |pairs| - 1;
    var init := pairs[..n];
    var (a, b) := pairs[n];
    var t0 := SwapTable(init);
    var ai, bi := LetterToIndex(a), LetterToIndex(b);
    var t := SwapTable(pairs);
    assert t == t0[ai := bi][bi := ai];
    forall i | 0 <= i < |pairs|
      ensures t[LetterToIndex(pairs[i].0)] == LetterToIndex(pairs[i].1)
      ensures t[LetterToIndex(pairs[i].1)] == LetterToIndex(pairs[i].0)
    {
      var (c, d) := pairs[i];
      if i < n {
        assert init[i] == pairs[i];
        assert c != a && c != b && d != a && d != b;
        assert t0[LetterToIndex(c)] == LetterToIndex(d) && t0[LetterToIndex(d)] == LetterToIndex(c);
        UpdateElsewhere(t0, a, b, c);
        UpdateElsewhere(t0, a, b, d);
      }
    }
    assert IndicesOf(pairs) == IndicesOf(init) + {ai, bi};
    forall x | 0 <= x < ALPHABET_SIZE && x !in IndicesOf(pairs)
      ensures t[x] == x
    {
      assert x != ai && x != bi && x !in IndicesOf(init);
    }
  }

  /** A plugboard table: indices 0..25, each its partner's partner. */
  ghost predicate IsSwap(t: seq<int>) {
    InAlphabet(t) && forall x :: 0 <= x < |t| ==> t[t[x]] == x
  }

  /** For valid pairs the table is an involution: swapping twice gives the letter back. */
  lemma SwapTableInvolution(pairs: seq<Pair>)
    requires ValidPairs(pairs)
    ensures IsSwap(SwapTable(pairs))
  {
    var t := SwapTable(pairs);
    SwapTableMeaning(pairs);
    forall x | 0 <= x < ALPHABET_SIZE
      ensures t[t[x]] == x
    {
      if x in IndicesOf(pairs) {
        IndicesOfPlugged(pairs, x);
        var i :| 0 <= i < |pairs| && (LetterToIndex(pairs[i].0) == x || LetterToIndex(pairs[i].1) == x);
      }
    }
  }

  /** With no pairs the plugboard passes every letter straight through. */
  lemma NoPairsIsIdentity()
    ensures forall x :: 0 <= x < ALPHABET_SIZE ==> SwapTable([])[x] == x
  {
  }

  /** Everything in `IndicesOf` is a plugged index. */
  lemma {:induction false} IndicesOfPlugged(pairs: seq<Pair>, x: int)
    requires x in IndicesOf(pairs)
    ensures Plugged(pairs, x)
  {
    var n := |pairs| - 1;
    var init := pairs[..n];
    if x in IndicesOf(init) {
      IndicesOfPlugged(init, x);
      var i :| 0 <= i < |init| && (LetterToIndex(init[i].0) == x || LetterToIndex(init[i].1) == x);
      assert init[i] == pairs[i];
    } else {
      assert LetterToIndex(pairs[n].0) == x || LetterToIndex(pairs[n].1) == x;
    }
  }

  /** The letters of the last pair of pairs that share no letter are not among the earlier pairs' letters. */
  lemma LastPairFresh(pairs: seq<Pair>, c: Letter)
    requires pairs != [] && NoSharedLetters(pairs)
    requires c == pairs[|pairs| - 1].0 || c == pairs[|pairs| - 1].1
    ensures LetterToIndex(c) !in IndicesOf(pairs[..|pairs| - 1])
  {
    var n := |pairs| - 1;
    var init := pairs[..n];
    forall i | 0 <= i < n
      ensures LetterToIndex(init[i].0) != LetterToIndex(c) && LetterToIndex(init[i].1) != LetterToIndex(c)
    {
      assert init[i] == pairs[i];
    }
    if LetterToIndex(c) in IndicesOf(init) {
      IndicesOfPlugged(init, LetterToIndex(c));
      assert false;
    }
  }

  /** Valid pairs have twice as many letter indices as pairs. */
  lemma {:induction false} IndicesOfSize(pairs: seq<Pair>)
    requires NoSelfPairs(pairs) && NoSharedLetters(pairs)
    ensures |IndicesOf(pairs)| == 2 * |pairs|
  {
    if pairs != [] {
      var n := |pairs| - 1;
      var init := pairs[..n];
      PrefixNoSharedLetters(pairs, n);
      assert NoSelfPairs(init) by {
        forall i | 0 <= i < n
          ensures init[i].0 != init[i].1
        {
          assert init[i] == pairs[i];
        }
      }
      IndicesOfSize(init);
      var (a, b) := pairs[n];
      LastPairFresh(pairs, a);
      LastPairFresh(pairs, b);
      assert LetterToIndex(a) != LetterToIndex(b);
      assert IndicesOf(pairs) == IndicesOf(init) + {LetterToIndex(a), LetterToIndex(b)};
    }
  }

  /** A set of `n` numbers from 0..n-1 holds all of them. */
  lemma FullRange(s: set<int>, n: nat)
    requires forall x :: x in s ==> 0 <= x < n
    requires |s| == n
    ensures forall x :: 0 <= x < n ==> x in s
  {
    var all := Below(n);
    assert s <= all;
    assert all == (all - s) + s;
    assert |all - s| == 0;
  }

  /** Thirteen valid pairs use every letter, so no letter goes through unchanged. */
  lemma FullBoardHasNoFixedPoint(pairs: seq<Pair>)
    requires ValidPairs(pairs) && |pairs| == MAX_PAIRS
    ensures forall x :: 0 <= x < ALPHABET_SIZE ==> SwapTable(pairs)[x] != x
  {
    var t := SwapTable(pairs);
    SwapTableMeaning(pairs);
    IndicesOfSize(pairs);
    FullRange(IndicesOf(pairs), ALPHABET_SIZE);
    forall x | 0 <= x < ALPHABET_SIZE
      ensures t[x] != x
    {
      IndicesOfPlugged(pairs, x);
      var i :| 0 <= i < |pairs| && (LetterToIndex(pairs[i].0) == x || LetterToIndex(pairs[i].1) == x);
      assert LetterToIndex(pairs[i].0) != LetterToIndex(pairs[i].1);
    }
  }

  /** `class Plugboard`: only the swap table, fixed once built. */
  class Plugboard {
    const swapTable: seq<int>

    /** The table is a swap of letters. */
    ghost predicate Valid() {
      IsSwap(swapTable)
    }

    /** The constructor once `validate` has passed: it writes the table pair by pair. */
    constructor(pairs: seq<Pair>)
      requires PairsError(pairs).None?
      ensures Valid()
      ensures swapTable == SwapTable(pairs)
    {
      PairsErrorNoneIffValid(pairs);
      SwapTableInvolution(pairs);
      var table := new int[ALPHABET_SIZE](i => i);
      assert table[..] == IdentityTable();
      for k := 0 to |pairs|
        invariant table[..] == SwapTable(pairs[..k])
      {
        var (a, b) := pairs[k];
        var ai := LetterToIndex(a);
        var bi := LetterToIndex(b);
        table[ai] := bi;
        table[bi] := ai;
        assert pairs[..k + 1][..k] == pairs[..k];
      }
      assert pairs[..|pairs|] == pairs;
      swapTable := table[..];
    }

    /** `validate`: the count check, then one pass over the pairs growing the set of used letters. */
    static method Validate(pairs: seq<Pair>) returns (e: Option<PlugboardError>)
      ensures e == PairsError(pairs)
    {
      if |pairs| > MAX_PAIRS {
        return Some(TooManyPairs(|pairs|));
      }
      var used: set<Letter> := {};
      for k := 0 to |pairs|
        invariant PairsErrorFrom(pairs, {}) == PairsErrorFrom(pairs[k..], used)
      {
        var (a, b) := pairs[k];
        assert pairs[k..][0] == pairs[k] && pairs[k..][1..] == pairs[k + 1..];
        if a == b {
          return Some(SelfPair(a));
        }
        if a in used {
          return Some(LetterReused(a));
        }
        if b in used {
          return Some(LetterReused(b));
        }
        used := used + {a, b};
      }
      return None;
    }

    /** `new Plugboard(pairs)`: the validation error, or a board whose table is `SwapTable(pairs)`. */
    static method New(pairs: seq<Pair>) returns (r: Result<Plugboard, PlugboardError>)
      ensures r.Failure? <==> PairsError(pairs).Some?
      ensures r.Failure? ==> r.error == PairsError(pairs).value
      ensures r.Success? ==> fresh(r.value) && r.value.Valid() && r.value.swapTable == SwapTable(pairs)
    {
      var e := Validate(pairs);
      if e.Some? {
        return Failure(e.value);
      }
      var board := new Plugboard(pairs);
      return Success(board);
    }

    /** `swap`. */
    function Swap(inputIndex: int): (outputIndex: int)
      requires Valid()
      requires 0 <= inputIndex < ALPHABET_SIZE
      ensures 0 <= outputIndex < ALPHABET_SIZE
      ensures swapTable[outputIndex] == inputIndex
    {
      swapTable[inputIndex]
    }
  }
}
