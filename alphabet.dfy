/**
 * The 26-letter alphabet and its index arithmetic (src/engine/constants.ts).
 *
 * Letters are the external representation, indices 0..25 the internal one.
 * JavaScript's `%` truncates toward zero, unlike Dafny's Euclidean `%`, so it
 * is written out as `JsRem` and the source's `mod` and `indexToLetter` are
 * built from it exactly as the source builds them.
 */
module Alphabet {

  const ALPHABET: string := "ABCDEFGHIJKLMNOPQRSTUVWXYZ"
  const ALPHABET_SIZE: int := 26

  /** One character in 'A'..'Z'. */
  predicate IsLetter(c: char) {
    'A' <= c <= 'Z'
  }

  /** The regular expression `/^[A-Z]$/`: exactly one character, in 'A'..'Z'. */
  predicate IsSingleLetter(s: string) {
    |s| == 1 && IsLetter(s[0])
  }

  /** `letterToIndex`: the character code minus 65, for any character. */
  function LetterToIndex(c: char): (i: int)
    ensures IsLetter(c) <==> 0 <= i < ALPHABET_SIZE
  {
    c as int - 65
  }

  /** `x * m >= m` for a positive multiplier and modulus. */
  lemma MulAtLeast(x: int, m: int)
    requires x >= 1 && m > 0
    ensures x * m >= m
  {
  }

  /** Quotient and remainder are unique: any decomposition `q * m + r` with `0 <= r < m` is Dafny's. */
  lemma RemainderUnique(n: int, m: int, q: int, r: int)
    requires m > 0 && 0 <= r < m && n == q * m + r
    ensures n % m == r
  {
    var q', r' := n / m, n % m;
    assert (q - q') * m == r' - r;
    if q > q' {
      MulAtLeast(q - q', m);
    } else if q < q' {
      MulAtLeast(q' - q, m);
    }
  }

  /** JavaScript's remainder operator for a positive divisor: it keeps the sign of the dividend. */
  function JsRem(n: int, m: int): (r: int)
    requires m > 0
    ensures n >= 0 ==> 0 <= r < m
    ensures n < 0 ==> -m < r <= 0
    ensures r % m == n % m
  {
    var r := if n >= 0 then n % m else -((-n) % m);
    assert r % m == n % m by {
      if n < 0 {
        var q, s := (-n) / m, (-n) % m;
        assert -n == q * m + s;
        if s == 0 {
          RemainderUnique(n, m, -q, 0);
          RemainderUnique(r, m, 0, 0);
        } else {
          RemainderUnique(n, m, -q - 1, m - s);
          RemainderUnique(r, m, -1, m - s);
        }
      }
    }
    r
  }

  /** `mod(n, m)`: the remainder in `[0, m)`, whatever the sign of `n`. */
  function Mod(n: int, m: int): (r: int)
    requires m > 0
    ensures 0 <= r < m
    ensures exists q :: n == q * m + r
  {
    assert n == (n / m) * m + n % m;
    n % m
  }

  /**
   * The source computes `mod` as `((n % m) + m) % m` with JavaScript's `%`;
   * that formula is the Euclidean remainder `Mod` for every `n`.
   */
  lemma ModMatchesJsFormula(n: int, m: int)
    requires m > 0
    ensures JsRem(JsRem(n, m) + m, m) == Mod(n, m)
  {
    var a := JsRem(n, m);
    assert a == (a / m) * m + a % m;
    RemainderUnique(a + m, m, a / m + 1, a % m);
  }

  /** Adding after reducing gives the same remainder as adding first. */
  lemma AddMod(a: int, k: int, m: int)
    requires m > 0
    ensures (a % m + k) % m == (a + k) % m
  {
    var q, r := a / m, a % m;
    var q2, r2 := (r + k) / m, (r + k) % m;
    assert r + k == q2 * m + r2;
    assert a + k == (q + q2) * m + r2;
    RemainderUnique(a + k, m, q + q2, r2);
  }

  /** `indexToLetter`: every integer, negative ones too, gives a letter. */
  function IndexToLetter(i: int): (c: char)
    ensures IsLetter(c)
    ensures LetterToIndex(c) == Mod(i, ALPHABET_SIZE)
  {
    (Mod(i, ALPHABET_SIZE) + 65) as char
  }

  /** `indexToLetter` is written `((index % 26) + 26) % 26 + 65` with JavaScript's `%`; the model agrees with it. */
  lemma IndexToLetterMatchesJsFormula(i: int)
    ensures IndexToLetter(i) == (JsRem(JsRem(i, ALPHABET_SIZE) + ALPHABET_SIZE, ALPHABET_SIZE) + 65) as char
  {
    ModMatchesJsFormula(i, ALPHABET_SIZE);
  }

  /** Letters and indices 0..25 are in one-to-one correspondence. */
  lemma LetterIndexRoundTrip(c: char, i: int)
    ensures IsLetter(c) ==> IndexToLetter(LetterToIndex(c)) == c
    ensures 0 <= i < ALPHABET_SIZE ==> LetterToIndex(IndexToLetter(i)) == i
  {
  }

  /** `ALPHABET` lists the letters in index order. */
  lemma AlphabetInOrder()
    ensures |ALPHABET| == ALPHABET_SIZE
    ensures forall i :: 0 <= i < |ALPHABET| ==> LetterToIndex(ALPHABET[i]) == i
  {
  }
}
