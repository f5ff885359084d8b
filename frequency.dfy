/**
 * Letter frequencies of a message (src/components/simulator/FrequencyAnalysis.tsx):
 * a table with one count per letter A–Z, filled by one pass over the text
 * that skips every character that is not a letter.
 */
module Frequency {
  import opened Alphabet

  /** How many times `c` occurs in `text`. */
  function Count(text: string, c: char): (n: nat)
    ensures n <= |text|
    decreases |text|
  {
    if text == [] then 0
    else Count(text[..|text| - 1], c) + (if text[|text| - 1] == c then 1 else 0)
  }

  /** How many characters of `text` are letters A–Z. */
  function LetterCount(text: string): (n: nat)
    ensures n <= |text|
    decreases |text|
  {
    if text == [] then 0
    else LetterCount(text[..|text| - 1]) + (if IsLetter(text[|text| - 1]) then 1 else 0)
  }

  /**
   * `getFrequencies`: a table whose keys are exactly the letters A–Z, each
   * mapped to the number of times it occurs in `text`.
   */
  method GetFrequencies(text: string) returns (freq: map<char, int>)
    ensures forall c :: c in freq <==> IsLetter(c)
    ensures forall c :: c in freq ==> freq[c] == Count(text, c)
  {
    AlphabetInOrder();
    freq := map[];
    for i := 0 to |ALPHABET|
      invariant forall c :: c in freq <==> IsLetter(c) && LetterToIndex(c) < i
      invariant forall c :: c in freq ==> freq[c] == 0
    {
      freq := freq[ALPHABET[i] := 0];
    }
    for i := 0 to |text|
      invariant forall c :: c in freq <==> IsLetter(c)
      invariant forall c :: c in freq ==> freq[c] == Count(text[..i], c)
    {
      var ch := text[i];
      assert text[..i + 1][..i] == text[..i];
      if ch in freq {
        freq := freq[ch := freq[ch] + 1];
      }
    }
    assert text[..|text|] == text;
  }

  /** Each letter's count once more, listed for the letters of `letters`, added up. */
  function CountsSum(text: string, letters: string): nat
    decreases |letters|
  {
    if letters == [] then 0 else Count(text, letters[0]) + CountsSum(text, letters[1..])
  }

  predicate Distinct(s: string) {
    forall i, j :: 0 <= i < j < |s| ==> s[i] != s[j]
  }

  /** One more character adds one to the sum of the counts of distinct letters it is among, and nothing otherwise. */
  lemma {:induction false} CountsSumSnoc(text: string, c: char, letters: string)
    requires Distinct(letters)
    ensures CountsSum(text + [c], letters) == CountsSum(text, letters) + (if c in letters then 1 else 0)
    decreases |letters|
  {
    if letters != [] {
      assert (text + [c])[..|text + [c]| - 1] == text;
      assert Distinct(letters[1..]) by {
        forall i, j | 0 <= i < j < |letters[1..]|
          ensures letters[1..][i] != letters[1..][j]
        {
          assert letters[1..][i] == letters[i + 1] && letters[1..][j] == letters[j + 1];
        }
      }
      CountsSumSnoc(text, c, letters[1..]);
      assert c in letters <==> c == letters[0] || c in letters[1..] by {
        assert letters == [letters[0]] + letters[1..];
      }
      if c == letters[0] {
        assert c !in letters[1..] by {
          forall j | 0 <= j < |letters[1..]|
            ensures letters[1..][j] != c
          {
            assert letters[1..][j] == letters[j + 1];
          }
        }
      }
    }
  }

  /** A character is in `ALPHABET` exactly when it is a letter A–Z, and no letter is listed twice. */
  lemma AlphabetLetters()
    ensures forall c :: c in ALPHABET <==> IsLetter(c)
    ensures Distinct(ALPHABET)
  {
    AlphabetInOrder();
    forall c | IsLetter(c)
      ensures c in ALPHABET
    {
      assert ALPHABET[LetterToIndex(c)] == c;
    }
  }

  /** Over any list naming every letter once, the counts add up to the number of letters in the text. */
  lemma {:induction false} LettersSum(text: string, letters: string)
    requires Distinct(letters) && forall c :: c in letters <==> IsLetter(c)
    ensures CountsSum(text, letters) == LetterCount(text)
    decreases |text|
  {
    if text == [] {
      EmptyCountsSum(letters);
    } else {
      var init, last := text[..|text| - 1], text[|text| - 1];
      assert text == init + [last];
      LettersSum(init, letters);
      CountsSumSnoc(init, last, letters);
    }
  }

  /**
   * The 26 counts add up to the number of letters in the text (which is
   * never more than its length): every letter is counted once and nothing
   * else is counted.
   */
  lemma FrequenciesSum(text: string)
    ensures CountsSum(text, ALPHABET) == LetterCount(text)
  {
    AlphabetLetters();
    LettersSum(text, ALPHABET);
  }

  lemma {:induction false} EmptyCountsSum(letters: string)
    ensures CountsSum([], letters) == 0
    decreases |letters|
  {
    if letters != [] {
      EmptyCountsSum(letters[1..]);
    }
  }

  /** Characters that are not letters leave every count alone. */
  lemma {:induction false} NonLettersIgnored(text: string, c: char, l: char)
    requires !IsLetter(c) && IsLetter(l)
    ensures Count(text + [c], l) == Count(text, l)
    ensures LetterCount(text + [c]) == LetterCount(text)
  {
    assert (text + [c])[..|text + [c]| - 1] == text;
  }
}
