/**
 * The 42-character alphabet shared by the password checker and the R-way trie: the lower-case
 * letters, the digits and six symbols, in that order. A character's index is its position in
 * the alphabet, so letters have indices 0..25, digits 26..35 and symbols 36..41. Of the
 * Alphabet class only toIndex and toChar are modelled, on these 42 characters.
 */
module Alphabets {

  const Alphabet: string := "abcdefghijklmnopqrstuvwxyz0123456789!@$^_*"

  /** The radix: the number of characters, and the number of children of an R-way trie node. */
  const R: nat := 42

  /** Membership in the alphabet, by character class. */
  predicate InAlphabet(c: char) {
    'a' <= c <= 'z' || '0' <= c <= '9' || c == '!' || c == '@' || c == '$' || c == '^' || c == '_' || c == '*'
  }

  lemma InAlphabetIsMembership(c: char)
    ensures InAlphabet(c) <==> c in Alphabet
  {
    assert Alphabet == Alphabet[..26] + Alphabet[26..36] + Alphabet[36..];
    LettersAre(c);
    DigitsAre(c);
    assert Alphabet[36..] == "!@$^_*";
  }

  lemma LettersAre(c: char)
    ensures c in Alphabet[..26] <==> 'a' <= c <= 'z'
  {
    assert Alphabet[..26] == "abcdefghijklmnopqrstuvwxyz";
    if 'a' <= c <= 'z' {
      LetterRun(c as int - 'a' as int);
      assert Alphabet[..26][c as int - 'a' as int] == c;
    }
  }

  lemma DigitsAre(c: char)
    ensures c in Alphabet[26..36] <==> '0' <= c <= '9'
  {
    assert Alphabet[26..36] == "0123456789";
    if '0' <= c <= '9' {
      DigitRun(c as int - '0' as int);
      assert Alphabet[26..36][c as int - '0' as int] == c;
    }
  }

  /** Every character of `s` is in the alphabet. */
  predicate ValidKey(s: string) {
    forall i :: 0 <= i < |s| ==> InAlphabet(s[i])
  }

  /** toIndex(c): the position of `c` in the alphabet. */
  function ToIndex(c: char): (r: nat)
    requires InAlphabet(c)
    ensures r < R
  {
    if 'a' <= c <= 'z' then c as int - 'a' as int
    else if '0' <= c <= '9' then 26 + (c as int - '0' as int)
    else if c == '!' then 36
    else if c == '@' then 37
    else if c == '$' then 38
    else if c == '^' then 39
    else if c == '_' then 40
    else 41
  }

  /** toChar(i): the character at position `i`. */
  function ToChar(i: nat): (c: char)
    requires i < R
    ensures InAlphabet(c) && ToIndex(c) == i
  {
    if i < 26 then ('a' as int + i) as char
    else if i < 36 then ('0' as int + (i - 26)) as char
    else if i == 36 then '!'
    else if i == 37 then '@'
    else if i == 38 then '$'
    else if i == 39 then '^'
    else if i == 40 then '_'
    else '*'
  }

  /** The alphabet string lists the characters in index order. */
  lemma AlphabetOrder(i: nat)
    requires i < R
    ensures Alphabet[i] == ToChar(i)
  {
    if i < 26 {
      assert Alphabet[..26] == "abcdefghijklmnopqrstuvwxyz";
      LetterRun(i);
      assert Alphabet[i] == Alphabet[..26][i];
    } else if i < 36 {
      assert Alphabet[26..36] == "0123456789";
      DigitRun(i - 26);
      assert Alphabet[i] == Alphabet[26..36][i - 26];
    } else {
      assert Alphabet[36..] == "!@$^_*";
      assert Alphabet[i] == Alphabet[36..][i - 36];
    }
  }

  lemma LetterRun(i: nat)
    requires i < 26
    ensures "abcdefghijklmnopqrstuvwxyz"[i] as int == 'a' as int + i
  {
  }

  lemma DigitRun(i: nat)
    requires i < 10
    ensures "0123456789"[i] as int == '0' as int + i
  {
  }

  /** Two characters of the alphabet with the same index are the same character. */
  lemma ToIndexInjective(c: char, d: char)
    requires InAlphabet(c) && InAlphabet(d) && ToIndex(c) == ToIndex(d)
    ensures c == d
  {
  }

  predicate IsLetter(c: char) requires InAlphabet(c) { ToIndex(c) <= 25 }
  predicate IsDigit(c: char) requires InAlphabet(c) { 26 <= ToIndex(c) <= 35 }
  predicate IsSymbol(c: char) requires InAlphabet(c) { 36 <= ToIndex(c) }

  /** The three character classes are the letters, the digits and the six symbols. */
  lemma ClassesByCharacter(c: char)
    requires InAlphabet(c)
    ensures IsLetter(c) <==> 'a' <= c <= 'z'
    ensures IsDigit(c) <==> '0' <= c <= '9'
    ensures IsSymbol(c) <==> c in "!@$^_*"
  {
  }
}
