/**
 * The short-code generator of the URL shortener (`generate_short_code`).
 *
 * The source builds a code of `length` characters, each picked by
 * `random.choice` from `string.ascii_letters + string.digits`. Here every
 * pick is supplied by the caller as a "draw": the index into the alphabet
 * that `random.choice` would have returned.
 */
module ShortCode {

  /** The default code length of `generate_short_code`. */
  const DefaultLength: nat := 6

  /** `string.ascii_lowercase`: 'a' .. 'z'. */
  const Lowercase: string := "abcdefghijklmnopqrstuvwxyz"

  /** `string.ascii_uppercase`: 'A' .. 'Z'. */
  const Uppercase: string := "ABCDEFGHIJKLMNOPQRSTUVWXYZ"

  /** `string.digits`: '0' .. '9'. */
  const Digits: string := "0123456789"

  /** `string.ascii_letters + string.digits`, the 62 characters a code is drawn from. */
  const Alphabet: string := Lowercase + Uppercase + Digits

  /** `len(characters)` in `generate_short_code`. */
  const AlphabetSize: nat := 62

  /** A character a short code may contain: an ASCII letter or digit. */
  predicate IsCodeChar(c: char) {
    'a' <= c <= 'z' || 'A' <= c <= 'Z' || '0' <= c <= '9'
  }

  /** A well-formed code: exactly `length` ASCII letters and digits. */
  predicate IsWellFormed(code: string, length: nat) {
    |code| == length && forall i :: 0 <= i < |code| ==> IsCodeChar(code[i])
  }

  /** The results of `length` calls of `random.choice` on the alphabet: indices into it. */
  predicate IsDraw(draw: seq<nat>, length: nat) {
    |draw| == length && forall i :: 0 <= i < |draw| ==> draw[i] < AlphabetSize
  }

  /**
   * The alphabet's character at index `k`, computed from code points
   * (`AlphabetCharIsAlphabet` shows it is `Alphabet[k]`).
   */
  function AlphabetChar(k: nat): (c: char)
    requires k < AlphabetSize
    ensures IsCodeChar(c)
  {
    if k < 26 then ('a' as int + k) as char
    else if k < 52 then ('A' as int + (k - 26)) as char
    else ('0' as int + (k - 52)) as char
  }

  /** Each of the three character runs of the alphabet is consecutive in code points. */
  lemma RunsAreConsecutive()
    ensures forall i :: 0 <= i < 26 ==> Lowercase[i] as int == 'a' as int + i
    ensures forall i :: 0 <= i < 26 ==> Uppercase[i] as int == 'A' as int + i
    ensures forall i :: 0 <= i < 10 ==> Digits[i] as int == '0' as int + i
  {
  }

  /** `AlphabetChar` reads the alphabet `ascii_letters + digits`. */
  lemma AlphabetCharIsAlphabet()
    ensures |Alphabet| == AlphabetSize
    ensures forall k :: 0 <= k < AlphabetSize ==> Alphabet[k] == AlphabetChar(k)
  {
    RunsAreConsecutive();
    forall k | 0 <= k < AlphabetSize ensures Alphabet[k] == AlphabetChar(k) {
      if k < 26 {
        assert Alphabet[k] == Lowercase[k];
      } else if k < 52 {
        assert Alphabet[k] == Uppercase[k - 26];
      } else {
        assert Alphabet[k] == Digits[k - 52];
      }
    }
  }

  /** The 62 alphabet characters are distinct, so a code determines the picks that made it. */
  lemma AlphabetCharInjective(i: nat, j: nat)
    requires i < AlphabetSize && j < AlphabetSize && AlphabetChar(i) == AlphabetChar(j)
    ensures i == j
  {
  }

  /** Where a code character sits in the alphabet. */
  function AlphabetIndex(c: char): (k: nat)
    requires IsCodeChar(c)
    ensures k < AlphabetSize && AlphabetChar(k) == c
  {
    if 'a' <= c <= 'z' then c as int - 'a' as int
    else if 'A' <= c <= 'Z' then 26 + (c as int - 'A' as int)
    else 52 + (c as int - '0' as int)
  }

  /**
   * `generate_short_code(length)`: the code made of the alphabet characters
   * that the draws pick, in order. It is always well-formed.
   */
  function GenerateShortCode(length: nat, draw: seq<nat>): (code: string)
    requires IsDraw(draw, length)
    ensures IsWellFormed(code, length)
    ensures forall i :: 0 <= i < length ==> code[i] == AlphabetChar(draw[i])
    decreases length
  {
    if length == 0 then ""
    else [AlphabetChar(draw[0])] + GenerateShortCode(length - 1, draw[1..])
  }

  /** The draws that make `code`: one alphabet index per character. */
  function DrawFor(code: string): (draw: seq<nat>)
    requires forall i :: 0 <= i < |code| ==> IsCodeChar(code[i])
    ensures IsDraw(draw, |code|)
    ensures forall i :: 0 <= i < |code| ==> AlphabetChar(draw[i]) == code[i]
  {
    seq(|code|, i requires 0 <= i < |code| => AlphabetIndex(code[i]))
  }

  /**
   * The generator reaches every well-formed code, and only those: a code is
   * well-formed exactly when some sequence of picks produces it.
   */
  lemma {:induction false} GeneratedExactlyWellFormed(code: string, length: nat)
    ensures IsWellFormed(code, length) <==>
            exists draw :: IsDraw(draw, length) && GenerateShortCode(length, draw) == code
  {
    if IsWellFormed(code, length) {
      var draw := DrawFor(code);
      var made := GenerateShortCode(length, draw);
      assert made == code by {
        assert |made| == |code|;
        forall i | 0 <= i < |code| ensures made[i] == code[i] {
        }
      }
    }
  }

  /** Two draws give the same code only when they pick the same indices. */
  lemma {:induction false} GenerateInjective(length: nat, d1: seq<nat>, d2: seq<nat>)
    requires IsDraw(d1, length) && IsDraw(d2, length)
    requires GenerateShortCode(length, d1) == GenerateShortCode(length, d2)
    ensures d1 == d2
  {
    forall i | 0 <= i < length ensures d1[i] == d2[i] {
      assert GenerateShortCode(length, d1)[i] == GenerateShortCode(length, d2)[i];
      AlphabetCharInjective(d1[i], d2[i]);
    }
  }
}
