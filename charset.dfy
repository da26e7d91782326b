/** The 62-character alphabet that ShorterService::ALPHABET and
    RandomStringsService::ALPHABET both declare, and the PHP string
    functions the codec applies to it. */
module Charset {
  import opened Common

  const Lower: string := "abcdefghijklmnopqrstuvwxyz"
  const Upper: string := "ABCDEFGHIJKLMNOPQRSTUVWXYZ"
  const Decimal: string := "0123456789"

  /** ALPHABET: the three blocks in this order (AlphabetSpelling gives
      the constant as the two services spell it out). */
  const Alphabet: string := Lower + Upper + Decimal

  /** ALPHABET_LEN. */
  const AlphabetLen: nat := 62

  lemma BlocksLayout()
    ensures forall i | 0 <= i < 26 :: Lower[i] as int == 'a' as int + i
    ensures forall i | 0 <= i < 26 :: Upper[i] as int == 'A' as int + i
    ensures forall i | 0 <= i < 10 :: Decimal[i] as int == '0' as int + i
  {
  }

  /** The alphabet is the lower-case letters, then the upper-case letters,
      then the decimal digits, each block in code-point order. */
  lemma AlphabetLayout()
    ensures |Alphabet| == AlphabetLen
    ensures forall i | 0 <= i < AlphabetLen :: Alphabet[i] as int == CodePoint(i)
  {
    BlocksLayout();
  }

  /** The constant as both services spell it out. */
  const Declared: string := "abcdefghijklmnopqrstuvwxyzABCDEFGHIJKLMNOPQRSTUVWXYZ0123456789"

  /** The three blocks spell the declared constant, block by block. */
  lemma AlphabetSpelling()
    ensures Alphabet == Declared
  {
    DeclaredLower();
    DeclaredUpper();
    DeclaredDecimal();
    SplitThree(Declared, 26, 52);
  }

  lemma DeclaredLower()
    ensures Declared[..26] == Lower
  {
    forall i | 0 <= i < 26 ensures Declared[i] == Lower[i] {
    }
  }

  lemma DeclaredUpper()
    ensures Declared[26..52] == Upper
  {
    forall i | 0 <= i < 26 ensures Declared[26 + i] == Upper[i] {
    }
  }

  lemma DeclaredDecimal()
    ensures Declared[52..] == Decimal
  {
    forall i | 0 <= i < 10 ensures Declared[52 + i] == Decimal[i] {
    }
  }

  lemma SplitThree(s: string, i: nat, j: nat)
    requires i <= j <= |s|
    ensures s == s[..i] + s[i..j] + s[j..]
  {
  }

  /** The code point of the alphabet character at offset i, by block. */
  function CodePoint(i: nat): int
    requires i < AlphabetLen
  {
    if i < 26 then 'a' as int + i
    else if i < 52 then 'A' as int + (i - 26)
    else '0' as int + (i - 52)
  }

  /** No character occurs twice in the alphabet. */
  lemma AlphabetDistinct()
    ensures forall i, j | 0 <= i < j < |Alphabet| :: Alphabet[i] != Alphabet[j]
  {
    AlphabetLayout();
  }

  /** The last character of the alphabet, the one PHP's offset -1 reads. */
  lemma AlphabetLast()
    ensures |Alphabet| == AlphabetLen && Alphabet[AlphabetLen - 1] == '9'
  {
  }

  /** Every character of s is one of the alphabet's. */
  predicate OverAlphabet(s: string)
  {
    forall i | 0 <= i < |s| :: s[i] in Alphabet
  }

  /** PHP `$s[$k]` when reading: a negative offset counts from the end. */
  function StringOffset(s: string, k: int): (c: char)
    requires -|s| <= k < |s|
    ensures c == s[if k < 0 then |s| + k else k]
  {
    if k < 0 then s[|s| + k] else s[k]
  }

  /** PHP `strpos($haystack, $c)` for a one-character needle: the first
      offset holding `c`, or None where PHP returns false. */
  function StrPos(haystack: string, c: char): (r: Option<nat>)
    ensures r.None? <==> c !in haystack
    ensures r.Some? ==> r.value < |haystack| && haystack[r.value] == c
    ensures r.Some? ==> forall j | 0 <= j < r.value :: haystack[j] != c
  {
    if haystack == [] then None
    else if haystack[0] == c then Some(0)
    else match StrPos(haystack[1..], c)
      case None => None
      case Some(k) => Some(k + 1)
  }

  /** Searching the alphabet for its own character at offset i finds i. */
  lemma StrPosAlphabet(i: nat)
    requires i < |Alphabet|
    ensures StrPos(Alphabet, Alphabet[i]) == Some(i)
  {
    AlphabetDistinct();
  }
}
