/** RandomStringsService: random codes over the alphabet.

    `mt_rand` is outside the model: the generator is given the sequence of
    values `mt_rand(0, ALPHABET_LEN - 1)` would return, as a function from
    the call number to a value in 0..61. */
module RandomStrings {
  import opened Charset

  /** One value of `mt_rand(0, ALPHABET_LEN - 1)`: both bounds included. */
  type Draw = k: int | 0 <= k < 62

  /** `make`'s default length. */
  const DefaultLength: int := 5

  /** The string the first n draws spell: character i is ALPHABET[draw(i)]. */
  function Generated(draw: nat -> Draw, n: nat): (s: string)
    ensures |s| == n
    ensures forall i | 0 <= i < n :: s[i] == Alphabet[draw(i)]
    decreases n
  {
    AlphabetLast();
    if n == 0 then [] else Generated(draw, n - 1) + [Alphabet[draw(n - 1)]]
  }

  /** `RandomStringsService::make`: one draw per character; a length of 0
      or less gives the empty string. */
  method Make(draw: nat -> Draw, length: int := DefaultLength) returns (s: string)
    ensures |s| == if length < 0 then 0 else length
    ensures s == Generated(draw, |s|)
    ensures OverAlphabet(s)
  {
    AlphabetLast();
    s := "";
    var i := 0;
    while i < length
      invariant 0 <= i <= (if length < 0 then 0 else length)
      invariant s == Generated(draw, i)
    {
      var c := Alphabet[draw(i)];
      s := s + [c];
      i := i + 1;
    }
  }

  /** The code `create` stores: five alphabet characters. */
  lemma DefaultCodeShape(draw: nat -> Draw)
    ensures |Generated(draw, DefaultLength)| == 5
    ensures OverAlphabet(Generated(draw, DefaultLength))
  {
    var s := Generated(draw, DefaultLength);
    forall i | 0 <= i < |s| ensures s[i] in Alphabet {
      AlphabetLast();
    }
  }

  /** Every string over the alphabet is one that some run of draws makes,
      so `make` can produce each of the 62^n codes of length n. */
  lemma GeneratedCovers(s: string) returns (draw: nat -> Draw)
    requires OverAlphabet(s)
    ensures Generated(draw, |s|) == s
  {
    AlphabetLast();
    draw := (i: nat) => if i < |s| then IndexOf(s[i]) else 0;
    var g := Generated(draw, |s|);
    forall i | 0 <= i < |s| ensures g[i] == s[i] {
      assert s[i] in Alphabet;
    }
  }

  /** The offset of an alphabet character. */
  function IndexOf(c: char): (k: Draw)
    requires c in Alphabet
    ensures Alphabet[k] == c
  {
    AlphabetLast();
    match StrPos(Alphabet, c)
    case Some(k) => k
  }
}
