/** ShorterService: the base-62 codec between link ids and short codes.

    `encode` writes the remainders of repeated division by 62, least
    significant first, each as ALPHABET[remainder - 1], and reverses the
    result; a remainder of 0 reads offset -1, which PHP resolves to the last
    character, '9'. `decode` reads the code most significant first with the
    digit value "index in ALPHABET + 1". The two agree only on ids none of
    whose base-62 digits is 0. */
module Shorter {
  import opened Common
  import opened Charset

  // ---------------------------------------------------------------------
  // Base-62 numerals, the reference the codec is measured against
  // ---------------------------------------------------------------------

  /** The ordinary base-62 digits of n, most significant first; none for 0. */
  function Digits(n: nat): seq<nat>
    decreases n
  {
    if n == 0 then [] else Digits(n / 62) + [n % 62]
  }

  /** The number a digit sequence denotes, most significant digit first. */
  function FromDigits(ds: seq<nat>): nat
    decreases |ds|
  {
    if ds == [] then 0 else 62 * FromDigits(ds[..|ds| - 1]) + ds[|ds| - 1]
  }

  function Pow62(k: nat): (p: nat)
    ensures p >= 1
  {
    if k == 0 then 1 else 62 * Pow62(k - 1)
  }

  /** Digits(n) is the base-62 numeral of n: its digits are below 62, it
      denotes n, and for n >= 1 it has no leading zero. */
  lemma {:induction false} DigitsNumeral(n: nat)
    ensures forall i | 0 <= i < |Digits(n)| :: Digits(n)[i] < 62
    ensures FromDigits(Digits(n)) == n
    ensures n >= 1 ==> |Digits(n)| >= 1 && Digits(n)[0] != 0
    decreases n
  {
    if n > 0 {
      var m := n / 62;
      DigitsNumeral(m);
      var ds := Digits(n);
      assert ds == Digits(m) + [n % 62];
      assert ds[..|ds| - 1] == Digits(m);
      if m >= 1 {
        assert ds[0] == Digits(m)[0];
      }
    }
  }

  /** n >= 1 has k base-62 digits exactly when 62^(k-1) <= n < 62^k. */
  lemma {:induction false} DigitsLength(n: nat)
    requires n >= 1
    ensures |Digits(n)| >= 1
    ensures Pow62(|Digits(n)| - 1) <= n < Pow62(|Digits(n)|)
    decreases n
  {
    var m := n / 62;
    if m >= 1 {
      DigitsLength(m);
      var k := |Digits(m)|;
      assert |Digits(n)| == k + 1;
      assert Pow62(k + 1) == 62 * Pow62(k);
      assert Pow62(k) == 62 * Pow62(k - 1);
    }
  }

  // ---------------------------------------------------------------------
  // encode
  // ---------------------------------------------------------------------

  /** The character encode emits for a remainder d: `ALPHABET[d - 1]`,
      where d == 0 reads offset -1 and so yields '9'. */
  function DigitChar(d: nat): (c: char)
    requires d < AlphabetLen
    ensures c == Alphabet[if d == 0 then AlphabetLen - 1 else d - 1]
    ensures c == '9' <==> d == 0
  {
    AlphabetLast();
    AlphabetDistinct();
    StringOffset(Alphabet, d - 1)
  }

  /** decode reads the character of a remainder d back as d, except that
      the '9' written for a remainder 0 reads back as 62. */
  lemma DigitCharValue(d: nat)
    requires d < AlphabetLen
    ensures CharValue(DigitChar(d)) == if d == 0 then 62 else d
  {
    StrPosAlphabet(if d == 0 then AlphabetLen - 1 else d - 1);
  }

  /** The code encode returns for n, most significant character first
      (the reversed accumulation of encode's loop). */
  function Encoded(n: nat): string
    decreases n
  {
    if n == 0 then "" else Encoded(n / 62) + [DigitChar(n % 62)]
  }

  /** PHP `strrev`. */
  function Reverse(s: string): (r: string)
    ensures |r| == |s|
    ensures forall i | 0 <= i < |s| :: r[i] == s[|s| - 1 - i]
    decreases |s|
  {
    if s == [] then [] else [s[|s| - 1]] + Reverse(s[..|s| - 1])
  }

  /** `ShorterService::encode`: invalid-argument below 1; otherwise the
      remainders, taken least significant first and then reversed. */
  method Encode(urlId: int) returns (r: Result<string>)
    ensures urlId < 1 ==> r == Err(InvalidArgument("urlId"))
    ensures urlId >= 1 ==> r == Ok(Encoded(urlId))
  {
    if urlId < 1 {
      return Err(InvalidArgument("urlId"));
    }
    var code: string := "";
    var n: nat := urlId;
    while n > 0
      invariant Encoded(urlId) == Encoded(n) + Reverse(code)
      decreases n
    {
      var c := DigitChar(n % AlphabetLen);
      EncodeStep(urlId, n, code);
      code := code + [c];
      n := n / AlphabetLen;
    }
    assert Encoded(urlId) == Reverse(code);
    return Ok(Reverse(code));
  }

  /** One iteration of encode's loop keeps its invariant. */
  lemma EncodeStep(urlId: nat, n: nat, code: string)
    requires n > 0 && Encoded(urlId) == Encoded(n) + Reverse(code)
    ensures Encoded(urlId) == Encoded(n / 62) + Reverse(code + [DigitChar(n % 62)])
  {
    var e, c := Encoded(n / 62), DigitChar(n % 62);
    assert Encoded(n) == e + [c];
    ReverseSnoc(code, c);
    assert e + [c] + Reverse(code) == e + ([c] + Reverse(code));
  }

  lemma ReverseSnoc(s: string, c: char)
    ensures Reverse(s + [c]) == [c] + Reverse(s)
  {
    assert (s + [c])[..|s|] == s;
  }

  /** encode's code spells the base-62 digits of n, most significant first:
      a digit d in 1..61 becomes ALPHABET[d - 1] and a digit 0 becomes '9'. */
  lemma {:induction false} EncodedDigits(n: nat)
    ensures |Encoded(n)| == |Digits(n)|
    ensures forall i | 0 <= i < |Digits(n)| ::
      Digits(n)[i] < AlphabetLen && Encoded(n)[i] == DigitChar(Digits(n)[i])
    decreases n
  {
    if n > 0 {
      EncodedDigits(n / 62);
    }
  }

  /** For n >= 1 the code is made of alphabet characters and never starts
      with '9'. */
  lemma EncodedShape(n: nat)
    requires n >= 1
    ensures OverAlphabet(Encoded(n))
    ensures |Encoded(n)| >= 1 && Encoded(n)[0] != '9'
  {
    EncodedOverAlphabet(n);
    EncodedDigits(n);
    DigitsNumeral(n);
  }

  /** For n >= 1 the code has as many characters as n has base-62 digits:
      k characters exactly when 62^(k-1) <= n < 62^k. */
  lemma EncodedLengthBound(n: nat)
    requires n >= 1
    ensures Pow62(|Encoded(n)| - 1) <= n < Pow62(|Encoded(n)|)
  {
    EncodedLength(n);
    DigitsLength(n);
  }

  lemma {:induction false} EncodedLength(n: nat)
    ensures |Encoded(n)| == |Digits(n)|
    decreases n
  {
    if n > 0 {
      EncodedLength(n / 62);
    }
  }

  /** Every character encode emits is one of the alphabet's. */
  lemma {:induction false} EncodedOverAlphabet(n: nat)
    ensures OverAlphabet(Encoded(n))
    decreases n
  {
    if n > 0 {
      EncodedOverAlphabet(n / 62);
      DigitCharIn(n % 62);
      OverAlphabetSnoc(Encoded(n / 62), DigitChar(n % 62));
    }
  }

  lemma DigitCharIn(d: nat)
    requires d < 62
    ensures DigitChar(d) in Alphabet
  {
    AlphabetLayout();
  }

  // ---------------------------------------------------------------------
  // decode
  // ---------------------------------------------------------------------

  /** The digit value decode gives a character: `strpos(ALPHABET, c) + 1`,
      where a character outside the alphabet makes strpos return false,
      which PHP's arithmetic reads as 0. */
  function CharValue(c: char): (v: nat)
    ensures 1 <= v <= AlphabetLen
    ensures forall i | 0 <= i < |Alphabet| && Alphabet[i] == c :: v == i + 1
    ensures c !in Alphabet ==> v == 1
  {
    AlphabetDistinct();
    match StrPos(Alphabet, c)
    case None => 0 + 1
    case Some(k) => k + 1
  }

  /** The id decode returns for s: a left fold of `id * 62 + value`. */
  function Decoded(s: string): nat
    decreases |s|
  {
    if s == [] then 0 else 62 * Decoded(s[..|s| - 1]) + CharValue(s[|s| - 1])
  }

  /** `ShorterService::decode`: it has no error path. */
  method Decode(shortCode: string) returns (id: nat)
    ensures id == Decoded(shortCode)
  {
    id := 0;
    for i := 0 to |shortCode|
      invariant id == Decoded(shortCode[..i])
    {
      assert shortCode[..i + 1][..i] == shortCode[..i];
      id := id * AlphabetLen + CharValue(shortCode[i]);
    }
    assert shortCode[..|shortCode|] == shortCode;
  }

  /** decode of the empty code is 0, and appending a character multiplies
      by 62 and adds the character's value; a character outside the
      alphabet adds 1. */
  lemma DecodedSnoc(s: string, c: char)
    ensures Decoded("") == 0
    ensures Decoded(s + [c]) == 62 * Decoded(s) + CharValue(c)
    ensures c !in Alphabet ==> Decoded(s + [c]) == 62 * Decoded(s) + 1
  {
    assert (s + [c])[..|s|] == s;
    assert c !in Alphabet ==> StrPos(Alphabet, c).None?;
  }

  // ---------------------------------------------------------------------
  // The round trip
  // ---------------------------------------------------------------------

  /** decode never undershoots encode, and it hits n exactly when no
      base-62 digit of n is 0. */
  lemma {:induction false} DecodedEncodedBound(n: nat)
    ensures Decoded(Encoded(n)) >= n
    ensures Decoded(Encoded(n)) == n <==> 0 !in Digits(n)
    decreases n
  {
    if n > 0 {
      var m, d := n / 62, n % 62;
      DecodedEncodedBound(m);
      var c := DigitChar(d);
      DecodedSnoc(Encoded(m), c);
      DigitCharValue(d);
      assert Digits(n) == Digits(m) + [d];
      assert 0 in Digits(n) <==> 0 in Digits(m) || d == 0;
    }
  }

  /** `decode(encode(n)) == n` holds for an id n >= 1 exactly when none of
      its base-62 digits is 0. */
  lemma RoundTripIff(n: nat)
    requires n >= 1
    ensures Decoded(Encoded(n)) == n <==> 0 !in Digits(n)
  {
    DecodedEncodedBound(n);
  }

  /** Equivalently, the round trip holds exactly when the code encode
      returns contains no '9', the character a zero digit becomes. */
  lemma RoundTripNoNine(n: nat)
    requires n >= 1
    ensures Decoded(Encoded(n)) == n <==> '9' !in Encoded(n)
  {
    RoundTripIff(n);
    EncodedDigits(n);
    if 0 in Digits(n) {
      var i :| 0 <= i < |Digits(n)| && Digits(n)[i] == 0;
      assert Encoded(n)[i] == '9';
    }
    if '9' in Encoded(n) {
      var i :| 0 <= i < |Encoded(n)| && Encoded(n)[i] == '9';
      assert Digits(n)[i] == 0;
    }
  }

  /** The smallest id that does not survive the round trip: 62 encodes to
      "a9", which decodes to 124. */
  lemma RoundTripCounterexample()
    ensures Encoded(62) == "a9"
    ensures Decoded("a9") == 124
    ensures Decoded(Encoded(62)) != 62
  {
    assert Encoded(1) == "a";
    assert Encoded(62) == Encoded(1) + [DigitChar(0)];
    assert Decoded("a") == 1 by {
      assert "a"[..0] == "";
    }
    assert "a9"[..1] == "a";
  }

  /** The fixed vectors of the service's tests, in both directions; no
      code among them contains '9', so the round trip holds for them. */
  lemma TestVector1()
    ensures Encoded(1) == "a" && Decoded("a") == 1
  {
    Vector1();
    VectorDecodes(1, "a");
  }

  lemma TestVector2()
    ensures Encoded(12312) == "clJ" && Decoded("clJ") == 12312
  {
    Vector2();
    VectorDecodes(12312, "clJ");
  }

  lemma TestVector3()
    ensures Encoded(13878455) == "5nzc" && Decoded("5nzc") == 13878455
  {
    Vector3();
    VectorDecodes(13878455, "5nzc");
  }

  lemma TestVector4()
    ensures Encoded(123428776556) == "bjShIlN" && Decoded("bjShIlN") == 123428776556
  {
    Vector4();
    VectorDecodes(123428776556, "bjShIlN");
  }

  lemma TestVector5()
    ensures Encoded(67465334) == "dIdXH" && Decoded("dIdXH") == 67465334
  {
    Vector5();
    VectorDecodes(67465334, "dIdXH");
  }

  /** A vector whose code has no '9' decodes back to its id. */
  lemma VectorDecodes(n: nat, code: string)
    requires n >= 1 && Encoded(n) == code && '9' !in code
    ensures Decoded(code) == n
  {
    RoundTripNoNine(n);
  }

  /** One iteration of encode's loop, on concrete values: c is the
      character at the alphabet offset the remainder selects. */
  lemma EncodedStep(n: nat, prefix: string, c: char)
    requires n >= 1 && Encoded(n / 62) == prefix
    requires c as int == CodePoint(if n % 62 == 0 then AlphabetLen - 1 else n % 62 - 1)
    ensures Encoded(n) == prefix + [c]
  {
    AlphabetLayout();
  }

  lemma Vector1()
    ensures Encoded(1) == "a"
  {
    EncodedStep(1, "", 'a');
  }

  lemma Vector2()
    ensures Encoded(12312) == "clJ"
  {
    EncodedStep(3, "", 'c');
    EncodedStep(198, "c", 'l');
    EncodedStep(12312, "cl", 'J');
  }

  lemma Vector3()
    ensures Encoded(13878455) == "5nzc"
  {
    EncodedStep(58, "", '5');
    EncodedStep(3610, "5", 'n');
    EncodedStep(223846, "5n", 'z');
    EncodedStep(13878455, "5nz", 'c');
  }

  lemma Vector4()
    ensures Encoded(123428776556) == "bjShIlN"
  {
    EncodedStep(2, "", 'b');
    EncodedStep(134, "b", 'j');
    EncodedStep(8353, "bj", 'S');
    EncodedStep(517894, "bjS", 'h');
    EncodedStep(32109463, "bjSh", 'I');
    EncodedStep(1990786718, "bjShI", 'l');
    EncodedStep(123428776556, "bjShIl", 'N');
  }

  lemma Vector5()
    ensures Encoded(67465334) == "dIdXH"
  {
    EncodedStep(4, "", 'd');
    EncodedStep(283, "d", 'I');
    EncodedStep(17550, "dI", 'd');
    EncodedStep(1088150, "dId", 'X');
    EncodedStep(67465334, "dIdX", 'H');
  }

  // ---------------------------------------------------------------------
  // The evidently intended codec: bijective base 62
  // ---------------------------------------------------------------------

  /** The encoder that decode inverts: bijective base-62 numeration, digit
      values 1..62 written as ALPHABET[value - 1]. */
  function CorrectedEncoded(n: nat): string
    decreases n
  {
    if n == 0 then "" else CorrectedEncoded((n - 1) / 62) + [Alphabet[(n - 1) % 62]]
  }

  /** decode inverts the corrected encoder on every id. */
  lemma {:induction false} CorrectedRoundTrip(n: nat)
    ensures Decoded(CorrectedEncoded(n)) == n
    ensures n >= 1 ==> |CorrectedEncoded(n)| >= 1
    decreases n
  {
    if n > 0 {
      var m, k := (n - 1) / 62, (n - 1) % 62;
      CorrectedRoundTrip(m);
      AlphabetLayout();
      DecodedSnoc(CorrectedEncoded(m), Alphabet[k]);
      assert CharValue(Alphabet[k]) == k + 1;
    }
  }

  /** Every code over the alphabet is the corrected encoding of the id it
      decodes to, so decode is one-to-one on such codes. */
  lemma {:induction false} CorrectedEncodesDecoded(s: string)
    requires OverAlphabet(s)
    ensures CorrectedEncoded(Decoded(s)) == s
    decreases |s|
  {
    if s != [] {
      var init, c := s[..|s| - 1], s[|s| - 1];
      SnocSplit(s);
      OverAlphabetPrefix(s);
      CorrectedEncodesDecoded(init);
      var k := AlphabetIndex(c);
      CorrectedDecodedSnoc(init, c, k);
    }
  }

  lemma SnocSplit(s: string)
    requires s != []
    ensures s == s[..|s| - 1] + [s[|s| - 1]]
  {
  }

  lemma OverAlphabetSnoc(s: string, c: char)
    requires OverAlphabet(s) && c in Alphabet
    ensures OverAlphabet(s + [c])
  {
  }

  lemma OverAlphabetPrefix(s: string)
    requires s != [] && OverAlphabet(s)
    ensures OverAlphabet(s[..|s| - 1]) && s[|s| - 1] in Alphabet
  {
  }

  lemma AlphabetIndex(c: char) returns (k: nat)
    requires c in Alphabet
    ensures k < |Alphabet| && Alphabet[k] == c
  {
    k :| 0 <= k < |Alphabet| && Alphabet[k] == c;
  }

  lemma CorrectedDecodedSnoc(init: string, c: char, k: nat)
    requires k < 62 && Alphabet[k] == c
    requires CorrectedEncoded(Decoded(init)) == init
    ensures CorrectedEncoded(Decoded(init + [c])) == init + [c]
  {
    DecodedSnoc(init, c);
    CorrectedEncodedSnoc(Decoded(init + [c]), Decoded(init), k);
  }

  /** The corrected encoder writes digit value k + 1 as ALPHABET[k]. */
  lemma CorrectedEncodedSnoc(n: nat, m: nat, k: nat)
    requires k < 62 && n == 62 * m + k + 1
    ensures CorrectedEncoded(n) == CorrectedEncoded(m) + [Alphabet[k]]
  {
    var q, r := (n - 1) / 62, (n - 1) % 62;
    DivMod62(n - 1, m, k);
    assert q == m && r == k;
    assert CorrectedEncoded(n) == CorrectedEncoded(q) + [Alphabet[r]];
  }

  lemma DivMod62(x: nat, q: nat, k: nat)
    requires k < 62 && x == 62 * q + k
    ensures x / 62 == q && x % 62 == k
  {
  }

  /** Where no digit of n is 0 the as-written encoder already agrees with
      the corrected one, which is why the fixed vectors pass. */
  lemma {:induction false} CorrectedAgrees(n: nat)
    requires 0 !in Digits(n)
    ensures Encoded(n) == CorrectedEncoded(n)
    decreases n
  {
    if n > 0 {
      var m := n / 62;
      assert Digits(n) == Digits(m) + [n % 62];
      assert 0 !in Digits(m) && n % 62 != 0;
      assert (n - 1) / 62 == m && (n - 1) % 62 == n % 62 - 1;
      CorrectedAgrees(m);
    }
  }
}
