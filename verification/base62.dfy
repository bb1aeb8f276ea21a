/**
  The 62-symbol alphabet of identifier tokens and the fixed-width base-62
  rendering of a counter, least-significant digit first.
 */
module Base62 {

  const Base: nat := 62

  const DecimalDigits: string := "0123456789"
  const UpperDigits: string := "ABCDEFGHIJKLMNOPQRSTUVWXYZ"
  const LowerDigits: string := "abcdefghijklmnopqrstuvwxyz"

  /** The digit table, indexed by digit value: "0-9", then "A-Z", then "a-z". */
  const Digits: string := DecimalDigits + UpperDigits + LowerDigits

  /** Membership in `[0-9A-Za-z]`, stated on character ranges rather than on the table. */
  predicate InAlphabet(c: char) {
    ('0' <= c <= '9') || ('A' <= c <= 'Z') || ('a' <= c <= 'z')
  }

  predicate AllInAlphabet(s: string) {
    forall i :: 0 <= i < |s| ==> InAlphabet(s[i])
  }

  /** The value of an alphabet symbol, the inverse of indexing `Digits`. */
  function DigitValue(c: char): (v: nat)
    requires InAlphabet(c)
    ensures v < Base
  {
    if '0' <= c <= '9' then (c as int) - ('0' as int)
    else if 'A' <= c <= 'Z' then (c as int) - ('A' as int) + 10
    else (c as int) - ('a' as int) + 36
  }

  /** The table holds exactly the alphabet, one symbol per digit value. */
  lemma DigitsTable()
    ensures |Digits| == Base
    ensures forall i :: 0 <= i < Base ==> InAlphabet(Digits[i]) && DigitValue(Digits[i]) == i
  {
    assert forall i | 0 <= i < 10 :: DecimalDigits[i] == (('0' as int) + i) as char;
    assert forall i | 0 <= i < 26 :: UpperDigits[i] == (('A' as int) + i) as char;
    assert forall i | 0 <= i < 26 :: LowerDigits[i] == (('a' as int) + i) as char;
  }

  /** Looking up the value of an alphabet symbol in the table gives back the symbol. */
  lemma DigitOfValue(c: char)
    requires InAlphabet(c)
    ensures Digits[DigitValue(c)] == c
  {
    DigitsTable();
  }

  function Pow(b: nat, e: nat): (p: nat)
    ensures 0 < b ==> 0 < p
  {
    if e == 0 then 1 else b * Pow(b, e - 1)
  }

  /**
    The digit of `n` at position `k`, counting from the least significant
    one: the low digit of `n` after dropping `k` digits.
   */
  function DigitAt(n: nat, k: nat): (c: char)
    ensures InAlphabet(c)
    decreases k
  {
    DigitsTable();
    if k == 0 then Digits[n % Base] else DigitAt(n / Base, k - 1)
  }

  /** Digit `k` of `n` is the table entry for `(n / 62^k) % 62`. */
  lemma {:induction false} DigitAtPow(n: nat, k: nat)
    ensures DigitAt(n, k) == Digits[(n / Pow(Base, k)) % Base]
    decreases k
  {
    DigitsTable();
    if k > 0 {
      DigitAtPow(n / Base, k - 1);
      DivModNested(n, Base, Pow(Base, k - 1));
    }
  }

  /** The low `width` base-62 digits of `n`, least-significant digit first. */
  function Encode(n: nat, width: nat): (s: string)
    ensures |s| == width
    ensures AllInAlphabet(s)
  {
    seq(width, k requires 0 <= k < width => DigitAt(n, k))
  }

  /** The number written by a string of alphabet symbols, least-significant digit first. */
  function Decode(s: string): (n: nat)
    requires AllInAlphabet(s)
    ensures n < Pow(Base, |s|)
  {
    if |s| == 0 then 0 else DigitValue(s[0]) + Base * Decode(s[1..])
  }

  /** Euclidean division is determined by any quotient/remainder pair. */
  lemma DivModUnique(n: int, m: int, q: int, r: int)
    requires 0 < m && 0 <= r < m && n == q * m + r
    ensures n / m == q && n % m == r
  {
    var d := n / m - q;
    assert d * m == r - n % m;
    assert -m < d * m < m;
  }

  /** Dividing by `a` then by `b` is dividing by `a * b`; the remainders nest likewise. */
  lemma DivModNested(n: nat, a: nat, b: nat)
    requires 0 < a && 0 < b
    ensures n / a / b == n / (a * b)
    ensures n % (a * b) == n % a + a * (n / a % b)
  {
    var q, r2, r1 := n / a / b, n / a % b, n % a;
    assert n / a == b * q + r2;
    assert n == a * (n / a) + r1;
    MulDistributes(a, b, q, r2);
    MulBelow(a, b, r2, r1);
    DivModUnique(n, a * b, q, a * r2 + r1);
  }

  lemma MulDistributes(a: int, b: int, q: int, r: int)
    ensures a * (b * q + r) == (a * b) * q + a * r
  {
  }

  /** A digit `r2 < b` scaled by `a`, plus a remainder `r1 < a`, stays below `a * b`. */
  lemma MulBelow(a: nat, b: nat, r2: nat, r1: nat)
    requires r2 < b && r1 < a
    ensures a * r2 + r1 < a * b
  {
    assert a * r2 <= a * (b - 1) == a * b - a;
  }

  /** Peeling off the least significant digit leaves the rendering of the quotient by 62. */
  lemma EncodeUnfold(n: nat, width: nat)
    requires 0 < width
    ensures Encode(n, width) == [Digits[n % Base]] + Encode(n / Base, width - 1)
  {
    var s, rest := Encode(n, width), Encode(n / Base, width - 1);
    var t := [Digits[n % Base]] + rest;
    assert s[0] == t[0];
    forall k | 0 < k < width
      ensures s[k] == t[k]
    {
      assert t[k] == rest[k - 1];
    }
  }

  /** Decoding a rendering gives back the counter's low `width` digits: nothing else survives. */
  lemma {:induction false} DecodeEncode(n: nat, width: nat)
    ensures Decode(Encode(n, width)) == n % Pow(Base, width)
    decreases width
  {
    DigitsTable();
    if width > 0 {
      EncodeUnfold(n, width);
      var s := Encode(n, width);
      assert s[1..] == Encode(n / Base, width - 1);
      DecodeEncode(n / Base, width - 1);
      DivModNested(n, Base, Pow(Base, width - 1));
    }
  }

  /** Rendering a decoded string with its own width gives back the string. */
  lemma {:induction false} EncodeDecode(s: string)
    requires AllInAlphabet(s)
    ensures Encode(Decode(s), |s|) == s
    decreases |s|
  {
    if |s| > 0 {
      var v, d := DigitValue(s[0]), Decode(s[1..]);
      DivModUnique(Decode(s), Base, d, v);
      DigitOfValue(s[0]);
      EncodeDecode(s[1..]);
      EncodeUnfold(Decode(s), |s|);
    }
  }

  /** Distinct counters below `62^width` have distinct renderings. */
  lemma EncodeInjective(n: nat, m: nat, width: nat)
    requires n < Pow(Base, width) && m < Pow(Base, width)
    requires Encode(n, width) == Encode(m, width)
    ensures n == m
  {
    var p := Pow(Base, width);
    DecodeEncode(n, width);
    DecodeEncode(m, width);
    DivModUnique(n, p, 0, n);
    DivModUnique(m, p, 0, m);
  }
}
