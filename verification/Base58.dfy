/**
 The base58 codec (verify_pda.py:51-100). Leading zero bytes become leading '1' characters; the rest
 is a change of base through one big integer. Encoding and decoding undo each other on all inputs.
 */
module Base58 {
  import opened Wrappers

  type Bytes = b: seq<nat> | Below(b, 256)

  /** The two bases of the codec. */
  type Radix = b: nat | b == 58 || b == 256 witness 58

  /** The alphabet, written as its six runs of consecutive characters. */
  const ALPHABET: string :=
    "123456789" + "ABCDEFGH" + "JKLMN" + "PQRSTUVWXYZ" + "abcdefghijk" + "mnopqrstuvwxyz"
  const BASE: Radix := 58

  // ----- Positional numbers, most significant digit first -----

  function Value(digits: seq<nat>, base: Radix): nat {
    if digits == [] then 0 else Value(digits[..|digits| - 1], base) * base + digits[|digits| - 1]
  }

  /** The digits of `n` without leading zeros; none at all for zero. */
  function Digits(n: nat, base: Radix): (r: seq<nat>)
    ensures forall i :: 0 <= i < |r| ==> r[i] < base
    ensures n > 0 <==> r != []
    decreases n
  {
    if n == 0 then [] else
      QuotientSmaller(n, base);
      Digits(n / base, base) + [n % base]
  }

  lemma QuotientSmaller(n: nat, base: Radix)
    requires n > 0
    ensures n / base < n
  {
  }

  function Zeros(k: nat): seq<nat> {
    seq(k, _ => 0)
  }

  predicate Below(digits: seq<nat>, base: Radix) {
    forall i :: 0 <= i < |digits| ==> digits[i] < base
  }

  function LeadingZeros(digits: seq<nat>): (k: nat)
    ensures k <= |digits|
    ensures forall i :: 0 <= i < k ==> digits[i] == 0
    ensures k < |digits| ==> digits[k] != 0
  {
    if digits == [] || digits[0] != 0 then 0 else 1 + LeadingZeros(digits[1..])
  }

  lemma {:induction false} ValueOfDigits(n: nat, base: Radix)
    ensures Value(Digits(n, base), base) == n
    decreases n
  {
    if n > 0 {
      QuotientSmaller(n, base);
      ValueOfDigits(n / base, base);
      var ds := Digits(n, base);
      assert ds[..|ds| - 1] == Digits(n / base, base);
    }
  }

  lemma {:induction false} ValueSkipsZeros(k: nat, digits: seq<nat>, base: Radix)
    ensures Value(Zeros(k) + digits, base) == Value(digits, base)
  {
    if digits != [] {
      var init := digits[..|digits| - 1];
      ValueSkipsZeros(k, init, base);
      assert (Zeros(k) + digits)[..k + |digits| - 1] == Zeros(k) + init;
    } else {
      assert Zeros(k) + digits == Zeros(k);
      ValueOfZeros(k, base);
    }
  }

  lemma {:induction false} ValueOfZeros(k: nat, base: Radix)
    ensures Value(Zeros(k), base) == 0
  {
    if k > 0 {
      ValueOfZeros(k - 1, base);
      assert Zeros(k)[..k - 1] == Zeros(k - 1);
    }
  }

  lemma {:induction false} ValuePositive(digits: seq<nat>, base: Radix)
    requires digits != [] && digits[0] != 0
    ensures Value(digits, base) > 0
  {
    if |digits| > 1 {
      ValuePositive(digits[..|digits| - 1], base);
      assert Value(digits[..|digits| - 1], base) * base > 0;
    } else {
      assert digits[..0] == [];
    }
  }

  /** A number has only one spelling without leading zeros. */
  lemma {:induction false} DigitsOfValue(digits: seq<nat>, base: Radix)
    requires Below(digits, base) && (digits != [] ==> digits[0] != 0)
    ensures Digits(Value(digits, base), base) == digits
  {
    if digits != [] {
      var init, last := digits[..|digits| - 1], digits[|digits| - 1];
      var n := Value(init, base);
      ValuePositive(digits, base);
      DigitsOfValue(init, base);
      DivideBack(n, base, last);
      assert digits == init + [last];
    }
  }

  lemma DivideBack(n: nat, base: Radix, last: nat)
    requires last < base
    ensures (n * base + last) / base == n && (n * base + last) % base == last
  {
    if base == 58 {
      assert (n * 58 + last) / 58 == n;
    } else {
      assert (n * 256 + last) / 256 == n;
    }
  }

  lemma SplitZeros(digits: seq<nat>)
    ensures digits == Zeros(LeadingZeros(digits)) + digits[LeadingZeros(digits)..]
  {
    hide LeadingZeros;
    var k := LeadingZeros(digits);
    assert digits[..k] == Zeros(k);
    assert digits == digits[..k] + digits[k..];
  }

  lemma {:induction false} LeadingZerosPrepended(k: nat, digits: seq<nat>)
    requires digits != [] ==> digits[0] != 0
    ensures LeadingZeros(Zeros(k) + digits) == k
  {
    var all := Zeros(k) + digits;
    assert forall i :: 0 <= i < k ==> all[i] == 0;
    assert digits != [] ==> all[k] == digits[0];
  }

  // ----- Changing the base, leading zeros carried over one for one -----

  /** The shape shared by both directions: keep the leading zeros, respell the rest. */
  function Respell(digits: seq<nat>, from: Radix, to: Radix): seq<nat>
  {
    Zeros(LeadingZeros(digits)) + Digits(Value(digits, from), to)
  }

  lemma {:induction false} FirstDigitNotZero(n: nat, base: Radix)
    requires n > 0
    ensures Digits(n, base)[0] != 0
    decreases n
  {
    QuotientSmaller(n, base);
    if n / base > 0 {
      FirstDigitNotZero(n / base, base);
      assert Digits(n, base)[0] == Digits(n / base, base)[0];
    } else {
      assert n == n / base * base + n % base;
      assert Digits(n, base) == [] + [n % base];
    }
  }

  /** Respelling there and back is the identity on every digit string. */
  lemma RespellRoundTrip(digits: seq<nat>, from: Radix, to: Radix)
    requires Below(digits, from)
    ensures Respell(Respell(digits, from, to), to, from) == digits
  {
    var k := LeadingZeros(digits);
    var rest := digits[k..];
    var n := Value(digits, from);
    SplitZeros(digits);
    ValueSkipsZeros(k, rest, from);
    var there := Respell(digits, from, to);
    if n > 0 {
      FirstDigitNotZero(n, to);
    }
    LeadingZerosPrepended(k, Digits(n, to));
    ValueSkipsZeros(k, Digits(n, to), to);
    ValueOfDigits(n, to);
    DigitsOfValue(rest, from);
  }

  // ----- Characters -----

  ghost predicate Run(s: string, first: char) {
    forall i :: 0 <= i < |s| ==> s[i] as int == first as int + i
  }

  /** The code point of each letter of the alphabet. */
  ghost function CodePoint(d: nat): nat {
    if d < 9 then d + 49
    else if d < 17 then d + 56
    else if d < 22 then d + 57
    else if d < 33 then d + 58
    else if d < 44 then d + 64
    else d + 65
  }

  lemma AlphabetRuns(d: nat)
    requires d < BASE
    ensures |ALPHABET| == BASE && ALPHABET[d] as int == CodePoint(d)
  {
    assert Run("123456789", '1') && Run("ABCDEFGH", 'A') && Run("JKLMN", 'J') && Run("PQRSTUVWXYZ", 'P')
           && Run("abcdefghijk", 'a') && Run("mnopqrstuvwxyz", 'm');
  }

  lemma AlphabetDistinct(i: nat, j: nat)
    requires i < BASE && j < BASE && i != j
    ensures |ALPHABET| == BASE && ALPHABET[i] != ALPHABET[j]
  {
    hide ALPHABET;
    AlphabetRuns(i);
    AlphabetRuns(j);
  }

  /** Python's `alphabet.index(c)`; None where it raises. */
  function IndexOf(c: char): (d: Option<nat>)
    ensures d.Some? ==> d.value < |ALPHABET| && ALPHABET[d.value] == c
    ensures d.None? ==> c !in ALPHABET
  {
    hide ALPHABET;
    Search(ALPHABET, c, 0)
  }

  function Search(s: string, c: char, from: nat): (d: Option<nat>)
    requires from <= |s|
    ensures d.Some? ==> from <= d.value < |s| && s[d.value] == c
    ensures d.None? ==> c !in s[from..]
    decreases |s| - from
  {
    if from == |s| then None
    else if s[from] == c then Some(from)
    else
      assert s[from..] == [s[from]] + s[from + 1..];
      Search(s, c, from + 1)
  }

  lemma AlphabetLength()
    ensures |ALPHABET| == BASE
  {
    AlphabetRuns(0);
  }

  lemma IndexOfLetter(d: nat)
    requires d < BASE
    ensures |ALPHABET| == BASE && IndexOf(ALPHABET[d]) == Some(d)
  {
    hide ALPHABET;
    AlphabetLength();
    var i := IndexOf(ALPHABET[d]);
    assert ALPHABET[d] in ALPHABET;
    if i.value != d {
      AlphabetDistinct(d, i.value);
    }
  }

  // ----- The codec -----

  function Letters(digits: seq<nat>): (s: string)
    requires Below(digits, BASE) && |ALPHABET| == BASE
    ensures |s| == |digits| && forall i :: 0 <= i < |s| ==> s[i] == ALPHABET[digits[i]]
  {
    if digits == [] then [] else Letters(digits[..|digits| - 1]) + [ALPHABET[digits[|digits| - 1]]]
  }

  predicate OverAlphabet(s: string) {
    forall i :: 0 <= i < |s| ==> IndexOf(s[i]).Some?
  }

  function Indices(s: string): (digits: seq<nat>)
    requires OverAlphabet(s) && |ALPHABET| == BASE
    ensures |digits| == |s| && Below(digits, BASE)
    ensures forall i :: 0 <= i < |s| ==> IndexOf(s[i]) == Some(digits[i])
  {
    if s == [] then [] else Indices(s[..|s| - 1]) + [IndexOf(s[|s| - 1]).value]
  }

  lemma LettersIndices(digits: seq<nat>)
    requires Below(digits, BASE) && |ALPHABET| == BASE
    ensures OverAlphabet(Letters(digits)) && Indices(Letters(digits)) == digits
  {
    forall i | 0 <= i < |digits|
      ensures IndexOf(Letters(digits)[i]) == Some(digits[i])
    {
      IndexOfLetter(digits[i]);
    }
  }

  lemma IndicesLetters(s: string)
    requires OverAlphabet(s) && |ALPHABET| == BASE
    ensures Letters(Indices(s)) == s
  {
  }

  lemma RespellBelow(digits: seq<nat>, from: Radix, to: Radix)
    ensures Below(Respell(digits, from, to), to)
  {
  }

  function Encoding(b: Bytes): string {
    AlphabetLength();
    RespellBelow(b, 256, BASE);
    Letters(Respell(b, 256, BASE))
  }

  /** None where the string has a character outside the alphabet. */
  function Decoding(s: string): (r: Option<Bytes>)
    ensures r.Some? <==> OverAlphabet(s)
  {
    AlphabetLength();
    if OverAlphabet(s) then
      RespellBelow(Indices(s), BASE, 256);
      Some(Respell(Indices(s), BASE, 256))
    else None
  }

  // ----- What the text says, apart from being invertible -----

  function Power(base: nat, n: nat): nat {
    if n == 0 then 1 else base * Power(base, n - 1)
  }

  /** Each digit times the power of its place, most significant first. */
  function PlaceSum(digits: seq<nat>, base: nat): nat {
    if digits == [] then 0 else digits[0] * Power(base, |digits| - 1) + PlaceSum(digits[1..], base)
  }

  lemma {:induction false} PlaceSumAppend(digits: seq<nat>, d: nat, base: nat)
    ensures PlaceSum(digits + [d], base) == base * PlaceSum(digits, base) + d
  {
    if digits == [] {
      assert ([] + [d])[1..] == [] && [] + [d] == [d];
      assert Power(base, 0) == 1;
    } else {
      var all := digits + [d];
      assert all[1..] == digits[1..] + [d] && all[0] == digits[0];
      PlaceSumAppend(digits[1..], d, base);
      Regroup(digits[0], base, Power(base, |digits| - 1), PlaceSum(digits[1..], base));
      assert Power(base, |digits|) == base * Power(base, |digits| - 1);
    }
  }

  lemma Regroup(d: nat, base: nat, power: nat, rest: nat)
    ensures d * (base * power) + base * rest == base * (d * power + rest)
  {
  }

  lemma {:induction false} ValueIsPlaceSum(digits: seq<nat>, base: Radix)
    ensures Value(digits, base) == PlaceSum(digits, base)
  {
    if digits != [] {
      var init, last := digits[..|digits| - 1], digits[|digits| - 1];
      ValueIsPlaceSum(init, base);
      PlaceSumAppend(init, last, base);
      assert digits == init + [last];
    }
  }

  /** The text has as many leading ones as there are leading zero bytes, and spells the same number in base 58. */
  lemma EncodingLaw(b: Bytes) returns (digits: seq<nat>)
    ensures var s := Encoding(b);
            && |digits| == |s| && (forall i :: 0 <= i < |s| ==> digits[i] < 58 && s[i] as int == CodePoint(digits[i]))
            && LeadingZeros(digits) == LeadingZeros(b) && PlaceSum(digits, 58) == PlaceSum(b, 256)
  {
    hide ALPHABET;
    AlphabetLength();
    RespellBelow(b, 256, BASE);
    digits := Respell(b, 256, BASE);
    forall i | 0 <= i < |digits|
      ensures Encoding(b)[i] as int == CodePoint(digits[i])
    {
      AlphabetRuns(digits[i]);
    }
    var k, n := LeadingZeros(b), Value(b, 256);
    if n > 0 {
      FirstDigitNotZero(n, BASE);
    }
    LeadingZerosPrepended(k, Digits(n, BASE));
    ValueSkipsZeros(k, Digits(n, BASE), BASE);
    ValueOfDigits(n, BASE);
    ValueIsPlaceSum(digits, BASE);
    ValueIsPlaceSum(b, 256);
  }

  /** Main result: decoding the encoding of any byte string gives it back. */
  lemma DecodeEncode(b: Bytes)
    ensures Decoding(Encoding(b)) == Some(b)
  {
    hide ALPHABET;
    AlphabetLength();
    RespellBelow(b, 256, BASE);
    LettersIndices(Respell(b, 256, BASE));
    RespellRoundTrip(b, 256, BASE);
  }

  /** Main result: encoding the decoding of any string over the alphabet gives it back. */
  lemma EncodeDecode(s: string)
    requires OverAlphabet(s)
    ensures Encoding(Decoding(s).value) == s
  {
    hide ALPHABET;
    AlphabetLength();
    IndicesLetters(s);
    RespellRoundTrip(Indices(s), BASE, 256);
  }

  // ----- The loops -----

  /** Repeated division: peels off the last digit until nothing is left. */
  method PeelDigits(value: nat, base: Radix) returns (result: seq<nat>)
    ensures result == Digits(value, base)
  {
    var n := value;
    result := [];
    while n > 0
      invariant 0 <= n && Digits(n, base) + result == Digits(value, base)
      decreases n
    {
      QuotientSmaller(n, base);
      assert Digits(n / base, base) + ([n % base] + result) == Digits(n, base) + result;
      result := [n % base] + result;
      n := n / base;
    }
  }

  method Base58Encode(b: Bytes) returns (s: string)
    ensures s == Encoding(b)
  {
    hide ALPHABET;
    AlphabetLength();
    var leadingZeros := 0;
    while leadingZeros < |b| && b[leadingZeros] == 0
      invariant leadingZeros <= |b| && forall i :: 0 <= i < leadingZeros ==> b[i] == 0
    {
      leadingZeros := leadingZeros + 1;
    }
    LeadingZerosUnique(b, leadingZeros);
    var result := PeelDigits(Value(b, 256), BASE);
    s := Letters(Zeros(leadingZeros) + result);
  }

  method Base58Decode(s: string) returns (r: Option<Bytes>)
    ensures r == Decoding(s)
  {
    hide ALPHABET;
    AlphabetLength();
    var leadingZeros := 0;
    while leadingZeros < |s| && s[leadingZeros] == '1'
      invariant leadingZeros <= |s| && forall i :: 0 <= i < leadingZeros ==> s[i] == '1'
    {
      leadingZeros := leadingZeros + 1;
    }
    var n := Accumulate(s);
    if n.None? {
      return None;
    }
    LeadingOnes(s, leadingZeros);
    var result := PeelDigits(n.value, 256);
    r := Some(Zeros(leadingZeros) + result);
  }

  method Accumulate(s: string) returns (r: Option<nat>)
    requires |ALPHABET| == BASE
    ensures r.Some? <==> OverAlphabet(s)
    ensures r.Some? ==> r.value == Value(Indices(s), BASE)
  {
    hide ALPHABET;
    var n := 0;
    for i := 0 to |s|
      invariant OverAlphabet(s[..i]) && n == Value(Indices(s[..i]), BASE)
    {
      var d := IndexOf(s[i]);
      if d.None? {
        return None;
      }
      assert s[..i + 1][..i] == s[..i];
      assert Indices(s[..i + 1])[..i] == Indices(s[..i]);
      n := n * BASE + d.value;
    }
    assert s[..|s|] == s;
    r := Some(n);
  }

  /** Leading '1' characters are exactly the leading zero digits. */
  lemma LeadingOnes(s: string, k: nat)
    requires |ALPHABET| == BASE && OverAlphabet(s)
    requires k <= |s| && (forall i :: 0 <= i < k ==> s[i] == '1') && (k < |s| ==> s[k] != '1')
    ensures LeadingZeros(Indices(s)) == k
  {
    hide ALPHABET;
    FirstLetter();
    IndexOfLetter(0);
    var digits := Indices(s);
    forall i | 0 <= i < |s|
      ensures digits[i] == 0 <==> s[i] == '1'
    {
      assert IndexOf(s[i]) == Some(digits[i]);
    }
    LeadingZerosUnique(digits, k);
  }

  lemma FirstLetter()
    ensures |ALPHABET| > 0 && ALPHABET[0] == '1'
  {
  }

  lemma LeadingZerosUnique(digits: seq<nat>, k: nat)
    requires k <= |digits| && (forall i :: 0 <= i < k ==> digits[i] == 0) && (k < |digits| ==> digits[k] != 0)
    ensures LeadingZeros(digits) == k
  {
  }
}
