/** The "pseudo-hash" of start.py's `Block.calculate_hash`, as a pure string
    transform: letters become their alphabet position, digits are kept,
    everything else is dropped; the resulting decimal number is written in
    hexadecimal, zero-padded to 32 characters, and every character is
    tripled.  Letters and digits are the ASCII ones. */
module PseudoHash {
  import opened Numerals

  /** Width of the zero-padding, `zfill(32)`. */
  const PadWidth: nat := 32

  /** Length of the digest of an input without letters or digits, `'0' * 96`. */
  const EmptyDigestLength: nat := 96

  predicate IsAsciiLetter(c: char) {
    'a' <= c <= 'z' || 'A' <= c <= 'Z'
  }

  /** `ch.lower()` of an ASCII letter. */
  function ToLower(c: char): (l: char)
    requires IsAsciiLetter(c)
    ensures 'a' <= l <= 'z'
    ensures 'a' <= c <= 'z' ==> l == c
    ensures 'A' <= c <= 'Z' ==> l as int - 'a' as int == c as int - 'A' as int
  {
    if 'A' <= c <= 'Z' then (c as int - 'A' as int + 'a' as int) as char else c
  }

  /** `ord(ch.lower()) - ord('a') + 1`: the 1-based position in the alphabet. */
  function AlphabetPosition(c: char): (p: nat)
    requires IsAsciiLetter(c)
    ensures 1 <= p <= 26
    ensures 'a' <= c <= 'z' ==> p == c as int - 'a' as int + 1
    ensures 'A' <= c <= 'Z' ==> p == c as int - 'A' as int + 1
  {
    ToLower(c) as int - 'a' as int + 1
  }

  /** What one character adds to the digit string: the decimal text of its
      alphabet position for a letter, itself for a digit, nothing otherwise. */
  function CharDigits(c: char): (d: string)
    ensures IsNumeral(d, 10)
    ensures IsAsciiLetter(c) ==> Value(d, 10) == AlphabetPosition(c)
    ensures IsAsciiLetter(c) ==> |d| > 0 && d[0] != '0'
    ensures IsDecimalDigit(c) ==> d == [c]
    ensures !IsAsciiLetter(c) && !IsDecimalDigit(c) ==> d == []
  {
    if IsAsciiLetter(c) then
      ValueOfFromNat(AlphabetPosition(c), 10);
      FromNat(AlphabetPosition(c), 10)
    else if IsDecimalDigit(c) then [c]
    else []
  }

  /** The `converted` digit string built by the loop over the input. */
  function Convert(s: string): (d: string)
    ensures IsNumeral(d, 10)
    decreases |s|
  {
    if s == [] then [] else CharDigits(s[0]) + Convert(s[1..])
  }

  /** The conversion works character by character, so it distributes over
      concatenation. */
  lemma {:induction false} ConvertAppend(a: string, b: string)
    ensures Convert(a + b) == Convert(a) + Convert(b)
    decreases |a|
  {
    if a != [] {
      assert (a + b)[1..] == a[1..] + b;
      ConvertAppend(a[1..], b);
    } else {
      assert a + b == b;
    }
  }

  /** `str.zfill(width)` of an unsigned string: right-justified in a field of
      `width` characters, filled with '0' on the left; never truncated. */
  function Zfill(s: string, width: nat): (r: string)
    ensures |r| == if |s| >= width then |s| else width
    ensures r[|r| - |s|..] == s
    ensures forall i :: 0 <= i < |r| - |s| ==> r[i] == '0'
  {
    if |s| >= width then s else Zeros(width - |s|) + s
  }

  /** `''.join(ch * 3 for ch in p)`. */
  function Triple(p: string): (r: string)
    ensures |r| == 3 * |p|
    ensures forall i :: 0 <= i < |r| ==> r[i] == p[i / 3]
    decreases |p|
  {
    if p == [] then [] else [p[0], p[0], p[0]] + Triple(p[1..])
  }

  /** A tripled string holds hex digits when the original does, and the
      three characters of each group agree. */
  lemma TripledInPlace(p: string)
    ensures |Triple(p)| % 3 == 0
    ensures IsNumeral(p, 16) ==> forall i :: 0 <= i < |Triple(p)| ==> IsHexDigit(Triple(p)[i])
    ensures forall i, j :: 0 <= i < |Triple(p)| && 0 <= j < |Triple(p)| && i / 3 == j / 3 ==>
              Triple(p)[i] == Triple(p)[j]
  {
    var r := Triple(p);
    forall i, j | 0 <= i < |r| && 0 <= j < |r| && i / 3 == j / 3
      ensures r[i] == r[j]
    {
      assert r[i] == p[i / 3] && r[j] == p[j / 3];
    }
    if IsNumeral(p, 16) {
      forall i | 0 <= i < |r|
        ensures IsHexDigit(r[i])
      {
        assert r[i] == p[i / 3];
      }
    }
  }

  /** Every third character, starting with the first: undoes `Triple`. */
  function EveryThird(r: string): (p: string)
    ensures |p| == |r| / 3
    ensures forall i :: 0 <= i < |p| ==> p[i] == r[3 * i]
    decreases |r|
  {
    if |r| < 3 then [] else [r[0]] + EveryThird(r[3..])
  }

  lemma EveryThirdOfTriple(p: string)
    ensures EveryThird(Triple(p)) == p
  {
    var q := EveryThird(Triple(p));
    forall i | 0 <= i < |p|
      ensures q[i] == p[i]
    {
      assert (3 * i) / 3 == i;
    }
  }

  /** The digit string padded and in hex, before tripling. */
  function PaddedHex(n: nat): (p: string)
    ensures IsNumeral(p, 16)
    ensures |p| == if |FromNat(n, 16)| >= PadWidth then |FromNat(n, 16)| else PadWidth
  {
    var hex := FromNat(n, 16);
    var p := Zfill(hex, PadWidth);
    assert p == hex || p == Zeros(PadWidth - |hex|) + hex;
    p
  }

  /** Reading the padded hex back gives the number. */
  lemma PaddedHexValue(n: nat)
    ensures Value(PaddedHex(n), 16) == n
  {
    var hex := FromNat(n, 16);
    ValueOfFromNat(n, 16);
    if |hex| < PadWidth {
      assert PaddedHex(n) == Zeros(PadWidth - |hex|) + hex;
      ValueIgnoresLeadingZeros(PadWidth - |hex|, hex, 16);
    }
  }

  /** The digest of a digit string `converted`, the tail of `calculate_hash`:
      the early return of 96 zeros when it is empty, otherwise `hex()`,
      `zfill(32)` and tripling of `int(converted)`. */
  function DigestOfDigits(converted: string): string
    requires IsNumeral(converted, 10)
  {
    if converted == [] then Zeros(EmptyDigestLength)
    else Triple(PaddedHex(Value(converted, 10)))
  }

  /** 96 zeros is what the padded, tripled hex of 0 is. */
  lemma ZeroPaddedTripled()
    ensures |FromNat(0, 16)| == 1
    ensures Triple(PaddedHex(0)) == Zeros(EmptyDigestLength)
  {
    assert FromNat(0, 16) == ['0'];
    var p := PaddedHex(0);
    assert p == Zeros(PadWidth) by {
      assert p == Zeros(PadWidth - 1) + ['0'];
    }
    var r := Triple(p);
    assert r == Zeros(EmptyDigestLength) by {
      forall i | 0 <= i < |r|
        ensures r[i] == '0'
      {
        assert r[i] == p[i / 3];
      }
    }
  }

  /** The early return for an empty digit string agrees with the general
      path, so the digest only depends on `int(converted)`. */
  lemma EmptyBranchAgrees(converted: string)
    requires IsNumeral(converted, 10)
    ensures DigestOfDigits(converted) == Triple(PaddedHex(Value(converted, 10)))
  {
    if converted == [] {
      ZeroPaddedTripled();
    }
  }

  /** The shape of every digest: three times the padded hex length (so at
      least 96 and a multiple of 3), lower-case hex digits only, each
      character tripled in place, and 96 zeros for an empty digit string. */
  lemma DigestShape(converted: string)
    requires IsNumeral(converted, 10)
    ensures var r := DigestOfDigits(converted);
            var hexLength := |FromNat(Value(converted, 10), 16)|;
            && |r| == 3 * (if hexLength >= PadWidth then hexLength else PadWidth)
            && |r| >= EmptyDigestLength && |r| % 3 == 0
            && (forall i :: 0 <= i < |r| ==> IsHexDigit(r[i]))
            && (forall i, j :: 0 <= i < |r| && 0 <= j < |r| && i / 3 == j / 3 ==> r[i] == r[j])
            && (converted == [] ==> r == Zeros(EmptyDigestLength))
  {
    var p := PaddedHex(Value(converted, 10));
    EmptyBranchAgrees(converted);
    TripledInPlace(p);
    if converted == [] {
      ZeroPaddedTripled();
    }
  }

  /** The character loop of `calculate_hash`, from the point where `rest`
      is still to be scanned and `converted` has been built so far, followed
      by the digest of the final digit string. */
  function ScanFrom(rest: string, converted: string): string
    requires IsNumeral(converted, 10)
    decreases |rest|
  {
    if rest == [] then DigestOfDigits(converted)
    else
      var next := converted + CharDigits(rest[0]);
      NumeralConcat(converted, CharDigits(rest[0]), 10);
      ScanFrom(rest[1..], next)
  }

  /** `calculate_hash` applied to the concatenated field string `s`. */
  function HashOfString(s: string): string
  {
    ScanFrom(s, [])
  }

  /** Scanning the rest of the input appends its digit string to what has
      been built so far. */
  lemma {:induction false} ScanFromConverts(rest: string, converted: string)
    requires IsNumeral(converted, 10)
    ensures IsNumeral(converted + Convert(rest), 10)
    ensures ScanFrom(rest, converted) == DigestOfDigits(converted + Convert(rest))
    decreases |rest|
  {
    NumeralConcat(converted, Convert(rest), 10);
    var whole := converted + Convert(rest);
    if rest == [] {
      assert whole == converted;
    } else {
      var next := converted + CharDigits(rest[0]);
      NumeralConcat(converted, CharDigits(rest[0]), 10);
      assert next + Convert(rest[1..]) == whole by {
        assert Convert(rest) == CharDigits(rest[0]) + Convert(rest[1..]);
      }
      calc {
        ScanFrom(rest, converted);
        ScanFrom(rest[1..], next);
        { ScanFromConverts(rest[1..], next); }
        DigestOfDigits(next + Convert(rest[1..]));
      }
    }
  }

  /** The pseudo-hash is the digest of the input's digit string. */
  lemma HashIsDigestOfConverted(s: string)
    ensures HashOfString(s) == DigestOfDigits(Convert(s))
  {
    ScanFromConverts(s, []);
    assert [] + Convert(s) == Convert(s);
  }

  /** The shape of `calculate_hash`'s result for any input: at least 96
      characters and a multiple of 3, lower-case hex digits only, each
      character tripled in place, and exactly 96 zeros when the input has no
      letters or digits. */
  lemma HashShape(s: string)
    ensures var r := HashOfString(s);
            && |r| >= EmptyDigestLength && |r| % 3 == 0
            && (forall i :: 0 <= i < |r| ==> IsHexDigit(r[i]))
            && (forall i, j :: 0 <= i < |r| && 0 <= j < |r| && i / 3 == j / 3 ==> r[i] == r[j])
            && (Convert(s) == [] ==> r == Zeros(EmptyDigestLength))
  {
    HashIsDigestOfConverted(s);
    DigestShape(Convert(s));
  }

  /** The number a pseudo-hash encodes: every third character read as hex. */
  function DigestValue(r: string): nat
    requires IsNumeral(EveryThird(r), 16)
  {
    Value(EveryThird(r), 16)
  }

  /** The pseudo-hash keeps exactly the numeric value of the digit string:
      reading it back gives `int(converted)` (0 for an empty digit string). */
  lemma DigestRoundTrip(converted: string)
    requires IsNumeral(converted, 10)
    ensures IsNumeral(EveryThird(DigestOfDigits(converted)), 16)
    ensures DigestValue(DigestOfDigits(converted)) == Value(converted, 10)
  {
    var p := PaddedHex(Value(converted, 10));
    EmptyBranchAgrees(converted);
    EveryThirdOfTriple(p);
    PaddedHexValue(Value(converted, 10));
  }

  /** Two digit strings have the same digest exactly when they denote the
      same number. */
  lemma SameDigestIffSameNumber(d: string, e: string)
    requires IsNumeral(d, 10) && IsNumeral(e, 10)
    ensures DigestOfDigits(d) == DigestOfDigits(e) <==> Value(d, 10) == Value(e, 10)
  {
    EmptyBranchAgrees(d);
    EmptyBranchAgrees(e);
    DigestRoundTrip(d);
    DigestRoundTrip(e);
  }

  /** Two inputs have the same pseudo-hash exactly when their digit strings
      denote the same number. */
  lemma SameHashIffSameValue(s: string, t: string)
    ensures HashOfString(s) == HashOfString(t) <==> Value(Convert(s), 10) == Value(Convert(t), 10)
  {
    HashIsDigestOfConverted(s);
    HashIsDigestOfConverted(t);
    SameDigestIffSameNumber(Convert(s), Convert(t));
  }

  /** Inserting an ASCII character that is neither a letter nor a digit
      anywhere leaves the pseudo-hash unchanged. */
  lemma NonAlphanumericIgnored(a: string, c: char, b: string)
    requires c as int < 128
    requires !IsAsciiLetter(c) && !IsDecimalDigit(c)
    ensures HashOfString(a + [c] + b) == HashOfString(a + b)
  {
    var ac := a + [c];
    assert Convert([c]) == [] by {
      assert [c][1..] == [];
    }
    ConvertAppend(a, [c]);
    assert Convert(ac) == Convert(a);
    ConvertAppend(ac, b);
    ConvertAppend(a, b);
    assert a + [c] + b == ac + b;
    HashIsDigestOfConverted(a + [c] + b);
    HashIsDigestOfConverted(a + b);
  }

  /** A leading zero digit leaves the pseudo-hash unchanged. */
  lemma LeadingZeroIgnored(s: string)
    ensures HashOfString("0" + s) == HashOfString(s)
  {
    ConvertAppend("0", s);
    assert Convert("0") == "0";
    ValueIgnoresLeadingZero(Convert(s), 10);
    SameHashIffSameValue("0" + s, s);
  }

  /** A digit string of zeros only, however long, gives the same 96 zeros as
      an input with no letters or digits. */
  lemma ZeroDigitsGiveZeroDigest(s: string)
    requires forall i :: 0 <= i < |Convert(s)| ==> Convert(s)[i] == '0'
    ensures HashOfString(s) == Zeros(EmptyDigestLength)
  {
    var d := Convert(s);
    assert d == Zeros(|d|) + [];
    ValueIgnoresLeadingZeros(|d|, [], 10);
    HashIsDigestOfConverted(s);
    EmptyBranchAgrees(d);
    ZeroPaddedTripled();
  }

  /** Letters and digits collide: "k" (11th letter), "aa" and "11" all give
      the digit string "11". */
  lemma LetterDigitCollision()
    ensures HashOfString("k") == HashOfString("aa") == HashOfString("11")
  {
    assert FromNat(11, 10) == "11";
    assert FromNat(1, 10) == "1";
    assert Convert("k") == "11";
    assert Convert("aa") == "11";
    assert Convert("11") == "11";
    HashIsDigestOfConverted("k");
    HashIsDigestOfConverted("aa");
    HashIsDigestOfConverted("11");
  }
}
