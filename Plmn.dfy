/** PLMN codes (mobile country code and mobile network code) as the SIM
    stores them: three BCD bytes, unpacked through a fixed digit table into
    NUL-padded three-character arrays, and compared as C strings. */
module Plmn {
  import opened Bytes

  /** OFONO_MAX_MCC_LENGTH and OFONO_MAX_MNC_LENGTH. */
  const CODE_LENGTH: nat := 3

  /** The three characters of an MCC or MNC array; the fourth, always NUL,
      is implicit. */
  type Code = s: seq<char> | |s| == CODE_LENGTH witness ['\0', '\0', '\0']

  /** The nibble-to-character table; nibble 0xF (the BCD filler) maps to NUL. */
  const DIGIT_LUT: string := "0123456789*#abd\0"

  /** The characters a stored nibble other than the filler can produce. */
  const DIGITS: string := "0123456789*#abd"

  function NibbleChar(n: nat): (c: char)
    requires n < 0x10
  {
    DIGIT_LUT[n]
  }

  /** `parse_mcc_mnc`: MCC digits from byte 0 low, byte 0 high, byte 1 low;
      MNC digits from byte 2 low, byte 2 high, byte 1 high. */
  function ParseMccMnc(bcd: seq<byte>): (r: (Code, Code))
    requires |bcd| >= 3
    ensures r.1[2] == '\0' <==> bcd[1] / 0x10 == 0xF
  {
    ([NibbleChar(bcd[0] % 0x10), NibbleChar(bcd[0] / 0x10), NibbleChar(bcd[1] % 0x10)],
     [NibbleChar(bcd[2] % 0x10), NibbleChar(bcd[2] / 0x10), NibbleChar(bcd[1] / 0x10)])
  }

  /** Every unpacked character is a table entry; the third MNC character
      is NUL exactly for the filler nibble, leaving a two-digit MNC; and
      a nibble 0xD gives the wildcard 'b' in its position. */
  lemma ParseMccMncFacts(bcd: seq<byte>)
    requires |bcd| >= 3
    ensures var (mcc, mnc) := ParseMccMnc(bcd);
            && (forall i :: 0 <= i < CODE_LENGTH ==> mcc[i] in DIGIT_LUT && mnc[i] in DIGIT_LUT)
            && (mnc[2] == '\0' <==> bcd[1] / 0x10 == 0xF)
            && (bcd[2] % 0x10 != 0xF && bcd[2] / 0x10 != 0xF ==>
                  CString(mnc) == if mnc[2] == '\0' then mnc[..2] else mnc)
            && (mcc[0] == 'b' <==> bcd[0] % 0x10 == 0xD)
            && (mcc[1] == 'b' <==> bcd[0] / 0x10 == 0xD)
            && (mcc[2] == 'b' <==> bcd[1] % 0x10 == 0xD)
            && (mnc[0] == 'b' <==> bcd[2] % 0x10 == 0xD)
            && (mnc[1] == 'b' <==> bcd[2] / 0x10 == 0xD)
            && (mnc[2] == 'b' <==> bcd[1] / 0x10 == 0xD)
  {
    var (mcc, mnc) := ParseMccMnc(bcd);
    NibbleCharInjective(bcd[1] / 0x10, 0xF);
    NibbleCharInjective(bcd[0] % 0x10, 0xD);
    NibbleCharInjective(bcd[2] % 0x10, 0xD);
    NibbleCharInjective(bcd[0] / 0x10, 0xD);
    NibbleCharInjective(bcd[1] % 0x10, 0xD);
    NibbleCharInjective(bcd[2] / 0x10, 0xD);
    NibbleCharInjective(bcd[1] / 0x10, 0xD);
    NibbleCharInjective(bcd[2] % 0x10, 0xF);
    NibbleCharInjective(bcd[2] / 0x10, 0xF);
    if bcd[2] % 0x10 != 0xF && bcd[2] / 0x10 != 0xF {
      assert CString(mnc) == [mnc[0]] + CString(mnc[1..]);
      assert CString(mnc[1..]) == [mnc[1]] + CString(mnc[2..]);
      if mnc[2] != '\0' {
        assert CString(mnc[2..]) == [mnc[2]] + CString(mnc[3..]);
        assert mnc == [mnc[0], mnc[1], mnc[2]];
      }
    }
  }

  /** Each table entry is produced by exactly one nibble: the filler 0xF is
      the only one giving NUL, 0xD the only one giving the wildcard 'b',
      and 0..9 give the decimal digits. */
  lemma NibbleCharInjective(m: nat, n: nat)
    requires m < 0x10 && n < 0x10
    ensures NibbleChar(m) == NibbleChar(n) <==> m == n
    ensures NibbleChar(n) == '\0' <==> n == 0xF
    ensures NibbleChar(n) == 'b' <==> n == 0xD
    ensures n < 10 ==> NibbleChar(n) == '0' + n as char
  {
  }

  /** The nibble a table character comes from. */
  function CharNibble(c: char): (n: nat)
    requires c in DIGIT_LUT
    ensures n < 0x10 && NibbleChar(n) == c
  {
    var i :| 0 <= i < |DIGIT_LUT| && DIGIT_LUT[i] == c;
    NibbleCharInjective(i, i);
    i
  }

  lemma NibblesOfByte(lo: nat, hi: nat)
    requires lo < 0x10 && hi < 0x10
    ensures (lo + 0x10 * hi) % 0x10 == lo && (lo + 0x10 * hi) / 0x10 == hi
  {
  }

  /** Every character of DIGITS is a table entry other than NUL. */
  lemma DigitInTable(c: char)
    requires c in DIGITS
    ensures c in DIGIT_LUT && c != '\0'
  {
    var i :| 0 <= i < |DIGITS| && DIGITS[i] == c;
    assert DIGIT_LUT[i] == c;
  }

  lemma DigitsInTable(s: seq<char>)
    requires forall i :: 0 <= i < |s| ==> s[i] in DIGITS
    ensures forall i :: 0 <= i < |s| ==> s[i] in DIGIT_LUT && s[i] != '\0'
  {
    forall i | 0 <= i < |s| ensures s[i] in DIGIT_LUT && s[i] != '\0' {
      DigitInTable(s[i]);
    }
  }

  /** The BCD packing that `ParseMccMnc` undoes (the layout of a PLMN in
      3GPP TS 24.008 section 10.5.1.3): a two-character MNC is stored with
      the filler nibble as its third digit. */
  function PackMccMnc(mcc: Code, mnc: seq<char>): (bcd: seq<byte>)
    requires forall i :: 0 <= i < CODE_LENGTH ==> mcc[i] in DIGITS
    requires (|mnc| == 2 || |mnc| == 3) && forall i :: 0 <= i < |mnc| ==> mnc[i] in DIGITS
    ensures |bcd| == 3
  {
    DigitsInTable(mcc);
    DigitsInTable(mnc);
    var m3 := if |mnc| == 3 then CharNibble(mnc[2]) else 0xF;
    [CharNibble(mcc[0]) + 0x10 * CharNibble(mcc[1]),
     CharNibble(mcc[2]) + 0x10 * m3,
     CharNibble(mnc[0]) + 0x10 * CharNibble(mnc[1])]
  }

  /** A three-character C array holding `s` and NUL padding. */
  function Padded(s: seq<char>): (c: Code)
    requires |s| <= CODE_LENGTH
    ensures c[..|s|] == s
    ensures forall i :: |s| <= i < CODE_LENGTH ==> c[i] == '\0'
  {
    s + seq(CODE_LENGTH - |s|, _ => '\0')
  }

  /** Looking up a nibble's character and going back gives the nibble;
      every nibble but the filler gives a character of DIGITS. */
  lemma CharNibbleOfNibble(n: nat)
    requires n < 0x10
    ensures CharNibble(NibbleChar(n)) == n
    ensures n < 0xF ==> NibbleChar(n) in DIGITS
  {
    NibbleCharInjective(n, CharNibble(NibbleChar(n)));
    if n < 0xF {
      assert DIGITS[n] == NibbleChar(n);
    }
  }

  /** Unpacking a packed code gives back its characters, the MNC padded
      with NUL when it has two digits. */
  lemma ParsePackRoundTrip(mcc: Code, mnc: seq<char>)
    requires forall i :: 0 <= i < CODE_LENGTH ==> mcc[i] in DIGITS
    requires (|mnc| == 2 || |mnc| == 3) && forall i :: 0 <= i < |mnc| ==> mnc[i] in DIGITS
    ensures ParseMccMnc(PackMccMnc(mcc, mnc)) == (mcc, Padded(mnc))
  {
    DigitsInTable(mcc);
    DigitsInTable(mnc);
    var n0, n1, n2 := CharNibble(mcc[0]), CharNibble(mcc[1]), CharNibble(mcc[2]);
    var k0, k1 := CharNibble(mnc[0]), CharNibble(mnc[1]);
    var k2 := if |mnc| == 3 then CharNibble(mnc[2]) else 0xF;
    var bcd := PackMccMnc(mcc, mnc);
    assert bcd[0] == n0 + 0x10 * n1;
    assert bcd[1] == n2 + 0x10 * k2;
    assert bcd[2] == k0 + 0x10 * k1;
    ParseOfNibbles(bcd, n0, n1, n2, k0, k1, k2);
    var padded := Padded(mnc);
    if |mnc| == 3 {
      assert NibbleChar(k2) == mnc[2] == padded[2];
    } else {
      assert NibbleChar(k2) == '\0' == padded[2];
    }
    assert [mcc[0], mcc[1], mcc[2]] == mcc;
    assert [NibbleChar(k0), NibbleChar(k1), NibbleChar(k2)] == padded;
  }

  /** Unpacking three bytes built from six nibbles yields those nibbles' characters. */
  lemma ParseOfNibbles(bcd: seq<byte>, n0: nat, n1: nat, n2: nat, k0: nat, k1: nat, k2: nat)
    requires n0 < 0x10 && n1 < 0x10 && n2 < 0x10 && k0 < 0x10 && k1 < 0x10 && k2 < 0x10
    requires |bcd| == 3 && bcd[0] == n0 + 0x10 * n1 && bcd[1] == n2 + 0x10 * k2 && bcd[2] == k0 + 0x10 * k1
    ensures ParseMccMnc(bcd).0 == [NibbleChar(n0), NibbleChar(n1), NibbleChar(n2)]
    ensures ParseMccMnc(bcd).1 == [NibbleChar(k0), NibbleChar(k1), NibbleChar(k2)]
  {
    NibblesOfByte(n0, n1);
    NibblesOfByte(n2, k2);
    NibblesOfByte(k0, k1);
    assert bcd[0] % 0x10 == n0 && bcd[0] / 0x10 == n1 && bcd[1] % 0x10 == n2;
    assert bcd[2] % 0x10 == k0 && bcd[2] / 0x10 == k1 && bcd[1] / 0x10 == k2;
  }

  /** Packing an unpacked code gives back the three bytes, whenever every
      MCC and MNC nibble is a table entry other than the filler, except that
      the third MNC nibble may be the filler. */
  lemma PackParseRoundTrip(bcd: seq<byte>)
    requires |bcd| == 3
    requires bcd[0] % 0x10 < 0xF && bcd[0] / 0x10 < 0xF && bcd[1] % 0x10 < 0xF
    requires bcd[2] % 0x10 < 0xF && bcd[2] / 0x10 < 0xF
    ensures var (mcc, mnc) := ParseMccMnc(bcd);
            var stored := if mnc[2] == '\0' then mnc[..2] else mnc;
            && (forall i :: 0 <= i < CODE_LENGTH ==> mcc[i] in DIGITS)
            && (forall i :: 0 <= i < |stored| ==> stored[i] in DIGITS)
            && PackMccMnc(mcc, stored) == bcd
  {
    var (mcc, mnc) := ParseMccMnc(bcd);
    CharNibbleOfNibble(bcd[0] % 0x10);
    CharNibbleOfNibble(bcd[0] / 0x10);
    CharNibbleOfNibble(bcd[1] % 0x10);
    CharNibbleOfNibble(bcd[1] / 0x10);
    CharNibbleOfNibble(bcd[2] % 0x10);
    CharNibbleOfNibble(bcd[2] / 0x10);
    var stored := if mnc[2] == '\0' then mnc[..2] else mnc;
    NibbleCharInjective(bcd[1] / 0x10, 0xF);
    var packed := PackMccMnc(mcc, stored);
    assert packed[0] == bcd[0] && packed[1] == bcd[1] && packed[2] == bcd[2];
  }

  /** A C string stored in a character array: the characters before the
      first NUL. */
  function CString(s: seq<char>): (r: seq<char>)
    ensures |r| <= |s|
  {
    if s == [] || s[0] == '\0' then [] else [s[0]] + CString(s[1..])
  }

  /** The C string is the longest NUL-free prefix of the array. */
  lemma {:induction false} CStringFacts(s: seq<char>)
    ensures CString(s) <= s && '\0' !in CString(s)
    ensures |CString(s)| < |s| ==> s[|CString(s)|] == '\0'
  {
    if s != [] && s[0] != '\0' {
      CStringFacts(s[1..]);
      assert CString(s) == [s[0]] + CString(s[1..]);
    }
  }

  /** The sign of `strcmp` on two C strings: characters compare by code,
      and a string that is a proper prefix of the other is smaller. */
  function StrCmp(a: seq<char>, b: seq<char>): (r: int)
    ensures -1 <= r <= 1
  {
    if a == [] && b == [] then 0
    else if a == [] then -1
    else if b == [] then 1
    else if a[0] < b[0] then -1
    else if a[0] > b[0] then 1
    else StrCmp(a[1..], b[1..])
  }

  /** `strcmp` is zero exactly on equal strings and swaps sign when its
      arguments are swapped. */
  lemma {:induction false} StrCmpAntisymmetric(a: seq<char>, b: seq<char>)
    ensures StrCmp(a, b) == 0 <==> a == b
    ensures StrCmp(b, a) == -StrCmp(a, b)
  {
    if a != [] && b != [] && a[0] == b[0] {
      StrCmpAntisymmetric(a[1..], b[1..]);
      if a[1..] == b[1..] {
        assert a == [a[0]] + a[1..] && b == [b[0]] + b[1..];
      }
    }
  }

  /** The order `strcmp` induces is transitive. */
  lemma {:induction false} StrCmpTransitive(a: seq<char>, b: seq<char>, c: seq<char>)
    requires StrCmp(a, b) <= 0 && StrCmp(b, c) <= 0
    ensures StrCmp(a, c) <= 0
  {
    if a != [] && b != [] && c != [] && a[0] == b[0] && b[0] == c[0] {
      StrCmpTransitive(a[1..], b[1..], c[1..]);
    }
  }
}
