/** `png_ascii_from_fixed`: a fixed point value as a minimal decimal (android/jni/libpng/png.c:3066-3132). */
module FixedText {
  import opened Basics
  import opened Words
  import opened FpText

  /** The number written by a digit string, most significant digit first. */
  function Value(s: string): int {
    if s == "" then 0 else 10 * Value(Init(s)) + (s[|s| - 1] as int - '0' as int)
  }

  /** One hundred thousand times the decimal that sign, whole part and at most five decimals denote. */
  function Fixed(p: Parts): int
    requires |p.fraction| <= 5
  {
    var magnitude := Value(p.whole) * 100000 + Value(p.fraction) * Pow10(5 - |p.fraction|);
    if p.sign == "-" then -magnitude else magnitude
  }

  /** What the printer writes: no leading zeros, no trailing zeros, a dot only before decimals,
      and no digit at all only for ".", which does not occur. */
  predicate Minimal(p: Parts) {
    && Complete(p) && p.marker == "" && p.sign != "+" && |p.fraction| <= 5
    && (p.dot <==> p.fraction != "")
    && (p.fraction != "" ==> p.fraction[|p.fraction| - 1] != '0')
    && (|p.whole| > 1 || p.dot ==> p.whole == "" || p.whole[0] != '0')
  }

  // ---- Decimal digits ------------------------------------------------------------------------

  lemma ValueSnoc(s: string, c: char)
    ensures Value(s + [c]) == 10 * Value(s) + (c as int - '0' as int)
  {
    assert Init(s + [c]) == s;
  }

  /** n without its k low decimal digits. */
  function High(n: nat, k: nat): nat {
    if k == 0 then n else High(n, k - 1) / 10
  }

  /** The value of the k low decimal digits of n. */
  function Low(n: nat, k: nat): nat {
    if k == 0 then 0 else Low(n, k - 1) + High(n, k - 1) % 10 * Pow10(k - 1)
  }

  lemma {:induction false} SplitAt(n: nat, k: nat)
    ensures n == High(n, k) * Pow10(k) + Low(n, k) && Low(n, k) < Pow10(k)
  {
    if k == 0 {
    } else {
      SplitAt(n, k - 1);
      var h := High(n, k - 1);
      MulAssoc(h / 10, 10, Pow10(k - 1));
      MulDistributes(10 * (h / 10), h % 10, Pow10(k - 1));
      MulMonotone(h % 10, 9, Pow10(k - 1));
    }
  }

  lemma {:induction false} LowAscends(n: nat, j: nat, k: nat)
    requires j <= k
    ensures Low(n, j) <= Low(n, k)
  {
    if j == k {
    } else {
      LowAscends(n, j, k - 1);
      MulMonotone(0, High(n, k - 1) % 10, Pow10(k - 1));
    }
  }

  lemma {:induction false} HighVanishes(n: nat, j: nat, k: nat)
    requires j <= k && High(n, j) == 0
    ensures High(n, k) == 0
  {
    if j == k {
    } else {
      HighVanishes(n, j, k - 1);
    }
  }

  lemma Pow10Small()
    ensures Pow10(0) == 1 && Pow10(1) == 10 && Pow10(2) == 100 && Pow10(3) == 1000 && Pow10(4) == 10000
            && Pow10(5) == 100000
    ensures Pow10(6) == 1000000 && Pow10(10) == 10_000_000_000
  {
    assert Pow10(3) == 10 * Pow10(2);
    assert Pow10(6) == 10 * Pow10(5);
    assert Pow10(8) == 100 * Pow10(6);
    assert Pow10(10) == 100 * Pow10(8);
  }

  // ---- The printer ---------------------------------------------------------------------------

  function DigitChar(d: int): char
    requires 0 <= d <= 9
  {
    ('0' as int + d) as char
  }

  /** The digit array of the code: little-endian, without leading zeros, with the one-based index
      of the lowest non-zero digit (16 when there is none). */
  ghost predicate DigitsOf(digits: array<char>, n: nat, ndigits: nat, first: nat)
    requires digits.Length == 10
    reads digits
  {
    && ndigits <= 10
    && (forall k :: 0 <= k < ndigits ==> digits[k] == DigitChar(High(n, k) % 10))
    && High(n, ndigits) == 0
    && (ndigits > 0 ==> High(n, ndigits - 1) > 0)
    && (n > 0 ==> 1 <= first <= ndigits && High(n, first - 1) % 10 > 0 && Low(n, first - 1) == 0)
    && (n == 0 ==> first == 16 && ndigits == 0)
  }

  method SplitDigits(num0: nat) returns (digits: array<char>, ndigits: nat, first: nat)
    requires num0 <= 0x8000_0000
    ensures fresh(digits) && digits.Length == 10
    ensures DigitsOf(digits, num0, ndigits, first)
  {
    hide Low, Pow10, High, DigitChar;
    digits := new char[10];
    ndigits, first := 0, 16;
    var num := num0;
    DigitsStart(num0);
    while num > 0
      invariant ndigits <= 10
      invariant num == High(num0, ndigits)
      invariant forall k :: 0 <= k < ndigits ==> digits[k] == DigitChar(High(num0, k) % 10)
      invariant ndigits > 0 ==> High(num0, ndigits - 1) > 0
      invariant num0 == 0 ==> ndigits == 0
      invariant first == 16 ==> Low(num0, ndigits) == 0
      invariant first != 16 ==> 1 <= first <= ndigits && High(num0, first - 1) % 10 > 0 && Low(num0, first - 1) == 0
      decreases num
    {
      TenDigitsSuffice(num0);
      DigitsStep(num0, ndigits);
      var tmp := num / 10;
      num := num - tmp * 10;
      digits[ndigits] := DigitChar(num);
      ndigits := ndigits + 1;
      if first == 16 && num > 0 {
        first := ndigits;
      }
      num := tmp;
    }
    NothingLeft(num0, ndigits);
  }

  lemma DigitsStart(n: nat)
    ensures High(n, 0) == n && Low(n, 0) == 0
  {
  }

  lemma NothingLeft(n: nat, k: nat)
    requires High(n, k) == 0
    ensures Low(n, k) == n
  {
    SplitAt(n, k);
  }

  lemma DigitsStep(n: nat, k: nat)
    ensures High(n, k + 1) == High(n, k) / 10
    ensures High(n, k) % 10 == 0 ==> Low(n, k + 1) == Low(n, k)
  {
  }

  lemma TenDigitsSuffice(n: nat)
    requires n <= 0x8000_0000
    ensures High(n, 10) == 0
  {
    Pow10Small();
    SplitAt(n, 10);
  }

  /** The digits of n from index hi - 1 down to index lo, as characters. */
  function DigitRun(n: nat, hi: nat, lo: nat): (s: string)
    ensures |s| == if lo < hi then hi - lo else 0
    decreases hi - lo
  {
    if lo >= hi then "" else DigitRun(n, hi, lo + 1) + [DigitChar(High(n, lo) % 10)]
  }

  lemma {:induction false} RunConcat(n: nat, hi: nat, mid: nat, lo: nat)
    requires lo <= mid <= hi
    ensures DigitRun(n, hi, lo) == DigitRun(n, hi, mid) + DigitRun(n, mid, lo)
    decreases mid - lo
  {
    if lo == mid {
    } else {
      RunConcat(n, hi, mid, lo + 1);
    }
  }

  lemma {:induction false} RunDigits(n: nat, hi: nat, lo: nat)
    ensures Digits(DigitRun(n, hi, lo))
    ensures lo < hi ==> DigitRun(n, hi, lo)[0] == DigitChar(High(n, hi - 1) % 10)
    ensures lo < hi ==> DigitRun(n, hi, lo)[hi - lo - 1] == DigitChar(High(n, lo) % 10)
    decreases hi - lo
  {
    if lo < hi {
      RunDigits(n, hi, lo + 1);
    }
  }

  lemma ValueDigit(s: string, d: int)
    requires 0 <= d <= 9
    ensures Value(s + [DigitChar(d)]) == 10 * Value(s) + d
  {
    ValueSnoc(s, DigitChar(d));
  }

  lemma {:induction false} RunValue(n: nat, hi: nat, lo: nat)
    requires lo <= hi
    ensures Value(DigitRun(n, hi, lo)) == High(n, lo) - High(n, hi) * Pow10(hi - lo)
    decreases hi - lo
  {
    if lo == hi {
      assert Pow10(0) == 1;
    } else {
      RunValue(n, hi, lo + 1);
      ValueDigit(DigitRun(n, hi, lo + 1), High(n, lo) % 10);
      HighDivides(n, lo);
      ScaleByTen(High(n, hi), Pow10(hi - lo - 1));
    }
  }

  lemma HighDivides(n: nat, k: nat)
    ensures High(n, k) == 10 * High(n, k + 1) + High(n, k) % 10
  {
  }

  lemma ScaleByTen(x: int, p: int)
    ensures x * (10 * p) == 10 * (x * p)
  {
  }

  /** `while (ndigits > to) *ascii++ = digits[--ndigits]`. */
  method EmitDigits(ascii: array<char>, pos: nat, digits: array<char>, ghost n: nat, ndigits0: nat, to: nat)
      returns (pos': nat, ndigits: nat)
    requires digits != ascii && digits.Length == 10 && ndigits0 <= 10
    requires forall k :: 0 <= k < ndigits0 ==> digits[k] == DigitChar(High(n, k) % 10)
    requires pos + ndigits0 <= ascii.Length + to && pos <= ascii.Length
    modifies ascii
    ensures ndigits == if ndigits0 > to then to else ndigits0
    ensures pos' == pos + (ndigits0 - ndigits)
    ensures ascii[..pos'] == old(ascii[..pos]) + DigitRun(n, ndigits0, to)
    ensures forall k :: pos' <= k < ascii.Length ==> ascii[k] == old(ascii[k])
  {
    ndigits := ndigits0;
    pos' := pos;
    while ndigits > to
      invariant (to <= ndigits <= ndigits0 || ndigits == ndigits0 <= to) && pos' == pos + (ndigits0 - ndigits)
      invariant ascii[..pos'] == old(ascii[..pos]) + DigitRun(n, ndigits0, ndigits)
      invariant forall k :: pos' <= k < ascii.Length ==> ascii[k] == old(ascii[k])
    {
      ndigits := ndigits - 1;
      PutChar(ascii, pos', digits[ndigits]);
      pos' := pos' + 1;
    }
  }

  /** `*ascii++ = c`. */
  method PutChar(ascii: array<char>, pos: nat, c: char)
    requires pos < ascii.Length
    modifies ascii
    ensures ascii[..pos + 1] == old(ascii[..pos]) + [c]
    ensures forall k :: pos + 1 <= k < ascii.Length ==> ascii[k] == old(ascii[k])
  {
    ascii[pos] := c;
  }

  /** `while (ndigits < i) *ascii++ = 48, --i`: the zeros before the first digit of a small number. */
  method EmitZeros(ascii: array<char>, pos: nat, ghost n: nat, ndigits: nat) returns (pos': nat)
    requires ndigits <= 5 && (ndigits < 5 ==> High(n, ndigits) == 0)
    requires pos + (5 - ndigits) <= ascii.Length
    modifies ascii
    ensures pos' == pos + (5 - ndigits)
    ensures ascii[..pos'] == old(ascii[..pos]) + DigitRun(n, 5, ndigits)
    ensures forall k :: pos' <= k < ascii.Length ==> ascii[k] == old(ascii[k])
  {
    var i := 5;
    pos' := pos;
    while ndigits < i
      invariant ndigits <= i <= 5 && pos' == pos + (5 - i)
      invariant ascii[..pos'] == old(ascii[..pos]) + DigitRun(n, 5, i)
      invariant forall k :: pos' <= k < ascii.Length ==> ascii[k] == old(ascii[k])
    {
      PutChar(ascii, pos', '0');
      pos' := pos' + 1;
      i := i - 1;
      HighVanishes(n, ndigits, i);
    }
  }

  /** The decimal point and the decimals down to the first non-zero one. */
  method EmitFraction(ascii: array<char>, pos: nat, digits: array<char>, ghost n: nat, ndigits: nat, first: nat)
      returns (pos': nat)
    requires digits != ascii && digits.Length == 10 && ndigits <= 5 && 1 <= first <= 5 && first <= ndigits
    requires forall k :: 0 <= k < ndigits ==> digits[k] == DigitChar(High(n, k) % 10)
    requires ndigits < 5 ==> High(n, ndigits) == 0
    requires pos + 6 <= ascii.Length
    modifies ascii
    ensures pos' == pos + 1 + (6 - first)
    ensures ascii[..pos'] == old(ascii[..pos]) + "." + DigitRun(n, 5, first - 1)
    ensures forall k :: pos' <= k < ascii.Length ==> ascii[k] == old(ascii[k])
  {
    hide High, DigitRun;
    RunConcat(n, 5, ndigits, first - 1);
    PointJoins(ascii[..pos], DigitRun(n, 5, ndigits), DigitRun(n, ndigits, first - 1));
    PutChar(ascii, pos, '.');
    pos' := EmitZeros(ascii, pos + 1, n, ndigits);
    var rest;
    pos', rest := EmitDigits(ascii, pos', digits, n, ndigits, first - 1);
  }

  lemma PointJoins(s: string, t: string, u: string)
    ensures s + ['.'] + t + u == s + "." + (t + u)
  {
  }

  /** The parts the printer writes for the magnitude n. */
  function PartsOf(negative: bool, n: nat, ndigits: nat, first: nat): Parts {
    var sign := if negative then "-" else "";
    if n == 0 then Parts(sign, "0", false, "", "", "", "")
    else if first <= 5 && first > 0 then
      Parts(sign, DigitRun(n, ndigits, 5), true, DigitRun(n, 5, first - 1), "", "", "")
    else Parts(sign, DigitRun(n, ndigits, 5), false, "", "", "", "")
  }

  lemma PartsAreMinimal(negative: bool, n: nat, ndigits: nat, first: nat)
    requires n > 0 && ndigits <= 10 && High(n, ndigits) == 0 && ndigits > 0 && High(n, ndigits - 1) > 0
    requires 1 <= first <= ndigits && High(n, first - 1) % 10 > 0
    ensures Minimal(PartsOf(negative, n, ndigits, first))
  {
    hide High;
    RunDigits(n, ndigits, 5);
    RunDigits(n, 5, first - 1);
    HighTop(n, ndigits);
    if ndigits <= 5 {
      assert first <= 5;
    }
  }

  lemma HighTop(n: nat, k: nat)
    requires 0 < k && High(n, k) == 0 && High(n, k - 1) > 0
    ensures 1 <= High(n, k - 1) % 10
  {
  }

  lemma PartsDenote(negative: bool, n: nat, ndigits: nat, first: nat)
    requires n > 0 && High(n, ndigits) == 0 && 1 <= first <= ndigits && Low(n, first - 1) == 0
    ensures |PartsOf(negative, n, ndigits, first).fraction| <= 5
    ensures Fixed(PartsOf(negative, n, ndigits, first)) == if negative then -(n as int) else n
  {
    hide High, Low, DigitRun;
    var p := PartsOf(negative, n, ndigits, first);
    assert Value(p.whole) == High(n, 5) by {
      WholeValue(n, ndigits);
    }
    SplitAt(n, 5);
    Pow10Small();
    if first <= 5 {
      RunValue(n, 5, first - 1);
      SplitAt(n, first - 1);
      var k := first - 1;
      PowersOfTen(k);
      Recombine(High(n, 5), High(n, k), Pow10(5 - k), Pow10(k));
    } else {
      LowAscends(n, 5, first - 1);
      assert Value("") == 0;
    }
  }

  lemma Recombine(whole: int, all: int, p: int, q: int)
    requires p * q == 100000
    ensures whole * 100000 + (all - whole * p) * q == all * q
  {
    MulDistributes(all - whole * p, whole * p, q);
    MulAssoc(whole, p, q);
  }

  lemma WholeValue(n: nat, ndigits: nat)
    requires High(n, ndigits) == 0
    ensures Value(DigitRun(n, ndigits, 5)) == High(n, 5)
  {
    if ndigits <= 5 {
      HighVanishes(n, ndigits, 5);
    } else {
      RunValue(n, ndigits, 5);
    }
  }

  lemma PowersOfTen(k: nat)
    requires k <= 5
    ensures Pow10(5 - k) * Pow10(k) == 100000
  {
    Pow10Small();
  }

  /** The block under `if (num <= 0x80000000)` up to the terminator. */
  method EmitMagnitude(ascii: array<char>, pos: nat, num: uint32, ghost negative: bool)
      returns (pos': nat, ghost p: Parts)
    requires num <= 0x8000_0000 && pos <= 1 && ascii.Length > 12
    requires num == 0 ==> !negative
    modifies ascii
    ensures pos <= pos' <= pos + 11
    ensures ascii[..pos'] == old(ascii[..pos]) + (p.whole + (if p.dot then "." else "") + p.fraction)
    ensures forall k :: pos' <= k < ascii.Length ==> ascii[k] == old(ascii[k])
    ensures Minimal(p) && Fixed(p) == (if negative then -(num as int) else num)
            && (p.sign == if negative then "-" else "")
  {
    hide Minimal, Fixed, High, Low, DigitRun, Text;
    var digits, ndigits, first := SplitDigits(num);
    p := PartsOf(negative, num, ndigits, first);
    pos' := pos;
    if ndigits > 0 {
      PartsAreMinimal(negative, num, ndigits, first);
      PartsDenote(negative, num, ndigits, first);
      pos', ndigits := EmitDigits(ascii, pos', digits, num, ndigits, 5);
      ghost var whole := ascii[..pos'];
      if first <= 5 {
        pos' := EmitFraction(ascii, pos', digits, num, ndigits, first);
        assert ascii[..pos'] == whole + "." + p.fraction == old(ascii[..pos]) + (p.whole + "." + p.fraction);
      }
    } else {
      ZeroIsMinimal();
      PutChar(ascii, pos', '0');
      pos' := pos' + 1;
    }
  }

  /** The minus sign and the magnitude, which also fits for the least 32-bit value. */
  method EmitSign(ascii: array<char>, fp: int32) returns (len: nat, num: uint32)
    requires ascii.Length > 12
    modifies ascii
    ensures len <= 1 && num == Abs(fp)
    ensures ascii[..len] == (if fp < 0 then "-" else "")
    ensures forall k :: len <= k < ascii.Length ==> ascii[k] == old(ascii[k])
  {
    len := 0;
    if fp < 0 {
      PutChar(ascii, 0, '-');
      len, num := 1, -(fp as int);
    } else {
      num := fp;
    }
  }

  /** `*ascii = 0`. */
  method Terminate(ascii: array<char>, len: nat)
    requires len < ascii.Length
    modifies ascii
    ensures ascii[..len] == old(ascii[..len]) && ascii[len] == '\0'
    ensures forall k :: len + 1 <= k < ascii.Length ==> ascii[k] == old(ascii[k])
  {
    ascii[len] := '\0';
  }

  /** For every 32-bit value and every buffer of at least 13 bytes: a NUL-terminated minimal decimal
      of at most 12 characters whose value times 100000 is the argument; the bytes behind it stay. */
  method AsciiFromFixed(ascii: array<char>, fp: int32) returns (ok: bool, len: nat, ghost p: Parts)
    modifies ascii
    ensures ok <==> ascii.Length > 12
    ensures !ok ==> ascii[..] == old(ascii[..])
    ensures ok ==> len <= 12 && ascii[len] == '\0' && ascii[len + 1..] == old(ascii[len + 1..])
    ensures ok ==> ascii[..len] == Text(p) && Minimal(p) && Fixed(p) == fp && (p.sign == "-" <==> fp < 0)
  {
    hide Fixed;
    ok, len, p := ascii.Length > 12, 0, Parts("", "", false, "", "", "", "");
    if !ok {
      return;
    }
    var num;
    len, num := EmitSign(ascii, fp);
    len, p := EmitMagnitude(ascii, len, num, fp < 0);
    assert ascii[..len] == Text(p);
    Terminate(ascii, len);
  }

  lemma ZeroIsMinimal()
    ensures Minimal(PartsOf(false, 0, 0, 16)) && Fixed(PartsOf(false, 0, 0, 16)) == 0
  {
    ValueSnoc("", '0');
    assert "" + ['0'] == "0";
  }

  /** The number test accepts every printed value, and its flags give sign and zeroness of the value. */
  lemma PrintedIsAccepted(p: Parts, s: string)
    requires Minimal(p) && (p.sign == "-" ==> Fixed(p) != 0)
    requires Text(p) <= s && |Text(p)| < |s| && s[|Text(p)|] == '\0'
    ensures Accepts(s)
    ensures var st := Run(s, START, 0).0;
            (st.negative <==> Fixed(p) < 0) && (st.nonzero <==> Fixed(p) != 0)
  {
    hide Fixed, Minimal, Text, HasNonzero, Run, Accepts;
    MinimalIsNumber(p);
    NoNulInText(p);
    UpToNulUnique(s, Text(p));
    NumberIsAccepted(s, p);
    FixedSign(p);
  }

  lemma MinimalIsNumber(p: Parts)
    requires Minimal(p)
    ensures Sound(p) && Complete(p) && Digits(p.whole) && Digits(p.fraction) && |p.fraction| <= 5
  {
  }

  /** Sign and zeroness of the value, from the signs and digits of its text. */
  lemma FixedSign(p: Parts)
    requires Digits(p.whole) && Digits(p.fraction) && |p.fraction| <= 5
    ensures Fixed(p) != 0 <==> HasNonzero(p.whole) || HasNonzero(p.fraction)
    ensures Fixed(p) < 0 ==> p.sign == "-"
    ensures p.sign == "-" && Fixed(p) != 0 ==> Fixed(p) < 0
  {
    hide HasNonzero, Digits, Value, Pow10;
    ValueSign(p.whole);
    ValueSign(p.fraction);
    Pow10Small();
    MulMonotone(0, Value(p.fraction), Pow10(5 - |p.fraction|));
    MulMonotone(1, Pow10(5 - |p.fraction|), if Value(p.fraction) > 0 then Value(p.fraction) else 0);
  }

  lemma {:induction false} ValueSign(s: string)
    requires Digits(s)
    ensures 0 <= Value(s) && (Value(s) > 0 <==> HasNonzero(s))
  {
    if s == "" {
    } else {
      var c := s[|s| - 1];
      assert s == Init(s) + [c] && c in s;
      forall d | d in Init(s)
        ensures IsDigit(d)
      {
        assert d in s;
      }
      ValueSign(Init(s));
      HasNonzeroSnoc(Init(s), c);
    }
  }
}
