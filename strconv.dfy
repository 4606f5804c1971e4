/**
 * A model of the parts of Go's `fmt` and `strconv` packages that the array
 * codec relies on: `%d` rendering of an `int` and `strconv.Atoi`.
 * Go's `int` is taken to be 64 bits wide. Text is a sequence of characters,
 * each standing for one byte of the Go string.
 */
module Strconv {
  import opened Wrappers

  const MaxInt64: int := 0x7FFF_FFFF_FFFF_FFFF
  const MinInt64: int := -0x8000_0000_0000_0000
  const MaxUint64: int := 0xFFFF_FFFF_FFFF_FFFF

  /** Go's `int` on a 64-bit platform. */
  type Int = x: int | MinInt64 <= x <= MaxInt64

  /** The two sentinel errors `strconv.ErrSyntax` and `strconv.ErrRange`. */
  datatype ErrKind = ErrSyntax | ErrRange

  /** `*strconv.NumError` as returned by `Atoi`: the offending text and the kind. */
  datatype NumError = NumError(num: string, err: ErrKind)

  predicate IsDigit(c: char) { '0' <= c <= '9' }

  predicate AllDigits(s: string) {
    forall i :: 0 <= i < |s| ==> IsDigit(s[i])
  }

  function DigitValue(c: char): (d: nat)
    requires IsDigit(c)
    ensures d < 10
  {
    c as int - '0' as int
  }

  function DigitChar(d: nat): (c: char)
    requires d < 10
    ensures IsDigit(c) && DigitValue(c) == d
  {
    ('0' as int + d) as char
  }

  /**
   * The number denoted by the digits `s` read after the digits already worth
   * `acc`, most significant digit first. Reading more digits never lowers it.
   */
  function DigitsValue(s: string, acc: nat): (v: nat)
    requires AllDigits(s)
    ensures v >= acc
  {
    if s == [] then acc else DigitsValue(s[1..], acc * 10 + DigitValue(s[0]))
  }

  /** Appending a digit multiplies the value by ten and adds the digit. */
  lemma {:induction false} DigitsValueAppend(s: string, c: char, acc: nat)
    requires AllDigits(s) && IsDigit(c)
    ensures DigitsValue(s + [c], acc) == DigitsValue(s, acc) * 10 + DigitValue(c)
  {
    if s != [] {
      assert (s + [c])[1..] == s[1..] + [c];
      DigitsValueAppend(s[1..], c, acc * 10 + DigitValue(s[0]));
    } else {
      assert [c][1..] == [];
    }
  }

  /** The decimal digits of `n` without leading zeros ("0" for zero). */
  function Digits(n: nat): (s: string)
    ensures |s| >= 1 && AllDigits(s)
    ensures |s| > 1 ==> s[0] != '0'
    ensures DigitsValue(s, 0) == n
  {
    if n < 10 then [DigitChar(n)]
    else
      var c := DigitChar(n % 10);
      DigitsValueAppend(Digits(n / 10), c, 0);
      Digits(n / 10) + [c]
  }

  /** `fmt.Sprintf("%d", v)`: a minus sign for negative values, then the digits of |v|. */
  function FormatInt(v: int): (s: string)
    ensures |s| >= 1 && IsDigit(s[|s| - 1])
    ensures forall i :: 0 <= i < |s| ==> IsDigit(s[i]) || (i == 0 && s[i] == '-')
    ensures s[0] == '-' <==> v < 0
  {
    if v < 0 then "-" + Digits(-v) else Digits(v)
  }

  /**
   * The digit loop of `strconv.ParseUint` in base 10 for 64 bits: read the
   * characters left to right after the value `n` read so far; a non-digit is a
   * syntax error, and a digit that takes the value past the unsigned 64-bit
   * range is a range error, whatever follows it.
   */
  function ScanDigits(s: string, n: nat): (r: Result<nat, ErrKind>)
    ensures r.Success? ==> r.value >= n
  {
    if s == [] then Success(n)
    else if !IsDigit(s[0]) then Failure(ErrSyntax)
    else if n * 10 + DigitValue(s[0]) > MaxUint64 then Failure(ErrRange)
    else ScanDigits(s[1..], n * 10 + DigitValue(s[0]))
  }

  /** `s` without the single leading sign character `Atoi` accepts, if any. */
  function Unsigned(s: string): string {
    if |s| > 0 && (s[0] == '+' || s[0] == '-') then s[1..] else s
  }

  /** The magnitude `u` with the sign of `s`: negated when `s` starts with `-`. */
  function Signed(s: string, u: nat): int {
    var w: int := u;
    if |s| > 0 && s[0] == '-' then -w else w
  }

  /**
   * `strconv.Atoi(s)` for a 64-bit `int`: an optional sign, then at least one
   * character, scanned by the `ParseUint` digit loop; a value outside the
   * signed 64-bit range is a range error. The error always carries the whole
   * of `s`.
   */
  function Atoi(s: string): Result<Int, NumError> {
    var body := Unsigned(s);
    if body == [] then Failure(NumError(s, ErrSyntax))
    else
      match ScanDigits(body, 0)
      case Failure(kind) => Failure(NumError(s, kind))
      case Success(u) =>
        var v := Signed(s, u);
        if MinInt64 <= v <= MaxInt64 then Success(v) else Failure(NumError(s, ErrRange))
  }

  /** On digits only, the scan yields their value, or a range error when it exceeds 64 bits. */
  lemma {:induction false} ScanDigitsValue(s: string, n: nat)
    requires AllDigits(s) && n <= MaxUint64
    ensures ScanDigits(s, n) ==
      if DigitsValue(s, n) <= MaxUint64 then Success(DigitsValue(s, n)) else Failure(ErrRange)
  {
    if s != [] {
      var n' := n * 10 + DigitValue(s[0]);
      assert DigitsValue(s, n) == DigitsValue(s[1..], n');
      if n' <= MaxUint64 {
        ScanDigitsValue(s[1..], n');
      } else {
        assert AllDigits(s[1..]);
      }
    }
  }

  /** A scan that succeeds has read digits only. */
  lemma {:induction false} ScanDigitsOnlyDigits(s: string, n: nat)
    requires ScanDigits(s, n).Success?
    ensures AllDigits(s)
  {
    if s != [] {
      ScanDigitsOnlyDigits(s[1..], n * 10 + DigitValue(s[0]));
      assert forall i :: 1 <= i < |s| ==> s[i] == s[1..][i - 1];
    }
  }

  /**
   * A failure of `Atoi` carries the whole token; a success needs a non-empty
   * text that is all digits after the optional sign.
   */
  lemma AtoiShape(s: string)
    ensures Atoi(s).Failure? ==> Atoi(s).error.num == s
    ensures Atoi(s).Success? ==> s != [] && Unsigned(s) != [] && AllDigits(Unsigned(s))
  {
    if Atoi(s).Success? {
      ScanDigitsOnlyDigits(Unsigned(s), 0);
    }
  }

  /**
   * `Atoi` succeeds exactly when the text after the optional sign is one or
   * more digits whose signed value lies in the 64-bit range, and then returns
   * that value; `"+5"`, `"007"` and `"-0"` read as 5, 7 and 0.
   */
  lemma AtoiValue(s: string)
    ensures Atoi(s).Success? <==>
      Unsigned(s) != [] && AllDigits(Unsigned(s)) &&
      MinInt64 <= Signed(s, DigitsValue(Unsigned(s), 0)) <= MaxInt64
    ensures Atoi(s).Success? ==> Atoi(s).value == Signed(s, DigitsValue(Unsigned(s), 0))
  {
    AtoiShape(s);
    if Unsigned(s) != [] && AllDigits(Unsigned(s)) {
      ScanDigitsValue(Unsigned(s), 0);
    }
  }

  /** What `%d` renders, `Atoi` reads back: the two are inverse on 64-bit integers. */
  lemma AtoiFormatInt(v: Int)
    ensures Atoi(FormatInt(v)) == Success(v)
  {
    var n: int := v;
    var m: nat := if n < 0 then -n else n;
    assert Unsigned(FormatInt(n)) == Digits(m);
    ScanDigitsValue(Digits(m), 0);
  }

  /** The rendering of an integer outside the 64-bit range is read as a range error. */
  lemma AtoiFormatIntOutOfRange(v: int)
    requires v < MinInt64 || MaxInt64 < v
    ensures Atoi(FormatInt(v)) == Failure(NumError(FormatInt(v), ErrRange))
  {
    var m: nat := if v < 0 then -v else v;
    assert Unsigned(FormatInt(v)) == Digits(m);
    ScanDigitsValue(Digits(m), 0);
  }

  /** `Atoi` rejects any text containing a character other than a sign or a digit. */
  lemma AtoiRejectsForeignChar(s: string, i: nat)
    requires i < |s| && !IsDigit(s[i]) && s[i] != '+' && s[i] != '-'
    ensures Atoi(s).Failure?
  {
    var body := Unsigned(s);
    assert body[if body == s then i else i - 1] == s[i];
    if Atoi(s).Success? {
      AtoiShape(s);
    }
  }

  /** `Atoi` of the empty text fails with a syntax error. */
  lemma AtoiEmpty()
    ensures Atoi("") == Failure(NumError("", ErrSyntax))
  {
  }
}
