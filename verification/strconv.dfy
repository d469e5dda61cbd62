/** The part of Go's `strconv` package the tagger relies on, written out as
    explicit total functions: `ParseInt(s, 10, 64)` (and `Atoi`, which is the
    same function on a 64-bit platform), `Itoa`, `ParseBool`, and the
    wrap-around of Go's 64-bit `int` addition. */
module GoStrconv {

  import opened Wrappers

  const MaxInt64: int := 0x7FFF_FFFF_FFFF_FFFF
  const MinInt64: int := -0x8000_0000_0000_0000
  const MaxUint64: int := 0xFFFF_FFFF_FFFF_FFFF
  const TwoTo63: int := 0x8000_0000_0000_0000
  const TwoTo64: int := 0x1_0000_0000_0000_0000

  predicate InInt64(n: int) { MinInt64 <= n <= MaxInt64 }

  predicate IsDigit(c: char) { '0' <= c <= '9' }

  predicate AllDigits(s: string) { forall i :: 0 <= i < |s| ==> IsDigit(s[i]) }

  function DigitValue(c: char): (d: nat)
    requires IsDigit(c)
    ensures d < 10
  {
    c as int - '0' as int
  }

  function DigitChar(d: nat): (c: char)
    requires d < 10
    ensures IsDigit(c) && DigitValue(c) == d
  {
    ('0' as int + d) as char
  }

  /** Go's `int` (64 bits) addition wraps around modulo 2^64. */
  function Wrap64(x: int): (r: int)
    ensures InInt64(r)
    ensures InInt64(x) ==> r == x
    ensures (r - x) % TwoTo64 == 0
  {
    (x - MinInt64) % TwoTo64 + MinInt64
  }

  /** Outcome of the digit loop of `strconv.ParseUint(s, 10, 64)`. */
  datatype UintScan = UintOk(n: nat) | UintSyntax | UintRange

  /** The digit loop: it stops with a syntax error at the first non-digit and
      with a range error as soon as the accumulated value exceeds 2^64-1,
      without looking at the characters after that point. */
  function ScanDigits(s: string, acc: nat): (r: UintScan)
    requires acc <= MaxUint64
    ensures r.UintOk? ==> acc <= r.n <= MaxUint64 && AllDigits(s)
    ensures r.UintSyntax? ==> !AllDigits(s)
    decreases |s|
  {
    if s == [] then UintOk(acc)
    else if !IsDigit(s[0]) then UintSyntax
    else if acc * 10 + DigitValue(s[0]) > MaxUint64 then UintRange
    else ScanDigits(s[1..], acc * 10 + DigitValue(s[0]))
  }

  function ParseUint(s: string): UintScan
  {
    if s == [] then UintSyntax else ScanDigits(s, 0)
  }

  /** The positional value of a string of decimal digits, most significant
      first: the reference reading the digit loop is held to. */
  function DecimalValue(d: string): nat
    requires AllDigits(d)
    decreases |d|
  {
    if d == [] then 0 else 10 * DecimalValue(d[..|d| - 1]) + DigitValue(d[|d| - 1])
  }

  /** A digit string whose value fits in 64 unsigned bits scans to that
      value; a longer-valued one is a range error. */
  lemma {:induction false} ScanDigitsDecimal(d: string)
    requires AllDigits(d)
    ensures DecimalValue(d) <= MaxUint64 ==> ScanDigits(d, 0) == UintOk(DecimalValue(d))
    ensures DecimalValue(d) > MaxUint64 ==> ScanDigits(d, 0) == UintRange
    decreases |d|
  {
    if d != [] {
      var front := d[..|d| - 1];
      assert AllDigits(front) by {
        assert forall i :: 0 <= i < |front| ==> front[i] == d[i];
      }
      ScanDigitsDecimal(front);
      ScanDigitsSnoc(front, d[|d| - 1], 0);
      assert front + [d[|d| - 1]] == d;
    }
  }

  /** `ParseUint` of a non-empty digit string is its value, or a range
      error when that value needs more than 64 bits. */
  lemma ParseUintDecimal(d: string)
    ensures d != [] && AllDigits(d) ==>
      ParseUint(d) == if DecimalValue(d) <= MaxUint64 then UintOk(DecimalValue(d)) else UintRange
  {
    if d != [] && AllDigits(d) {
      ScanDigitsDecimal(d);
    }
  }

  /** Scanning `a + b` is scanning `a` and, when that succeeds, carrying on
      through `b` from the value reached. */
  lemma {:induction false} ScanDigitsSplit(a: string, b: string, acc: nat)
    requires acc <= MaxUint64
    ensures ScanDigits(a + b, acc) ==
      match ScanDigits(a, acc)
      case UintOk(m) => ScanDigits(b, m)
      case other => other
    decreases |a|
  {
    if a == [] {
      assert a + b == b;
    } else {
      assert (a + b)[0] == a[0];
      assert (a + b)[1..] == a[1..] + b;
      if IsDigit(a[0]) && acc * 10 + DigitValue(a[0]) <= MaxUint64 {
        ScanDigitsSplit(a[1..], b, acc * 10 + DigitValue(a[0]));
      }
    }
  }

  /** The first `i` characters of `d` are digits of a 64-bit unsigned value
      and the next one is not a digit. */
  predicate JunkAfterDigits(d: string, i: nat)
  {
    i < |d| && AllDigits(d[..i]) && !IsDigit(d[i]) && DecimalValue(d[..i]) <= MaxUint64
  }

  /** The first `i` characters of `d` are digits whose value exceeds 2^64-1. */
  predicate OverflowBefore(d: string, i: nat)
  {
    i <= |d| && AllDigits(d[..i]) && DecimalValue(d[..i]) > MaxUint64
  }

  /** The digit loop stops with a syntax error at a non-digit it reaches,
      and with a range error as soon as the digits read overflow, whatever
      follows them. */
  lemma ParseUintStops(d: string)
    ensures (exists i: nat :: JunkAfterDigits(d, i)) ==> ParseUint(d) == UintSyntax
    ensures (exists i: nat :: OverflowBefore(d, i)) ==> ParseUint(d) == UintRange
  {
    if i: nat :| JunkAfterDigits(d, i) {
      ScanDigitsDecimal(d[..i]);
      ScanDigitsSplit(d[..i], d[i..], 0);
      assert d[..i] + d[i..] == d;
      assert d[i..][0] == d[i];
    }
    if i: nat :| OverflowBefore(d, i) {
      ScanDigitsDecimal(d[..i]);
      ScanDigitsSplit(d[..i], d[i..], 0);
      assert d[..i] + d[i..] == d;
    }
  }

  /** The sign `ParseInt` accepts in front of the digits. */
  predicate HasSign(s: string)
  {
    s != [] && (s[0] == '+' || s[0] == '-')
  }

  /** The text after an optional sign. */
  function Unsigned(s: string): (d: string)
    ensures |d| <= |s|
  {
    if HasSign(s) then s[1..] else s
  }

  /** The value a signed decimal text denotes, without any bound. */
  function SignedValue(s: string): int
    requires AllDigits(Unsigned(s))
  {
    if s != [] && s[0] == '-' then -(DecimalValue(Unsigned(s)) as int) else DecimalValue(Unsigned(s))
  }

  /** What `strconv.ParseInt(s, 10, 64)` hands back: a value with a nil error,
      a syntax error (value 0), or a range error whose value is clamped to the
      bound on the side of the sign. */
  datatype IntParse = IntOk(value: int) | IntSyntax | IntRange(clamped: int)

  function ParseInt(s: string): (r: IntParse)
    ensures s == [] ==> r == IntSyntax
    ensures r.IntOk? ==> InInt64(r.value)
    ensures r.IntRange? ==> (r.clamped == MinInt64 <==> s[0] == '-')
    ensures r.IntRange? ==> r.clamped == MaxInt64 || r.clamped == MinInt64
    ensures r.IntOk? ==> Unsigned(s) != [] && AllDigits(Unsigned(s)) && r.value == SignedValue(s)
    ensures Unsigned(s) != [] && AllDigits(Unsigned(s)) ==>
      r == (if InInt64(SignedValue(s)) then IntOk(SignedValue(s)) else IntRange(if s[0] == '-' then MinInt64 else MaxInt64))
    ensures Unsigned(s) == [] ==> r == IntSyntax
    ensures (exists i: nat :: JunkAfterDigits(Unsigned(s), i)) ==> r == IntSyntax
    ensures (exists i: nat :: OverflowBefore(Unsigned(s), i)) ==> r == IntRange(if s[0] == '-' then MinInt64 else MaxInt64)
  {
    if s == [] then IntSyntax
    else
      var neg := s[0] == '-';
      var body := if s[0] == '+' || s[0] == '-' then s[1..] else s;
      assert body == Unsigned(s);
      ParseUintDecimal(body);
      ParseUintStops(body);
      match ParseUint(body)
      case UintSyntax => IntSyntax
      case UintRange => IntRange(if neg then MinInt64 else MaxInt64)
      case UintOk(u) =>
        var n: int := u;
        if !neg && n >= TwoTo63 then IntRange(MaxInt64)
        else if neg && n > TwoTo63 then IntRange(MinInt64)
        else IntOk(if neg then -n else n)
  }

  /** `strconv.Atoi` on a 64-bit platform is `ParseInt(s, 10, 64)`. */
  function Atoi(s: string): IntParse
  {
    ParseInt(s)
  }

  /** The value of `i, _ := strconv.Atoi(s)`: the error is dropped, so a
      syntax error reads as 0 and an out-of-range number as its clamp. */
  function AtoiValue(s: string): (v: int)
    ensures InInt64(v)
    ensures Atoi(s) == IntSyntax ==> v == 0
    ensures Atoi(s).IntRange? ==> v == Atoi(s).clamped
    ensures Atoi(s).IntOk? ==> v == SignedValue(s)
  {
    match Atoi(s)
    case IntOk(n) => n
    case IntSyntax => 0
    case IntRange(c) => c
  }

  /** Decimal digits of a natural number, most significant first. */
  function NatDigits(n: nat): (r: string)
    ensures |r| > 0 && AllDigits(r)
    ensures n > 0 ==> r[0] != '0'
    ensures DecimalValue(r) == n
    decreases n
  {
    if n < 10 then [DigitChar(n)]
    else
      var front := NatDigits(n / 10);
      var r := front + [DigitChar(n % 10)];
      assert r[..|r| - 1] == front;
      r
  }

  /** `strconv.Itoa`. */
  function Itoa(n: int): (r: string)
    ensures |r| > 0
    ensures n >= 0 ==> AllDigits(r)
    ensures n < 0 ==> r[0] == '-' && AllDigits(r[1..])
    ensures AllDigits(Unsigned(r)) && SignedValue(r) == n
    ensures Unsigned(r) == [] || Unsigned(r) == "0" || Unsigned(r)[0] != '0'
  {
    if n < 0 then "-" + NatDigits(-n) else NatDigits(n)
  }

  /** Scanning `s + [c]` is scanning `s` and then taking one more step. */
  lemma {:induction false} ScanDigitsSnoc(s: string, c: char, acc: nat)
    requires acc <= MaxUint64
    ensures ScanDigits(s + [c], acc) ==
      match ScanDigits(s, acc)
      case UintOk(m) =>
        if !IsDigit(c) then UintSyntax
        else if m * 10 + DigitValue(c) > MaxUint64 then UintRange
        else UintOk(m * 10 + DigitValue(c))
      case other => other
    decreases |s|
  {
    if s == [] {
      assert [] + [c] == [c];
      assert [c][1..] == [];
    } else {
      assert (s + [c])[0] == s[0];
      assert (s + [c])[1..] == s[1..] + [c];
      if IsDigit(s[0]) && acc * 10 + DigitValue(s[0]) <= MaxUint64 {
        ScanDigitsSnoc(s[1..], c, acc * 10 + DigitValue(s[0]));
      }
    }
  }

  /** The digit loop reads back the digits `NatDigits` writes. */
  lemma {:induction false} ScanNatDigits(n: nat)
    requires n <= MaxUint64
    ensures ScanDigits(NatDigits(n), 0) == UintOk(n)
    decreases n
  {
    if n >= 10 {
      ScanNatDigits(n / 10);
      ScanDigitsSnoc(NatDigits(n / 10), DigitChar(n % 10), 0);
    }
  }

  /** Round trip: `Atoi(Itoa(n)) == n` with a nil error for every 64-bit `n`. */
  lemma ParseIntItoa(n: int)
    requires InInt64(n)
    ensures ParseInt(Itoa(n)) == IntOk(n)
  {
    if n < 0 {
      ScanNatDigits(-n);
      assert ("-" + NatDigits(-n))[1..] == NatDigits(-n);
    } else {
      ScanNatDigits(n);
    }
  }

  /** `strconv.ParseBool`: exactly twelve spellings are accepted. */
  function ParseBool(s: string): (r: Option<bool>)
    ensures r == Some(true) <==> s in TrueWords
    ensures r == Some(false) <==> s in FalseWords
  {
    if s in TrueWords then Some(true)
    else if s in FalseWords then Some(false)
    else None
  }

  const TrueWords: set<string> := {"1", "t", "T", "TRUE", "true", "True"}
  const FalseWords: set<string> := {"0", "f", "F", "FALSE", "false", "False"}

  /** `strconv.FormatBool`. */
  function FormatBool(b: bool): string
  {
    if b then "true" else "false"
  }

  lemma ParseBoolFormatBool(b: bool)
    ensures ParseBool(FormatBool(b)) == Some(b)
  {
  }
}
