/**
  Timestamps of src-tauri/src/cookie_manager.rs: Chromium counts microseconds from 1601, the rest of
  the program seconds from 1970. Arithmetic is 64-bit and wraps, as in a release build.
 */
module ChromeTime {
  import opened Text

  const MICROS := 1_000_000
  const WINDOWS_EPOCH_DIFF := 11_644_473_600
  const TWO_63 := 0x8000_0000_0000_0000

  predicate Fits(n: int) {
    -TWO_63 <= n < TWO_63
  }

  function Wrap(n: int): (r: I64)
    ensures Fits(n) ==> r == n
    ensures (n - r) % (2 * TWO_63) == 0
  {
    (n + TWO_63) % (2 * TWO_63) - TWO_63
  }

  /** Division that drops the fraction, toward zero on both sides. */
  function Truncate(n: int, d: int): int
    requires d > 0
  {
    if n >= 0 then n / d else -(-n / d)
  }

  function ChromeToUnix(chrome: I64): I64 {
    if chrome == 0 then 0 else Wrap(Truncate(chrome, MICROS) - WINDOWS_EPOCH_DIFF)
  }

  function UnixToChrome(unix: I64): I64 {
    if unix == 0 then 0 else Wrap(Wrap(unix + WINDOWS_EPOCH_DIFF) * MICROS)
  }

  /** Seconds that Chromium's clock can hold, other than its own zero. */
  predicate Storable(unix: I64) {
    unix != -WINDOWS_EPOCH_DIFF && Fits((unix + WINDOWS_EPOCH_DIFF) * MICROS)
  }

  /** Days of the Gregorian years from `year` to before `end`. */
  function DaysUntil(year: nat, end: nat): nat
    decreases end - year
  {
    if year >= end then 0
    else
      (if IsLeap(year) then 366 else 365) + DaysUntil(year + 1, end)
  }

  function LeapYearsBefore(year: int): int {
    (year - 1) / 4 - (year - 1) / 100 + (year - 1) / 400
  }

  predicate IsLeap(year: nat) {
    year % 4 == 0 && (year % 100 != 0 || year % 400 == 0)
  }

  lemma QuotientStep(n: nat, d: nat)
    requires n >= 1 && d > 1
    ensures n / d == (n - 1) / d + if n % d == 0 then 1 else 0
  {
    var q, r := n / d, n % d;
    assert n == q * d + r;
    if r == 0 {
      assert n - 1 == (q - 1) * d + (d - 1);
      QuotientIs(n - 1, d, q - 1, d - 1);
    } else {
      QuotientIs(n - 1, d, q, r - 1);
    }
  }

  lemma QuotientIs(n: nat, d: nat, q: int, r: nat)
    requires d > 0 && n == q * d + r && r < d
    ensures n / d == q
  {
    var k := n / d - q;
    assert n == (n / d) * d + n % d;
    assert k * d == r - n % d;
    assert k >= 1 ==> k * d >= d;
    assert k <= -1 ==> k * d + d <= 0;
  }

  lemma LeapYearsStep(year: nat)
    requires year >= 1
    ensures LeapYearsBefore(year + 1) == LeapYearsBefore(year) + if IsLeap(year) then 1 else 0
  {
    QuotientStep(year, 4);
    QuotientStep(year, 100);
    QuotientStep(year, 400);
    assert year % 100 == 0 ==> year % 4 == 0;
    assert year % 400 == 0 ==> year % 100 == 0;
  }

  lemma {:induction false} LeapYearsCount(year: nat, end: nat)
    requires 1 <= year <= end
    ensures DaysUntil(year, end) == 365 * (end - year) + LeapYearsBefore(end) - LeapYearsBefore(year)
    decreases end - year
  {
    hide LeapYearsBefore, IsLeap;
    if year < end {
      LeapYearsStep(year);
      LeapYearsCount(year + 1, end);
    }
  }

  /** Between the two epochs lie 369 years, 89 of them leap years. */
  lemma EpochsAreYearsApart()
    ensures WINDOWS_EPOCH_DIFF == DaysUntil(1601, 1970) * 24 * 60 * 60
  {
    hide DaysUntil, IsLeap;
    LeapYearsCount(1601, 1970);
  }

  /** One second after either epoch, in microseconds. */
  lemma SecondsAreMicroseconds()
    ensures UnixToChrome(1) == 11_644_473_601_000_000 && ChromeToUnix(11_644_473_601_000_000) == 1
    ensures ChromeToUnix(1_000_000) == -11_644_473_599 && UnixToChrome(-11_644_473_599) == 1_000_000
  {
  }

  lemma TruncateOfProduct(n: int)
    ensures Truncate(n * MICROS, MICROS) == n
  {
  }

  lemma TruncateIsSmall(n: I64)
    ensures -9_223_372_036_854 <= Truncate(n, MICROS) <= 9_223_372_036_854
  {
  }

  /** Storing a time and reading it back is the identity exactly on the storable seconds. */
  lemma UnixRoundTripIff(unix: I64)
    ensures ChromeToUnix(UnixToChrome(unix)) == unix <==> Storable(unix)
  {
    var n: int := unix + WINDOWS_EPOCH_DIFF;
    TruncateOfProduct(n);
    TruncateIsSmall(UnixToChrome(unix));
  }

  /** The other way round only whole seconds survive, and neither epoch does unless it is zero. */
  lemma ChromeRoundTripIff(chrome: I64)
    ensures UnixToChrome(ChromeToUnix(chrome)) == chrome
            <==> chrome == 0 || (chrome % MICROS == 0 && chrome != WINDOWS_EPOCH_DIFF * MICROS)
  {
    TruncateIsSmall(chrome);
    var t := Truncate(chrome, MICROS);
    assert chrome % MICROS == 0 <==> t * MICROS == chrome;
  }

  /** A time read from Chromium is storable again, unless it lies within a second of Chromium's zero. */
  lemma ReadTimesAreStorable(chrome: I64)
    ensures Storable(ChromeToUnix(chrome)) <==> chrome == 0 || chrome <= -MICROS || chrome >= MICROS
  {
    TruncateIsSmall(chrome);
  }
}
