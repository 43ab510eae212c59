/**
 * formatSize (main.go): a byte count in the largest binary unit it reaches,
 * with two decimals, e.g. "1.50 GB"; below one kilobyte the exact count and
 * "B", e.g. "512 B".
 *
 * The source divides as float64 and prints with `%.2f`. Dividing by a power of
 * two is exact in float64 for sizes below 2^53, and Go's `%.2f` rounds the
 * exact binary value to the nearest hundredth, a tie going to the even
 * neighbour; the message is modelled on exact integers with that rounding.
 */
module SizeFormat {
  import opened Wrappers
  import opened Decimal

  datatype Unit = B | KB | MB | GB | TB

  /** The number of bytes in one unit: the powers of 1024. */
  function Bytes(u: Unit): nat
  {
    match u
    case B => 1
    case KB => 1024
    case MB => 1024 * 1024
    case GB => 1024 * 1024 * 1024
    case TB => 1024 * 1024 * 1024 * 1024
  }

  function Rank(u: Unit): nat
  {
    match u
    case B => 0
    case KB => 1
    case MB => 2
    case GB => 3
    case TB => 4
  }

  function Name(u: Unit): string
  {
    match u
    case B => "B"
    case KB => "KB"
    case MB => "MB"
    case GB => "GB"
    case TB => "TB"
  }

  /** The unit formatSize picks: the largest one that `size` reaches, and
      bytes for anything below one kilobyte, negative sizes included. */
  function ChooseUnit(size: int): (u: Unit)
    ensures u == B || Bytes(u) <= size
    ensures forall v :: Bytes(v) <= size ==> Rank(v) <= Rank(u)
    ensures u == B <==> size < 1024
  {
    if size >= Bytes(TB) then TB
    else if size >= Bytes(GB) then GB
    else if size >= Bytes(MB) then MB
    else if size >= Bytes(KB) then KB
    else B
  }

  /** `num / den` rounded to the nearest integer, a tie going to the even
      one: how `%.2f` rounds an exact binary value. */
  function RoundHalfEven(num: int, den: int): (q: int)
    requires den > 0
    ensures -den <= 2 * (q * den - num) <= den
    ensures 2 * (q * den - num) == den ==> q % 2 == 0
    ensures 2 * (num - q * den) == den ==> q % 2 == 0
  {
    var q := num / den;
    var r := num % den;
    assert num == q * den + r;
    assert (q + 1) * den == q * den + den;
    if 2 * r > den || (2 * r == den && q % 2 == 1) then q + 1 else q
  }

  /** `h` hundredths written with two decimals: "12.34" for 1234. */
  function TwoDecimals(h: nat): string
  {
    FormatNat(h / 100) + "." + [DigitChar(h / 10 % 10), DigitChar(h % 10)]
  }

  /** The number of hundredths of the unit that formatSize shows. */
  function Hundredths(size: int): int
    requires size >= 1024
  {
    RoundHalfEven(size * 100, Bytes(ChooseUnit(size)))
  }

  function FormatSize(size: int): string
  {
    var u := ChooseUnit(size);
    if u == B then FormatInt(size) + " B"
    else TwoDecimals(Hundredths(size)) + " " + Name(u)
  }

  // ---------------------------------------------------------------------------

  /** Below one kilobyte the count is shown exactly, and reads back. */
  lemma FormatSizeBytes(size: int)
    requires size < 1024
    ensures FormatSize(size) == FormatInt(size) + " B"
    ensures ParseDecimal(FormatSize(size)[..|FormatSize(size)| - 2]) == Some(size)
  {
    var s := FormatInt(size);
    assert (s + " B")[..|s + " B"| - 2] == s;
    ParseFormatInt(size);
  }

  /** From one kilobyte up, the value shown is the nearest hundredth of the
      unit to the exact quotient, and it is never below 1.00. */
  lemma FormatSizeNearest(size: int)
    requires size >= 1024
    ensures FormatSize(size) == TwoDecimals(Hundredths(size)) + " " + Name(ChooseUnit(size))
    ensures -(Bytes(ChooseUnit(size)) as int) <= 2 * (Hundredths(size) * Bytes(ChooseUnit(size)) - size * 100)
                                     <= Bytes(ChooseUnit(size))
    ensures Hundredths(size) >= 100
  {
    var u := ChooseUnit(size);
    AtLeastOneUnit(Hundredths(size), Bytes(u), size);
  }

  /** A rounded quotient of `100 * size` by a unit that `size` reaches is at
      least 100. */
  lemma AtLeastOneUnit(h: int, d: int, size: int)
    requires 0 < d <= size
    requires -d <= 2 * (h * d - size * 100)
    ensures h >= 100
  {
    if h <= 99 {
      MulMonotone(h, 99, d);
    }
  }

  lemma MulMonotone(a: int, b: int, d: nat)
    requires a <= b
    ensures a * d <= b * d
  {
  }

  /** Division undoes multiplication by a positive number. */
  lemma DivExact(a: int, d: int)
    requires d > 0
    ensures (a * d) / d == a && (a * d) % d == 0
  {
    var q := (a * d) / d;
    var r := (a * d) % d;
    assert (a - q) * d == r;
    if a - q >= 1 {
      MulMonotone(1, a - q, d);
    } else if a - q <= -1 {
      MulMonotone(a - q, -1, d);
    }
  }

  /** Removing the decimal point from a shown value of at least 1.00 leaves
      the number of hundredths written in decimal. */
  lemma TwoDecimalsDigits(h: nat)
    requires h >= 100
    ensures var s := TwoDecimals(h); |s| >= 4 && s[|s| - 3] == '.' && s[..|s| - 3] + s[|s| - 2..] == FormatNat(h)
  {
    TwoDecimalsLayout(h);
    LastTwoDigits(h);
    PointLayout(FormatNat(h / 100), DigitChar(h / 10 % 10), DigitChar(h % 10));
  }

  /** The rendering is the whole part, the point and two digits. */
  lemma TwoDecimalsLayout(h: nat)
    ensures TwoDecimals(h) == FormatNat(h / 100) + ['.', DigitChar(h / 10 % 10), DigitChar(h % 10)]
  {
    var ip := FormatNat(h / 100);
    var tens, ones := DigitChar(h / 10 % 10), DigitChar(h % 10);
    assert ip + "." + [tens, ones] == ip + ['.', tens, ones];
  }

  /** A whole number of units is shown as that number with ".00". */
  lemma FormatSizeWholeUnits(k: nat, u: Unit)
    requires u != B && k >= 1
    requires u == TB || k < 1024
    ensures FormatSize(k * Bytes(u)) == FormatNat(k) + ".00 " + Name(u)
  {
    var size := k * Bytes(u);
    WholeUnitsUnit(k, u);
    WholeUnitsHundredths(k, u);
    FormatSizeOf(size, u, k * 100);
    WholeHundredths(k);
    PointZeroZero(FormatNat(k), Name(u));
  }

  /** A size from one kilobyte up is its hundredths and its unit's name. */
  lemma FormatSizeOf(size: int, u: Unit, h: nat)
    requires size >= 1024 && ChooseUnit(size) == u && Hundredths(size) == h
    ensures FormatSize(size) == TwoDecimals(h) + " " + Name(u)
  {
  }

  /** The ".00" and the space before the unit's name, regrouped. */
  lemma PointZeroZero(digits: string, name: string)
    ensures digits + ".00" + " " + name == digits + ".00 " + name
  {
  }

  lemma WholeUnitsUnit(k: nat, u: Unit)
    requires u != B && k >= 1
    requires u == TB || k < 1024
    ensures k * Bytes(u) >= 1024 && ChooseUnit(k * Bytes(u)) == u
  {
    MulMonotone(1, k, Bytes(u));
    if u != TB {
      MulMonotone(k, 1023, Bytes(u));
    }
  }

  lemma WholeUnitsHundredths(k: nat, u: Unit)
    requires k * Bytes(u) >= 1024 && ChooseUnit(k * Bytes(u)) == u
    ensures Hundredths(k * Bytes(u)) == k * 100
  {
    var d := Bytes(u);
    assert (k * d) * 100 == (k * 100) * d;
    DivExact(k * 100, d);
  }

  lemma WholeHundredths(k: nat)
    ensures TwoDecimals(k * 100) == FormatNat(k) + ".00"
  {
    var h := k * 100;
    DivExact(k, 100);
    assert h == (k * 10) * 10;
    DivExact(k * 10, 10);
    DivExact(k, 10);
    assert h / 100 == k && h / 10 % 10 == 0 && h % 10 == 0;
  }

  /** A larger size never gets a smaller unit. */
  lemma ChooseUnitMonotone(a: int, b: int)
    requires a <= b
    ensures Rank(ChooseUnit(a)) <= Rank(ChooseUnit(b))
  {
  }

  /** Sizes below one kilobyte, negative ones included, are printed as they are. */
  lemma SampleBytes()
    ensures FormatSize(0) == "0 B"
    ensures FormatSize(-5) == "-5 B"
    ensures FormatSize(1023) == "1023 B"
  {
    assert FormatNat(102) == FormatNat(10) + ['2'];
    assert FormatNat(1023) == FormatNat(102) + ['3'];
  }

  /** Exact units print as 1.00. */
  lemma SampleKilobyte()
    ensures FormatSize(1024) == "1.00 KB"
  {
    FormatSizeWholeUnits(1, KB);
  }

  lemma SampleMegabyte()
    ensures FormatSize(1048576) == "1.00 MB"
  {
    FormatSizeWholeUnits(1, MB);
  }

  lemma SampleTerabyte()
    ensures FormatSize(1099511627776) == "1.00 TB"
  {
    FormatSizeWholeUnits(1, TB);
  }

  /** One byte short of a megabyte rounds up to "1024.00 KB": the unit is
      chosen before rounding. */
  lemma SampleRoundsPastUnit()
    ensures FormatSize(1048575) == "1024.00 KB"
  {
    assert ChooseUnit(1048575) == KB;
    SampleHundredths();
    SampleTwoDecimals();
  }

  lemma SampleHundredths()
    ensures Hundredths(1048575) == 102400
  {
  }

  lemma SampleTwoDecimals()
    ensures TwoDecimals(102400) == "1024.00"
  {
    WholeHundredths(1024);
    Sample1024();
  }

  /** 1024 in decimal. */
  lemma Sample1024()
    ensures FormatNat(1024) == "1024"
  {
    assert FormatNat(102) == FormatNat(10) + ['2'];
    assert FormatNat(1024) == FormatNat(102) + ['4'];
  }

  /** The last two digits of `h` follow the digits of `h / 100`. */
  lemma LastTwoDigits(h: nat)
    requires h >= 100
    ensures FormatNat(h) == FormatNat(h / 100) + [DigitChar(h / 10 % 10), DigitChar(h % 10)]
  {
    FormatNatSnoc(h);
    FormatNatSnoc(h / 10);
    assert h / 10 / 10 == h / 100;
  }

  /** Where the point sits in a two-decimal rendering. */
  lemma PointLayout(ip: string, tens: char, ones: char)
    requires |ip| >= 1
    ensures var s := ip + ['.', tens, ones];
      |s| >= 4 && s[|s| - 3] == '.' && s[..|s| - 3] + s[|s| - 2..] == ip + [tens, ones]
  {
    var s := ip + ['.', tens, ones];
    assert s[..|s| - 3] == ip;
    assert s[|s| - 2..] == [tens, ones];
  }

  /** One more decimal digit: `n` is `n / 10` followed by its last digit. */
  lemma FormatNatSnoc(n: nat)
    requires n >= 10
    ensures FormatNat(n) == FormatNat(n / 10) + [DigitChar(n % 10)]
  {
  }

  /** 1408 bytes are 1.375 KB and 1664 bytes 1.625 KB; both ties go to the
      even hundredth. */
  lemma SampleTies()
    ensures FormatSize(1408) == "1.38 KB"
    ensures FormatSize(1664) == "1.62 KB"
  {
    assert Hundredths(1408) == 138;
    assert Hundredths(1664) == 162;
  }
}
