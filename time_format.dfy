/** Formatting a millisecond clock reading as the time of day
    `HH:MM:SS:mmm`. The reading is a non-negative integer. */
module TimeFormat {
  import opened Js

  const MillisecondsPerDay := 86400000

  /** k zero digits. */
  function Zeros(k: nat): (z: string)
    ensures |z| == k && AllDigits(z)
  {
    if k == 0 then "" else "0" + Zeros(k - 1)
  }

  /** `(zeros + n).slice(-width)`: the numeral of n after the given prefix,
      cut down to its last `width` characters. */
  function Padded(zeros: string, n: nat, width: nat): (p: string)
    ensures var s := zeros + Decimal(n);
      && |p| == (if |s| <= width then |s| else width)
      && p == s[|s| - |p|..]
  {
    var s := zeros + Decimal(n);
    if |s| <= width then s else s[|s| - width..]
  }

  /** millisecondsToString: hours, minutes and seconds padded to two digits
      and milliseconds to three, joined by colons. */
  function MillisecondsToString(milliseconds: nat): (r: string)
    ensures |r| == 12 && r[2] == ':' && r[5] == ':' && r[8] == ':'
    ensures forall i :: 0 <= i < 12 && i != 2 && i != 5 && i != 8 ==> IsDigit(r[i])
  {
    var ms := Padded("00", milliseconds % 1000, 3);
    var seconds := milliseconds / 1000;
    var h := Padded("0", seconds / 3600 % 24, 2);
    var m := Padded("0", seconds / 60 % 60, 2);
    var s := Padded("0", seconds % 60, 2);
    TimeLayout(milliseconds);
    Join([h, m, s, ms], ":")
  }

  /** The four fields of the result, as the function builds them. */
  lemma TimeLayout(x: nat)
    ensures var r := Join([Padded("0", x / 1000 / 3600 % 24, 2), Padded("0", x / 1000 / 60 % 60, 2),
                           Padded("0", x / 1000 % 60, 2), Padded("00", x % 1000, 3)], ":");
      && |r| == 12 && r[2] == ':' && r[5] == ':' && r[8] == ':'
      && r[0..2] == Padded("0", x / 1000 / 3600 % 24, 2)
      && r[3..5] == Padded("0", x / 1000 / 60 % 60, 2)
      && r[6..8] == Padded("0", x / 1000 % 60, 2)
      && r[9..12] == Padded("00", x % 1000, 3)
      && AllDigits(r[0..2]) && AllDigits(r[3..5]) && AllDigits(r[6..8]) && AllDigits(r[9..12])
  {
    var h, m, s, ms := Padded("0", x / 1000 / 3600 % 24, 2), Padded("0", x / 1000 / 60 % 60, 2),
                       Padded("0", x / 1000 % 60, 2), Padded("00", x % 1000, 3);
    PaddedValue(x / 1000 / 3600 % 24, 2);
    PaddedValue(x / 1000 / 60 % 60, 2);
    PaddedValue(x / 1000 % 60, 2);
    PaddedValue(x % 1000, 3);
    assert [h, m, s, ms][..3] == [h, m, s];
    assert [h, m, s][..2] == [h, m];
    assert [h, m][..1] == [h];
    assert Join([h], ":") == h;
    assert Join([h, m], ":") == h + ":" + m;
    assert Join([h, m, s], ":") == h + ":" + m + ":" + s;
    var r := Join([h, m, s, ms], ":");
    assert r == h + ":" + m + ":" + s + ":" + ms;
  }

  /** Padding a number below 10^width gives exactly `width` digits that
      read back as the number. */
  lemma PaddedValue(n: nat, width: nat)
    requires width == 2 || width == 3
    requires n < Pow10(width)
    ensures var p := Padded(if width == 2 then "0" else "00", n, width);
      |p| == width && AllDigits(p) && DigitsValue(p) == n
  {
    assert Zeros(1) == "0" && Zeros(2) == "00";
    var d := Decimal(n);
    DecimalShape(n, width);
    DecimalValue(n);
    var s := Zeros(width - 1) + d;
    var j := width - |d|;
    ZerosSplit(|d| - 1, j);
    assert s == Zeros(|d| - 1) + (Zeros(j) + d);
    assert s[|s| - width..] == Zeros(j) + d;
    ZerosValue(j, d);
  }

  lemma {:induction false} ZerosSplit(a: nat, b: nat)
    ensures Zeros(a + b) == Zeros(a) + Zeros(b)
    decreases a
  {
    if a > 0 {
      ZerosSplit(a - 1, b);
    }
  }

  /** Leading zeros do not change the value of a numeral. */
  lemma {:induction false} ZerosValue(k: nat, d: string)
    requires AllDigits(d)
    ensures AllDigits(Zeros(k) + d) && DigitsValue(Zeros(k) + d) == DigitsValue(d)
    decreases k
  {
    if k > 0 {
      ZerosValue(k - 1, d);
      var rest := Zeros(k - 1) + d;
      LeadingZeroValue(rest);
      assert Zeros(k) + d == "0" + rest;
    } else {
      assert Zeros(k) + d == d;
    }
  }

  /** The fields read back as the hours of the day, the minutes of the hour,
      the seconds of the minute and the milliseconds of the second. */
  lemma TimeFields(milliseconds: nat)
    ensures var r := MillisecondsToString(milliseconds);
      && AllDigits(r[0..2]) && DigitsValue(r[0..2]) == milliseconds / 3600000 % 24
      && AllDigits(r[3..5]) && DigitsValue(r[3..5]) == milliseconds / 60000 % 60
      && AllDigits(r[6..8]) && DigitsValue(r[6..8]) == milliseconds / 1000 % 60
      && AllDigits(r[9..12]) && DigitsValue(r[9..12]) == milliseconds % 1000
  {
    var x := milliseconds;
    TimeLayout(x);
    PaddedValue(x / 1000 / 3600 % 24, 2);
    PaddedValue(x / 1000 / 60 % 60, 2);
    PaddedValue(x / 1000 % 60, 2);
    PaddedValue(x % 1000, 3);
    assert x / 1000 / 3600 == x / 3600000 && x / 1000 / 60 == x / 60000;
  }

  /** Two readings give the same string exactly when they fall at the same
      time of day. */
  lemma SameStringSameTimeOfDay(x: nat, y: nat)
    ensures MillisecondsToString(x) == MillisecondsToString(y) <==>
      x % MillisecondsPerDay == y % MillisecondsPerDay
  {
    FieldsOfDay(x);
    FieldsOfDay(y);
    if MillisecondsToString(x) == MillisecondsToString(y) {
      TimeFields(x);
      TimeFields(y);
      FieldsDetermineTime(x % MillisecondsPerDay, y % MillisecondsPerDay);
    }
  }

  /** Within one day the four fields determine the reading. */
  lemma FieldsDetermineTime(t: nat, u: nat)
    requires t < MillisecondsPerDay && u < MillisecondsPerDay
    requires t % 1000 == u % 1000
    requires t / 1000 % 60 == u / 1000 % 60
    requires t / 60000 % 60 == u / 60000 % 60
    requires t / 3600000 % 24 == u / 3600000 % 24
    ensures t == u
  {
    assert t == 1000 * (t / 1000) + t % 1000;
    assert u == 1000 * (u / 1000) + u % 1000;
    assert t / 1000 == 60 * (t / 60000) + t / 1000 % 60;
    assert u / 1000 == 60 * (u / 60000) + u / 1000 % 60;
    assert t / 60000 == 60 * (t / 3600000) + t / 60000 % 60;
    assert u / 60000 == 60 * (u / 3600000) + u / 60000 % 60;
    assert t / 3600000 < 24 && u / 3600000 < 24;
  }

  /** Each field depends only on the time of day. */
  lemma FieldsOfDay(x: nat)
    ensures x % 1000 == x % MillisecondsPerDay % 1000
    ensures x / 1000 % 60 == x % MillisecondsPerDay / 1000 % 60
    ensures x / 60000 % 60 == x % MillisecondsPerDay / 60000 % 60
    ensures x / 3600000 % 24 == x % MillisecondsPerDay / 3600000 % 24
  {
    var q, t := x / MillisecondsPerDay, x % MillisecondsPerDay;
    assert x == 1000 * (86400 * q) + t;
    DivModShift(1000, 86400 * q, t);
    var s, u := x / 1000, t / 1000;
    assert s == 60 * (1440 * q) + u;
    DivModShift(60, 1440 * q, u);
    assert s / 60 == 60 * (24 * q) + u / 60;
    DivModShift(60, 24 * q, u / 60);
    assert s == 3600 * (24 * q) + u;
    DivModShift(3600, 24 * q, u);
    DivModShift(24, q, u / 3600);
    assert x / 60000 == s / 60 && t / 60000 == u / 60;
    assert x / 3600000 == s / 3600 && t / 3600000 == u / 3600;
  }

  /** Dividing k * q + r by k. */
  lemma DivModShift(k: int, q: int, r: int)
    requires k > 0 && q >= 0 && r >= 0
    ensures (k * q + r) / k == q + r / k
    ensures (k * q + r) % k == r % k
  {
    var x := k * q + r;
    var a, b := x / k, x % k;
    assert x == k * a + b;
    assert r == k * (r / k) + r % k;
    var d := a - q - r / k;
    assert k * d == r % k - b by {
      assert k * d == k * a - k * q - k * (r / k);
    }
    if d > 0 {
      ProductAtLeast(k, d);
    } else if d < 0 {
      ProductAtLeast(k, -d);
    }
  }
}
