/** The two textual layouts of a timestamp: ISO `%Y-%m-%dT%H:%M:%S`
    (`2024-03-05T12:00:00`, 19 characters) and compact `%Y%m%dT%H%M%S`
    (`20240305T120000`, 15 characters).

    The parsers here are strict fixed-width digit parsers. Python's `strptime`
    is more lenient: it also accepts fields that are not zero-padded
    (`2024-3-5T1:2:3`), a lower-case `t` and non-ASCII digits. Every string
    these parsers accept, `strptime` accepts with the same result, so the set
    of strings the model parses is a subset of the real one. */
module Layouts {
  import opened Wrappers
  import opened Dates

  predicate IsDigit(c: char) {
    '0' <= c <= '9'
  }

  function DigitChar(k: nat): (c: char)
    requires k < 10
    ensures IsDigit(c)
    ensures c as int - '0' as int == k
  {
    ('0' as int + k) as char
  }

  function DigitValue(c: char): (k: nat)
    requires IsDigit(c)
    ensures k < 10
    ensures DigitChar(k) == c
  {
    c as int - '0' as int
  }

  /** The `k`-th decimal digit of `n` counting from the units (k = 0), as a
      character: one position of a zero-padded `strftime` field. */
  function Nth(n: nat, k: nat): (c: char)
    requires k < 4
    ensures IsDigit(c)
  {
    if k == 0 then DigitChar(n % 10)
    else if k == 1 then DigitChar(n / 10 % 10)
    else if k == 2 then DigitChar(n / 10 / 10 % 10)
    else DigitChar(n / 10 / 10 / 10 % 10)
  }

  /** Quotient and remainder by ten are unique. */
  lemma DivTen(n: nat, q: nat, r: nat)
    requires r < 10 && n == 10 * q + r
    ensures n / 10 == q && n % 10 == r
  {
  }

  /** `n` is `n`'s four low digits read back, when it has at most four. */
  lemma FourDigits(n: nat)
    requires n < 10000
    ensures 1000 * (n / 10 / 10 / 10 % 10) + 100 * (n / 10 / 10 % 10) + 10 * (n / 10 % 10) + n % 10 == n
  {
    var q1 := n / 10;
    var q2 := q1 / 10;
    var q3 := q2 / 10;
    assert n == 10 * q1 + n % 10;
    assert q1 == 10 * q2 + q1 % 10;
    assert q2 == 10 * q3 + q2 % 10;
    assert q3 < 10;
    DivTen(q3, 0, q3);
  }

  /** Reading four digits and splitting the number again gives the digits. */
  lemma SplitFour(a: nat, b: nat, c: nat, e: nat)
    requires a < 10 && b < 10 && c < 10 && e < 10
    ensures var n := 1000 * a + 100 * b + 10 * c + e;
            n / 10 / 10 / 10 % 10 == a && n / 10 / 10 % 10 == b && n / 10 % 10 == c && n % 10 == e
  {
    DivTen(1000 * a + 100 * b + 10 * c + e, 100 * a + 10 * b + c, e);
    DivTen(100 * a + 10 * b + c, 10 * a + b, c);
    DivTen(10 * a + b, a, b);
    DivTen(a, 0, a);
  }

  /** `s[i..i+w]` are all decimal digits. */
  predicate DigitsAt(s: string, i: nat, w: nat)
    requires i + w <= |s|
  {
    forall j :: i <= j < i + w ==> IsDigit(s[j])
  }

  /** The number written by the two digits at `s[i]`, `s[i+1]`. */
  function Num2(s: string, i: nat): (n: nat)
    requires i + 2 <= |s| && DigitsAt(s, i, 2)
    ensures n < 100
  {
    10 * DigitValue(s[i]) + DigitValue(s[i + 1])
  }

  /** The number written by the four digits at `s[i..i+4]`. */
  function Num4(s: string, i: nat): (n: nat)
    requires i + 4 <= |s| && DigitsAt(s, i, 4)
    ensures n < 10000
  {
    1000 * DigitValue(s[i]) + 100 * DigitValue(s[i + 1]) + 10 * DigitValue(s[i + 2]) + DigitValue(s[i + 3])
  }

  /** `dt.strftime("%Y-%m-%dT%H:%M:%S")`: every field zero-padded, the year
      to four digits. */
  function FormatIso(d: Timestamp): string
  {
    [Nth(d.year, 3), Nth(d.year, 2), Nth(d.year, 1), Nth(d.year, 0), '-',
     Nth(d.month, 1), Nth(d.month, 0), '-', Nth(d.day, 1), Nth(d.day, 0), 'T',
     Nth(d.hour, 1), Nth(d.hour, 0), ':', Nth(d.minute, 1), Nth(d.minute, 0), ':',
     Nth(d.second, 1), Nth(d.second, 0)]
  }

  /** `dt.strftime("%Y%m%dT%H%M%S")`, the layout of the initial watermarks. */
  function FormatCompact(d: Timestamp): string
  {
    [Nth(d.year, 3), Nth(d.year, 2), Nth(d.year, 1), Nth(d.year, 0),
     Nth(d.month, 1), Nth(d.month, 0), Nth(d.day, 1), Nth(d.day, 0), 'T',
     Nth(d.hour, 1), Nth(d.hour, 0), Nth(d.minute, 1), Nth(d.minute, 0),
     Nth(d.second, 1), Nth(d.second, 0)]
  }

  /** The calendar check `strptime` delegates to the `datetime` constructor. */
  function Validate(d: DateTime): (r: Option<Timestamp>)
    ensures r.Some? <==> ValidDateTime(d)
    ensures r.Some? ==> r.value == d
  {
    if ValidDateTime(d) then Some(d) else None
  }

  /** The ISO shape: 19 characters, separators in place, digits elsewhere. */
  predicate IsoShaped(s: string) {
    && |s| == 19
    && s[4] == '-' && s[7] == '-' && s[10] == 'T' && s[13] == ':' && s[16] == ':'
    && DigitsAt(s, 0, 4) && DigitsAt(s, 5, 2) && DigitsAt(s, 8, 2)
    && DigitsAt(s, 11, 2) && DigitsAt(s, 14, 2) && DigitsAt(s, 17, 2)
  }

  /** The compact shape: 15 characters, `T` at index 8, digits elsewhere. */
  predicate CompactShaped(s: string) {
    && |s| == 15
    && s[8] == 'T'
    && DigitsAt(s, 0, 8) && DigitsAt(s, 9, 6)
  }

  /** `datetime.strptime(s, "%Y-%m-%dT%H:%M:%S")`, `None` standing for the
      `ValueError` it raises (wrong shape or no such date). A string it
      accepts is exactly the ISO rendering of the result. */
  function ParseIso(s: string): (r: Option<Timestamp>)
    ensures r.Some? ==> FormatIso(r.value) == s
  {
    if IsoShaped(s) then
      var r := Validate(DateTime(Num4(s, 0), Num2(s, 5), Num2(s, 8), Num2(s, 11), Num2(s, 14), Num2(s, 17)));
      if r.Some? then IsoSpelling(s, r.value); r else r
    else None
  }

  /** `datetime.strptime(s, "%Y%m%dT%H%M%S")`. A string it accepts is
      exactly the compact rendering of the result. */
  function ParseCompact(s: string): (r: Option<Timestamp>)
    ensures r.Some? ==> FormatCompact(r.value) == s
  {
    if CompactShaped(s) then
      var r := Validate(DateTime(Num4(s, 0), Num2(s, 4), Num2(s, 6), Num2(s, 9), Num2(s, 11), Num2(s, 13)));
      if r.Some? then CompactSpelling(s, r.value); r else r
    else None
  }

  /** Two digits at `s[i]` are the padded rendering of the number they spell. */
  lemma TwoSpelled(s: string, i: nat)
    requires i + 2 <= |s| && DigitsAt(s, i, 2)
    ensures Nth(Num2(s, i), 1) == s[i] && Nth(Num2(s, i), 0) == s[i + 1]
  {
    SplitFour(0, 0, DigitValue(s[i]), DigitValue(s[i + 1]));
  }

  /** Four digits at `s[i]` are the padded rendering of the number they spell. */
  lemma FourSpelled(s: string, i: nat)
    requires i + 4 <= |s| && DigitsAt(s, i, 4)
    ensures Nth(Num4(s, i), 3) == s[i] && Nth(Num4(s, i), 2) == s[i + 1]
    ensures Nth(Num4(s, i), 1) == s[i + 2] && Nth(Num4(s, i), 0) == s[i + 3]
  {
    SplitFour(DigitValue(s[i]), DigitValue(s[i + 1]), DigitValue(s[i + 2]), DigitValue(s[i + 3]));
  }

  /** A well-shaped ISO string is the rendering of the fields it spells. */
  lemma IsoSpelling(s: string, d: Timestamp)
    requires IsoShaped(s)
    requires d == DateTime(Num4(s, 0), Num2(s, 5), Num2(s, 8), Num2(s, 11), Num2(s, 14), Num2(s, 17))
    ensures FormatIso(d) == s
  {
    FourSpelled(s, 0);
    TwoSpelled(s, 5);
    TwoSpelled(s, 8);
    TwoSpelled(s, 11);
    TwoSpelled(s, 14);
    TwoSpelled(s, 17);
    var f := FormatIso(d);
    assert forall j :: 0 <= j < 19 ==> f[j] == s[j];
  }

  /** A well-shaped compact string is the rendering of the fields it spells. */
  lemma CompactSpelling(s: string, d: Timestamp)
    requires CompactShaped(s)
    requires d == DateTime(Num4(s, 0), Num2(s, 4), Num2(s, 6), Num2(s, 9), Num2(s, 11), Num2(s, 13))
    ensures FormatCompact(d) == s
  {
    FourSpelled(s, 0);
    TwoSpelled(s, 4);
    TwoSpelled(s, 6);
    TwoSpelled(s, 9);
    TwoSpelled(s, 11);
    TwoSpelled(s, 13);
    var f := FormatCompact(d);
    assert forall j :: 0 <= j < 15 ==> f[j] == s[j];
  }

  /** The two padded digits of a number below 100 spell it. */
  lemma TwoRead(n: nat)
    requires n < 100
    ensures 10 * DigitValue(Nth(n, 1)) + DigitValue(Nth(n, 0)) == n
  {
    FourDigits(n);
  }

  /** The four padded digits of a number below 10000 spell it. */
  lemma FourRead(n: nat)
    requires n < 10000
    ensures 1000 * DigitValue(Nth(n, 3)) + 100 * DigitValue(Nth(n, 2)) + 10 * DigitValue(Nth(n, 1)) + DigitValue(Nth(n, 0)) == n
  {
    FourDigits(n);
  }

  /** The ISO rendering is well shaped and each field reads back as the
      datetime's own component. */
  lemma FormatIsoReadsBack(d: Timestamp)
    ensures IsoShaped(FormatIso(d))
    ensures var s := FormatIso(d);
            && Num4(s, 0) == d.year && Num2(s, 5) == d.month && Num2(s, 8) == d.day
            && Num2(s, 11) == d.hour && Num2(s, 14) == d.minute && Num2(s, 17) == d.second
  {
    var s := FormatIso(d);
    assert IsoShaped(s);
    FourRead(d.year);
    TwoRead(d.month);
    TwoRead(d.day);
    TwoRead(d.hour);
    TwoRead(d.minute);
    TwoRead(d.second);
  }

  /** The compact rendering is well shaped and each field reads back as the
      datetime's own component. */
  lemma FormatCompactReadsBack(d: Timestamp)
    ensures CompactShaped(FormatCompact(d))
    ensures var s := FormatCompact(d);
            && Num4(s, 0) == d.year && Num2(s, 4) == d.month && Num2(s, 6) == d.day
            && Num2(s, 9) == d.hour && Num2(s, 11) == d.minute && Num2(s, 13) == d.second
  {
    var s := FormatCompact(d);
    assert CompactShaped(s);
    FourRead(d.year);
    TwoRead(d.month);
    TwoRead(d.day);
    TwoRead(d.hour);
    TwoRead(d.minute);
    TwoRead(d.second);
  }

  /** Round trip: parsing the ISO rendering of a datetime gives it back. */
  lemma ParseIsoOfFormat(d: Timestamp)
    ensures ParseIso(FormatIso(d)) == Some(d)
  {
    FormatIsoReadsBack(d);
  }

  /** Round trip: parsing the compact rendering of a datetime gives it back. */
  lemma ParseCompactOfFormat(d: Timestamp)
    ensures ParseCompact(FormatCompact(d)) == Some(d)
  {
    FormatCompactReadsBack(d);
  }

  /** The ISO parser accepts a string exactly when it is the ISO rendering of
      some datetime. */
  lemma ParseIsoExactly(s: string, d: Timestamp)
    ensures ParseIso(s) == Some(d) <==> s == FormatIso(d)
  {
    if s == FormatIso(d) {
      ParseIsoOfFormat(d);
    }
  }

  /** The compact parser accepts a string exactly when it is the compact
      rendering of some datetime. */
  lemma ParseCompactExactly(s: string, d: Timestamp)
    ensures ParseCompact(s) == Some(d) <==> s == FormatCompact(d)
  {
    if s == FormatCompact(d) {
      ParseCompactOfFormat(d);
    }
  }

  /** Only the ISO layout has a `-`: it sits at index 4 of every ISO
      rendering and nowhere in a compact one. */
  lemma DashSeparatesLayouts(d: Timestamp)
    ensures '-' in FormatIso(d)
    ensures '-' !in FormatCompact(d)
  {
    assert FormatIso(d)[4] == '-';
  }
}
