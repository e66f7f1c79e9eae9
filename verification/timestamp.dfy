/** The `playedAt` shape check: `YYYY-MM-DDTHH:MM:SS`, an optional `.digits`
    fraction and a mandatory `Z`. The shape is purely lexical (month 13 has
    the shape); `Parts`/`Format` give an independent description of the same
    language, and the two lemmas at the end show they agree. */
module Timestamp {
  import opened Base
  import opened Text

  /** Exactly the strings the `playedAt` pattern accepts, read left to
      right: a date, `T`, a time, then the optional fraction and `Z`. */
  predicate IsUtcTimestamp(s: string) {
    |s| >= 20 && IsDate(s[..10]) && s[10] == 'T' && IsTime(s[11..19]) && IsTail(s[19..])
  }

  /** `\d{4}-\d{2}-\d{2}` */
  predicate IsDate(d: string) {
    |d| == 10 && AllDigits(d[..4]) && d[4] == '-' && AllDigits(d[5..7]) && d[7] == '-' && AllDigits(d[8..])
  }

  /** `\d{2}:\d{2}:\d{2}` */
  predicate IsTime(t: string) {
    |t| == 8 && AllDigits(t[..2]) && t[2] == ':' && AllDigits(t[3..5]) && t[5] == ':' && AllDigits(t[6..])
  }

  /** `(\.\d+)?Z` */
  predicate IsTail(t: string) {
    t == "Z" || (|t| >= 3 && t[0] == '.' && AllDigits(t[1..|t| - 1]) && t[|t| - 1] == 'Z')
  }

  /** The fields a timestamp of this shape spells out; the fraction keeps its
      digits as written, leading and trailing zeros included. */
  datatype Parts = Parts(year: nat, month: nat, day: nat,
                         hour: nat, minute: nat, second: nat,
                         fraction: Option<string>)

  predicate WellFormed(p: Parts) {
    && p.year < 10000 && p.month < 100 && p.day < 100
    && p.hour < 100 && p.minute < 100 && p.second < 100
    && (p.fraction.Some? ==> |p.fraction.value| >= 1 && AllDigits(p.fraction.value))
  }

  function Pow10(n: nat): (r: nat)
    ensures r >= 1
  {
    if n == 0 then 1 else 10 * Pow10(n - 1)
  }

  /** The low `width` decimal digits of `n`, zero-padded. */
  function Digits(n: nat, width: nat): (r: string)
    ensures |r| == width && AllDigits(r)
  {
    if width == 0 then "" else Digits(n / 10, width - 1) + [('0' as int + n % 10) as char]
  }

  /** The number a digit string denotes. */
  function Value(s: string): (r: nat)
    requires AllDigits(s)
    ensures r < Pow10(|s|)
  {
    if |s| == 0 then 0
    else
      assert AllDigits(s[..|s| - 1]);
      Value(s[..|s| - 1]) * 10 + (s[|s| - 1] as int - '0' as int)
  }

  lemma {:induction false} ValueOfDigits(n: nat, width: nat)
    requires n < Pow10(width)
    ensures Value(Digits(n, width)) == n
  {
    if width > 0 {
      var d := Digits(n, width);
      assert d[..|d| - 1] == Digits(n / 10, width - 1);
      ValueOfDigits(n / 10, width - 1);
    }
  }

  lemma {:induction false} DigitsOfValue(s: string)
    requires AllDigits(s)
    ensures Digits(Value(s), |s|) == s
  {
    if |s| > 0 {
      var init := s[..|s| - 1];
      assert AllDigits(init);
      DigitsOfValue(init);
      var v := Value(s);
      assert v / 10 == Value(init);
      assert s == init + [s[|s| - 1]];
    }
  }

  /** Three fields with a one-character separator between each pair. */
  function Fields3(a: string, x: char, b: string, y: char, c: string): string {
    a + [x] + b + [y] + c
  }

  lemma Fields3Slices(a: string, x: char, b: string, y: char, c: string)
    ensures var s := Fields3(a, x, b, y, c);
      && s[..|a|] == a && s[|a|] == x
      && s[|a| + 1..|a| + 1 + |b|] == b && s[|a| + 1 + |b|] == y
      && s[|a| + 2 + |b|..] == c
  {
  }

  lemma Fields3Whole(s: string, i: nat, j: nat)
    requires i < j < |s|
    ensures s == Fields3(s[..i], s[i], s[i + 1..j], s[j], s[j + 1..])
  {
    assert s == s[..i] + [s[i]] + s[i + 1..j] + [s[j]] + s[j + 1..];
  }

  function FormatDate(p: Parts): (r: string)
    requires WellFormed(p)
  {
    Fields3(Digits(p.year, 4), '-', Digits(p.month, 2), '-', Digits(p.day, 2))
  }

  function FormatTime(p: Parts): (r: string)
    requires WellFormed(p)
  {
    Fields3(Digits(p.hour, 2), ':', Digits(p.minute, 2), ':', Digits(p.second, 2))
  }

  function FormatTail(fraction: Option<string>): string {
    if fraction.Some? then "." + fraction.value + "Z" else "Z"
  }

  function Format(p: Parts): (r: string)
    requires WellFormed(p)
  {
    FormatDate(p) + "T" + FormatTime(p) + FormatTail(p.fraction)
  }

  /** Reads the fields back out of a string of the timestamp shape: a
      string is read exactly when it has the shape, and then the fields read
      are in range and render back to the very same string. */
  function Parse(s: string): (r: Option<Parts>)
    ensures r.Some? <==> IsUtcTimestamp(s)
    ensures r.Some? ==> WellFormed(r.value) && Format(r.value) == s
  {
    if IsUtcTimestamp(s) then
      var d, t, tail := s[..10], s[11..19], s[19..];
      var p := Parts(Value(d[..4]), Value(d[5..7]), Value(d[8..]),
                     Value(t[..2]), Value(t[3..5]), Value(t[6..]),
                     if tail == "Z" then None else Some(tail[1..|tail| - 1]));
      PartsInRange(p, d, t, tail);
      DateRoundTrip(p, d);
      TimeRoundTrip(p, t);
      TailRoundTrip(tail);
      assert s == d + "T" + t + tail;
      Some(p)
    else None
  }

  /** The fields read out of the pieces of a string of the shape are in
      range. */
  lemma PartsInRange(p: Parts, d: string, t: string, tail: string)
    requires IsDate(d) && IsTime(t) && IsTail(tail)
    requires p == Parts(Value(d[..4]), Value(d[5..7]), Value(d[8..]),
                        Value(t[..2]), Value(t[3..5]), Value(t[6..]),
                        if tail == "Z" then None else Some(tail[1..|tail| - 1]))
    ensures WellFormed(p)
  {
    assert Pow10(2) == 100 && Pow10(4) == 10000;
  }

  lemma DateRoundTrip(p: Parts, d: string)
    requires WellFormed(p) && IsDate(d)
    requires p.year == Value(d[..4]) && p.month == Value(d[5..7]) && p.day == Value(d[8..])
    ensures FormatDate(p) == d
  {
    DigitsOfValue(d[..4]);
    DigitsOfValue(d[5..7]);
    DigitsOfValue(d[8..]);
    Fields3Whole(d, 4, 7);
  }

  lemma TimeRoundTrip(p: Parts, t: string)
    requires WellFormed(p) && IsTime(t)
    requires p.hour == Value(t[..2]) && p.minute == Value(t[3..5]) && p.second == Value(t[6..])
    ensures FormatTime(p) == t
  {
    DigitsOfValue(t[..2]);
    DigitsOfValue(t[3..5]);
    DigitsOfValue(t[6..]);
    Fields3Whole(t, 2, 5);
  }

  lemma TailRoundTrip(tail: string)
    requires IsTail(tail)
    ensures FormatTail(if tail == "Z" then None else Some(tail[1..|tail| - 1])) == tail
  {
    if tail != "Z" {
      assert tail == "." + tail[1..|tail| - 1] + "Z";
    }
  }

  lemma DateReadBack(p: Parts)
    requires WellFormed(p)
    ensures var d := FormatDate(p);
      IsDate(d) && Value(d[..4]) == p.year && Value(d[5..7]) == p.month && Value(d[8..]) == p.day
  {
    Fields3Slices(Digits(p.year, 4), '-', Digits(p.month, 2), '-', Digits(p.day, 2));
    ValueOfDigits(p.year, 4);
    ValueOfDigits(p.month, 2);
    ValueOfDigits(p.day, 2);
  }

  lemma TimeReadBack(p: Parts)
    requires WellFormed(p)
    ensures var t := FormatTime(p);
      IsTime(t) && Value(t[..2]) == p.hour && Value(t[3..5]) == p.minute && Value(t[6..]) == p.second
  {
    Fields3Slices(Digits(p.hour, 2), ':', Digits(p.minute, 2), ':', Digits(p.second, 2));
    ValueOfDigits(p.hour, 2);
    ValueOfDigits(p.minute, 2);
    ValueOfDigits(p.second, 2);
  }

  /** Every rendering of well-formed fields has the shape and reads back as
      the same fields. */
  lemma ParseFormat(p: Parts)
    requires WellFormed(p)
    ensures IsUtcTimestamp(Format(p)) && Parse(Format(p)) == Some(p)
  {
    var s := Format(p);
    var d, t, tail := FormatDate(p), FormatTime(p), FormatTail(p.fraction);
    DateReadBack(p);
    TimeReadBack(p);
    assert s[..10] == d && s[10] == 'T' && s[11..19] == t && s[19..] == tail;
    if p.fraction.Some? {
      assert tail[1..|tail| - 1] == p.fraction.value;
    }
  }

  /** "invalid-date" does not have the shape. */
  lemma RejectsInvalidDate()
    ensures !IsUtcTimestamp("invalid-date")
  {
  }

  /** A timestamp is read as its date, its time and its tail. */
  lemma Assembled(d: string, t: string, tail: string)
    requires |d| == 10 && |t| == 8
    ensures IsUtcTimestamp(d + "T" + t + tail) <==> IsDate(d) && IsTime(t) && IsTail(tail)
  {
    var s := d + "T" + t + tail;
    assert s[..10] == d && s[10] == 'T' && s[11..19] == t && s[19..] == tail;
  }

  lemma ExampleParts()
    ensures IsDate("2025-10-06") && IsTime("10:00:00")
    ensures IsTail("Z") && IsTail(".123Z") && !IsTail(".Z")
  {
    var d, t := "2025-10-06", "10:00:00";
    assert d[..4] == "2025" && d[5..7] == "10" && d[8..] == "06";
    assert t[..2] == "10" && t[3..5] == "00" && t[6..] == "00";
    assert AllDigits("2025") && AllDigits("10") && AllDigits("06") && AllDigits("00");
    var tail := ".123Z";
    assert tail[1..|tail| - 1] == "123" && AllDigits("123");
  }

  /** The accepted example from the schema's message, with and without a
      fraction; an empty fraction and a space separator are refused. */
  lemma Examples()
    ensures IsUtcTimestamp("2025-10-06T10:00:00Z")
    ensures IsUtcTimestamp("2025-10-06T10:00:00.123Z")
    ensures !IsUtcTimestamp("2025-10-06T10:00:00.Z")
    ensures !IsUtcTimestamp("2025-10-06 10:00:00")
  {
    var d, t := "2025-10-06", "10:00:00";
    ExampleParts();
    assert "2025-10-06T10:00:00Z" == d + "T" + t + "Z";
    Assembled(d, t, "Z");
    assert "2025-10-06T10:00:00.123Z" == d + "T" + t + ".123Z";
    Assembled(d, t, ".123Z");
    assert "2025-10-06T10:00:00.Z" == d + "T" + t + ".Z";
    Assembled(d, t, ".Z");
    assert "2025-10-06 10:00:00"[10] == ' ';
  }
}
