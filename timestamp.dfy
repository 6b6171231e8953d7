/** Timestamp::toString and the arithmetic of Timestamp::now
    (muduo/base/Timestamp.cc). A Timestamp is an int64 count of microseconds
    since the epoch. toString splits it with C's truncating / and % and prints
    "%" PRId64 ".%06" PRId64 into a 32-byte buffer; now combines a clock
    reading's seconds and microseconds. The clock itself is a parameter. */
module Timestamps {
  import opened CInt
  import opened Decimal

  /** kMicroSecondsPerSecond (declared in Timestamp.h). */
  const MicroSecondsPerSecond: nat := 1000000

  /** sizeof(buf) in toString. */
  const BufferSize: nat := 32

  datatype Timestamp = Timestamp(microSecondsSinceEpoch: Int64)

  datatype Option<T> = None | Some(value: T)

  /** snprintf into a buffer of BufferSize bytes keeps at most BufferSize - 1
      characters of the text and a terminating NUL. */
  function Snprintf(text: string): (kept: string)
    ensures |kept| < BufferSize && kept <= text
    ensures |text| < BufferSize ==> kept == text
  {
    if |text| < BufferSize then text else text[..BufferSize - 1]
  }

  /** The text "%" PRId64 ".%06" PRId64 produces, before the buffer limit.
      Every int64 fits: at most 13 digits of seconds and 6 of fraction, each
      with a sign. */
  function Formatted(us: Int64): (s: string)
    ensures |s| <= 22
  {
    var q := Quot(us, MicroSecondsPerSecond);
    var r := Rem(us, MicroSecondsPerSecond);
    SecondsBound(us);
    Pow10Value(13);
    DigitsLength(if q < 0 then -q else q, 13);
    Pow10Value(6);
    DigitsLength(if r < 0 then -r else r, 6);
    assert |FormatInt(q, 0, false)| <= 14;
    assert |FormatInt(r, 6, true)| <= 7;
    FormatInt(q, 0, false) + "." + FormatInt(r, 6, true)
  }

  /** toString: the text always fits the 32-byte buffer, so snprintf never
      truncates it. */
  function ToString(t: Timestamp): (s: string)
    ensures s == Formatted(t.microSecondsSinceEpoch)
  {
    Snprintf(Formatted(t.microSecondsSinceEpoch))
  }

  /** The seconds of an int64 count of microseconds have at most 13 digits. */
  lemma SecondsBound(us: Int64)
    ensures -10000000000000 < Quot(us, MicroSecondsPerSecond) < 10000000000000
  {
  }

  lemma {:induction false} Pow10Value(k: nat)
    requires k <= 13
    ensures Pow10(k) == [1, 10, 100, 1000, 10000, 100000, 1000000, 10000000, 100000000,
                         1000000000, 10000000000, 100000000000, 1000000000000, 10000000000000][k]
  {
    if k > 0 {
      Pow10Value(k - 1);
    }
  }

  /** The six fraction characters of a remainder below a million: digits that
      read back as the remainder. */
  lemma FractionText(r: nat)
    requires r < MicroSecondsPerSecond
    ensures |PadLeft(Digits(r), '0', 6)| == 6
    ensures AllDigits(PadLeft(Digits(r), '0', 6)) && Value(PadLeft(Digits(r), '0', 6)) == r
  {
    Pow10Value(6);
    DigitsLength(r, 6);
    ValueOfDigits(r);
    ValueZeroPadded(Digits(r), 6);
  }

  /** For a non-negative timestamp C's split agrees with Dafny's, and "%d"
      of a non-negative number with no width is just its digits. */
  lemma FormattedNonNegative(us: Int64)
    requires us >= 0
    ensures ToString(Timestamp(us)) ==
      Digits(us / MicroSecondsPerSecond) + "." + PadLeft(Digits(us % MicroSecondsPerSecond), '0', 6)
  {
    var secs := Digits(us / MicroSecondsPerSecond);
    assert FormatInt(us / MicroSecondsPerSecond, 0, false) == secs by {
      assert PadLeft(secs, ' ', 0) == secs;
    }
  }

  /** Where the separator sits in seconds "." six characters. */
  lemma SplitText(secs: string, frac: string)
    requires |frac| == 6
    ensures var s := secs + "." + frac;
      && |s| >= 7 && s[|s| - 7] == '.' && s[..|s| - 7] == secs && s[|s| - 6..] == frac
  {
  }

  /** For a non-negative timestamp: decimal seconds, a '.', then exactly six
      digits, the microseconds zero-padded. */
  lemma ToStringShape(us: Int64)
    requires us >= 0
    ensures ToString(Timestamp(us)) ==
      Digits(us / MicroSecondsPerSecond) + "." + PadLeft(Digits(us % MicroSecondsPerSecond), '0', 6)
    ensures Shaped(ToString(Timestamp(us)))
    ensures Seconds(ToString(Timestamp(us))) == us / MicroSecondsPerSecond
    ensures Fraction(ToString(Timestamp(us))) == us % MicroSecondsPerSecond
  {
    FormattedNonNegative(us);
    TextShape(ToString(Timestamp(us)), us);
  }

  /** The shape of seconds "." six-digit fraction, for a text given as such. */
  lemma TextShape(s: string, us: nat)
    requires s == Digits(us / MicroSecondsPerSecond) + "." + PadLeft(Digits(us % MicroSecondsPerSecond), '0', 6)
    ensures Shaped(s)
    ensures Seconds(s) == us / MicroSecondsPerSecond && Fraction(s) == us % MicroSecondsPerSecond
  {
    var secs := Digits(us / MicroSecondsPerSecond);
    var frac := PadLeft(Digits(us % MicroSecondsPerSecond), '0', 6);
    FractionText(us % MicroSecondsPerSecond);
    ValueOfDigits(us / MicroSecondsPerSecond);
    TextParts(s, secs, frac);
  }

  /** The parts of seconds "." fraction, read back. */
  lemma TextParts(s: string, secs: string, frac: string)
    requires s == secs + "." + frac && |frac| == 6 && |secs| >= 1
    requires AllDigits(secs) && AllDigits(frac)
    ensures Shaped(s) && Seconds(s) == Value(secs) && Fraction(s) == Value(frac)
    ensures Parse(s) == Some(Value(secs) * MicroSecondsPerSecond + Value(frac))
  {
    SplitText(secs, frac);
  }

  /** Text of the form digits "." six digits. */
  predicate Shaped(s: string)
  {
    |s| >= 8 && s[|s| - 7] == '.' && AllDigits(s[..|s| - 7]) && AllDigits(s[|s| - 6..])
  }

  /** The seconds and the fraction of a shaped text, read back. */
  function Seconds(s: string): nat
    requires Shaped(s)
  {
    Value(s[..|s| - 7])
  }

  function Fraction(s: string): nat
    requires Shaped(s)
  {
    Value(s[|s| - 6..])
  }

  /** Reads text of the form digits "." six-digits back as microseconds. */
  function Parse(s: string): (r: Option<int>)
    ensures r.Some? ==> r.value >= 0
  {
    if Shaped(s) then Some(Seconds(s) * MicroSecondsPerSecond + Fraction(s)) else None
  }

  /** Round trip: toString loses nothing for a non-negative timestamp. */
  lemma ParseToString(us: Int64)
    requires us >= 0
    ensures Parse(ToString(Timestamp(us))) == Some(us)
  {
    FormattedNonNegative(us);
    ParseText(ToString(Timestamp(us)), us);
  }

  /** Parse inverts the text of seconds "." six-digit fraction. */
  lemma ParseText(s: string, us: int)
    requires us >= 0
    requires s == Digits(us / MicroSecondsPerSecond) + "." + PadLeft(Digits(us % MicroSecondsPerSecond), '0', 6)
    ensures Parse(s) == Some(us)
  {
    var q, r := us / MicroSecondsPerSecond, us % MicroSecondsPerSecond;
    FractionText(r);
    ValueOfDigits(q);
    TextParts(s, Digits(q), PadLeft(Digits(r), '0', 6));
    Recombine(us);
  }

  lemma Recombine(us: int)
    requires us >= 0
    ensures (us / MicroSecondsPerSecond) * MicroSecondsPerSecond + us % MicroSecondsPerSecond == us
  {
  }

  /** The value Timestamp::now builds from a clock reading of sec seconds and
      usec microseconds (gettimeofday keeps usec below a million). The product
      and the sum must fit int64, or the C arithmetic overflows. */
  function Now(sec: int, usec: int): (t: Timestamp)
    requires 0 <= usec < MicroSecondsPerSecond
    requires InRange(W64, sec * MicroSecondsPerSecond)
    requires InRange(W64, sec * MicroSecondsPerSecond + usec)
    ensures sec >= 0 ==> Quot(t.microSecondsSinceEpoch, MicroSecondsPerSecond) == sec
    ensures sec >= 0 ==> Rem(t.microSecondsSinceEpoch, MicroSecondsPerSecond) == usec
  {
    Timestamp(sec * MicroSecondsPerSecond + usec)
  }

  lemma DivModUnique(us: int, sec: int, usec: int)
    requires 0 <= usec < MicroSecondsPerSecond && us == sec * MicroSecondsPerSecond + usec
    ensures us / MicroSecondsPerSecond == sec && us % MicroSecondsPerSecond == usec
  {
  }

  /** toString recovers the clock reading that now combined. */
  lemma NowToString(sec: int, usec: int)
    requires 0 <= sec && 0 <= usec < MicroSecondsPerSecond
    requires InRange(W64, sec * MicroSecondsPerSecond + usec)
    ensures ToString(Now(sec, usec)) == Digits(sec) + "." + PadLeft(Digits(usec), '0', 6)
    ensures Parse(ToString(Now(sec, usec))) == Some(sec * MicroSecondsPerSecond + usec)
  {
    ProductFits(sec, usec);
    var t := Now(sec, usec);
    DivModUnique(t.microSecondsSinceEpoch, sec, usec);
    TextOfSplit(t, sec, usec);
  }

  /** For a non-negative reading whose sum fits int64, so does the product. */
  lemma ProductFits(sec: nat, usec: nat)
    requires InRange(W64, sec * MicroSecondsPerSecond + usec)
    ensures InRange(W64, sec * MicroSecondsPerSecond)
  {
  }

  /** The text of a non-negative timestamp whose split is sec and usec. */
  lemma TextOfSplit(t: Timestamp, sec: nat, usec: nat)
    requires t.microSecondsSinceEpoch >= 0
    requires t.microSecondsSinceEpoch / MicroSecondsPerSecond == sec
    requires t.microSecondsSinceEpoch % MicroSecondsPerSecond == usec
    ensures ToString(t) == Digits(sec) + "." + PadLeft(Digits(usec), '0', 6)
    ensures Parse(ToString(t)) == Some(t.microSecondsSinceEpoch)
  {
    FormattedNonNegative(t.microSecondsSinceEpoch);
    ParseText(ToString(t), t.microSecondsSinceEpoch);
  }

  /** Before the epoch C's truncation puts the sign on both parts: one
      microsecond before the epoch prints as "0.-00001". */
  lemma OneMicrosecondBeforeEpoch()
    ensures ToString(Timestamp(-1)) == "0.-00001"
  {
    assert Quot(-1, MicroSecondsPerSecond) == 0;
    assert Rem(-1, MicroSecondsPerSecond) == -1;
    assert Digits(0) == "0" && Digits(1) == "1";
    assert FormatInt(0, 0, false) == "0";
    assert PadLeft("1", '0', 5) == "00001";
    assert FormatInt(-1, 6, true) == "-00001";
    assert Formatted(-1) == "0" + "." + "-00001";
  }
}
