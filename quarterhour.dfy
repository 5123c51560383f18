/** The quarter-hour chime: which vibration, if any, a minute tick triggers. */
module QuarterHour {
  import opened CStrings

  datatype Option<T> = None | Some(value: T)

  /** The three vibrations the watchface asks the host for. */
  datatype Pattern =
    | Custom(durations: seq<nat>)  // alternating on/off segments, in ms
    | ShortPulse
    | LongPulse

  /** The top-of-the-hour double buzz: 400 ms on, 200 ms off, 400 ms on. */
  const DoubleBuzz: Pattern := Custom([400, 200, 400])

  /** The fields of the host's broken-down local time (`struct tm`). */
  datatype Tm = Tm(sec: int, min: int, hour: int, mday: int, mon: int, year: int, wday: int, yday: int)

  /** The ranges `%M` and `%S` are defined for (tm_sec allows a leap second). */
  predicate MinSecInRange(t: Tm) {
    0 <= t.min <= 59 && 0 <= t.sec <= 60
  }

  /** A two-digit, zero-padded field as `%M` and `%S` print it. */
  function Pad2(n: nat): (r: string)
    requires n < 100
    ensures |r| == 2 && AllDigits(r)
    ensures ParseDigits(r) == n
  {
    [DigitChar(n / 10), DigitChar(n % 10)]
  }

  /** `strftime(buffer, sizeof("00:00"), "%M:%S", t)`; the five characters and
      the terminator fit the six-byte buffer exactly. */
  function MinSec(t: Tm): (r: string)
    requires MinSecInRange(t)
    ensures |r| == 5 && r[2] == ':'
    ensures AllDigits(r[..2]) && AllDigits(r[3..])
    ensures ParseDigits(r[..2]) == t.min && ParseDigits(r[3..]) == t.sec
  {
    Pad2(t.min) + ":" + Pad2(t.sec)
  }

  /** The chime decided on the formatted text by comparing it with the four
      literals; they are pairwise distinct, so at most one test can succeed. */
  function Chime(mmss: string): (r: Option<Pattern>)
    ensures r.Some? <==> mmss in {"00:00", "15:00", "30:00", "45:00"}
    ensures r == Some(DoubleBuzz) <==> mmss == "00:00"
    ensures r == Some(LongPulse) <==> mmss == "30:00"
    ensures r == Some(ShortPulse) <==> mmss == "15:00" || mmss == "45:00"
  {
    if mmss == "00:00" then Some(DoubleBuzz)
    else if mmss == "15:00" then Some(ShortPulse)
    else if mmss == "30:00" then Some(LongPulse)
    else if mmss == "45:00" then Some(ShortPulse)
    else None
  }

  /** The same decision on the numeric fields. */
  function Classify(minute: int, second: int): (r: Option<Pattern>)
    ensures r.Some? <==> IsQuarterHour(minute, second)
    ensures r == Some(DoubleBuzz) <==> second == 0 && minute == 0
    ensures r == Some(LongPulse) <==> second == 0 && minute == 30
    ensures r == Some(ShortPulse) <==> second == 0 && (minute == 15 || minute == 45)
  {
    if second != 0 then None
    else if minute == 0 then Some(DoubleBuzz)
    else if minute == 15 || minute == 45 then Some(ShortPulse)
    else if minute == 30 then Some(LongPulse)
    else None
  }

  predicate IsQuarterHour(minute: int, second: int) {
    second == 0 && minute in {0, 15, 30, 45}
  }

  /** `%M:%S` is one-to-one on its domain: equal text means equal fields. */
  lemma MinSecInjective(t: Tm, u: Tm)
    requires MinSecInRange(t) && MinSecInRange(u)
    ensures MinSec(t) == MinSec(u) <==> t.min == u.min && t.sec == u.sec
  {
    if MinSec(t) == MinSec(u) {
      assert Pad2(t.min) == MinSec(t)[..2] == MinSec(u)[..2] == Pad2(u.min);
      assert Pad2(t.sec) == MinSec(t)[3..] == MinSec(u)[3..] == Pad2(u.sec);
    }
  }

  /** Comparing the formatted text with the literals selects exactly what the
      numeric classification selects: the double buzz at :00:00, a short
      pulse at :15:00 and :45:00, a long pulse at :30:00, nothing otherwise. */
  lemma ChimeIsClassify(t: Tm)
    requires MinSecInRange(t)
    ensures Chime(MinSec(t)) == Classify(t.min, t.sec)
    ensures Chime(MinSec(t)).Some? <==> IsQuarterHour(t.min, t.sec)
  {
    var at := Tm(0, 0, 0, 0, 0, 0, 0, 0);
    assert MinSec(at.(min := 0)) == "00:00";
    assert MinSec(at.(min := 15)) == "15:00";
    assert MinSec(at.(min := 30)) == "30:00";
    assert MinSec(at.(min := 45)) == "45:00";
    MinSecInjective(t, at.(min := 0));
    MinSecInjective(t, at.(min := 15));
    MinSecInjective(t, at.(min := 30));
    MinSecInjective(t, at.(min := 45));
  }

  /** Only minutes and seconds are formatted, so the hour and the date never
      influence the chime. */
  lemma ChimeIgnoresHourAndDate(t: Tm, u: Tm)
    requires MinSecInRange(t) && t.min == u.min && t.sec == u.sec
    ensures MinSecInRange(u) && Chime(MinSec(t)) == Chime(MinSec(u))
  {
  }
}
