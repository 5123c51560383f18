/** The watchface's callbacks: the minute tick (chime and weather poll), the
    battery label and the inbound weather message, acting on the app's
    static text buffers and on the requests it hands to the host. */
module Watchface {
  import opened CStrings
  import opened CArith
  import opened QuarterHour
  import opened WeatherMessage

  const BatterySize: nat := 32

  /** An outbound dictionary tuple holding an unsigned byte. */
  datatype OutTuple = Uint8(key: uint32, value: uint8)

  /** What the app asks of the host: a vibration, or an outbound message. */
  datatype Event = Vibrate(pattern: Pattern) | Send(payload: seq<OutTuple>)

  /** The weather poll: one tuple, key 0, value 0. */
  const PollPayload: seq<OutTuple> := [Uint8(0, 0)]

  /** The poll carries exactly one tuple: key 0 with the byte value 0. */
  lemma PollPayloadShape()
    ensures |PollPayload| == 1 && PollPayload[0].key == 0 && PollPayload[0].value == 0
  {
  }

  /** The requests a chime decision produces: the vibration, then a poll. */
  function ChimeEvents(p: Option<Pattern>): (r: seq<Event>)
    ensures Polls(r) == Vibrations(r) == (if p.Some? then 1 else 0)
    ensures p.Some? ==> r[0] == Vibrate(p.value)
  {
    match p
    case None => []
    case Some(q) =>
      var r := [Vibrate(q), Send(PollPayload)];
      assert r[1..] == [Send(PollPayload)] && r[1..][1..] == [];
      assert Polls(r[1..]) == 1 && Vibrations(r[1..]) == 0;
      r
  }

  /** The requests of one minute tick: the chime's, then the unconditional poll. */
  function TickEvents(minute: int, second: int): (r: seq<Event>)
    ensures |r| == if IsQuarterHour(minute, second) then 3 else 1
    ensures r[|r| - 1] == Send(PollPayload)
  {
    ChimeEvents(Classify(minute, second)) + [Send(PollPayload)]
  }

  function Polls(es: seq<Event>): (r: nat) {
    if es == [] then 0 else (if es[0].Send? then 1 else 0) + Polls(es[1..])
  }

  function Vibrations(es: seq<Event>): (r: nat) {
    if es == [] then 0 else (if es[0].Vibrate? then 1 else 0) + Vibrations(es[1..])
  }

  /** A tick polls for weather twice on a quarter-hour boundary and once
      otherwise; it vibrates exactly on the boundary, and at most once; every
      message it sends is the poll payload. */
  lemma TickRequests(minute: int, second: int)
    ensures Polls(TickEvents(minute, second)) == if IsQuarterHour(minute, second) then 2 else 1
    ensures Vibrations(TickEvents(minute, second)) == if IsQuarterHour(minute, second) then 1 else 0
    ensures forall e | e in TickEvents(minute, second) && e.Send? :: e.payload == [Uint8(0, 0)]
  {
    var es := TickEvents(minute, second);
    if IsQuarterHour(minute, second) {
      var p := Classify(minute, second).value;
      assert es == [Vibrate(p), Send(PollPayload), Send(PollPayload)];
      assert es[1..] == [Send(PollPayload), Send(PollPayload)];
      assert es[1..][1..] == [Send(PollPayload)] && es[1..][1..][1..] == [];
      assert Polls(es[1..][1..]) == 1 && Vibrations(es[1..][1..]) == 0;
      assert Polls(es[1..]) == 2 && Vibrations(es[1..]) == 0;
    } else {
      assert es == [Send(PollPayload)];
      assert es[1..] == [];
    }
  }

  /** The `Battery: N%` label, cut to its 32-byte buffer. */
  function BatteryLabel(percent: uint8): (r: CText)
    ensures r == "Battery: " + Decimal(percent) + "%"
    ensures |r| <= 13
    ensures ParseDecimal(r[9..|r| - 1]) == percent
  {
    DecimalLength(percent, 3);
    DecimalRoundTrip(percent);
    var s := "Battery: " + Decimal(percent) + "%";
    assert s[9..|s| - 1] == Decimal(percent);
    Truncated(s, BatterySize)
  }

  lemma BatteryExamples()
    ensures BatteryLabel(73) == "Battery: 73%"
    ensures BatteryLabel(0) == "Battery: 0%"
    ensures BatteryLabel(100) == "Battery: 100%"
  {
  }

  /** The app's global state. The char buffers are the source's static
      buffers (their sizes are the source's); `events` is the log of what the
      app has asked the host to do. */
  class Face {
    const weatherBuf: array<char>      // s_weather_buffer[21]
    const batteryBuf: array<char>      // battery_handler's s_battery_buffer[32]
    const temperatureBuf: array<char>  // inbox_received_callback's temperature_buffer[8]
    const conditionsBuf: array<char>   // inbox_received_callback's conditions_buffer[32]
    var events: seq<Event>

    ghost predicate Valid()
      reads this
    {
      weatherBuf.Length == WeatherSize && batteryBuf.Length == BatterySize &&
      temperatureBuf.Length == TemperatureSize && conditionsBuf.Length == ConditionsSize &&
      weatherBuf != batteryBuf && weatherBuf != temperatureBuf && weatherBuf != conditionsBuf &&
      batteryBuf != temperatureBuf && batteryBuf != conditionsBuf &&
      temperatureBuf != conditionsBuf
    }

    function Weather(): string reads this, weatherBuf { CStr(weatherBuf[..]) }
    function Battery(): string reads this, batteryBuf { CStr(batteryBuf[..]) }
    function Temperature(): string reads this, temperatureBuf { CStr(temperatureBuf[..]) }
    function Conditions(): string reads this, conditionsBuf { CStr(conditionsBuf[..]) }

    /** Statics start zero-filled: every label is empty until first written;
        in particular the weather label is empty until a message arrives. */
    constructor ()
      ensures Valid() && fresh(weatherBuf) && fresh(batteryBuf)
      ensures fresh(temperatureBuf) && fresh(conditionsBuf)
      ensures Weather() == "" && Battery() == "" && Temperature() == "" && Conditions() == ""
      ensures events == []
    {
      weatherBuf := new char[WeatherSize](_ => '\0');
      batteryBuf := new char[BatterySize](_ => '\0');
      temperatureBuf := new char[TemperatureSize](_ => '\0');
      conditionsBuf := new char[ConditionsSize](_ => '\0');
      events := [];
    }

    /** `check_weather`: asks the host to send the poll message. */
    method CheckWeather()
      modifies this
      ensures events == old(events) + [Send(PollPayload)]
    {
      events := events + [Send(PollPayload)];
    }

    /** `battery_handler`: rewrites the battery label. */
    method BatteryHandler(percent: uint8)
      requires Valid()
      modifies batteryBuf
      ensures Battery() == BatteryLabel(percent) == "Battery: " + Decimal(percent) + "%"
    {
      Snprintf(batteryBuf, "Battery: " + Decimal(percent) + "%");
    }

    /** `vibrate_time`: formats `%M:%S` and tests it against each literal in
        turn; each hit vibrates and polls for weather. */
    method VibrateTime(t: Tm)
      requires MinSecInRange(t)
      modifies this
      ensures events == old(events) + ChimeEvents(Classify(t.min, t.sec))
    {
      var buffer := MinSec(t);
      ChimeIsClassify(t);
      if buffer == "00:00" {
        events := events + [Vibrate(Custom([400, 200, 400]))];
        CheckWeather();
      }
      if buffer == "15:00" {
        events := events + [Vibrate(ShortPulse)];
        CheckWeather();
      }
      if buffer == "30:00" {
        events := events + [Vibrate(LongPulse)];
        CheckWeather();
      }
      if buffer == "45:00" {
        events := events + [Vibrate(ShortPulse)];
        CheckWeather();
      }
    }

    /** `tick_handler`, without the `%H:%M`, date and stardate labels: the
        chime, then an unconditional weather poll. */
    method TickHandler(t: Tm)
      requires MinSecInRange(t)
      modifies this
      ensures events == old(events) + TickEvents(t.min, t.sec)
    {
      VibrateTime(t);
      CheckWeather();
    }

    /** The two decoded fields as the static buffers hold them. */
    function Decoded(): Fields
      reads this, temperatureBuf, conditionsBuf
    {
      Fields(Temperature(), Conditions())
    }

    /** The body of the tuple loop: the `switch` on the tuple's key. */
    method ReadTuple(t: Tuple)
      requires Valid() && Convertible(t)
      modifies temperatureBuf, conditionsBuf
      ensures Decoded() == Apply(old(Decoded()), t)
    {
      if t.key == KeyTemperature {
        Snprintf(temperatureBuf, Decimal(Fahrenheit(t.int32)) + "F");
      } else if t.key == KeyConditions {
        Snprintf(conditionsBuf, t.cstring);
      }
    }

    /** `inbox_received_callback`: resets the two fields to their defaults,
        lets every tuple overwrite the field its key selects, then writes the
        joined weather label. The message must hold at least one tuple: the
        first one is dereferenced before the end-of-dictionary test. */
    method InboxReceived(msg: seq<Tuple>)
      requires Valid() && |msg| > 0 && Decodable(msg)
      modifies temperatureBuf, conditionsBuf, weatherBuf
      ensures Decoded() == Decode(msg)
      ensures Weather() == WeatherLine(Decode(msg))
    {
      Snprintf(temperatureBuf, Decimal(0) + "F");
      Snprintf(conditionsBuf, "Loading...");
      var i := 0;
      while i < |msg|
        invariant i <= |msg| && Decodable(msg[..i])
        invariant Decoded() == Decode(msg[..i])
      {
        ReadTuple(msg[i]);
        DecodeSnoc(msg, i);
        i := i + 1;
      }
      assert msg[..i] == msg;
      Snprintf(weatherBuf, Temperature() + ", " + Conditions());
    }
  }
}
