/** The inbound weather message: a dictionary of key/value tuples folded, in
    delivery order, into a temperature text and a conditions text, which are
    then joined into the one-line weather label. */
module WeatherMessage {
  import opened CStrings
  import opened CArith

  const KeyTemperature: uint32 := 0
  const KeyConditions: uint32 := 1

  /** Buffer sizes, terminator included. */
  const TemperatureSize: nat := 8
  const ConditionsSize: nat := 32
  const WeatherSize: nat := 21

  /** One dictionary tuple. Its value is a C union: the decoder reads it as a
      signed 32-bit integer for the temperature key and as a NUL-terminated
      string for the conditions key, and never reads it for any other key. */
  datatype Tuple = Tuple(key: uint32, int32: int32, cstring: CText)

  /** The two fields the decoder fills in. */
  datatype Fields = Fields(temperature: string, conditions: string)

  /** `"%dF"` of the converted reading, cut to the eight-byte buffer. */
  function TemperatureText(celsius: int32): (r: CText)
    requires FahrenheitDefined(celsius)
    ensures |r| <= TemperatureSize - 1
    ensures var s := Decimal(Fahrenheit(celsius)) + "F"; r == s[..Min(|s|, TemperatureSize - 1)]
  {
    Truncated(Decimal(Fahrenheit(celsius)) + "F", TemperatureSize)
  }

  /** `"%s"` of the received text, cut to the 32-byte buffer. */
  function ConditionsText(s: CText): (r: CText)
    ensures |r| <= ConditionsSize - 1
    ensures r == s[..Min(|s|, ConditionsSize - 1)]
    ensures |s| < ConditionsSize ==> r == s
  {
    Truncated(s, ConditionsSize)
  }

  /** The fields before any tuple is read: `"%dF"` of 0 and `"Loading..."`. */
  function Defaults(): (r: Fields)
    ensures r == Fields("0F", "Loading...")
  {
    Fields(Truncated(Decimal(0) + "F", TemperatureSize), Truncated("Loading...", ConditionsSize))
  }

  /** A temperature tuple whose reading converts without int32 overflow, or
      a tuple of any other key. */
  predicate Convertible(t: Tuple) {
    t.key == KeyTemperature ==> FahrenheitDefined(t.int32)
  }

  /** Every tuple of the message is convertible. */
  predicate Decodable(msg: seq<Tuple>) {
    forall i | 0 <= i < |msg| :: Convertible(msg[i])
  }

  /** The effect of one tuple: its key selects the field it overwrites. */
  function Apply(f: Fields, t: Tuple): (r: Fields)
    requires Convertible(t)
    ensures t.key != KeyTemperature ==> r.temperature == f.temperature
    ensures t.key != KeyConditions ==> r.conditions == f.conditions
    ensures t.key == KeyTemperature ==> |r.temperature| <= TemperatureSize - 1
    ensures t.key == KeyConditions ==> r.conditions <= t.cstring && |r.conditions| == Min(|t.cstring|, ConditionsSize - 1)
  {
    if t.key == KeyTemperature then f.(temperature := TemperatureText(t.int32))
    else if t.key == KeyConditions then f.(conditions := ConditionsText(t.cstring))
    else f
  }

  /** The fields after reading the tuples of `msg` in order, starting from `f`. */
  function DecodeFrom(f: Fields, msg: seq<Tuple>): (r: Fields)
    requires Decodable(msg)
    ensures |r.temperature| <= Max(|f.temperature|, TemperatureSize - 1)
    ensures |r.conditions| <= Max(|f.conditions|, ConditionsSize - 1)
    decreases |msg|
  {
    if msg == [] then f else DecodeFrom(Apply(f, msg[0]), msg[1..])
  }

  /** The fields a whole message decodes to. */
  function Decode(msg: seq<Tuple>): (r: Fields)
    requires Decodable(msg)
    ensures |r.temperature| <= TemperatureSize - 1 && |r.conditions| <= ConditionsSize - 1
  {
    DecodeFrom(Defaults(), msg)
  }

  /** `"%s, %s"` of the two fields, cut to the 21-byte weather buffer. */
  function WeatherLine(f: Fields): (r: string)
    ensures |r| <= WeatherSize - 1
    ensures var s := f.temperature + ", " + f.conditions; r == s[..Min(|s|, WeatherSize - 1)]
  {
    Truncated(f.temperature + ", " + f.conditions, WeatherSize)
  }

  // ---------------------------------------------------------------------
  // Properties of the fold

  lemma DefaultsAre()
    ensures Defaults() == Fields("0F", "Loading...")
    ensures WeatherLine(Defaults()) == "0F, Loading..."
  {
  }

  /** Decoding a concatenation decodes the second part from where the first
      part left off. */
  lemma {:induction false} DecodeAppend(f: Fields, a: seq<Tuple>, b: seq<Tuple>)
    requires Decodable(a) && Decodable(b)
    ensures Decodable(a + b)
    ensures DecodeFrom(f, a + b) == DecodeFrom(DecodeFrom(f, a), b)
    decreases |a|
  {
    if a == [] {
      assert a + b == b;
    } else {
      assert (a + b)[0] == a[0] && (a + b)[1..] == a[1..] + b;
      DecodeAppend(Apply(f, a[0]), a[1..], b);
    }
  }

  /** Each decoded field is either the one decoding started from or the
      text of some tuple carrying that field's key. */
  lemma {:induction false} DecodeFromSources(f: Fields, msg: seq<Tuple>)
    requires Decodable(msg)
    ensures var r := DecodeFrom(f, msg);
      r.temperature == f.temperature ||
      exists i | 0 <= i < |msg| :: msg[i].key == KeyTemperature && r.temperature == TemperatureText(msg[i].int32)
    ensures var r := DecodeFrom(f, msg);
      r.conditions == f.conditions ||
      exists i | 0 <= i < |msg| :: msg[i].key == KeyConditions && r.conditions == ConditionsText(msg[i].cstring)
    decreases |msg|
  {
    if msg != [] {
      var g := Apply(f, msg[0]);
      DecodeFromSources(g, msg[1..]);
      var r := DecodeFrom(f, msg);
      assert r == DecodeFrom(g, msg[1..]);
      if r.temperature != g.temperature {
        var j :| 0 <= j < |msg[1..]| && msg[1..][j].key == KeyTemperature && r.temperature == TemperatureText(msg[1..][j].int32);
        assert msg[j + 1] == msg[1..][j];
      }
      if r.conditions != g.conditions {
        var j :| 0 <= j < |msg[1..]| && msg[1..][j].key == KeyConditions && r.conditions == ConditionsText(msg[1..][j].cstring);
        assert msg[j + 1] == msg[1..][j];
      }
    }
  }

  /** Reading one more tuple applies it to the fields read so far. */
  lemma DecodeSnoc(msg: seq<Tuple>, n: nat)
    requires Decodable(msg) && n < |msg|
    ensures Decodable(msg[..n]) && Decodable(msg[..n + 1])
    ensures Decode(msg[..n + 1]) == Apply(Decode(msg[..n]), msg[n])
  {
    assert msg[..n + 1] == msg[..n] + [msg[n]];
    DecodeAppend(Defaults(), msg[..n], [msg[n]]);
  }

  /** The temperature is set by the last temperature tuple. */
  lemma {:induction false} TemperatureIsLastWrite(f: Fields, msg: seq<Tuple>, i: nat)
    requires Decodable(msg)
    requires i < |msg| && msg[i].key == KeyTemperature
    requires forall j | i < j < |msg| :: msg[j].key != KeyTemperature
    ensures Convertible(msg[i])
    ensures DecodeFrom(f, msg).temperature == TemperatureText(msg[i].int32)
    decreases |msg|
  {
    assert Convertible(msg[i]);
    if i == 0 {
      TemperatureKept(Apply(f, msg[0]), msg[1..]);
    } else {
      TemperatureIsLastWrite(Apply(f, msg[0]), msg[1..], i - 1);
    }
  }

  /** Tuples without the temperature key leave the temperature alone. */
  lemma {:induction false} TemperatureKept(f: Fields, msg: seq<Tuple>)
    requires Decodable(msg)
    requires forall j | 0 <= j < |msg| :: msg[j].key != KeyTemperature
    ensures DecodeFrom(f, msg).temperature == f.temperature
    decreases |msg|
  {
    if msg != [] {
      TemperatureKept(Apply(f, msg[0]), msg[1..]);
    }
  }

  /** The conditions are set by the last conditions tuple. */
  lemma {:induction false} ConditionsIsLastWrite(f: Fields, msg: seq<Tuple>, i: nat)
    requires Decodable(msg)
    requires i < |msg| && msg[i].key == KeyConditions
    requires forall j | i < j < |msg| :: msg[j].key != KeyConditions
    ensures DecodeFrom(f, msg).conditions == ConditionsText(msg[i].cstring)
    decreases |msg|
  {
    if i == 0 {
      ConditionsKept(Apply(f, msg[0]), msg[1..]);
    } else {
      ConditionsIsLastWrite(Apply(f, msg[0]), msg[1..], i - 1);
    }
  }

  /** Tuples without the conditions key leave the conditions alone. */
  lemma {:induction false} ConditionsKept(f: Fields, msg: seq<Tuple>)
    requires Decodable(msg)
    requires forall j | 0 <= j < |msg| :: msg[j].key != KeyConditions
    ensures DecodeFrom(f, msg).conditions == f.conditions
    decreases |msg|
  {
    if msg != [] {
      ConditionsKept(Apply(f, msg[0]), msg[1..]);
    }
  }

  /** A tuple with an unrecognised key has no effect wherever it appears. */
  lemma UnknownKeyIgnored(a: seq<Tuple>, t: Tuple, b: seq<Tuple>)
    requires t.key != KeyTemperature && t.key != KeyConditions
    requires Decodable(a) && Decodable(b)
    ensures Decodable(a + [t] + b) && Decodable(a + b)
    ensures Decode(a + [t] + b) == Decode(a + b)
  {
    DecodeAppend(Defaults(), a, [t]);
    DecodeAppend(Defaults(), a + [t], b);
    DecodeAppend(Defaults(), a, b);
  }

  /** Two adjacent tuples with different keys can be delivered in either
      order: the fields that result are the same. */
  lemma SwapDistinctKeys(a: seq<Tuple>, x: Tuple, y: Tuple, b: seq<Tuple>)
    requires x.key != y.key
    requires Decodable(a) && Convertible(x) && Convertible(y) && Decodable(b)
    ensures Decodable(a + [x, y] + b) && Decodable(a + [y, x] + b)
    ensures Decode(a + [y, x] + b) == Decode(a + [x, y] + b)
  {
    DecodeAppend(Defaults(), a, [x, y]);
    DecodeAppend(Defaults(), a + [x, y], b);
    DecodeAppend(Defaults(), a, [y, x]);
    DecodeAppend(Defaults(), a + [y, x], b);
    var g := Decode(a);
    assert [x, y][1..] == [y] && [y, x][1..] == [x] && [x][1..] == [] && [y][1..] == [];
    assert DecodeFrom(g, [x, y]) == DecodeFrom(Apply(g, x), [y]) == Apply(Apply(g, x), y);
    assert DecodeFrom(g, [y, x]) == DecodeFrom(Apply(g, y), [x]) == Apply(Apply(g, y), x);
  }

  /** The worked example: conditions "Cloudy" and 20 C, in either order, give
      "68F, Cloudy"; an extra unrecognised key changes nothing. */
  lemma CloudyExample()
    ensures Decodable([Tuple(1, 0, "Cloudy"), Tuple(0, 20, "")])
    ensures WeatherLine(Decode([Tuple(1, 0, "Cloudy"), Tuple(0, 20, "")])) == "68F, Cloudy"
    ensures WeatherLine(Decode([Tuple(0, 20, ""), Tuple(1, 0, "Cloudy")])) == "68F, Cloudy"
    ensures WeatherLine(Decode([Tuple(0, 20, ""), Tuple(7, 0, "x"), Tuple(1, 0, "Cloudy")])) == "68F, Cloudy"
  {
  }

  /** A temperature whose `"%dF"` text fits the buffer is shown whole, and the
      number in it reads back as the converted value. */
  lemma TemperatureTextExact(celsius: int32)
    requires FahrenheitDefined(celsius)
    requires -99999 <= Fahrenheit(celsius) <= 999999
    ensures TemperatureText(celsius) == Decimal(Fahrenheit(celsius)) + "F"
    ensures var r := TemperatureText(celsius); ParseDecimal(r[..|r| - 1]) == Fahrenheit(celsius)
  {
    var f := Fahrenheit(celsius);
    if f < 0 {
      DecimalLength(f, 5);
    } else {
      DecimalLength(f, 6);
    }
    var r := TemperatureText(celsius);
    assert r[..|r| - 1] == Decimal(f);
    DecimalRoundTrip(f);
  }
}
