# Pebble watchface: chime, weather and battery logic

This project models the decision and formatting logic of a Pebble watchface
(`src/main.c`) and proves properties of it. It covers four pieces of logic:

- **Quarter-hour chime** (`vibrate_time`). The tick time is formatted as
  `%M:%S` and compared with `"00:00"`, `"15:00"`, `"30:00"` and `"45:00"`.
  A match on `"00:00"` gives a 400/200/400 ms double buzz; `"15:00"` or
  `"45:00"` gives a short pulse; `"30:00"` gives a long pulse. Every match
  also polls the phone for weather.
- **Minute tick** (`tick_handler`). It runs the chime, then polls for weather
  once more, unconditionally.
- **Inbound weather message** (`inbox_received_callback`). The message is a
  dictionary of key/value tuples, read in delivery order:
  - Key 0 is a Celsius `int32`. It is converted with `c * 9 / 5 + 32` in C
    integer arithmetic and printed as `"<n>F"` into an 8-byte buffer.
  - Key 1 is a string. It is copied into a 32-byte buffer.
  - Any other key is ignored.

  The two fields start at `"0F"` and `"Loading..."`. At the end they are
  joined as `"<temp>, <cond>"` into the 21-byte weather buffer.
- **Battery label** (`battery_handler`): `"Battery: N%"` in a 32-byte buffer.
  **Weather poll** (`check_weather`): an outbound message with one tuple, key
  0, value `uint8` 0.

How the model is built:

- The C buffers are `array<char>` fields of the class `Watchface.Face`.
  `snprintf` is the method `CStrings.Snprintf`. It writes at most `size - 1`
  characters and a terminator. What a label shows is read back with
  `CStrings.CStr`.
- Vibrations and outbound messages are not performed. They are appended to
  an `events` log of requests to the host.
- Each handler is proved against a specification function:
  - `QuarterHour.Classify` and `Watchface.TickEvents` for the tick.
  - `WeatherMessage.Decode`, a fold over the tuples, for the inbox.
  - `Watchface.BatteryLabel` for the battery label.
- Lemmas then state what those functions promise.

Two behaviours of the code are easy to misread, and the model keeps both:

- `s_weather_buffer` is a zero-filled global. So the weather label is empty,
  not `"0F, Loading..."`, until the first message arrives. The
  `"0F, Loading..."` text appears only after a message with no recognised
  key.
- The redundant quarter-hour polls are kept. A quarter-hour tick polls
  twice.

## Model

| member | source | states |
|---|---|---|
| `CStrings.CStr` | src/main.c:201 | the text a `%s` reader takes from a buffer is a prefix of it, holds no NUL, and stops at the first NUL |
| `CStrings.Truncated` | src/main.c:189 | `snprintf` into `size` bytes keeps a prefix of the output of length min(len, size - 1) |
| `CStrings.Snprintf` | src/main.c:173-174 | after `snprintf`, the buffer holds the truncated text, a terminator, and the old bytes beyond it; read back, it gives the truncated text |
| `CStrings.Digits` | src/main.c:37 | `%d` digits are non-empty, all decimal, with no leading zero |
| `CStrings.DigitsRoundTrip` | src/main.c:37 | the digits of n parse back to n |
| `CStrings.DigitsLength` | src/main.c:37 | a number below 10^k prints in at most k digits |
| `CStrings.Decimal` | src/main.c:37 | `%d` text is non-empty and starts with a minus sign exactly when the value is negative; `CStrings.DecimalRoundTrip` is its inverse |
| `CStrings.DecimalRoundTrip` | src/main.c:185 | `%d` text is well formed and parses back to the value, negative values included |
| `CStrings.DecimalLength` | src/main.c:185 | the length bound of `%d` text for values of at most k digits, with one more for the sign |
| `CArith.TruncDiv` | src/main.c:185 | C division by a positive divisor: the remainder is smaller than the divisor and has the sign of the dividend (rounds toward zero) |
| `CArith.Fahrenheit` | src/main.c:185 | `c*9/5+32` lies within one step of 9c/5 + 32, rounded toward zero, and fits in int32 when `c*9` does not overflow |
| `CArith.FahrenheitExamples` | src/main.c:185 | 0 gives 32, 100 gives 212, -40 gives -40 and -1 gives 31 (floor division would give 30) |
| `CArith.FahrenheitMonotone` | src/main.c:185 | a higher Celsius reading never gives a lower Fahrenheit value |
| `QuarterHour.Pad2` | src/main.c:46 | a `%M`/`%S` field is two digits that read back as the field's value |
| `QuarterHour.MinSec` | src/main.c:46 | `%M:%S` is five characters with a colon in the middle, so it fits the six-byte buffer; its two fields are digits that read back as the minute and the second |
| `QuarterHour.Chime` | src/main.c:48-74 | the four `strcmp` tests: some vibration is chosen exactly when the text is one of `"00:00"`, `"15:00"`, `"30:00"`, `"45:00"`; the double buzz exactly for `"00:00"`, the short pulse exactly for `"15:00"` and `"45:00"`, the long pulse exactly for `"30:00"` |
| `QuarterHour.Classify` | src/main.c:41-76 | the decision on the numeric fields: some vibration exactly on a quarter hour (second 0, minute 0, 15, 30 or 45); the double buzz exactly at minute 0, the short pulse exactly at minutes 15 and 45, and the long pulse exactly at minute 30; `QuarterHour.ChimeIsClassify` ties it to the string tests |
| `QuarterHour.MinSecInjective` | src/main.c:46 | two times format to the same `%M:%S` text exactly when their minutes and seconds agree |
| `QuarterHour.ChimeIsClassify` | src/main.c:48-74 | the four string tests choose the double buzz at minute 0, a short pulse at 15 and 45, a long pulse at 30 (second 0 in each case), and nothing otherwise; a chime fires exactly on a quarter hour |
| `QuarterHour.ChimeIgnoresHourAndDate` | src/main.c:46 | two times with equal minutes and seconds get the same chime, whatever their hour or date |
| `WeatherMessage.TemperatureText` | src/main.c:185 | the temperature text is exactly the first min(len, 7) characters of `"<fahrenheit>F"` |
| `WeatherMessage.TemperatureTextExact` | src/main.c:185 | when `"<fahrenheit>F"` fits in 7 characters it is shown whole, and its number reads back as the converted value |
| `WeatherMessage.ConditionsText` | src/main.c:189 | the conditions text is exactly the first min(len, 31) characters of the received string, so the whole string when it is shorter than 32 |
| `WeatherMessage.WeatherLine` | src/main.c:201 | the weather label is exactly the first min(len, 20) characters of `temp + ", " + cond`, so the whole join when it fits |
| `WeatherMessage.Defaults` | src/main.c:173-174 | the fields before any tuple is read are `"0F"` and `"Loading..."` |
| `WeatherMessage.Apply` | src/main.c:182-194 | one tuple of the `switch`: a key other than 0 keeps the temperature, a key other than 1 keeps the conditions; key 0 writes at most 7 characters, and key 1 writes the first min(len, 31) characters of the received string |
| `WeatherMessage.DecodeFrom` | src/main.c:178-198 | the tuple loop from given starting fields: no decoded field is longer than the longer of its starting text and its buffer limit |
| `WeatherMessage.DecodeFromSources` | src/main.c:178-198 | each decoded field is either the one decoding started from or the text of some tuple carrying that field's key |
| `WeatherMessage.Decode` | src/main.c:172-198 | the fields a whole message decodes to fit their buffers: at most 7 and 31 characters |
| `WeatherMessage.DefaultsAre` | src/main.c:173-174 | the fields start as `"0F"` and `"Loading..."`, which join to `"0F, Loading..."` |
| `WeatherMessage.DecodeAppend` | src/main.c:178-198 | decoding two runs of tuples one after the other equals decoding the second run from where the first one ended |
| `WeatherMessage.DecodeSnoc` | src/main.c:178-198 | reading one more tuple applies it to the fields decoded so far |
| `WeatherMessage.TemperatureIsLastWrite` | src/main.c:183-186 | the temperature comes from the last key-0 tuple |
| `WeatherMessage.TemperatureKept` | src/main.c:187-193 | tuples with other keys leave the temperature as it was |
| `WeatherMessage.ConditionsIsLastWrite` | src/main.c:187-190 | the conditions come from the last key-1 tuple |
| `WeatherMessage.ConditionsKept` | src/main.c:182-186 | tuples with other keys leave the conditions as they were |
| `WeatherMessage.UnknownKeyIgnored` | src/main.c:191-193 | a tuple with an unrecognised key changes nothing, wherever it appears in the message |
| `WeatherMessage.SwapDistinctKeys` | src/main.c:178-198 | two adjacent tuples with different keys give the same result in either order |
| `WeatherMessage.CloudyExample` | src/main.c:166-203 | conditions `"Cloudy"` and 20 C, in either order and with an unknown key between them, give `"68F, Cloudy"` |
| `Watchface.PollPayloadShape` | src/main.c:28 | the poll payload is one tuple, key 0 with the byte value 0 |
| `Watchface.ChimeEvents` | src/main.c:54-73 | a chime hit requests one vibration (its pattern first) and one poll; a miss requests nothing |
| `Watchface.TickEvents` | src/main.c:95-97 | a tick requests three things on a quarter hour and one otherwise, and its last request is always the poll |
| `Watchface.TickRequests` | src/main.c:96-97 | a tick polls for weather twice on a quarter hour and once otherwise; it vibrates once on a quarter hour and never otherwise; every poll sends the same payload, key 0 with value 0 |
| `Watchface.BatteryLabel` | src/main.c:36-37 | the battery label is exactly `"Battery: " + decimal(percent) + "%"`, at most 13 characters (never truncated), and its number reads back as the percentage |
| `Watchface.BatteryExamples` | src/main.c:37 | 73, 0 and 100 give `"Battery: 73%"`, `"Battery: 0%"` and `"Battery: 100%"` |
| `Watchface.Face.constructor` | src/main.c:14-20 | the static buffers start zero-filled: every label reads empty and no request has been made |
| `Watchface.Face.CheckWeather` | src/main.c:22-32 | requests exactly one outbound message from the host, holding the single tuple key 0, value 0 |
| `Watchface.Face.BatteryHandler` | src/main.c:34-39 | the battery buffer afterwards reads `"Battery: N%"` |
| `Watchface.Face.VibrateTime` | src/main.c:41-76 | the four independent tests add exactly the requests of the numeric classification: on a hit, its vibration then one poll; otherwise nothing |
| `Watchface.Face.TickHandler` | src/main.c:78-99 | a tick adds the chime's requests, then one more poll |
| `Watchface.Face.ReadTuple` | src/main.c:182-194 | after one tuple, the temperature and conditions buffers read as `Apply` of what they read before |
| `Watchface.Face.InboxReceived` | src/main.c:166-203 | the temperature and conditions buffers read as the decoded fields, and the weather buffer reads as their truncated join |

## Left out

- The `%H:%M` time label, the `"%a %d %b"` date label and the
  `"StarDate: %G.%j"` label (src/main.c:80-93). These are `strftime` calls
  into the host C library. Only `%M:%S` is modelled, because it drives the
  chime.
- Window load and unload (src/main.c:101-164). This covers layer creation,
  fonts, layout and destruction. It also covers the start-up call
  `battery_handler(battery_state_service_peek())`, whose effect is
  `Face.BatteryHandler`. Note that `s_num_label` is destroyed but never
  created.
- `text_layer_set_text`. A label shows its buffer, so the model reads the
  buffer with `CStr`.
- `vibes_*`, `app_message_outbox_begin` and `app_message_outbox_send`. They
  become `Vibrate` and `Send` entries in the `events` log; the motor and the
  radio are not modelled.
- A `Send` event records a request made to the host; it is not a delivered
  message. `check_weather` ignores the result codes of
  `app_message_outbox_begin` and `app_message_outbox_send` (src/main.c:25,
  31). On a quarter hour, the second poll is issued while the first may
  still be pending. Whether the host accepts a request, for example while
  it is busy, is not modelled.
- The inbox-dropped, outbox-failed and outbox-sent callbacks
  (src/main.c:205-215). They only log, so all model state stays as it was.
  All `APP_LOG` calls are left out.
- `init`, `deinit`, `main`, callback registration and `app_message_open`
  (src/main.c:217-256). Event dispatch belongs to the host.
- Characters are modelled as bytes. A multi-byte UTF-8 character cut by
  truncation is not distinguished from ASCII.
- A tuple's value is a C union. Each tuple is given as its two readings: a
  signed 32-bit integer and a NUL-terminated string. The decoder reads only
  the view its key selects. What the bytes hold when the sender used another
  type is not modelled.
- Watchface.Face.InboxReceived: requires a non-empty message. Line 175
  dereferences the first tuple before the end-of-dictionary test, so an empty
  dictionary is a NULL dereference.
- Watchface.Face.InboxReceived: requires that every key-0 reading satisfies
  `c * 9` within int32. Signed overflow is undefined behaviour in C, so no
  result is modelled for other readings.
