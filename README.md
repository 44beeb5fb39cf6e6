# GPS NMEA receiver: sentence decoding and navigation state

This project models the core of `AutoTf.GpsTest`. The program reads NMEA 0183 sentences
from a GPS receiver on a serial line. It keeps the last known navigation state in five
static fields: latitude, longitude, speed, signal validity and the time of the last fix.

- A line starting `$GPGLL` (geographic position) is split on commas. Its latitude and
  longitude fields (`ddmm.mmmm` / `dddmm.mmmm` with a hemisphere letter) are converted
  to signed decimal degrees and handed to the display update.
- A line starting `$GPRMC` (recommended minimum data) sets the signal validity from its
  status field ("A" = valid). Its speed over ground in knots then goes to the display
  update.
- Every other line is ignored.
- The display update does nothing while the signal is invalid. Otherwise, a complete
  position overwrites the stored one and is stamped with the current time. A speed
  below 0.25 m/s (knots × 0.514444) records a speed of zero.

Files, one module each:

- `wrappers.dfy`: `Option` and `Result`.
- `text.dfy`: `String.Split(char)` and `String.Join`, with their round trip. It also
  models an array index that throws.
- `numbers.dfy`: a decimal-literal scanner standing in for `double.TryParse`, and the
  value it gives every signed digit literal.
- `nmea.dfy`: sentence classification, and the status, speed and position extractors
  with the coordinate conversion.
- `nmea_laws.dfy`: the conversion against its inverse (`ToNmea`), the hemisphere sign,
  and what each extractor reads from a sentence assembled from fields.
- `navigation.dfy`: the state as a value (`NavState`) and the transitions `Updated`
  (display update) and `Received` (one line). It also defines the stream fold
  `ReceivedAll` and an independent reading of the validity (`LastStatus`).
- `navigation_laws.dfy`: invariants and laws over whole streams of lines.
- `receiver.dfy`: class `Receiver`. Its fields are the five static fields. Its methods
  `UpdateDisplay` and `DataReceived` assign them step by step, as the program does, and
  are proved equal to `Updated` and `Received`.
- `scenarios.dfy`: concrete sentences worked through the model.

The code behaves as follows in places where a reader might expect otherwise:

- Fixes are dropped while the signal is invalid (`Program.cs` lines 90-94). A
  position is stored only after a `$GPRMC` line has reported status "A".
- Decoded coordinates get no range check (lines 96-99). `Updated` stores whatever
  `ParseNmea` yields, including a latitude beyond 90 or a longitude beyond 180.
- `_lastSpeed` is only ever assigned 0 (lines 116-123). The reported speed itself is
  never stored.
- The distance for the derived speed is computed after the stored position has been
  overwritten (lines 98-105). Its two endpoints are therefore the same point
  (`DistanceArgsOf`).
- The time is set with every stored position (lines 98-99 and 113), so a time is stored
  exactly when a position is (`StampedExactlyWithPosition`). This relies on the clock
  never reading `DateTime.MinValue`, the "no time yet" sentinel, which `DateTime.Now`
  never returns. For a `now` equal to it, only the direction "a stored time implies a
  stored position" holds (`Consistent`).

## Model

| member | source | states |
|---|---|---|
| Text.At | AutoTf.GpsTest/Program.cs:74-81 | Indexing succeeds exactly for an index inside the array and then yields that element; any other index gives the out-of-range exception the `catch` handles. |
| Text.Split | AutoTf.GpsTest/Program.cs:70 | `Split(',')` yields at least one field and no field contains a comma. |
| Text.SplitCount | AutoTf.GpsTest/Program.cs:70 | There is exactly one field more than there are commas in the line. |
| Text.JoinSplit | AutoTf.GpsTest/Program.cs:70 | Joining the fields of a line with commas gives back the line. |
| Text.SplitJoin | AutoTf.GpsTest/Program.cs:70 | Splitting the comma join of comma-free fields gives back those fields, each at its index. |
| Text.JoinStartsWithFirst | AutoTf.GpsTest/Program.cs:48 | A sentence joined from fields starts with its identifier field, which is what the prefix test sees. |
| Numbers.ParseDouble | AutoTf.GpsTest/Program.cs:195 | The `double.TryParse` stand-in never accepts the empty field. |
| Numbers.ParseInteger | AutoTf.GpsTest/Program.cs:195 | A string of decimal digits, optionally signed with `+` or `-`, parses to the value of its digits, negated for `-`. |
| Numbers.ParseDecimal | AutoTf.GpsTest/Program.cs:195 | A literal `w.f` of decimal digits with at least one digit, optionally signed, parses to w + f / 10^(number of digits of f), negated for `-`. |
| Numbers.ParseRejectsStray | AutoTf.GpsTest/Program.cs:195 | After an optional sign and digits, a character that is neither a digit nor the point makes the field unparsable. |
| Numbers.ParseRejectsAfterPoint | AutoTf.GpsTest/Program.cs:195 | After the point, any character that is not a digit, a second point included, makes the field unparsable. |
| Numbers.ParseRejectsNoDigits | AutoTf.GpsTest/Program.cs:195 | A field of only a sign, only a point, or both, is unparsable. |
| Nmea.Fields | AutoTf.GpsTest/Program.cs:70 | The fields of a line rejoined with commas give the line back, so no character is lost or invented by the split. |
| Nmea.Classify | AutoTf.GpsTest/Program.cs:48-57 | A line is routed to position handling exactly when it starts with `$GPGLL`, and to status handling exactly when it starts with `$GPRMC`. The two are exclusive; it is ignored exactly when it has neither prefix. |
| Nmea.ExtractGpsStatus | AutoTf.GpsTest/Program.cs:66-84 | The status is valid exactly when the line has at least 3 fields and field 2 is "A". A 2-field line passes the `> 1` guard, throws on the index, is caught and reads as invalid. |
| Nmea.ExtractSpeed | AutoTf.GpsTest/Program.cs:157-171 | When there are more than 7 fields and field 7 parses, the result is its value. Any non-zero result comes from a field 7 that parses to it; otherwise the result is 0. |
| Nmea.Degrees | AutoTf.GpsTest/Program.cs:197 | The whole degrees are the floor of value / 100: at most value / 100 and more than value / 100 - 1. |
| Nmea.Minutes | AutoTf.GpsTest/Program.cs:197-198 | The minutes `value - 100 * floor(value / 100)` always lie in [0, 100). |
| Nmea.DecimalDegrees | AutoTf.GpsTest/Program.cs:197-199 | `degrees + minutes / 60` is at least value / 100 and less than value / 100 + 2/3. |
| Nmea.IsSouthOrWest | AutoTf.GpsTest/Program.cs:201 | Exactly the one-letter fields "S" and "W" make a coordinate negative; "N", "E", an empty field or any other text do not. |
| Nmea.FromNmea | AutoTf.GpsTest/Program.cs:197-204 | A parsed value converts to its unsigned decimal degrees negated for "S" or "W", and unchanged for any other letter. |
| Nmea.ConvertNmeaCoordinate | AutoTf.GpsTest/Program.cs:193-207 | An unparsable value gives 0. A parsed value gives its signed decimal degrees. |
| Nmea.ParseNmea | AutoTf.GpsTest/Program.cs:173-191 | No fix exactly when there are fewer than 6 fields or field 1 or field 3 is empty. Otherwise the fix is fields 1/2 and 3/4 converted. Every index read is in bounds, so the catch is never taken. |
| NmeaLaws.DegreesMinutesOf | AutoTf.GpsTest/Program.cs:197-199 | The decomposition is unique: a value `100k + m` with m in [0, 100) has k degrees and m minutes and converts to k + m/60. |
| NmeaLaws.SignedDegreesMinutes | AutoTf.GpsTest/Program.cs:197-204 | A value `100k + m` with minutes m in [0, 100) converts to k + m/60 with "N", "E" or any non-southern, non-western letter, and to -(k + m/60) with "S" or "W". |
| NmeaLaws.HemisphereNegates | AutoTf.GpsTest/Program.cs:201-202 | "S" or "W" gives exactly the negation of what any other letter gives for the same value field. |
| NmeaLaws.Hemisphere | AutoTf.GpsTest/Program.cs:201 | The letter a receiver writes is "S" or "W" exactly for a negative coordinate. |
| NmeaLaws.ToNmea | AutoTf.GpsTest/Program.cs:193-207 | The inverse encoding gives a non-negative value whose minutes are below 60, with a southern/western letter exactly for negative degrees. |
| NmeaLaws.FromToNmea | AutoTf.GpsTest/Program.cs:193-207 | Decoding the encoding of any signed decimal degree gives it back, in both hemispheres. |
| NmeaLaws.ToFromNmea | AutoTf.GpsTest/Program.cs:193-207 | Encoding the decoding of a well-formed value field (minutes below 60) with its axis's letter gives the field back. |
| NmeaLaws.StatusOfFields | AutoTf.GpsTest/Program.cs:66-84 | For a sentence assembled from comma-free fields, the status is valid exactly when there are at least 3 fields and the third is "A". |
| NmeaLaws.SpeedOfFields | AutoTf.GpsTest/Program.cs:157-171 | For a sentence assembled from comma-free fields, the speed is the eighth field when present and parsable, else 0. |
| NmeaLaws.PositionOfFields | AutoTf.GpsTest/Program.cs:173-191 | For a sentence assembled from comma-free fields, the fix is read from fields 1 to 4, and there is none when fields are missing or a value is empty. |
| NmeaLaws.KindOfFields | AutoTf.GpsTest/Program.cs:48-57 | A sentence assembled with identifier `$GPGLL` or `$GPRMC` is routed accordingly. |
| Navigation.BelowNoiseFloor | AutoTf.GpsTest/Program.cs:118-119 | A speed in knots is noise exactly when it is below 0.25 / 0.514444 knots (about 0.486), the noise floor in metres per second converted back to knots. |
| Navigation.Updated | AutoTf.GpsTest/Program.cs:86-123 | Without a valid signal nothing changes. With one, a complete position overwrites the stored one and its time becomes `now`; otherwise they are untouched. The speed changes only to 0 and only for a speed below 0.25 m/s. Validity is never changed. The state invariant is preserved. |
| Navigation.DistanceArgsOf | AutoTf.GpsTest/Program.cs:103-105 | The distance is computed exactly when the signal is valid, the position is complete and a time was stored before. Both of its endpoints are then the new position. |
| Navigation.Received | AutoTf.GpsTest/Program.cs:43-64 | Unrecognised lines change nothing. `$GPGLL` never touches validity or speed, stores the fix only with a valid signal, and changes nothing when there is no fix. `$GPRMC` sets validity from the status, never touches position or time, and records speed 0 only when valid and below the noise floor. The invariant is preserved. |
| NavigationLaws.ReceivedAllSnoc | AutoTf.GpsTest/Program.cs:43-64 | Handling one more line after a stream is handling it on the stream's final state. |
| NavigationLaws.ReceivedAllConsistent | AutoTf.GpsTest/Program.cs:86-123 | Every stream keeps the invariant: latitude and longitude stored together, a stored time implies a stored position, the stored speed is absent or 0. |
| NavigationLaws.FromStartup | AutoTf.GpsTest/Program.cs:12-16 | From the initial field values, after any stream, the invariant holds; in particular `_lastSpeed` is always null or 0. |
| NavigationLaws.StampedExactlyWithPosition | AutoTf.GpsTest/Program.cs:96-113 | If a time is stored exactly when a position is, and no line arrives at `DateTime.MinValue`, this still holds after any stream: every stored position is stamped. |
| NavigationLaws.StampedFromStartup | AutoTf.GpsTest/Program.cs:12-16 | From the initial field values, with a clock that never reads `DateTime.MinValue`, a time is stored exactly when a position is. |
| NavigationLaws.UnrecognizedLinesChangeNothing | AutoTf.GpsTest/Program.cs:48-63 | A stream of lines with neither prefix leaves all five fields unchanged. |
| NavigationLaws.FixesDroppedWhileInvalid | AutoTf.GpsTest/Program.cs:90-94 | While the signal is invalid and no `$GPRMC` line arrives, every fix is discarded and the state stays as it was. |
| NavigationLaws.ValidityIsLastStatus | AutoTf.GpsTest/Program.cs:57-59 | Validity after a stream equals the status of its last `$GPRMC` line, or the prior validity when there is none. Only that branch assigns it. |
| NavigationLaws.PositionProvenance | AutoTf.GpsTest/Program.cs:96-114 | The stored position after a stream is the earlier one or the fix of one of its `$GPGLL` lines, stamped with that line's time. |
| GpsReceiver.Receiver.constructor | AutoTf.GpsTest/Program.cs:12-16 | Fields start with no position, no speed, an invalid signal and the time at `DateTime.MinValue`. |
| GpsReceiver.Receiver.UpdateDisplay | AutoTf.GpsTest/Program.cs:86-133 | The step-by-step field updates, with the early return and the overwrite before the distance call, give exactly the `Updated` state. The distance arguments are `DistanceArgsOf`. |
| GpsReceiver.Receiver.DataReceived | AutoTf.GpsTest/Program.cs:43-64 | The handler's assignments (validity first, then the display update) give exactly the `Received` state. The invariant is kept. |
| Scenarios.LatitudeExample | AutoTf.GpsTest/Program.cs:193-207 | ("3723.2475", "N") converts to 37 + 23.2475/60. |
| Scenarios.LongitudeExample | AutoTf.GpsTest/Program.cs:193-207 | ("12158.3416", "W") converts to -(121 + 58.3416/60). |
| Scenarios.GllExample | AutoTf.GpsTest/Program.cs:173-191 | The line joined with commas from the fields `$GPGLL`, `3723.2475`, `N`, `12158.3416`, `W`, `161229.487`, `A`, `A*41` is a position sentence whose fix is 37 + 23.2475/60 (about 37.387458) and -(121 + 58.3416/60) (about -121.972360). |
| Scenarios.RmcFieldsRead | AutoTf.GpsTest/Program.cs:57-61 | The line joined with commas from the fields `$GPRMC`, `161229.487`, `A`, `3723.2475`, `N`, `12158.3416`, `W`, `0.13`, `309.62`, `120598`, an empty field and `*10` is a status sentence with a valid status and 0.13 knots. |
| Scenarios.RmcExample | AutoTf.GpsTest/Program.cs:57-62 | Handling that sentence from any state makes the signal valid and records speed 0, since 0.13 knots is below the noise floor. |
| Scenarios.EmptyGllExample | AutoTf.GpsTest/Program.cs:179-180 | The line joined with commas from `$GPGLL`, six empty fields and `*00` yields no fix and changes nothing. |
| Scenarios.GsvExample | AutoTf.GpsTest/Program.cs:48-63 | A `$GPGSV` sentence is ignored. |
| Scenarios.StartupExample | AutoTf.GpsTest/Program.cs:43-133 | At start-up a fix before any status sentence is dropped. After the status sentence it is stored with its time, and the speed is 0. |
| Scenarios.NoiseFloorBoundary | AutoTf.GpsTest/Program.cs:118-119 | The noise floor is strict: 0.13 knots clamps, while exactly 0.25 m/s and 0.26 m/s do not. |

## Left out

- `Main` and the serial port are not modelled (lines 18-41 and 45-46): opening the
  device, subscribing to `DataReceived` and `ReadLine`. The handler takes the line as
  a parameter.
- Console output is not modelled: cursor positioning, messages and number formatting.
  Neither is the display-only clamp of the m/s value at line 121.
- `CalculateDistance` and `ToRadians` (haversine trigonometry, lines 135-155) are not
  modelled. The model returns only the four arguments the distance is called with
  (`DistanceArgs`). The elapsed time and the derived-speed division (lines 106-107) are
  display-only and left out.
- Numbers are exact reals. Double rounding is not modelled: in `Math.Floor`, in the
  division by 60, or in the product with 0.514444.
- `double.TryParse` is modelled by `Numbers.ParseDouble`, which accepts an optional
  sign, digits and at most one decimal point, with at least one digit. It does not model
  surrounding white space, exponents, thousands separators, `NaN`/`Infinity`, or the
  culture's decimal separator.
- `DateTime.Now` becomes the `now` parameter in ticks, with `DateTime.MinValue` as tick 0.
  The parameter is otherwise unconstrained. Laws that depend on a real clock require that
  no line arrives at tick 0.
- `StartsWith` is modelled as an ordinal prefix test. Culture-sensitive comparison of
  ignorable characters is not modelled.
- The serial callback is treated as strictly sequential. No concurrency is modelled.
