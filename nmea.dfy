/** The NMEA 0183 sentence handling of the GPS receiver: which sentences are read,
    and how the status, speed and position fields of `$GPRMC` and `$GPGLL` are decoded.
    Every operation works on the comma-separated fields of one line and never throws. */
module Nmea {
  import opened Wrappers
  import opened Text
  import opened Numbers

  /** The sentence types the receiver tells apart by their first characters. */
  datatype Sentence = Gll | Rmc | Unrecognized

  const GllPrefix: string := "$GPGLL"
  const RmcPrefix: string := "$GPRMC"

  /** The routing of a line: geographic position, recommended minimum data, or ignored.
      The two prefixes differ, so no line has both and each kind is exactly its prefix test. */
  function Classify(line: string): (kind: Sentence)
    ensures kind == Gll <==> GllPrefix <= line
    ensures kind == Rmc <==> RmcPrefix <= line
    ensures kind == Unrecognized <==> !(GllPrefix <= line) && !(RmcPrefix <= line)
  {
    if GllPrefix <= line then
      assert line[3] == GllPrefix[3] != RmcPrefix[3];
      Gll
    else if RmcPrefix <= line then Rmc
    else Unrecognized
  }

  /** The comma-separated fields of a sentence, field 0 being the sentence identifier.
      Rejoining them with commas gives the line back. */
  function Fields(line: string): (fields: seq<string>)
    ensures Join(fields, ',') == line
  {
    JoinSplit(line, ',');
    Split(line, ',')
  }

  /** The status field of `$GPRMC` (field 2) says whether the fix is valid. The length guard
      of the code lets a two-field line through to an index that throws; the exception is
      caught and the answer is then "invalid", so the status is valid exactly when field 2
      exists and is "A". */
  function ExtractGpsStatus(nmea: string): (valid: bool)
    ensures valid <==> |Fields(nmea)| >= 3 && Fields(nmea)[2] == "A"
  {
    var parts := Fields(nmea);
    if |parts| > 1 then
      match At(parts, 2)
      case Success(status) => status == "A"
      case Failure(_) => false
    else false
  }

  /** The speed over ground in knots (field 7 of `$GPRMC`); zero when the field is missing
      or does not parse. */
  function ExtractSpeed(nmea: string): (knots: real)
    ensures knots != 0.0 ==> |Fields(nmea)| > 7 && ParseDouble(Fields(nmea)[7]) == Some(knots)
    ensures |Fields(nmea)| > 7 && ParseDouble(Fields(nmea)[7]).Some? ==>
              knots == ParseDouble(Fields(nmea)[7]).value
  {
    var parts := Fields(nmea);
    if |parts| > 7 && ParseDouble(parts[7]).Some? then ParseDouble(parts[7]).value else 0.0
  }

  /** The whole degrees of an NMEA `ddmm.mmmm` (or `dddmm.mmmm`) value: `Math.Floor(value / 100)`. */
  function Degrees(value: real): (degrees: int)
    ensures degrees as real <= value / 100.0 < degrees as real + 1.0
  {
    (value / 100.0).Floor
  }

  /** What is left of the value after the whole degrees: the minutes, always in [0, 100). */
  function Minutes(value: real): (minutes: real)
    ensures 0.0 <= minutes < 100.0
  {
    value - Degrees(value) as real * 100.0
  }

  /** The unsigned decimal degrees of an NMEA value: whole degrees plus minutes / 60.
      The result never falls below value / 100 and exceeds it by less than 2/3. */
  function DecimalDegrees(value: real): (d: real)
    ensures value / 100.0 <= d < value / 100.0 + 2.0 / 3.0
  {
    var minutes := Minutes(value);
    assert Degrees(value) as real == value / 100.0 - minutes / 100.0;
    Degrees(value) as real + minutes / 60.0
  }

  /** Southern latitudes and western longitudes are negative: exactly the one-letter
      fields "S" and "W"; "N", "E", an empty field or any other text leave the sign alone. */
  predicate IsSouthOrWest(direction: string): (negative: bool)
    ensures negative <==> |direction| == 1 && direction[0] in "SW"
  {
    direction == "S" || direction == "W"
  }

  /** Signed decimal degrees of a parsed NMEA value and its hemisphere letter: negated
      for the southern and western hemispheres, unchanged for any other letter. */
  function FromNmea(value: real, direction: string): (d: real)
    ensures IsSouthOrWest(direction) ==> d == -DecimalDegrees(value)
    ensures !IsSouthOrWest(direction) ==> d == DecimalDegrees(value)
  {
    if IsSouthOrWest(direction) then -DecimalDegrees(value) else DecimalDegrees(value)
  }

  /** A coordinate field and its hemisphere field as decimal degrees; a value that does
      not parse gives 0, whatever the hemisphere. */
  function ConvertNmeaCoordinate(value: string, direction: string): (d: real)
    ensures ParseDouble(value).None? ==> d == 0.0
    ensures ParseDouble(value).Some? ==> d == FromNmea(ParseDouble(value).value, direction)
  {
    match ParseDouble(value)
    case None => 0.0
    case Some(coordinate) => FromNmea(coordinate, direction)
  }

  /** The position of a `$GPGLL` sentence: nothing when it has fewer than six fields or an
      empty latitude or longitude, otherwise both coordinates converted, each read only from
      fields that exist. */
  function ParseNmea(nmea: string): (fix: Option<(real, real)>)
    ensures fix.None? <==> |Fields(nmea)| < 6 || Fields(nmea)[1] == "" || Fields(nmea)[3] == ""
    ensures fix.Some? ==> fix.value == (ConvertNmeaCoordinate(Fields(nmea)[1], Fields(nmea)[2]),
                                        ConvertNmeaCoordinate(Fields(nmea)[3], Fields(nmea)[4]))
  {
    var parts := Fields(nmea);
    if |parts| < 6 || parts[1] == "" || parts[3] == "" then None
    else
      var latitude := ConvertNmeaCoordinate(parts[1], parts[2]);
      var longitude := ConvertNmeaCoordinate(parts[3], parts[4]);
      Some((latitude, longitude))
  }
}
