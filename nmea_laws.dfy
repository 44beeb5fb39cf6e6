/** Laws of the NMEA decoding: the coordinate conversion against its inverse, the
    hemisphere sign, and what each extractor reads from a sentence assembled from fields. */
module NmeaLaws {
  import opened Wrappers
  import opened Text
  import opened Numbers
  import opened Nmea

  /** Splitting an NMEA value into whole degrees and minutes is unique: any value written
      as 100 * k + m with minutes m in [0, 100) has k degrees, m minutes and converts to
      k + m / 60. */
  lemma DegreesMinutesOf(k: int, m: real)
    requires 0.0 <= m < 100.0
    ensures Degrees(100.0 * k as real + m) == k
    ensures Minutes(100.0 * k as real + m) == m
    ensures DecimalDegrees(100.0 * k as real + m) == k as real + m / 60.0
  {
    var value := 100.0 * k as real + m;
    assert value / 100.0 == k as real + m / 100.0;
    assert k as real <= value / 100.0 < k as real + 1.0;
  }

  /** A value field `100 * k + m` (minutes m in [0, 100)) converts to k + m / 60 with a
      northern, eastern or any other non-negative letter, and to its negation with "S" or "W". */
  lemma SignedDegreesMinutes(k: int, m: real, direction: string)
    requires 0.0 <= m < 100.0
    ensures !IsSouthOrWest(direction) ==> FromNmea(100.0 * k as real + m, direction) == k as real + m / 60.0
    ensures IsSouthOrWest(direction) ==> FromNmea(100.0 * k as real + m, direction) == -(k as real + m / 60.0)
  {
    DegreesMinutesOf(k, m);
  }

  /** A southern or western hemisphere letter gives exactly the negation of what any other
      letter gives for the same value field. */
  lemma HemisphereNegates(value: string, negative: string, positive: string)
    requires IsSouthOrWest(negative) && !IsSouthOrWest(positive)
    ensures ConvertNmeaCoordinate(value, negative) == -ConvertNmeaCoordinate(value, positive)
  {
  }

  /** Which axis a coordinate belongs to: it decides the hemisphere letters. */
  datatype Axis = Latitude | Longitude

  /** The hemisphere letter a receiver writes: N/S for latitude, E/W for longitude. */
  function Hemisphere(axis: Axis, negative: bool): (letter: string)
    ensures IsSouthOrWest(letter) <==> negative
  {
    match axis
    case Latitude => if negative then "S" else "N"
    case Longitude => if negative then "W" else "E"
  }

  /** The NMEA value field and hemisphere letter for signed decimal degrees: whole degrees
      times 100 plus the minutes, which are below 60 in a value a receiver writes. */
  function ToNmea(d: real, axis: Axis): (field: (real, string))
    ensures field.0 >= 0.0 && Minutes(field.0) < 60.0
    ensures IsSouthOrWest(field.1) <==> d < 0.0
  {
    var magnitude := if d < 0.0 then -d else d;
    var degrees := magnitude.Floor;
    var minutes := (magnitude - degrees as real) * 60.0;
    DegreesMinutesOf(degrees, minutes);
    (100.0 * degrees as real + minutes, Hemisphere(axis, d < 0.0))
  }

  /** Decoding what a receiver writes for a position gives the position back, in both
      hemispheres. */
  lemma FromToNmea(d: real, axis: Axis)
    ensures FromNmea(ToNmea(d, axis).0, ToNmea(d, axis).1) == d
  {
    var magnitude := if d < 0.0 then -d else d;
    var degrees := magnitude.Floor;
    var minutes := (magnitude - degrees as real) * 60.0;
    DegreesMinutesOf(degrees, minutes);
  }

  /** Conversely, a well-formed value field (minutes below 60) with its axis's hemisphere
      letter is what the receiver would write for the decimal degrees it converts to. A zero
      value has only the positive letter, as the sign of zero is lost. */
  lemma ToFromNmea(value: real, direction: string, axis: Axis)
    requires value >= 0.0 && Minutes(value) < 60.0
    requires direction == Hemisphere(axis, false) || (direction == Hemisphere(axis, true) && value > 0.0)
    ensures ToNmea(FromNmea(value, direction), axis) == (value, direction)
  {
    var k, m := Degrees(value), Minutes(value);
    assert value == 100.0 * k as real + m;
    DegreesMinutesOf(k, m);
    var d := FromNmea(value, direction);
    var magnitude := if d < 0.0 then -d else d;
    assert magnitude == k as real + m / 60.0;
    assert magnitude.Floor == k;
  }

  /** The status of a sentence assembled from comma-free fields is read from its third field. */
  lemma StatusOfFields(fields: seq<string>)
    requires |fields| >= 1 && forall i :: 0 <= i < |fields| ==> ',' !in fields[i]
    ensures ExtractGpsStatus(Join(fields, ',')) <==> |fields| >= 3 && fields[2] == "A"
  {
    SplitJoin(fields, ',');
  }

  /** The speed of a sentence assembled from comma-free fields is its eighth field when that
      parses, and zero otherwise. */
  lemma SpeedOfFields(fields: seq<string>)
    requires |fields| >= 1 && forall i :: 0 <= i < |fields| ==> ',' !in fields[i]
    ensures ExtractSpeed(Join(fields, ',')) ==
              if |fields| > 7 && ParseDouble(fields[7]).Some? then ParseDouble(fields[7]).value else 0.0
  {
    SplitJoin(fields, ',');
  }

  /** The position of a sentence assembled from comma-free fields comes from fields 1 to 4,
      and there is none when a value field is empty or fields are missing. */
  lemma PositionOfFields(fields: seq<string>)
    requires |fields| >= 1 && forall i :: 0 <= i < |fields| ==> ',' !in fields[i]
    ensures ParseNmea(Join(fields, ',')) ==
              if |fields| < 6 || fields[1] == "" || fields[3] == "" then None
              else Some((ConvertNmeaCoordinate(fields[1], fields[2]), ConvertNmeaCoordinate(fields[3], fields[4])))
  {
    SplitJoin(fields, ',');
  }

  /** A sentence assembled from fields is routed by its identifier field. */
  lemma KindOfFields(fields: seq<string>)
    requires |fields| >= 1
    ensures fields[0] == GllPrefix ==> Classify(Join(fields, ',')) == Gll
    ensures fields[0] == RmcPrefix ==> Classify(Join(fields, ',')) == Rmc
  {
    JoinStartsWithFirst(fields, ',');
  }
}
