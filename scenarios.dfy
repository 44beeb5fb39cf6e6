/** Concrete sentences of a receiver at rest near 37.39 N, 121.97 W, worked through the
    model. Each sentence is given by its fields; the line is their comma join. */
module Scenarios {
  import opened Wrappers
  import opened Text
  import opened Numbers
  import opened Nmea
  import opened NmeaLaws
  import opened Navigation

  const GllFields: seq<string> := ["$GPGLL", "3723.2475", "N", "12158.3416", "W", "161229.487", "A", "A*41"]
  const RmcFields: seq<string> := ["$GPRMC", "161229.487", "A", "3723.2475", "N", "12158.3416", "W", "0.13", "309.62", "120598", "", "*10"]
  const EmptyGllFields: seq<string> := ["$GPGLL", "", "", "", "", "", "", "*00"]
  const GsvFields: seq<string> := ["$GPGSV", "2", "1", "08", "01", "40", "083", "46*7B"]

  lemma LatitudeValue()
    ensures ParseDouble("3723.2475") == Some(3723.2475)
  {
  }

  lemma LongitudeValue()
    ensures ParseDouble("12158.3416") == Some(12158.3416)
  {
  }

  lemma SpeedValue()
    ensures ParseDouble("0.13") == Some(0.13)
  {
  }

  /** 3723.2475 north is 37 degrees and 23.2475 minutes. */
  lemma LatitudeExample()
    ensures ConvertNmeaCoordinate("3723.2475", "N") == 37.0 + 23.2475 / 60.0
  {
    LatitudeValue();
    DegreesMinutesOf(37, 23.2475);
    assert 100.0 * 37 as real + 23.2475 == 3723.2475;
  }

  /** 12158.3416 west is minus 121 degrees and 58.3416 minutes. */
  lemma LongitudeExample()
    ensures ConvertNmeaCoordinate("12158.3416", "W") == -(121.0 + 58.3416 / 60.0)
  {
    LongitudeValue();
    DegreesMinutesOf(121, 58.3416);
    assert 100.0 * 121 as real + 58.3416 == 12158.3416;
  }

  lemma GllCommaFree()
    ensures |GllFields| >= 1 && forall i :: 0 <= i < |GllFields| ==> ',' !in GllFields[i]
  {
  }

  /** The position sentence decodes to 37 + 23.2475/60 (about 37.387458) north and
      121 + 58.3416/60 (about 121.972360) west. */
  lemma GllExample()
    ensures Classify(Join(GllFields, ',')) == Gll
    ensures ParseNmea(Join(GllFields, ',')) == Some((37.0 + 23.2475 / 60.0, -(121.0 + 58.3416 / 60.0)))
  {
    GllCommaFree();
    KindOfFields(GllFields);
    PositionOfFields(GllFields);
    assert GllFields[1] == "3723.2475" && GllFields[2] == "N";
    assert GllFields[3] == "12158.3416" && GllFields[4] == "W";
    LatitudeExample();
    LongitudeExample();
  }

  lemma RmcCommaFree()
    ensures |RmcFields| >= 1 && forall i :: 0 <= i < |RmcFields| ==> ',' !in RmcFields[i]
  {
  }

  /** The status sentence reports a valid fix and 0.13 knots. */
  lemma RmcFieldsRead()
    ensures Classify(Join(RmcFields, ',')) == Rmc
    ensures ExtractGpsStatus(Join(RmcFields, ','))
    ensures ExtractSpeed(Join(RmcFields, ',')) == 0.13
  {
    RmcCommaFree();
    KindOfFields(RmcFields);
    StatusOfFields(RmcFields);
    SpeedOfFields(RmcFields);
    SpeedValue();
  }

  /** 0.13 knots is about 0.067 m/s, below the noise floor: handling the status sentence
      makes the signal valid and records a speed of zero, whatever the state before. */
  lemma RmcExample(s: NavState, now: int)
    ensures Received(s, Join(RmcFields, ','), now).gpsValid
    ensures Received(s, Join(RmcFields, ','), now).lastSpeed == Some(0.0)
  {
    RmcFieldsRead();
    assert BelowNoiseFloor(0.13);
  }

  /** A position sentence with every field empty stores nothing and raises nothing. */
  lemma EmptyGllExample(s: NavState, now: int)
    ensures ParseNmea(Join(EmptyGllFields, ',')) == None
    ensures Received(s, Join(EmptyGllFields, ','), now) == s
  {
    assert forall i :: 0 <= i < |EmptyGllFields| ==> ',' !in EmptyGllFields[i];
    KindOfFields(EmptyGllFields);
    PositionOfFields(EmptyGllFields);
  }

  /** A satellites-in-view sentence is ignored. */
  lemma GsvExample(s: NavState, now: int)
    ensures Classify(Join(GsvFields, ',')) == Unrecognized
    ensures Received(s, Join(GsvFields, ','), now) == s
  {
    var line := Join(GsvFields, ',');
    JoinStartsWithFirst(GsvFields, ',');
    assert line[3] == 'G' && line[4] == 'S';
  }

  /** The position sentence arriving before any status sentence is dropped; after the status
      sentence it is stored with its time, and the stored speed is zero. */
  lemma StartupExample(t1: int, t2: int, t3: int)
    ensures Received(Initial, Join(GllFields, ','), t1) == Initial
    ensures var s := Received(Received(Initial, Join(RmcFields, ','), t2), Join(GllFields, ','), t3);
      s == NavState(Some(37.0 + 23.2475 / 60.0), Some(-(121.0 + 58.3416 / 60.0)), Some(0.0), true, t3)
  {
    GllExample();
    RmcExample(Initial, t2);
  }

  /** The noise floor is strict: 0.13 knots is noise, a speed of exactly 0.25 m/s is not,
      and neither is 0.26 m/s. */
  lemma NoiseFloorBoundary()
    ensures BelowNoiseFloor(0.13)
    ensures !BelowNoiseFloor(NoiseFloor / MetersPerSecondPerKnot)
    ensures !BelowNoiseFloor(0.26 / MetersPerSecondPerKnot)
  {
  }
}
