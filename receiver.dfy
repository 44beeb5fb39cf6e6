/** The receiver program's handler and display update as they run: five fields updated
    step by step, each method proved against the state function it implements. */
module GpsReceiver {
  import opened Wrappers
  import opened Nmea
  import opened Navigation

  class Receiver {
    var lastLatitude: Option<real>
    var lastLongitude: Option<real>
    var lastSpeed: Option<real>
    var gpsValid: bool
    var lastTimestamp: int

    /** The fields as one value. */
    function State(): NavState
      reads this
    {
      NavState(lastLatitude, lastLongitude, lastSpeed, gpsValid, lastTimestamp)
    }

    /** The field initialisers: nothing stored, no signal, the time at its minimum. */
    constructor ()
      ensures State() == Initial && Consistent(State())
    {
      lastLatitude := None;
      lastLongitude := None;
      lastSpeed := None;
      gpsValid := false;
      lastTimestamp := MinValue;
    }

    /** The state part of the display update, returning the arguments the distance
        computation is called with, if it is called. */
    method UpdateDisplay(latitude: Option<real>, longitude: Option<real>, speed: Option<real>, now: int)
      returns (distance: Option<DistanceArgs>)
      modifies this
      ensures State() == Updated(old(State()), latitude, longitude, speed, now)
      ensures distance == DistanceArgsOf(old(State()), latitude, longitude)
      ensures Consistent(old(State())) ==> Consistent(State())
    {
      distance := None;
      if !gpsValid {
        return;
      }
      if latitude.Some? && longitude.Some? {
        lastLatitude := latitude;
        lastLongitude := longitude;
        if lastTimestamp != MinValue {
          distance := Some(DistanceArgs(lastLatitude.value, lastLongitude.value, latitude.value, longitude.value));
        }
        lastTimestamp := now;
      }
      if speed.Some? {
        var speedMps := speed.value * MetersPerSecondPerKnot;
        if speedMps < NoiseFloor {
          lastSpeed := Some(0.0);
        }
      }
    }

    /** The serial handler for one line read at time `now`: a `$GPGLL` fix goes to the
        display update, a `$GPRMC` line first sets the validity and then hands over its
        speed, and any other line is ignored. */
    method DataReceived(line: string, now: int) returns (distance: Option<DistanceArgs>)
      modifies this
      ensures State() == Received(old(State()), line, now)
      ensures distance.Some? ==> Classify(line) == Gll && ParseNmea(line).Some?
      ensures Classify(line) == Gll && ParseNmea(line).Some? ==>
                distance == DistanceArgsOf(old(State()), Some(ParseNmea(line).value.0), Some(ParseNmea(line).value.1))
      ensures Consistent(old(State())) ==> Consistent(State())
    {
      distance := None;
      if GllPrefix <= line {
        var coordinates := ParseNmea(line);
        if coordinates.Some? {
          distance := UpdateDisplay(Some(coordinates.value.0), Some(coordinates.value.1), None, now);
        }
      } else if RmcPrefix <= line {
        gpsValid := ExtractGpsStatus(line);
        var speedKnots := ExtractSpeed(line);
        distance := UpdateDisplay(None, None, Some(speedKnots), now);
      }
    }
  }
}
