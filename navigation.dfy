/** The receiver's last known navigation state and how each sentence changes it: the
    signal validity comes from `$GPRMC`, the position and its time from `$GPGLL`, and a
    reported speed below the noise floor records a speed of zero. */
module Navigation {
  import opened Wrappers
  import opened Nmea

  /** `DateTime.MinValue` in ticks: the time stored before any position has been. */
  const MinValue: int := 0

  /** Metres per second in one knot. */
  const MetersPerSecondPerKnot: real := 0.514444

  /** Speeds below this many metres per second are receiver noise. */
  const NoiseFloor: real := 0.25

  /** The five fields the receiver keeps between sentences. */
  datatype NavState = NavState(
    lastLatitude: Option<real>,
    lastLongitude: Option<real>,
    lastSpeed: Option<real>,
    gpsValid: bool,
    lastTimestamp: int)

  /** Nothing known yet, and no valid signal. */
  const Initial: NavState := NavState(None, None, None, false, MinValue)

  /** What every reachable state satisfies: latitude and longitude are stored together, a
      stored time means a stored position, and the only speed ever stored is zero. */
  predicate Consistent(s: NavState)
  {
    (s.lastLatitude.Some? <==> s.lastLongitude.Some?)
    && (s.lastTimestamp != MinValue ==> s.lastLatitude.Some?)
    && (s.lastSpeed == None || s.lastSpeed == Some(0.0))
  }

  /** A speed in knots that is receiver noise once converted to metres per second: the
      threshold in knots is the noise floor divided by the knot, about 0.486 knots. */
  predicate BelowNoiseFloor(knots: real): (below: bool)
    ensures below <==> knots < NoiseFloor / MetersPerSecondPerKnot
  {
    knots * MetersPerSecondPerKnot < NoiseFloor
  }

  /** The four arguments handed to the (not modelled) great-circle distance. */
  datatype DistanceArgs = DistanceArgs(lat1: real, lon1: real, lat2: real, lon2: real)

  /** The state after `UpdateDisplay(latitude, longitude, speed)` at time `now`. Without a
      valid signal nothing changes. With one, a complete position replaces the stored one
      and stamps it with `now`; a speed below the noise floor records zero, and any other
      speed leaves the stored speed as it was. */
  function Updated(s: NavState, latitude: Option<real>, longitude: Option<real>, speed: Option<real>, now: int): (t: NavState)
    ensures !s.gpsValid ==> t == s
    ensures t.gpsValid == s.gpsValid
    ensures s.gpsValid && latitude.Some? && longitude.Some? ==>
              t.lastLatitude == latitude && t.lastLongitude == longitude && t.lastTimestamp == now
    ensures !(latitude.Some? && longitude.Some?) ==>
              t.lastLatitude == s.lastLatitude && t.lastLongitude == s.lastLongitude && t.lastTimestamp == s.lastTimestamp
    ensures t.lastSpeed != s.lastSpeed ==> s.gpsValid && speed.Some? && BelowNoiseFloor(speed.value) && t.lastSpeed == Some(0.0)
    ensures s.gpsValid && speed.Some? && BelowNoiseFloor(speed.value) ==> t.lastSpeed == Some(0.0)
    ensures Consistent(s) ==> Consistent(t)
  {
    if !s.gpsValid then s
    else
      var positioned :=
        if latitude.Some? && longitude.Some? then s.(lastLatitude := latitude, lastLongitude := longitude, lastTimestamp := now)
        else s;
      if speed.Some? && BelowNoiseFloor(speed.value) then positioned.(lastSpeed := Some(0.0))
      else positioned
  }

  /** The distance `UpdateDisplay` computes: only with a valid signal, a complete position and
      an earlier stored time, and then between the stored position, already overwritten by the
      new one, and the new one, so both endpoints are the new position. */
  function DistanceArgsOf(s: NavState, latitude: Option<real>, longitude: Option<real>): (call: Option<DistanceArgs>)
    ensures call.Some? <==> s.gpsValid && latitude.Some? && longitude.Some? && s.lastTimestamp != MinValue
    ensures call.Some? ==> call.value.lat1 == call.value.lat2 == latitude.value
    ensures call.Some? ==> call.value.lon1 == call.value.lon2 == longitude.value
  {
    if s.gpsValid && latitude.Some? && longitude.Some? && s.lastTimestamp != MinValue then
      var t := Updated(s, latitude, longitude, None, 0);
      Some(DistanceArgs(t.lastLatitude.value, t.lastLongitude.value, latitude.value, longitude.value))
    else None
  }

  /** The state after the serial handler has read `line` at time `now`. */
  function Received(s: NavState, line: string, now: int): (t: NavState)
    ensures Classify(line) == Unrecognized ==> t == s
    ensures Classify(line) == Gll ==> t.gpsValid == s.gpsValid && t.lastSpeed == s.lastSpeed
    ensures Classify(line) == Gll && !s.gpsValid ==> t == s
    ensures Classify(line) == Gll && s.gpsValid && ParseNmea(line).Some? ==>
              t.lastLatitude == Some(ParseNmea(line).value.0)
              && t.lastLongitude == Some(ParseNmea(line).value.1)
              && t.lastTimestamp == now
    ensures Classify(line) == Gll && ParseNmea(line).None? ==> t == s
    ensures Classify(line) == Rmc ==>
              t.gpsValid == ExtractGpsStatus(line)
              && t.lastLatitude == s.lastLatitude && t.lastLongitude == s.lastLongitude
              && t.lastTimestamp == s.lastTimestamp
              && t.lastSpeed == (if t.gpsValid && BelowNoiseFloor(ExtractSpeed(line)) then Some(0.0) else s.lastSpeed)
    ensures Consistent(s) ==> Consistent(t)
  {
    match Classify(line)
    case Gll =>
      (match ParseNmea(line)
       case Some(fix) => Updated(s, Some(fix.0), Some(fix.1), None, now)
       case None => s)
    case Rmc =>
      var validated := s.(gpsValid := ExtractGpsStatus(line));
      Updated(validated, None, None, Some(ExtractSpeed(line)), now)
    case Unrecognized => s
  }

  /** One line as the serial port delivers it, with the wall-clock time it is handled at. */
  datatype Arrival = Arrival(line: string, now: int)

  /** The state after handling a sequence of lines in order. */
  function ReceivedAll(s: NavState, arrivals: seq<Arrival>): NavState
    decreases |arrivals|
  {
    if arrivals == [] then s
    else ReceivedAll(Received(s, arrivals[0].line, arrivals[0].now), arrivals[1..])
  }

  /** Validity as an independent reading of the stream: the status of the last `$GPRMC`
      line, or the validity held before the stream when there is none. */
  function LastStatus(before: bool, arrivals: seq<Arrival>): bool
    decreases |arrivals|
  {
    if arrivals == [] then before
    else
      var last := arrivals[|arrivals| - 1].line;
      if Classify(last) == Rmc then ExtractGpsStatus(last)
      else LastStatus(before, arrivals[..|arrivals| - 1])
  }
}
