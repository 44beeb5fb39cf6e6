/** Laws about the navigation state over a whole stream of lines. */
module NavigationLaws {
  import opened Wrappers
  import opened Nmea
  import opened Navigation

  /** Handling one more line after a stream is handling it on the stream's final state. */
  lemma {:induction false} ReceivedAllSnoc(s: NavState, arrivals: seq<Arrival>, a: Arrival)
    ensures ReceivedAll(s, arrivals + [a]) == Received(ReceivedAll(s, arrivals), a.line, a.now)
    decreases |arrivals|
  {
    if arrivals == [] {
      assert [] + [a] == [a];
    } else {
      ReceivedAllSnoc(Received(s, arrivals[0].line, arrivals[0].now), arrivals[1..], a);
      assert (arrivals + [a])[1..] == arrivals[1..] + [a];
    }
  }

  /** Every stream of lines keeps the state consistent. */
  lemma {:induction false} ReceivedAllConsistent(s: NavState, arrivals: seq<Arrival>)
    requires Consistent(s)
    ensures Consistent(ReceivedAll(s, arrivals))
    decreases |arrivals|
  {
    if arrivals != [] {
      ReceivedAllConsistent(Received(s, arrivals[0].line, arrivals[0].now), arrivals[1..]);
    }
  }

  /** From start-up on, latitude and longitude are stored together, a stored time means a
      stored position, and the stored speed is never anything but absent or zero. */
  lemma FromStartup(arrivals: seq<Arrival>)
    ensures var t := ReceivedAll(Initial, arrivals);
      (t.lastLatitude.Some? <==> t.lastLongitude.Some?)
      && (t.lastTimestamp != MinValue ==> t.lastLatitude.Some?)
      && (t.lastSpeed == None || t.lastSpeed == Some(0.0))
  {
    ReceivedAllConsistent(Initial, arrivals);
  }

  /** A position is stored exactly when a time is, for as long as the clock never reads
      `DateTime.MinValue`: the time is set with every position stored, and never otherwise. */
  lemma {:induction false} StampedExactlyWithPosition(s: NavState, arrivals: seq<Arrival>)
    requires Consistent(s) && (s.lastLatitude.Some? <==> s.lastTimestamp != MinValue)
    requires forall i :: 0 <= i < |arrivals| ==> arrivals[i].now != MinValue
    ensures var t := ReceivedAll(s, arrivals);
      t.lastLatitude.Some? <==> t.lastTimestamp != MinValue
    decreases |arrivals|
  {
    if arrivals != [] {
      var next := Received(s, arrivals[0].line, arrivals[0].now);
      ReceivedAllConsistent(s, arrivals[..1]);
      assert ReceivedAll(s, arrivals[..1]) == next;
      StampedExactlyWithPosition(next, arrivals[1..]);
    }
  }

  /** From start-up on, with a clock that never reads `DateTime.MinValue`, a time is stored
      exactly when a position is. */
  lemma StampedFromStartup(arrivals: seq<Arrival>)
    requires forall i :: 0 <= i < |arrivals| ==> arrivals[i].now != MinValue
    ensures var t := ReceivedAll(Initial, arrivals);
      t.lastLatitude.Some? <==> t.lastTimestamp != MinValue
  {
    StampedExactlyWithPosition(Initial, arrivals);
  }

  /** Lines that are neither `$GPGLL` nor `$GPRMC` change nothing. */
  lemma {:induction false} UnrecognizedLinesChangeNothing(s: NavState, arrivals: seq<Arrival>)
    requires forall i :: 0 <= i < |arrivals| ==> Classify(arrivals[i].line) == Unrecognized
    ensures ReceivedAll(s, arrivals) == s
    decreases |arrivals|
  {
    if arrivals != [] {
      UnrecognizedLinesChangeNothing(Received(s, arrivals[0].line, arrivals[0].now), arrivals[1..]);
    }
  }

  /** Without a valid signal, and with no `$GPRMC` line to restore it, every position fix is
      dropped: the state stays as it was. */
  lemma {:induction false} FixesDroppedWhileInvalid(s: NavState, arrivals: seq<Arrival>)
    requires !s.gpsValid
    requires forall i :: 0 <= i < |arrivals| ==> Classify(arrivals[i].line) != Rmc
    ensures ReceivedAll(s, arrivals) == s
    decreases |arrivals|
  {
    if arrivals != [] {
      FixesDroppedWhileInvalid(Received(s, arrivals[0].line, arrivals[0].now), arrivals[1..]);
    }
  }

  /** The signal validity after a stream is the status of its last `$GPRMC` line, or the
      validity before the stream when it has none. */
  lemma {:induction false} ValidityIsLastStatus(s: NavState, arrivals: seq<Arrival>)
    ensures ReceivedAll(s, arrivals).gpsValid == LastStatus(s.gpsValid, arrivals)
    decreases |arrivals|
  {
    if arrivals != [] {
      var n := |arrivals| - 1;
      var init := arrivals[..n];
      assert arrivals == init + [arrivals[n]];
      ValidityIsLastStatus(s, init);
      ReceivedAllSnoc(s, init, arrivals[n]);
    }
  }

  /** Every position stored after a stream is the one before it or the decoded fix of one of
      its `$GPGLL` lines, stamped with the time that line was handled. */
  lemma {:induction false} PositionProvenance(s: NavState, arrivals: seq<Arrival>)
    ensures var t := ReceivedAll(s, arrivals);
      (t.lastLatitude == s.lastLatitude && t.lastLongitude == s.lastLongitude && t.lastTimestamp == s.lastTimestamp)
      || exists i :: 0 <= i < |arrivals| && Classify(arrivals[i].line) == Gll && ParseNmea(arrivals[i].line).Some?
           && t.lastLatitude == Some(ParseNmea(arrivals[i].line).value.0)
           && t.lastLongitude == Some(ParseNmea(arrivals[i].line).value.1)
           && t.lastTimestamp == arrivals[i].now
    decreases |arrivals|
  {
    if arrivals != [] {
      var n := |arrivals| - 1;
      var init := arrivals[..n];
      assert arrivals == init + [arrivals[n]];
      PositionProvenance(s, init);
      ReceivedAllSnoc(s, init, arrivals[n]);
      var u := ReceivedAll(s, init);
      var t := ReceivedAll(s, arrivals);
      var line := arrivals[n].line;
      if Classify(line) == Gll && u.gpsValid && ParseNmea(line).Some? {
        assert t.lastLatitude == Some(ParseNmea(arrivals[n].line).value.0);
      } else {
        assert t.lastLatitude == u.lastLatitude && t.lastLongitude == u.lastLongitude && t.lastTimestamp == u.lastTimestamp;
        if !(u.lastLatitude == s.lastLatitude && u.lastLongitude == s.lastLongitude && u.lastTimestamp == s.lastTimestamp) {
          var i :| 0 <= i < |init| && Classify(init[i].line) == Gll && ParseNmea(init[i].line).Some?
                   && u.lastLatitude == Some(ParseNmea(init[i].line).value.0)
                   && u.lastLongitude == Some(ParseNmea(init[i].line).value.1)
                   && u.lastTimestamp == init[i].now;
          assert arrivals[i] == init[i];
        }
      }
    }
  }
}
