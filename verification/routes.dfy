/**
  The rows the route search reads from the timetable and the routes it
  builds from them: one ride per train used, legs with anchored timestamps,
  and the three route shapes (direct, one switch, two switches).
 */
module Routes {
  import opened Calendar
  import opened TimeHelpers

  /** One call of a train at a station, a row of the schedule table. */
  datatype Stop = Stop(
    train: string,
    station: string,
    arrival: string,
    departure: string,
    day: int,
    stopNumber: int)

  /** A train boarded at one stop and left at a later stop of the same train:
      the self-join of the schedule table that every search query performs. */
  datatype Ride = Ride(board: Stop, alight: Stop, trainName: string)

  /** The join conditions of one ride: same train, a later stop, and a real
      departure and arrival time at the two ends. */
  predicate RideJoin(r: Ride) {
    && r.board.train == r.alight.train
    && r.alight.stopNumber > r.board.stopNumber
    && ValidClock(r.board.departure)
    && ValidClock(r.alight.arrival)
  }

  function Train(r: Ride): string {
    r.board.train
  }

  /** The ride's journey time, day-aware. */
  function RideMinutes(r: Ride): int
    requires RideJoin(r)
  {
    JourneyTime(r.board.departure, r.board.day, r.alight.arrival, r.alight.day)
  }

  /** A row of the one-switch query: two rides meeting at a transfer station. */
  datatype Conn1Row = Conn1Row(ride1: Ride, transferName: string, ride2: Ride)

  /** A row of the two-switch query: three rides meeting at two transfer stations. */
  datatype Conn2Row = Conn2Row(
    ride1: Ride, transferName1: string,
    ride2: Ride, transferName2: string,
    ride3: Ride)

  predicate DirectJoin(src: string, dst: string, r: Ride) {
    RideJoin(r) && r.board.station == src && r.alight.station == dst
  }

  predicate Conn1Join(src: string, dst: string, row: Conn1Row) {
    && RideJoin(row.ride1) && RideJoin(row.ride2)
    && row.ride1.board.station == src
    && row.ride1.alight.station == row.ride2.board.station
    && Train(row.ride1) != Train(row.ride2)
    && row.ride2.alight.station == dst
  }

  predicate Conn2Join(src: string, dst: string, row: Conn2Row) {
    && RideJoin(row.ride1) && RideJoin(row.ride2) && RideJoin(row.ride3)
    && row.ride1.board.station == src
    && row.ride1.alight.station == row.ride2.board.station
    && Train(row.ride1) != Train(row.ride2)
    && row.ride2.alight.station == row.ride3.board.station
    && Train(row.ride2) != Train(row.ride3)
    && row.ride3.alight.station == dst
  }

  /** One train journey inside a connecting route. */
  datatype Leg = Leg(
    train: string,
    trainName: string,
    from: string,
    to: string,
    departure: DateTime,
    arrival: DateTime)

  datatype Route =
    | Direct(train: string, trainName: string, departure: DateTime, arrival: DateTime, duration: int)
    | OneSwitch(
        leg1: Leg, layover: int, transfer: string, transferName: string,
        leg2: Leg, total: int)
    | TwoSwitch(
        leg1: Leg, layover: int, transfer: string, transferName: string,
        leg2: Leg, layover2: int, transfer2: string, transferName2: string,
        leg3: Leg, total: int)

  /** The number of changes of train. */
  function Switches(r: Route): nat {
    match r
    case Direct(_, _, _, _, _) => 0
    case OneSwitch(_, _, _, _, _, _) => 1
    case TwoSwitch(_, _, _, _, _, _, _, _, _, _) => 2
  }

  /** The duration the "fastest" order uses: the direct duration or the total. */
  function Duration(r: Route): int {
    if r.Direct? then r.duration else r.total
  }

  /** The trains a route uses, in order: the dedup key of connecting routes. */
  datatype TrainKey = Single(t: string) | Pair(t1: string, t2: string) | Triple(t1: string, t2: string, t3: string)

  function KeyOf(r: Route): TrainKey {
    match r
    case Direct(t, _, _, _, _) => Single(t)
    case OneSwitch(l1, _, _, _, l2, _) => Pair(l1.train, l2.train)
    case TwoSwitch(l1, _, _, _, l2, _, _, _, l3, _) => Triple(l1.train, l2.train, l3.train)
  }

  // ---------------------------------------------------------------------------
  // Building routes from rows

  /** A leg of ride `r` leaving at `start` and arriving its journey time later. */
  function RideLeg(r: Ride, from: string, to: string, start: DateTime): (l: Leg)
    requires RideJoin(r) && ValidDateTime(start)
    ensures l.train == Train(r) && l.trainName == r.trainName
    ensures l.from == from && l.to == to && l.departure == start
    ensures l.arrival.second == start.second
    ensures ClockOfDay(start) == TimeToMins(r.board.departure) ==>
              ClockOfDay(l.arrival) == TimeToMins(r.alight.arrival)
    ensures LegValid(l)
    ensures MinuteStamp(l.arrival) - MinuteStamp(l.departure) == RideMinutes(r)
  {
    var minutes := RideMinutes(r);
    var arrival := AddMinutes(start, minutes);
    assert MinuteStamp(arrival) == MinuteStamp(start) + minutes;
    ArrivalClock(start, r);
    Leg(Train(r), r.trainName, from, to, start, arrival)
  }

  /** The wait at the station where `r1` is left and `r2` is boarded. */
  function RideLayover(r1: Ride, r2: Ride): (w: int)
    requires RideJoin(r1) && RideJoin(r2)
    ensures 0 <= w < MinutesPerDay
    ensures (w - (TimeToMins(r2.board.departure) - TimeToMins(r1.alight.arrival))) % MinutesPerDay == 0
  {
    Layover(r1.alight.arrival, r2.board.departure)
  }

  /** The time of day of a timestamp, in minutes after midnight. */
  function ClockOfDay(t: DateTime): int {
    t.hour * 60 + t.minute
  }

  /** A ride boarded at its scheduled time of day arrives at its scheduled
      time of day, however many days later. */
  lemma ArrivalClock(start: DateTime, r: Ride)
    requires RideJoin(r) && ValidDateTime(start)
    ensures ClockOfDay(start) == TimeToMins(r.board.departure) ==>
              ClockOfDay(AddMinutes(start, RideMinutes(r))) == TimeToMins(r.alight.arrival)
  {
    if ClockOfDay(start) == TimeToMins(r.board.departure) {
      var a := TimeToMins(r.alight.arrival);
      var n := r.alight.day - r.board.day;
      var k := RideMinutes(r);
      assert k == n * MinutesPerDay + (a - TimeToMins(r.board.departure));
      var t := AddMinutes(start, k);
      assert ClockOfDay(t) == (n * MinutesPerDay + a) % MinutesPerDay;
      DayMultiple(n, a);
    }
  }

  lemma DayMultiple(n: int, a: int)
    requires 0 <= a < MinutesPerDay
    ensures (n * MinutesPerDay + a) % MinutesPerDay == a
  {
  }

  /** A multiple of a day strictly between minus one and two days is 0 or one day. */
  lemma WholeDays(x: int)
    requires -MinutesPerDay < x < 2 * MinutesPerDay && x % MinutesPerDay == 0
    ensures x == 0 || x == MinutesPerDay
  {
  }

  /** Waiting the layover after arriving at the scheduled time of ride `r1`
      reaches the scheduled departure time of ride `r2`. */
  lemma TransferClock(arrival: DateTime, r1: Ride, r2: Ride)
    requires RideJoin(r1) && RideJoin(r2) && ValidDateTime(arrival)
    requires ClockOfDay(arrival) == TimeToMins(r1.alight.arrival)
    ensures ClockOfDay(AddMinutes(arrival, RideLayover(r1, r2))) == TimeToMins(r2.board.departure)
  {
    var a := ClockOfDay(arrival);
    var c := TimeToMins(r2.board.departure);
    var w := RideLayover(r1, r2);
    assert 0 <= a < MinutesPerDay && 0 <= c < MinutesPerDay;
    WholeDays(a + w - c);
    AddMinutesClock(arrival, w, c);
  }

  /** The direct route of a direct-query row, departing on day `d`. */
  function DirectRoute(d: Date, r: Ride): (route: Route)
    requires ValidDate(d) && RideJoin(r)
    ensures route.Direct? && route.train == Train(r) && route.trainName == r.trainName
    ensures route.departure == Anchor(d, r.board.departure)
    ensures route.duration == RideMinutes(r)
    ensures ValidDateTime(route.departure) && ValidDateTime(route.arrival)
    ensures MinuteStamp(route.arrival) - MinuteStamp(route.departure) == route.duration
    ensures route.arrival.second == route.departure.second
  {
    var dep := Anchor(d, r.board.departure);
    var duration := RideMinutes(r);
    var arrival := AddMinutes(dep, duration);
    assert MinuteStamp(arrival) == MinuteStamp(dep) + duration;
    Direct(Train(r), r.trainName, dep, arrival, duration)
  }

  /** The one-switch candidate a row describes. */
  function Candidate1(d: Date, src: string, dst: string, row: Conn1Row): (route: Route)
    requires ValidDate(d) && Conn1Join(src, dst, row)
    ensures route.OneSwitch? && Consistent(src, dst, route)
    ensures route.layover == RideLayover(row.ride1, row.ride2)
    ensures KeyOf(route) == Pair(Train(row.ride1), Train(row.ride2))
    ensures route.leg1.departure == Anchor(d, row.ride1.board.departure)
    ensures MinuteStamp(route.leg1.arrival) - MinuteStamp(route.leg1.departure) == RideMinutes(row.ride1)
    ensures MinuteStamp(route.leg2.arrival) - MinuteStamp(route.leg2.departure) == RideMinutes(row.ride2)
    ensures route.total == RideMinutes(row.ride1) + route.layover + RideMinutes(row.ride2)
    ensures route.transfer == row.ride1.alight.station && route.transferName == row.transferName
    ensures && ClockOfDay(route.leg1.arrival) == TimeToMins(row.ride1.alight.arrival)
            && ClockOfDay(route.leg2.departure) == TimeToMins(row.ride2.board.departure)
            && ClockOfDay(route.leg2.arrival) == TimeToMins(row.ride2.alight.arrival)
    ensures route.leg1.trainName == row.ride1.trainName && route.leg2.trainName == row.ride2.trainName
    ensures route.leg2.departure == AddMinutes(route.leg1.arrival, route.layover)
    ensures var sec := route.leg1.departure.second;
            route.leg1.arrival.second == sec && route.leg2.departure.second == sec && route.leg2.arrival.second == sec
  {
    var transfer := row.ride1.alight.station;
    var leg1 := RideLeg(row.ride1, src, transfer, Anchor(d, row.ride1.board.departure));
    var layover := RideLayover(row.ride1, row.ride2);
    TransferClock(leg1.arrival, row.ride1, row.ride2);
    var leg2 := RideLeg(row.ride2, transfer, dst, AddMinutes(leg1.arrival, layover));
    OneSwitch(leg1, layover, transfer, row.transferName, leg2,
              RideMinutes(row.ride1) + layover + RideMinutes(row.ride2))
  }

  /** The two-switch candidate a row describes. */
  function Candidate2(d: Date, src: string, dst: string, row: Conn2Row): (route: Route)
    requires ValidDate(d) && Conn2Join(src, dst, row)
    ensures route.TwoSwitch? && Consistent(src, dst, route)
    ensures route.layover == RideLayover(row.ride1, row.ride2)
    ensures route.layover2 == RideLayover(row.ride2, row.ride3)
    ensures KeyOf(route) == Triple(Train(row.ride1), Train(row.ride2), Train(row.ride3))
    ensures route.leg1.departure == Anchor(d, row.ride1.board.departure)
    ensures MinuteStamp(route.leg1.arrival) - MinuteStamp(route.leg1.departure) == RideMinutes(row.ride1)
    ensures MinuteStamp(route.leg2.arrival) - MinuteStamp(route.leg2.departure) == RideMinutes(row.ride2)
    ensures MinuteStamp(route.leg3.arrival) - MinuteStamp(route.leg3.departure) == RideMinutes(row.ride3)
    ensures route.total == RideMinutes(row.ride1) + RideMinutes(row.ride2) + RideMinutes(row.ride3)
                           + route.layover + route.layover2
    ensures route.transfer == row.ride1.alight.station && route.transfer2 == row.ride2.alight.station
    ensures route.transferName == row.transferName1 && route.transferName2 == row.transferName2
    ensures && ClockOfDay(route.leg1.arrival) == TimeToMins(row.ride1.alight.arrival)
            && ClockOfDay(route.leg2.departure) == TimeToMins(row.ride2.board.departure)
            && ClockOfDay(route.leg2.arrival) == TimeToMins(row.ride2.alight.arrival)
            && ClockOfDay(route.leg3.departure) == TimeToMins(row.ride3.board.departure)
            && ClockOfDay(route.leg3.arrival) == TimeToMins(row.ride3.alight.arrival)
    ensures && route.leg1.trainName == row.ride1.trainName
            && route.leg2.trainName == row.ride2.trainName
            && route.leg3.trainName == row.ride3.trainName
    ensures route.leg2.departure == AddMinutes(route.leg1.arrival, route.layover)
    ensures route.leg3.departure == AddMinutes(route.leg2.arrival, route.layover2)
    ensures var sec := route.leg1.departure.second;
            && route.leg1.arrival.second == sec
            && route.leg2.departure.second == sec && route.leg2.arrival.second == sec
            && route.leg3.departure.second == sec && route.leg3.arrival.second == sec
  {
    var transfer1 := row.ride1.alight.station;
    var transfer2 := row.ride2.alight.station;
    var leg1 := RideLeg(row.ride1, src, transfer1, Anchor(d, row.ride1.board.departure));
    var layover1 := RideLayover(row.ride1, row.ride2);
    TransferClock(leg1.arrival, row.ride1, row.ride2);
    var leg2 := RideLeg(row.ride2, transfer1, transfer2, AddMinutes(leg1.arrival, layover1));
    var layover2 := RideLayover(row.ride2, row.ride3);
    TransferClock(leg2.arrival, row.ride2, row.ride3);
    var leg3 := RideLeg(row.ride3, transfer2, dst, AddMinutes(leg2.arrival, layover2));
    TwoSwitch(leg1, layover1, transfer1, row.transferName1,
              leg2, layover2, transfer2, row.transferName2,
              leg3, RideMinutes(row.ride1) + RideMinutes(row.ride2) + RideMinutes(row.ride3)
                    + layover1 + layover2)
  }

  // ---------------------------------------------------------------------------
  // What a well-built route looks like

  /** Leg `next` leaves `wait` minutes after leg `prev` arrives, from where it arrived. */
  predicate Chained(prev: Leg, wait: int, next: Leg)
    requires LegValid(prev) && LegValid(next)
  {
    && prev.to == next.from
    && MinuteStamp(next.departure) == MinuteStamp(prev.arrival) + wait
  }

  /** Both ends of a leg are real timestamps. */
  predicate LegValid(l: Leg) {
    ValidDateTime(l.departure) && ValidDateTime(l.arrival)
  }

  /** A layover the search accepts: at least 15 minutes and at most 12 hours. */
  predicate LayoverAllowed(w: int) {
    15 <= w <= 12 * 60
  }

  /** The timestamps of a route chain exactly, its stations connect `src` to
      `dst` through its transfers, and its total is the time from the first
      departure to the last arrival. */
  predicate Consistent(src: string, dst: string, r: Route) {
    match r
    case Direct(_, _, dep, arr, duration) =>
      && ValidDateTime(dep) && ValidDateTime(arr)
      && MinuteStamp(arr) - MinuteStamp(dep) == duration
    case OneSwitch(leg1, layover, transfer, _, leg2, total) =>
      && LegValid(leg1) && LegValid(leg2)
      && leg1.from == src && leg1.to == transfer && leg2.to == dst
      && Chained(leg1, layover, leg2)
      && leg1.train != leg2.train
      && total == MinuteStamp(leg2.arrival) - MinuteStamp(leg1.departure)
    case TwoSwitch(leg1, layover1, transfer1, _, leg2, layover2, transfer2, _, leg3, total) =>
      && LegValid(leg1) && LegValid(leg2) && LegValid(leg3)
      && leg1.from == src && leg1.to == transfer1 && leg2.to == transfer2 && leg3.to == dst
      && Chained(leg1, layover1, leg2) && Chained(leg2, layover2, leg3)
      && leg1.train != leg2.train && leg2.train != leg3.train
      && total == MinuteStamp(leg3.arrival) - MinuteStamp(leg1.departure)
  }
}
