/**
  `offset_cached_dates`: cached route lists are computed against the fixed
  date 2024-01-01; on a cache hit every object-held timestamp text is moved
  by the whole days between that date and the requested one.
 */
module CacheRebase {
  import opened Wrappers
  import opened Calendar
  import opened Timestamps
  import opened Json

  /** The date the cache producer computes every route list against. */
  const CanonicalDate: Date := Date(2024, 1, 1)

  /** Why `offset_cached_dates` raises: the requested date text does not parse
      (`ValueError`), or a shifted timestamp leaves years 1..9999 (`OverflowError`). */
  datatype RebaseError = BadTargetDate | DateOverflow

  /** The treatment of an object-held string of length 19. */
  function ShiftText(s: string, delta: int): (r: Result<string, RebaseError>)
    ensures ParseTimestamp(s).None? ==> r == Success(s)
    ensures ParseTimestamp(s).Some? ==>
              var moved := ShiftDays(ParseTimestamp(s).value, delta);
              && (r.Success? <==> InYearRange(moved.date))
              && (r.Success? ==> ParseTimestamp(r.value) == Some(moved))
  {
    match ParseTimestamp(s)
    case None => Success(s)
    case Some(t) =>
      var moved := ShiftDays(t, delta);
      if InYearRange(moved.date) then ParseFormatTimestamp(moved); Success(FormatTimestamp(moved))
      else Failure(DateOverflow)
  }

  /** A shifted timestamp text is again 19 characters long. */
  lemma ShiftTextLength(s: string, delta: int)
    requires |s| == 19 && ShiftText(s, delta).Success?
    ensures |ShiftText(s, delta).value| == 19
  {
  }

  /** Shifting a timestamp text by `a` days and then by `b` days is shifting it by `a + b` days. */
  lemma ShiftTextAdditive(s: string, a: int, b: int)
    requires ShiftText(s, a).Success? && ShiftText(ShiftText(s, a).value, b).Success?
    ensures ShiftText(s, a + b) == ShiftText(ShiftText(s, a).value, b)
  {
    match ParseTimestamp(s)
    case None =>
    case Some(t) =>
      var moved := ShiftDays(t, a);
      var s1 := ShiftText(s, a).value;
      assert s1 == FormatTimestamp(moved);
      ParseFormatTimestamp(moved);
      ShiftDaysCompose(t, a, b);
  }

  /** Whether an object-held value is a timestamp text the traversal moves. */
  predicate IsTimestampText(x: Value) {
    x.Str? && |x.s| == 19 && ParseTimestamp(x.s).Some?
  }

  /** `traverse_and_add` on one value: objects and lists are walked, every other
      value (including a string directly in a list) is left alone. */
  function RebaseValue(v: Value, delta: int): Result<Value, RebaseError>
    decreases v, 1
  {
    match v
    case Obj(fields) =>
      (match RebaseFields(fields, delta)
       case Success(fs) => Success(Obj(fs))
       case Failure(e) => Failure(e))
    case List(items) =>
      (match RebaseItems(items, delta)
       case Success(xs) => Success(List(xs))
       case Failure(e) => Failure(e))
    case _ => Success(v)
  }

  function RebaseItems(items: seq<Value>, delta: int): Result<seq<Value>, RebaseError>
    decreases items, 0
  {
    if items == [] then Success([])
    else
      match RebaseValue(items[0], delta)
      case Failure(e) => Failure(e)
      case Success(x) =>
        match RebaseItems(items[1..], delta)
        case Failure(e) => Failure(e)
        case Success(xs) => Success([x] + xs)
  }

  /** An object-held value: a 19-character string is tried as a timestamp,
      anything else is walked. */
  function RebaseEntry(x: Value, delta: int): Result<Value, RebaseError>
    decreases x, 2
  {
    if x.Str? && |x.s| == 19 then
      match ShiftText(x.s, delta)
      case Success(s) => Success(Str(s))
      case Failure(e) => Failure(e)
    else RebaseValue(x, delta)
  }

  function RebaseFields(fields: seq<Field>, delta: int): Result<seq<Field>, RebaseError>
    decreases fields, 0
  {
    if fields == [] then Success([])
    else
      var f := fields[0];
      assert f.value < f;
      match RebaseEntry(f.value, delta)
      case Failure(e) => Failure(e)
      case Success(x) =>
        match RebaseFields(fields[1..], delta)
        case Failure(e) => Failure(e)
        case Success(fs) => Success([Field(f.key, x)] + fs)
  }

  /** `offset_cached_dates(route_obj, target_date_str)`: it raises exactly
      when the target date is unreadable or some object-held timestamp would
      leave years 1..9999. */
  function OffsetCachedDates(root: Value, targetText: string): (r: Result<Value, RebaseError>)
    ensures ParseDate(targetText).None? ==> r == Failure(BadTargetDate)
    ensures ParseDate(targetText).Some? ==>
              (r.Success? <==> ShiftsInRange(root, DaysBetween(CanonicalDate, ParseDate(targetText).value)))
    ensures r.Success? ==>
              ParseDate(targetText).Some?
              && Moved(root, r.value, DaysBetween(CanonicalDate, ParseDate(targetText).value))
  {
    match ParseDate(targetText)
    case None => Failure(BadTargetDate)
    case Some(target) =>
      var delta := DaysBetween(CanonicalDate, target);
      RebaseValueMoves(root, delta);
      RebaseValueSucceeds(root, delta);
      RebaseValue(root, delta)
  }

  // ---------------------------------------------------------------------------
  // When a rebase succeeds

  /** Every object-held timestamp text of `v`, moved by `delta` days, stays
      within years 1..9999. */
  predicate ShiftsInRange(v: Value, delta: int)
    decreases v, 1
  {
    match v
    case Obj(fs) => forall i :: 0 <= i < |fs| ==> EntryInRange(fs[i], delta)
    case List(xs) => forall i :: 0 <= i < |xs| ==> ShiftsInRange(xs[i], delta)
    case _ => true
  }

  predicate EntryInRange(f: Field, delta: int)
    decreases f, 0
  {
    var x := f.value;
    if IsTimestampText(x) then InYearRange(ShiftDays(ParseTimestamp(x.s).value, delta).date)
    else ShiftsInRange(x, delta)
  }

  /** A rebase raises exactly when some object-held timestamp overflows. */
  lemma {:induction false} RebaseValueSucceeds(v: Value, delta: int)
    ensures RebaseValue(v, delta).Success? <==> ShiftsInRange(v, delta)
    decreases v, 1
  {
    match v
    case Obj(fields) => RebaseFieldsSucceed(fields, delta);
    case List(items) => RebaseItemsSucceed(items, delta);
    case _ =>
  }

  lemma {:induction false} RebaseItemsSucceed(items: seq<Value>, delta: int)
    ensures RebaseItems(items, delta).Success? <==> forall i :: 0 <= i < |items| ==> ShiftsInRange(items[i], delta)
    decreases items, 0
  {
    if items != [] {
      RebaseValueSucceeds(items[0], delta);
      RebaseItemsSucceed(items[1..], delta);
      assert forall i :: 1 <= i < |items| ==> items[i] == items[1..][i - 1];
    }
  }

  lemma {:induction false} RebaseEntrySucceeds(x: Value, delta: int)
    ensures RebaseEntry(x, delta).Success? <==> EntryInRange(Field("", x), delta)
    decreases x, 2
  {
    if !(x.Str? && |x.s| == 19) {
      RebaseValueSucceeds(x, delta);
    }
  }

  lemma {:induction false} RebaseFieldsSucceed(fields: seq<Field>, delta: int)
    ensures RebaseFields(fields, delta).Success? <==> forall i :: 0 <= i < |fields| ==> EntryInRange(fields[i], delta)
    decreases fields, 0
  {
    if fields != [] {
      var f := fields[0];
      assert f.value < f;
      RebaseEntrySucceeds(f.value, delta);
      assert EntryInRange(Field("", f.value), delta) == EntryInRange(f, delta);
      RebaseFieldsSucceed(fields[1..], delta);
      EntriesInRangeCons(fields, delta);
    }
  }

  lemma EntriesInRangeCons(fields: seq<Field>, delta: int)
    requires fields != []
    ensures (forall i :: 0 <= i < |fields| ==> EntryInRange(fields[i], delta))
        <==> EntryInRange(fields[0], delta)
             && forall i :: 0 <= i < |fields| - 1 ==> EntryInRange(fields[1..][i], delta)
  {
    assert forall i :: 1 <= i < |fields| ==> fields[i] == fields[1..][i - 1];
  }

  // ---------------------------------------------------------------------------
  // What a successful rebase leaves alone and what it moves

  /** `w` is `v` with each object-held timestamp text moved by `delta` days:
      same keys in the same order, same list lengths, same non-string values,
      same unparseable strings and same list-held strings. */
  predicate Moved(v: Value, w: Value, delta: int)
    decreases v, 1
  {
    match v
    case Obj(fs) =>
      && w.Obj? && |w.fields| == |fs|
      && forall i :: 0 <= i < |fs| ==>
           w.fields[i].key == fs[i].key && EntryMoved(fs[i], w.fields[i].value, delta)
    case List(xs) =>
      && w.List? && |w.items| == |xs|
      && forall i :: 0 <= i < |xs| ==> Moved(xs[i], w.items[i], delta)
    case _ => w == v
  }

  predicate EntryMoved(f: Field, y: Value, delta: int)
    decreases f, 0
  {
    var x := f.value;
    if IsTimestampText(x) then
      y.Str? && ParseTimestamp(y.s) == Some(ShiftDays(ParseTimestamp(x.s).value, delta))
    else Moved(x, y, delta)
  }

  lemma {:induction false} RebaseValueMoves(v: Value, delta: int)
    ensures RebaseValue(v, delta).Success? ==> Moved(v, RebaseValue(v, delta).value, delta)
    decreases v, 1
  {
    match v
    case Obj(fields) => RebaseFieldsMove(fields, delta);
    case List(items) => RebaseItemsMove(items, delta);
    case _ =>
  }

  lemma {:induction false} RebaseItemsMove(items: seq<Value>, delta: int)
    ensures RebaseItems(items, delta).Success? ==>
              var xs := RebaseItems(items, delta).value;
              |xs| == |items| && forall i :: 0 <= i < |items| ==> Moved(items[i], xs[i], delta)
    decreases items, 0
  {
    if items != [] {
      RebaseValueMoves(items[0], delta);
      RebaseItemsMove(items[1..], delta);
    }
  }

  lemma {:induction false} RebaseFieldsMove(fields: seq<Field>, delta: int)
    ensures RebaseFields(fields, delta).Success? ==>
              var fs := RebaseFields(fields, delta).value;
              && |fs| == |fields|
              && forall i :: 0 <= i < |fields| ==>
                   fs[i].key == fields[i].key && EntryMoved(fields[i], fs[i].value, delta)
    decreases fields, 0
  {
    if fields != [] {
      var f := fields[0];
      assert f.value < f;
      RebaseValueMoves(f.value, delta);
      RebaseFieldsMove(fields[1..], delta);
    }
  }

  // ---------------------------------------------------------------------------
  // Rebasing to the canonical date, and rebasing twice

  /** A zero-day shift gives back the very same tree, so rebasing a cached entry
      to 2024-01-01 itself is the identity. */
  lemma {:induction false} RebaseZeroIdentity(v: Value)
    ensures RebaseValue(v, 0) == Success(v)
    decreases v, 1
  {
    match v
    case Obj(fields) => RebaseFieldsZeroIdentity(fields);
    case List(items) => RebaseItemsZeroIdentity(items);
    case _ =>
  }

  lemma {:induction false} RebaseItemsZeroIdentity(items: seq<Value>)
    ensures RebaseItems(items, 0) == Success(items)
    decreases items, 0
  {
    if items != [] {
      RebaseZeroIdentity(items[0]);
      RebaseItemsZeroIdentity(items[1..]);
      assert items == [items[0]] + items[1..];
    }
  }

  lemma {:induction false} RebaseEntryZeroIdentity(x: Value)
    ensures RebaseEntry(x, 0) == Success(x)
    decreases x, 2
  {
    if x.Str? && |x.s| == 19 {
      match ParseTimestamp(x.s)
      case None =>
      case Some(t) =>
        DayNumberInjective(AddDays(t.date, 0), t.date);
    } else {
      RebaseZeroIdentity(x);
    }
  }

  lemma {:induction false} RebaseFieldsZeroIdentity(fields: seq<Field>)
    ensures RebaseFields(fields, 0) == Success(fields)
    decreases fields, 0
  {
    if fields != [] {
      var f := fields[0];
      assert f.value < f;
      RebaseEntryZeroIdentity(f.value);
      RebaseFieldsZeroIdentity(fields[1..]);
      assert fields == [Field(f.key, f.value)] + fields[1..];
    }
  }

  lemma CanonicalIsIdentity(v: Value)
    ensures OffsetCachedDates(v, FormatDate(CanonicalDate)) == Success(v)
  {
    ParseFormatDate(CanonicalDate);
    RebaseZeroIdentity(v);
  }

  /** Rebasing by `a` days and the result by `b` days is rebasing by `a + b` days. */
  lemma {:induction false} RebaseAdditive(v: Value, a: int, b: int)
    requires RebaseValue(v, a).Success?
    requires RebaseValue(RebaseValue(v, a).value, b).Success?
    ensures RebaseValue(v, a + b) == RebaseValue(RebaseValue(v, a).value, b)
    decreases v, 1
  {
    match v
    case Obj(fields) => RebaseFieldsAdditive(fields, a, b);
    case List(items) => RebaseItemsAdditive(items, a, b);
    case _ =>
  }

  lemma {:induction false} RebaseItemsAdditive(items: seq<Value>, a: int, b: int)
    requires RebaseItems(items, a).Success?
    requires RebaseItems(RebaseItems(items, a).value, b).Success?
    ensures RebaseItems(items, a + b) == RebaseItems(RebaseItems(items, a).value, b)
    decreases items, 0
  {
    if items != [] {
      var x := RebaseValue(items[0], a).value;
      var xs := RebaseItems(items[1..], a).value;
      assert RebaseItems(items, a).value == [x] + xs;
      assert ([x] + xs)[1..] == xs;
      RebaseAdditive(items[0], a, b);
      RebaseItemsAdditive(items[1..], a, b);
    }
  }

  lemma {:induction false} RebaseEntryAdditive(x: Value, a: int, b: int)
    requires RebaseEntry(x, a).Success?
    requires RebaseEntry(RebaseEntry(x, a).value, b).Success?
    ensures RebaseEntry(x, a + b) == RebaseEntry(RebaseEntry(x, a).value, b)
    decreases x, 2
  {
    if x.Str? && |x.s| == 19 {
      var s1 := ShiftText(x.s, a).value;
      assert RebaseEntry(x, a).value == Str(s1);
      ShiftTextLength(x.s, a);
      ShiftTextAdditive(x.s, a, b);
    } else {
      var y := RebaseValue(x, a).value;
      assert !(y.Str? && |y.s| == 19);
      RebaseAdditive(x, a, b);
    }
  }

  lemma {:induction false} RebaseFieldsAdditive(fields: seq<Field>, a: int, b: int)
    requires RebaseFields(fields, a).Success?
    requires RebaseFields(RebaseFields(fields, a).value, b).Success?
    ensures RebaseFields(fields, a + b) == RebaseFields(RebaseFields(fields, a).value, b)
    decreases fields, 0
  {
    if fields != [] {
      var f := fields[0];
      assert f.value < f;
      var x := RebaseEntry(f.value, a).value;
      var fs := RebaseFields(fields[1..], a).value;
      assert RebaseFields(fields, a).value == [Field(f.key, x)] + fs;
      assert ([Field(f.key, x)] + fs)[1..] == fs;
      RebaseEntryAdditive(f.value, a, b);
      RebaseFieldsAdditive(fields[1..], a, b);
    }
  }

  /** A rebased tree rebased back by the opposite number of days is the original. */
  lemma RebaseInverse(v: Value, a: int)
    requires RebaseValue(v, a).Success?
    requires RebaseValue(RebaseValue(v, a).value, -a).Success?
    ensures RebaseValue(RebaseValue(v, a).value, -a) == Success(v)
  {
    RebaseAdditive(v, a, -a);
    RebaseZeroIdentity(v);
  }

  /** The requested date of the worked example, 2026-03-01. */
  const ExampleDate: Date := Date(2026, 3, 1)

  lemma ExampleDays()
    ensures DayNumber(CanonicalDate) == 738885
    ensures DayNumber(ExampleDate) == 739675
    ensures AddDays(CanonicalDate, 790) == ExampleDate
  {
    assert YearOf(739675) == 2026;
    assert MonthOf(2026, 59) == 3;
    assert DaysBeforeYear(2026) == 739616;
    assert DaysBeforeMonth(2026, 3) == 59;
  }

  /** 2026-03-01 lies 790 days after the canonical date 2024-01-01:
      366 days of the leap year 2024, 365 of 2025 and 59 of 2026. */
  lemma ExampleDelta()
    ensures DaysBetween(CanonicalDate, ExampleDate) == 790
  {
    ExampleDays();
  }

  /** Requesting 2026-03-01 rebases by 790 days. */
  lemma ExampleRequest(v: Value)
    ensures OffsetCachedDates(v, FormatDate(ExampleDate)) == RebaseValue(v, 790)
  {
    ParseFormatDate(ExampleDate);
    ExampleDelta();
  }

  /** A written-out timestamp moves to the written-out shifted timestamp. */
  lemma ShiftFormatted(t: DateTime, delta: int)
    requires RepresentableTime(t) && InYearRange(ShiftDays(t, delta).date)
    ensures ShiftText(FormatTimestamp(t), delta) == Success(FormatTimestamp(ShiftDays(t, delta)))
  {
    ParseFormatTimestamp(t);
  }

  /** A one-element list is rebased through its element. */
  lemma RebaseSingleton(x: Value, y: Value, delta: int)
    requires RebaseValue(x, delta) == Success(y)
    ensures RebaseValue(List([x]), delta) == Success(List([y]))
  {
    assert [x][1..] == [];
    assert RebaseItems([x][1..], delta) == Success([]);
    assert [y] + [] == [y];
    assert RebaseItems([x], delta) == Success([y]);
  }

  /** A two-field object is rebased field by field, keys kept. */
  lemma RebasePair(k1: string, x1: Value, y1: Value, k2: string, x2: Value, y2: Value, delta: int)
    requires RebaseEntry(x1, delta) == Success(y1)
    requires RebaseEntry(x2, delta) == Success(y2)
    ensures RebaseFields([Field(k1, x1), Field(k2, x2)], delta) == Success([Field(k1, y1), Field(k2, y2)])
  {
    var fs := [Field(k1, x1), Field(k2, x2)];
    assert fs[1..] == [Field(k2, x2)];
    assert fs[1..][1..] == [];
    assert RebaseFields(fs[1..], delta) == Success([Field(k2, y2)] + []);
    assert [Field(k2, y2)] + [] == [Field(k2, y2)];
    assert [Field(k1, y1)] + [Field(k2, y2)] == [Field(k1, y1), Field(k2, y2)];
  }

  /** A route object's departure moves by the rebase's day count and a train
      number beside it is untouched. */
  lemma RebaseDepartureBesideTrain(departure: DateTime, trainNumber: string, delta: int)
    requires RepresentableTime(departure) && InYearRange(ShiftDays(departure, delta).date)
    requires |trainNumber| != 19
    ensures RebaseValue(
              List([Obj([Field("departure", Str(FormatTimestamp(departure))),
                         Field("train_number", Str(trainNumber))])]),
              delta)
         == Success(List([Obj([Field("departure", Str(FormatTimestamp(ShiftDays(departure, delta)))),
                               Field("train_number", Str(trainNumber))])]))
  {
    var s := FormatTimestamp(departure);
    var s2 := FormatTimestamp(ShiftDays(departure, delta));
    ShiftFormatted(departure, delta);
    assert RebaseEntry(Str(s), delta) == Success(Str(s2));
    assert RebaseEntry(Str(trainNumber), delta) == Success(Str(trainNumber));
    RebasePair("departure", Str(s), Str(s2), "train_number", Str(trainNumber), Str(trainNumber), delta);
    RebaseSingleton(Obj([Field("departure", Str(s)), Field("train_number", Str(trainNumber))]),
                    Obj([Field("departure", Str(s2)), Field("train_number", Str(trainNumber))]), delta);
  }

  /** A cached route object whose departure is a time of day on the canonical
      date, requested for any representable date, comes back departing at the
      same time of day on the requested date; the train number beside it is
      untouched. */
  lemma RebaseToDate(target: Date, hour: int, minute: int, second: int, trainNumber: string)
    requires Representable(target)
    requires 0 <= hour < 24 && 0 <= minute < 60 && 0 <= second < 60
    requires |trainNumber| != 19
    ensures OffsetCachedDates(
              List([Obj([Field("departure", Str(FormatTimestamp(DateTime(CanonicalDate, hour, minute, second)))),
                         Field("train_number", Str(trainNumber))])]),
              FormatDate(target))
         == Success(List([Obj([Field("departure", Str(FormatTimestamp(DateTime(target, hour, minute, second)))),
                               Field("train_number", Str(trainNumber))])]))
  {
    var dep := DateTime(CanonicalDate, hour, minute, second);
    var delta := DaysBetween(CanonicalDate, target);
    var moved := ShiftDays(dep, delta);
    DayNumberInjective(moved.date, target);
    assert moved == DateTime(target, hour, minute, second);
    RebaseDepartureBesideTrain(dep, trainNumber, delta);
    ParseFormatDate(target);
  }
}
