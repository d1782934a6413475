/** Durations of months, days and nanoseconds: printing, parsing the standard format, and that one undoes the other. */
module Durations {
  import opened Basics

  const MAX32 := 0x7fff_ffff
  const MAX64 := 0x7fff_ffff_ffff_ffff

  datatype Duration = Duration(months: int, days: int, nanoseconds: int)

  // ---------------------------------------------------------------- units

  datatype Counter = Months | Days | Nanoseconds

  datatype Unit = Nanosecond | Microsecond | Millisecond | Second | Minute | Hour | Day | Week | Month | Year {
    /** Larger units have larger indices. */
    function Index(): nat {
      match this
      case Nanosecond => 0
      case Microsecond => 1
      case Millisecond => 2
      case Second => 3
      case Minute => 4
      case Hour => 5
      case Day => 6
      case Week => 7
      case Month => 8
      case Year => 9
    }

    function Factor(): nat {
      match this
      case Nanosecond => 1
      case Microsecond => 1000
      case Millisecond => 1000_000
      case Second => 1000_000_000
      case Minute => 60_000_000_000
      case Hour => 3600_000_000_000
      case Day => 1
      case Week => 7
      case Month => 1
      case Year => 12
    }

    function Counts(): Counter {
      match this
      case Day => Days
      case Week => Days
      case Month => Months
      case Year => Months
      case _ => Nanoseconds
    }

    function ShortName(): string {
      match this
      case Nanosecond => "ns"
      case Microsecond => "us"
      case Millisecond => "ms"
      case Second => "s"
      case Minute => "m"
      case Hour => "h"
      case Day => "d"
      case Week => "w"
      case Month => "mo"
      case Year => "y"
    }
  }

  function Get(d: Duration, c: Counter): int {
    match c
    case Months => d.months
    case Days => d.days
    case Nanoseconds => d.nanoseconds
  }

  function Plus(d: Duration, c: Counter, n: int): Duration {
    match c
    case Months => d.(months := d.months + n)
    case Days => d.(days := d.days + n)
    case Nanoseconds => d.(nanoseconds := d.nanoseconds + n)
  }

  /** The largest value of the counter's type. */
  function Limit(c: Counter): nat {
    if c == Nanoseconds then MAX64 else MAX32
  }

  // ---------------------------------------------------------------- the builder

  datatype Builder = Builder(duration: Duration, current: Option<Unit>)

  const Fresh := Builder(Duration(0, 0, 0), None)

  ghost predicate InRange(d: Duration) {
    0 <= d.months <= MAX32 && 0 <= d.days <= MAX32 && 0 <= d.nanoseconds <= MAX64
  }

  /** `add`: none stands for the exception on a count that does not fit or on a unit out of order. */
  function Added(b: Builder, count: nat, unit: Unit): Option<Builder>
    requires InRange(b.duration)
  {
    if count > (Limit(unit.Counts()) - Get(b.duration, unit.Counts())) / unit.Factor() then None
    else if b.current.Some? && unit.Index() >= b.current.value.Index() then None
    else Some(Builder(Plus(b.duration, unit.Counts(), count * unit.Factor()), Some(unit)))
  }

  /** An accepted count fits its counter, and only that counter grows, by the count in its terms. */
  lemma AddedInRange(b: Builder, count: nat, unit: Unit)
    requires InRange(b.duration)
    ensures Added(b, count, unit).Some? ==> InRange(Added(b, count, unit).value.duration)
    ensures Added(b, count, unit).Some? <==>
      && Get(b.duration, unit.Counts()) + count * unit.Factor() <= Limit(unit.Counts())
      && (b.current.Some? ==> unit.Index() < b.current.value.Index())
  {
    FitsQuotient(count, unit.Factor(), Limit(unit.Counts()) - Get(b.duration, unit.Counts()));
  }

  lemma FitsQuotient(count: nat, factor: nat, room: nat)
    requires factor > 0
    ensures count <= room / factor <==> count * factor <= room
  {
    var q, r := room / factor, room % factor;
    assert room == q * factor + r;
    if count <= q {
      assert count * factor <= q * factor;
    } else {
      assert count * factor >= (q + 1) * factor;
    }
  }

  /** `duration_builder`. */
  class DurationBuilder {
    var months: int
    var days: int
    var nanoseconds: int
    var current: Option<Unit>

    ghost function Value(): Builder
      reads this
    {
      Builder(Duration(months, days, nanoseconds), current)
    }

    ghost predicate Valid()
      reads this
    {
      InRange(Value().duration)
    }

    constructor ()
      ensures Valid() && Value() == Fresh
    {
      months, days, nanoseconds, current := 0, 0, 0, None;
    }

    method Add(count: nat, unit: Unit) returns (ok: bool)
      requires Valid()
      modifies this
      ensures Valid() && ok == Added(old(Value()), count, unit).Some?
      ensures Value() == if ok then Added(old(Value()), count, unit).value else old(Value())
    {
      AddedInRange(Value(), count, unit);
      var counter := unit.Counts();
      var here := if counter == Months then months else if counter == Days then days else nanoseconds;
      var available := (Limit(counter) - here) / unit.Factor();
      if count > available {
        return false;
      }
      if current.Some? && (unit.Index() == current.value.Index() || unit.Index() > current.value.Index()) {
        return false;
      }
      current := Some(unit);
      match counter {
        case Months => months := months + count * unit.Factor();
        case Days => days := days + count * unit.Factor();
        case Nanoseconds => nanoseconds := nanoseconds + count * unit.Factor();
      }
      ok := true;
    }
  }

  // ---------------------------------------------------------------- numbers

  predicate IsDigit(c: char) {
    '0' <= c <= '9'
  }

  function Digits(n: nat): (s: string)
    ensures s != [] && forall c :: c in s ==> IsDigit(c)
  {
    if n < 10 then ['0' + n as char] else Digits(n / 10) + ['0' + (n % 10) as char]
  }

  function NumberOf(s: string): nat
    requires forall c :: c in s ==> IsDigit(c)
  {
    if s == [] then 0 else NumberOf(s[..|s| - 1]) * 10 + DigitValue(s[|s| - 1])
  }

  function DigitValue(c: char): nat
    requires IsDigit(c)
  {
    c as int - '0' as int
  }

  lemma {:induction false} NumberOfDigits(n: nat)
    ensures NumberOf(Digits(n)) == n
  {
    if n >= 10 {
      NumberOfDigits(n / 10);
      var s := Digits(n);
      assert s[..|s| - 1] == Digits(n / 10);
    } else {
      assert Digits(n)[..0] == [];
    }
  }

  /** The digits at the front. */
  function Leading(s: string): (r: string)
    ensures |r| <= |s| && s[..|r|] == r && forall c :: c in r ==> IsDigit(c)
    ensures |r| < |s| ==> !IsDigit(s[|r|])
  {
    if s == [] || !IsDigit(s[0]) then [] else [s[0]] + Leading(s[1..])
  }

  lemma {:induction false} LeadingIs(digits: string, rest: string)
    requires forall c :: c in digits ==> IsDigit(c)
    requires rest != [] ==> !IsDigit(rest[0])
    ensures Leading(digits + rest) == digits
  {
    if digits == [] {
      assert digits + rest == rest;
    } else {
      assert (digits + rest)[1..] == digits[1..] + rest;
      LeadingIs(digits[1..], rest);
    }
  }

  // ---------------------------------------------------------------- parsing the standard format

  function Lower(c: char): char {
    if 'A' <= c <= 'Z' then c - 'A' + 'a' else c
  }

  /** The 26 letters from code 65 on are folded to those 32 further on, and nothing else is changed. */
  lemma LowerFolds(c: char)
    ensures Lower(c) as int == c as int + if 65 <= c as int < 65 + 26 then 32 else 0
  {
  }

  /** The first alternative of the pattern that the string begins with, and its length. */
  function UnitAt(s: string): (r: Option<(Unit, nat)>)
    ensures r.Some? ==> 1 <= r.value.1 <= |s|
  {
    if s == [] then None
    else
      var a := Lower(s[0]);
      var b := if |s| > 1 then Lower(s[1]) else '\0';
      if a == 'y' then Some((Year, 1))
      else if a == 'm' && b == 'o' then Some((Month, 2))
      else if a == 'w' then Some((Week, 1))
      else if a == 'd' then Some((Day, 1))
      else if a == 'h' then Some((Hour, 1))
      else if a == 's' then Some((Second, 1))
      else if a == 'm' && b == 's' then Some((Millisecond, 2))
      else if a == 'u' && b == 's' then Some((Microsecond, 2))
      else if a == '\U{b5}' && b == 's' then Some((Microsecond, 2))
      else if a == 'n' && b == 's' then Some((Nanosecond, 2))
      else if a == 'm' then Some((Minute, 1))
      else None
  }

  /** A match of the pattern at the front: the count, the unit and the length of the match. */
  function Match(s: string): (r: Option<(nat, Unit, nat)>)
    ensures r.Some? ==> 2 <= r.value.2 <= |s|
  {
    var digits := Leading(s);
    var unit := UnitAt(s[|digits|..]);
    if digits == [] || unit.None? then None else Some((NumberOf(digits), unit.value.0, |digits| + unit.value.1))
  }

  /** What is built from the rest of the string. */
  function ParseFrom(s: string, b: Builder): Option<Duration>
    requires InRange(b.duration)
    decreases |s|
  {
    match Match(s)
    case None => if s == [] then Some(b.duration) else None
    case Some((count, unit, n)) =>
      if count > MAX64 then None
      else
        AddedInRange(b, count, unit);
        match Added(b, count, unit)
        case None => None
        case Some(next) => ParseFrom(s[n..], next)
  }

  /** `parse_duration_standard_format`. */
  method ParseStandardFormat(s: string) returns (d: Option<Duration>)
    ensures d == ParseFrom(s, Fresh)
  {
    hide Match;
    var iter := 0;
    var b := new DurationBuilder();
    assert s[0..] == s;
    var m := Match(s);
    while m.Some?
      invariant iter <= |s| && m == Match(s[iter..]) && b.Valid()
      invariant ParseFrom(s[iter..], b.Value()) == ParseFrom(s, Fresh)
      decreases |s| - iter
    {
      var (count, unit, n) := m.value;
      if count > MAX64 {
        return None;
      }
      var ok := b.Add(count, unit);
      if !ok {
        return None;
      }
      assert s[iter..][n..] == s[iter + n..];
      iter := iter + n;
      m := Match(s[iter..]);
    }
    if iter != |s| {
      return None;
    }
    d := Some(Duration(b.months, b.days, b.nanoseconds));
  }

  function Negated(d: Duration): Duration {
    Duration(-d.months, -d.days, -d.nanoseconds)
  }

  function Body(s: string): string {
    if s != [] && s[0] == '-' then s[1..] else s
  }

  // ---------------------------------------------------------------- parsing the ISO formats

  datatype Part = Part(count: nat, unit: Unit)

  /** The counts added one after the other. */
  function AddAll(parts: seq<Part>, b: Builder): Option<Duration>
    requires InRange(b.duration)
  {
    if parts == [] then Some(b.duration)
    else if parts[0].count > MAX64 then None
    else
      AddedInRange(b, parts[0].count, parts[0].unit);
      match Added(b, parts[0].count, parts[0].unit)
      case None => None
      case Some(next) => AddAll(parts[1..], next)
  }

  datatype Field = Field(unit: Unit, letter: char)

  const DateFields := [Field(Year, 'Y'), Field(Month, 'M'), Field(Day, 'D')]
  const TimeFields := [Field(Hour, 'H'), Field(Minute, 'M'), Field(Second, 'S')]

  /** The optional fields in their order, and what follows them. */
  function FieldsOf(s: string, fields: seq<Field>): (r: (seq<Part>, string)) {
    if fields == [] then ([], s)
    else
      var digits := Leading(s);
      if digits != [] && |digits| < |s| && s[|digits|] == fields[0].letter then
        var (parts, rest) := FieldsOf(s[|digits| + 1..], fields[1..]);
        ([Part(NumberOf(digits), fields[0].unit)] + parts, rest)
      else FieldsOf(s, fields[1..])
  }

  /** `P[n]Y[n]M[n]D[T[n]H[n]M[n]S]`, all specifiers optional. */
  function ParseIso(s: string): Option<Duration>
    requires s != []
  {
    var (date, rest) := FieldsOf(s[1..], DateFields);
    if rest == [] then AddAll(date, Fresh)
    else if rest[0] != 'T' then None
    else
      var (time, end) := FieldsOf(rest[1..], TimeFields);
      if end == [] then AddAll(date + time, Fresh) else None
  }

  predicate AllDigits(s: string) {
    forall c :: c in s ==> IsDigit(c)
  }

  /** `PYYYY-MM-DDThh:mm:ss`, all specifiers mandatory. */
  function ParseAlternative(s: string): Option<Duration> {
    if |s| == 20 && s[5] == '-' && s[8] == '-' && s[11] == 'T' && s[14] == ':' && s[17] == ':'
      && AllDigits(s[1..5]) && AllDigits(s[6..8]) && AllDigits(s[9..11])
      && AllDigits(s[12..14]) && AllDigits(s[15..17]) && AllDigits(s[18..20])
    then
      AddAll([Part(NumberOf(s[1..5]), Year), Part(NumberOf(s[6..8]), Month), Part(NumberOf(s[9..11]), Day),
              Part(NumberOf(s[12..14]), Hour), Part(NumberOf(s[15..17]), Minute), Part(NumberOf(s[18..20]), Second)], Fresh)
    else None
  }

  /** `P[n]W`. */
  function ParseWeeks(s: string): Option<Duration>
    requires s != []
  {
    var digits := Leading(s[1..]);
    if digits != [] && s[1..] == digits + "W" then AddAll([Part(NumberOf(digits), Week)], Fresh) else None
  }

  /** `parse_duration`: which of the formats it is. */
  function ParseDuration(s: string): Option<Duration> {
    if s == [] then None
    else if s[0] == 'P' then
      if s[|s| - 1] == 'W' then ParseWeeks(s)
      else if '-' in s then ParseAlternative(s)
      else ParseIso(s)
    else ParseFrom(s, Fresh)
  }

  /** The constructor from a string. */
  function Parse(s: string): Option<Duration> {
    match ParseDuration(Body(s))
    case None => None
    case Some(d) => Some(if s != [] && s[0] == '-' then Negated(d) else d)
  }

  // ---------------------------------------------------------------- printing

  /** A component as it is printed, if there is a whole one. */
  function Shown(count: nat, unit: Unit): string {
    if count < unit.Factor() then [] else Digits(count / unit.Factor()) + unit.ShortName()
  }

  function Rest(count: nat, unit: Unit): nat {
    if count < unit.Factor() then count else count % unit.Factor()
  }

  function Abs(x: int): nat {
    if x < 0 then -x else x
  }

  /** The count of each of the units, from the largest to the smallest, in what the larger ones leave. */
  function ShownAll(count: nat, units: seq<Unit>): string {
    if units == [] then [] else Shown(count, units[0]) + ShownAll(Rest(count, units[0]), units[1..])
  }

  const MonthUnits := [Year, Month]
  const DayUnits := [Day]
  const NanosecondUnits := [Hour, Minute, Second, Millisecond, Microsecond, Nanosecond]

  /** `operator<<`. */
  function Print(d: Duration): string {
    (if d.months < 0 || d.days < 0 || d.nanoseconds < 0 then "-" else "") + PrintSize(d)
  }

  function PrintSize(d: Duration): string {
    ShownAll(Abs(d.months), MonthUnits) + ShownAll(Abs(d.days), DayUnits) + ShownAll(Abs(d.nanoseconds), NanosecondUnits)
  }

  /** `append`. */
  method Append(os: string, count: nat, unit: Unit) returns (after: string, rest: nat)
    ensures after == os + Shown(count, unit) && rest == Rest(count, unit)
  {
    if count == 0 || count < unit.Factor() {
      assert os + [] == os;
      return os, count;
    }
    after := os + Digits(count / unit.Factor()) + unit.ShortName();
    assert after == os + (Digits(count / unit.Factor()) + unit.ShortName());
    rest := count % unit.Factor();
  }

  method AppendAll(os: string, count: nat, units: seq<Unit>) returns (after: string)
    ensures after == os + ShownAll(count, units)
  {
    hide Shown, Rest;
    after := os;
    var rest := count;
    assert units[0..] == units;
    for i := 0 to |units|
      invariant after + ShownAll(rest, units[i..]) == os + ShownAll(count, units)
    {
      ghost var before := after;
      ghost var shown, tail := Shown(rest, units[i]), ShownAll(Rest(rest, units[i]), units[i + 1..]);
      assert units[i..][1..] == units[i + 1..];
      assert before + (shown + tail) == before + shown + tail;
      after, rest := Append(after, rest, units[i]);
    }
    assert after + [] == after;
  }

  /** The stream operator. */
  method PrintTo(d: Duration) returns (os: string)
    ensures os == Print(d)
  {
    hide ShownAll;
    os := "";
    if d.months < 0 || d.days < 0 || d.nanoseconds < 0 {
      os := os + "-";
    }
    os := AppendAll(os, Abs(d.months), MonthUnits);
    os := AppendAll(os, Abs(d.days), DayUnits);
    os := AppendAll(os, Abs(d.nanoseconds), NanosecondUnits);
  }

  // ---------------------------------------------------------------- parsing what was printed

  ghost predicate Numeric(s: string) {
    s == [] || IsDigit(s[0])
  }

  lemma {:induction false} ShownNumeric(count: nat, units: seq<Unit>)
    ensures Numeric(ShownAll(count, units))
  {
    if units != [] {
      ShownNumeric(Rest(count, units[0]), units[1..]);
      if count >= units[0].Factor() {
        var digits := Digits(count / units[0].Factor());
        assert ShownAll(count, units)[0] == digits[0] && digits[0] in digits;
      }
    }
  }

  /** A unit's name is recognised before a number or at the end. */
  lemma UnitRecognised(unit: Unit, rest: string)
    requires Numeric(rest)
    ensures UnitAt(unit.ShortName() + rest) == Some((unit, |unit.ShortName()|))
  {
    var name := unit.ShortName();
    assert (name + rest)[0] == name[0];
    assert |name| == 2 ==> (name + rest)[1] == name[1];
    assert |name| == 1 && rest != [] ==> (name + rest)[1] == rest[0];
  }

  lemma Matched(n: nat, unit: Unit, rest: string)
    requires Numeric(rest)
    ensures var text := Digits(n) + unit.ShortName();
      Match(text + rest) == Some((n, unit, |text|))
  {
    hide UnitAt, Leading, NumberOf, Digits, Unit.ShortName;
    var digits, name := Digits(n), unit.ShortName();
    NotDigit(unit);
    assert digits + name + rest == digits + (name + rest) && (name + rest)[0] == name[0];
    LeadingIs(digits, name + rest);
    NumberOfDigits(n);
    UnitRecognised(unit, rest);
    assert (digits + (name + rest))[|digits|..] == name + rest;
  }

  lemma NotDigit(unit: Unit)
    ensures unit.ShortName() != [] && !IsDigit(unit.ShortName()[0])
  {
  }

  ghost predicate Below(b: Builder, units: seq<Unit>) {
    forall u :: u in units && b.current.Some? ==> u.Index() < b.current.value.Index()
  }

  ghost predicate Descending(units: seq<Unit>, c: Counter) {
    && (forall u :: u in units ==> u.Counts() == c)
    && (forall i, j :: 0 <= i < j < |units| ==> units[i].Index() > units[j].Index())
  }

  function Left(count: nat, units: seq<Unit>): (r: nat)
    ensures r <= count
  {
    if units == [] then count else
      assert Rest(count, units[0]) <= count;
      Left(Rest(count, units[0]), units[1..])
  }

  lemma ParseOne(count: nat, unit: Unit, rest: string, b: Builder) returns (after: Builder)
    requires InRange(b.duration) && Numeric(rest) && Below(b, [unit])
    requires Get(b.duration, unit.Counts()) + count <= Limit(unit.Counts())
    ensures InRange(after.duration) && ParseFrom(Shown(count, unit) + rest, b) == ParseFrom(rest, after)
    ensures after.duration == Plus(b.duration, unit.Counts(), count - Rest(count, unit))
    ensures after.current == b.current || after.current == Some(unit)
  {
    if count < unit.Factor() {
      assert [] + rest == rest;
      return b;
    }
    hide Match, Digits, ParseFrom, InRange, Plus, Get, Added, Numeric;
    var n := count / unit.Factor();
    var text := Shown(count, unit);
    Matched(n, unit, rest);
    WholePart(count, unit);
    assert unit in [unit];
    AddedInRange(b, n, unit);
    AddedIs(b, n, unit);
    after := Added(b, n, unit).value;
    assert (text + rest)[|text|..] == rest;
    assert Limit(unit.Counts()) <= MAX64;
    GetNatural(b, unit.Counts());
    ParseStep(text + rest, b, n, unit, |text|);
  }

  lemma AddedIs(b: Builder, count: nat, unit: Unit)
    requires InRange(b.duration) && Added(b, count, unit).Some?
    ensures Added(b, count, unit).value == Builder(Plus(b.duration, unit.Counts(), count * unit.Factor()), Some(unit))
  {
  }

  lemma GetNatural(b: Builder, c: Counter)
    requires InRange(b.duration)
    ensures Get(b.duration, c) >= 0
  {
  }

  lemma ParseStep(s: string, b: Builder, count: nat, unit: Unit, n: nat)
    requires InRange(b.duration) && Match(s) == Some((count, unit, n)) && count <= MAX64 && n <= |s|
    requires Added(b, count, unit).Some? && InRange(Added(b, count, unit).value.duration)
    ensures ParseFrom(s, b) == ParseFrom(s[n..], Added(b, count, unit).value)
  {
  }

  lemma GetPlus(d: Duration, c: Counter, m: int, n: int)
    ensures Get(Plus(d, c, m), c) == Get(d, c) + m && Plus(Plus(d, c, m), c, n) == Plus(d, c, m + n) && Plus(d, c, 0) == d
  {
  }

  lemma WholePart(count: nat, unit: Unit)
    ensures var n := count / unit.Factor();
      n * unit.Factor() == count - count % unit.Factor() && n <= count
  {
    match unit
    case Nanosecond =>
    case Microsecond =>
    case Millisecond =>
    case Second =>
    case Minute =>
    case Hour =>
    case Day =>
    case Week =>
    case Month =>
    case Year =>
  }

  lemma {:induction false} ParseAll(count: nat, units: seq<Unit>, c: Counter, rest: string, b: Builder) returns (after: Builder)
    requires InRange(b.duration) && Numeric(rest) && Descending(units, c) && Below(b, units)
    requires Get(b.duration, c) + count <= Limit(c)
    ensures InRange(after.duration) && ParseFrom(ShownAll(count, units) + rest, b) == ParseFrom(rest, after)
    ensures after.duration == Plus(b.duration, c, count - Left(count, units))
    ensures after.current == b.current || (after.current.Some? && after.current.value in units)
    decreases |units|
  {
    hide ParseFrom, Shown, Rest, Plus, Get, InRange, Numeric;
    if units == [] {
      assert [] + rest == rest;
      GetPlus(b.duration, c, 0, 0);
      return b;
    }
    var u, more := units[0], units[1..];
    var next := Rest(count, u);
    ShownNumeric(next, more);
    NumericConcat(ShownAll(next, more), rest);
    RestAtMost(count, u);
    var tail := ShownAll(next, more) + rest;
    var mid := ParseOne(count, u, tail, b);
    GetPlus(b.duration, c, count - next, next - Left(next, more));
    assert ShownAll(count, units) + rest == Shown(count, u) + tail;
    assert forall v :: v in more ==> v in units;
    after := ParseAll(next, more, c, rest, mid);
  }

  lemma NumericConcat(a: string, b: string)
    requires Numeric(a) && Numeric(b)
    ensures Numeric(a + b)
  {
  }

  lemma RestAtMost(count: nat, u: Unit)
    ensures Rest(count, u) <= count
  {
  }

  lemma NothingLeft(count: nat)
    ensures Left(count, MonthUnits) == 0 && Left(count, DayUnits) == 0 && Left(count, NanosecondUnits) == 0
  {
    LeftLast(count, MonthUnits);
    LeftLast(count, DayUnits);
    LeftLast(count, NanosecondUnits);
  }

  lemma {:induction false} LeftLast(count: nat, units: seq<Unit>)
    requires units != [] && units[|units| - 1].Factor() == 1
    ensures Left(count, units) == 0
  {
    if |units| == 1 {
      assert units[1..] == [];
    } else {
      LeftLast(Rest(count, units[0]), units[1..]);
    }
  }

  ghost predicate Representable(d: Duration) {
    Abs(d.months) <= MAX32 && Abs(d.days) <= MAX32 && Abs(d.nanoseconds) <= MAX64
  }

  function Size(d: Duration): Duration {
    Duration(Abs(d.months), Abs(d.days), Abs(d.nanoseconds))
  }

  lemma ParsePrinted(d: Duration)
    requires Representable(d)
    ensures ParseFrom(PrintSize(d), Fresh) == Some(Size(d))
  {
    hide ParseFrom, ShownAll, Descending, Left, Numeric;
    var months := ShownAll(Abs(d.months), MonthUnits);
    var days := ShownAll(Abs(d.days), DayUnits);
    var nanoseconds := ShownAll(Abs(d.nanoseconds), NanosecondUnits);
    ShownNumeric(Abs(d.days), DayUnits);
    ShownNumeric(Abs(d.nanoseconds), NanosecondUnits);
    NumericConcat(days, nanoseconds);
    NothingLeft(Abs(d.months));
    NothingLeft(Abs(d.days));
    NothingLeft(Abs(d.nanoseconds));
    UnitLists();
    var b1 := ParseAll(Abs(d.months), MonthUnits, Months, days + nanoseconds, Fresh);
    var b2 := ParseAll(Abs(d.days), DayUnits, Days, nanoseconds, b1);
    assert Numeric([]) by { ShownNumeric(0, []); ShownNone(); }
    var b3 := ParseAll(Abs(d.nanoseconds), NanosecondUnits, Nanoseconds, [], b2);
    assert nanoseconds + [] == nanoseconds;
    assert PrintSize(d) == months + (days + nanoseconds);
    ParseEnd(b3);
  }

  lemma ShownNone()
    ensures ShownAll(0, []) == []
  {
  }

  lemma UnitLists()
    ensures Descending(MonthUnits, Months) && Descending(DayUnits, Days) && Descending(NanosecondUnits, Nanoseconds)
    ensures forall u :: u in MonthUnits ==> u.Index() > 6
    ensures forall u :: u in DayUnits ==> u.Index() == 6
    ensures forall u :: u in NanosecondUnits ==> u.Index() < 6
  {
  }

  lemma ParseEnd(b: Builder)
    requires InRange(b.duration)
    ensures ParseFrom([], b) == Some(b.duration)
  {
  }

  lemma PrintedShape(d: Duration)
    ensures Numeric(PrintSize(d))
  {
    hide ShownAll;
    ShownNumeric(Abs(d.months), MonthUnits);
    ShownNumeric(Abs(d.days), DayUnits);
    ShownNumeric(Abs(d.nanoseconds), NanosecondUnits);
  }

  predicate OneSigned(d: Duration) {
    || (d.months >= 0 && d.days >= 0 && d.nanoseconds >= 0)
    || (d.months <= 0 && d.days <= 0 && d.nanoseconds <= 0)
  }

  /** A printed duration is parsed back exactly when it is not zero and its parts do not differ in sign. */
  lemma PrintThenParse(d: Duration)
    requires Representable(d)
    ensures Parse(Print(d)) == Some(d) <==> d != Duration(0, 0, 0) && OneSigned(d)
  {
    hide PrintSize, ParseFrom;
    PrintedShape(d);
    ParsePrinted(d);
    assert Body(Print(d)) == PrintSize(d);
    if PrintSize(d) == [] {
      ParseEnd(Fresh);
    } else if d == Duration(0, 0, 0) {
      ZeroPrintsNothing();
    }
  }

  /** One month less a day is printed with one sign for both and read as a month and a day ago. */
  lemma MixedSigns()
    ensures Parse(Print(Duration(1, -1, 0))) == Some(Duration(-1, -1, 0))
  {
    hide PrintSize, ParseFrom;
    var d := Duration(1, -1, 0);
    PrintedShape(d);
    ParsePrinted(d);
    assert Body(Print(d)) == PrintSize(d);
    if PrintSize(d) == [] {
      ParseEnd(Fresh);
    }
  }

  lemma ZeroPrintsNothing()
    ensures PrintSize(Duration(0, 0, 0)) == []
  {
    ZeroShown(MonthUnits);
    ZeroShown(DayUnits);
    ZeroShown(NanosecondUnits);
  }

  lemma {:induction false} ZeroShown(units: seq<Unit>)
    ensures ShownAll(0, units) == []
  {
    if units != [] {
      ZeroShown(units[1..]);
    }
  }

  /** However many counts a string has, none of the counters overflows. */
  lemma {:induction false} ParsedInRange(s: string, b: Builder)
    requires InRange(b.duration)
    ensures ParseFrom(s, b).Some? ==> InRange(ParseFrom(s, b).value)
    decreases |s|
  {
    hide Match, Added, InRange;
    if Match(s).Some? {
      var (count, unit, n) := Match(s).value;
      AddedInRange(b, count, unit);
      if count <= MAX64 && Added(b, count, unit).Some? {
        ParsedInRange(s[n..], Added(b, count, unit).value);
      }
    }
  }

  lemma {:induction false} AddedAllInRange(parts: seq<Part>, b: Builder)
    requires InRange(b.duration)
    ensures AddAll(parts, b).Some? ==> InRange(AddAll(parts, b).value)
    decreases |parts|
  {
    hide Added, InRange;
    if parts != [] {
      AddedInRange(b, parts[0].count, parts[0].unit);
      if Added(b, parts[0].count, parts[0].unit).Some? {
        AddedAllInRange(parts[1..], Added(b, parts[0].count, parts[0].unit).value);
      }
    }
  }

  lemma DurationInRange(s: string)
    ensures ParseDuration(s).Some? ==> InRange(ParseDuration(s).value)
  {
    hide ParseFrom, AddAll, FieldsOf, Leading, NumberOf;
    if s != [] && s[0] == 'P' && ParseDuration(s).Some? {
      var parts := PartsAdded(s);
      AddedAllInRange(parts, Fresh);
    } else {
      ParsedInRange(s, Fresh);
    }
  }

  /** The ISO formats come down to parts that are added. */
  lemma PartsAdded(s: string) returns (parts: seq<Part>)
    requires s != [] && s[0] == 'P' && ParseDuration(s).Some?
    ensures ParseDuration(s) == AddAll(parts, Fresh)
  {
    hide AddAll, FieldsOf, NumberOf;
    if s[|s| - 1] == 'W' {
      parts := [Part(NumberOf(Leading(s[1..])), Week)];
    } else if '-' in s {
      parts := [Part(NumberOf(s[1..5]), Year), Part(NumberOf(s[6..8]), Month), Part(NumberOf(s[9..11]), Day),
                Part(NumberOf(s[12..14]), Hour), Part(NumberOf(s[15..17]), Minute), Part(NumberOf(s[18..20]), Second)];
    } else {
      var (date, rest) := FieldsOf(s[1..], DateFields);
      parts := if rest == [] then date else date + FieldsOf(rest[1..], TimeFields).0;
    }
  }

  /** What was parsed, in whichever format, can be printed and parsed again. */
  lemma ParsedReprints(s: string)
    requires Parse(s).Some? && Parse(s).value != Duration(0, 0, 0)
    ensures Parse(Print(Parse(s).value)) == Parse(s)
  {
    hide ParseDuration, Print;
    DurationInRange(Body(s));
    PrintThenParse(Parse(s).value);
  }

  /** A single count with a unit, as it is written. */
  lemma OneCount(n: nat, unit: Unit)
    requires n * unit.Factor() <= Limit(unit.Counts())
    ensures Parse(Digits(n) + unit.ShortName()) == Some(Plus(Duration(0, 0, 0), unit.Counts(), n * unit.Factor()))
  {
    hide Digits, ParseFrom;
    var parts := [Part(n, unit)];
    assert parts[1..] == [] && StandardText(parts) == Digits(n) + unit.ShortName();
    StandardNumeric(parts);
    StandardStarts(parts);
    StandardAdds(parts, Fresh);
    AddedInRange(Fresh, n, unit);
  }

  /** What the units are worth. */
  lemma UnitsAreWorth(n: nat)
    requires n * 3600_000_000_000 <= MAX64 && n * 12 <= MAX32
    ensures Parse(Digits(n) + "y") == Some(Duration(12 * n, 0, 0)) && Parse(Digits(n) + "mo") == Some(Duration(n, 0, 0))
    ensures Parse(Digits(n) + "w") == Some(Duration(0, 7 * n, 0)) && Parse(Digits(n) + "d") == Some(Duration(0, n, 0))
    ensures Parse(Digits(n) + "h") == Some(Duration(0, 0, n * 60 * 60 * 1000 * 1000 * 1000))
    ensures Parse(Digits(n) + "m") == Some(Duration(0, 0, n * 60 * 1000 * 1000 * 1000))
    ensures Parse(Digits(n) + "s") == Some(Duration(0, 0, n * 1000 * 1000 * 1000))
    ensures Parse(Digits(n) + "ms") == Some(Duration(0, 0, n * 1000 * 1000))
    ensures Parse(Digits(n) + "us") == Some(Duration(0, 0, n * 1000))
    ensures Parse(Digits(n) + "ns") == Some(Duration(0, 0, n))
  {
    hide Parse, Digits;
    OneCount(n, Year);
    OneCount(n, Month);
    OneCount(n, Week);
    OneCount(n, Day);
    OneCount(n, Hour);
    OneCount(n, Minute);
    OneCount(n, Second);
    OneCount(n, Millisecond);
    OneCount(n, Microsecond);
    OneCount(n, Nanosecond);
  }

  // ---------------------------------------------------------------- the formats agree

  /** The parts as they are written in the standard format. */
  function StandardText(parts: seq<Part>): string {
    if parts == [] then [] else Digits(parts[0].count) + parts[0].unit.ShortName() + StandardText(parts[1..])
  }

  lemma {:induction false} StandardNumeric(parts: seq<Part>)
    ensures Numeric(StandardText(parts))
  {
    if parts != [] {
      var digits := Digits(parts[0].count);
      assert StandardText(parts)[0] == digits[0] && digits[0] in digits;
    }
  }

  lemma {:induction false} StandardAdds(parts: seq<Part>, b: Builder)
    requires InRange(b.duration)
    ensures ParseFrom(StandardText(parts), b) == AddAll(parts, b)
    decreases |parts|
  {
    hide Match, Digits, Numeric, Added, InRange;
    if parts == [] {
      ParseEnd(b);
    } else {
      var part, rest := parts[0], StandardText(parts[1..]);
      StandardNumeric(parts[1..]);
      Matched(part.count, part.unit, rest);
      AddedInRange(b, part.count, part.unit);
      var text := Digits(part.count) + part.unit.ShortName();
      assert (text + rest)[|text|..] == rest;
      if Added(b, part.count, part.unit).Some? {
        StandardAdds(parts[1..], Added(b, part.count, part.unit).value);
      }
    }
  }

  ghost predicate Lettered(fields: seq<Field>) {
    && (forall i, j :: 0 <= i < j < |fields| ==> fields[i].letter != fields[j].letter)
    && (forall f :: f in fields ==> 'A' <= f.letter <= 'Z' && f.letter != 'W')
  }

  /** The fields that are given, as they are written in the ISO format. */
  function IsoText(counts: seq<Option<nat>>, fields: seq<Field>): string
    requires |counts| == |fields|
  {
    if fields == [] then []
    else (if counts[0].Some? then Digits(counts[0].value) + [fields[0].letter] else []) + IsoText(counts[1..], fields[1..])
  }

  function PartsOf(counts: seq<Option<nat>>, fields: seq<Field>): seq<Part>
    requires |counts| == |fields|
  {
    if fields == [] then []
    else (if counts[0].Some? then [Part(counts[0].value, fields[0].unit)] else []) + PartsOf(counts[1..], fields[1..])
  }

  ghost predicate Stops(rest: string) {
    rest == [] || rest[0] == 'T'
  }

  lemma NumberThenLetter(n: nat, letter: char, more: string)
    requires 'A' <= letter <= 'Z'
    ensures var s := Digits(n) + [letter] + more;
      Leading(s) == Digits(n) && |Digits(n)| < |s| && s[|Digits(n)|] == letter && s[|Digits(n)| + 1..] == more
  {
    LeadingIs(Digits(n), [letter] + more);
    assert Digits(n) + [letter] + more == Digits(n) + ([letter] + more);
  }

  /** After its number a text has the letter of one of the fields. */
  ghost predicate LetterFollows(s: string, fields: seq<Field>) {
    var n := |Leading(s)|;
    n == 0 || (n < |s| && exists f :: f in fields && f.letter == s[n])
  }

  lemma LetterStops(rest: string, fields: seq<Field>)
    requires Stops(rest)
    ensures LetterFollows(rest, fields)
  {
  }

  lemma LetterLater(s: string, fields: seq<Field>)
    requires fields != [] && LetterFollows(s, fields[1..])
    ensures LetterFollows(s, fields)
  {
    assert forall f :: f in fields[1..] ==> f in fields;
  }

  lemma LetterNow(n: nat, fields: seq<Field>, more: string)
    requires fields != [] && 'A' <= fields[0].letter <= 'Z'
    ensures LetterFollows(Digits(n) + [fields[0].letter] + more, fields)
  {
    NumberThenLetter(n, fields[0].letter, more);
    assert fields[0] in fields;
  }

  lemma {:induction false} FirstLetter(counts: seq<Option<nat>>, fields: seq<Field>, rest: string)
    requires |counts| == |fields| && Lettered(fields) && Stops(rest)
    ensures LetterFollows(IsoText(counts, fields) + rest, fields)
  {
    hide LetterFollows, Digits;
    if fields == [] {
      assert [] + rest == rest;
      LetterStops(rest, fields);
    } else if counts[0].Some? {
      var more := IsoText(counts[1..], fields[1..]) + rest;
      assert fields[0] in fields;
      LetterNow(counts[0].value, fields, more);
      assert IsoText(counts, fields) + rest == Digits(counts[0].value) + [fields[0].letter] + more;
    } else {
      FirstLetter(counts[1..], fields[1..], rest);
      assert IsoText(counts, fields) + rest == IsoText(counts[1..], fields[1..]) + rest;
      LetterLater(IsoText(counts[1..], fields[1..]) + rest, fields);
    }
  }

  lemma {:induction false} FieldsRead(counts: seq<Option<nat>>, fields: seq<Field>, rest: string)
    requires |counts| == |fields| && Lettered(fields) && Stops(rest)
    ensures FieldsOf(IsoText(counts, fields) + rest, fields) == (PartsOf(counts, fields), rest)
  {
    hide Leading, NumberOf, Digits;
    if fields == [] {
      assert [] + rest == rest;
    } else {
      var more := IsoText(counts[1..], fields[1..]) + rest;
      FieldsRead(counts[1..], fields[1..], rest);
      if counts[0].Some? {
        var n := counts[0].value;
        NumberThenLetter(n, fields[0].letter, more);
        NumberOfDigits(n);
        assert IsoText(counts, fields) + rest == Digits(n) + [fields[0].letter] + more;
      } else {
        FirstLetter(counts[1..], fields[1..], rest);
        assert IsoText(counts, fields) + rest == more;
        assert [] + PartsOf(counts[1..], fields[1..]) == PartsOf(counts[1..], fields[1..]);
      }
    }
  }

  ghost predicate Plain(s: string) {
    forall c :: c in s ==> IsDigit(c) || ('A' <= c <= 'Z' && c != 'W')
  }

  lemma {:induction false} IsoPlain(counts: seq<Option<nat>>, fields: seq<Field>)
    requires |counts| == |fields| && Lettered(fields)
    ensures Plain(IsoText(counts, fields))
  {
    if fields != [] {
      IsoPlain(counts[1..], fields[1..]);
    }
  }

  /** A text in the ISO format. */
  function IsoDuration(date: seq<Option<nat>>, time: seq<Option<nat>>, withTime: bool): string
    requires |date| == |time| == 3
  {
    "P" + IsoText(date, DateFields) + (if withTime then "T" + IsoText(time, TimeFields) else "")
  }

  function IsoParts(date: seq<Option<nat>>, time: seq<Option<nat>>, withTime: bool): seq<Part>
    requires |date| == |time| == 3
  {
    PartsOf(date, DateFields) + (if withTime then PartsOf(time, TimeFields) else [])
  }

  lemma IsoAdds(date: seq<Option<nat>>, time: seq<Option<nat>>, withTime: bool)
    requires |date| == |time| == 3
    ensures ParseDuration(IsoDuration(date, time, withTime)) == AddAll(IsoParts(date, time, withTime), Fresh)
  {
    hide FieldsOf, IsoText, PartsOf, AddAll, Leading;
    var s := IsoDuration(date, time, withTime);
    var tail := if withTime then "T" + IsoText(time, TimeFields) else "";
    FieldsLettered();
    FieldsRead(date, DateFields, tail);
    IsoPlain(date, DateFields);
    IsoPlain(time, TimeFields);
    assert s[1..] == IsoText(date, DateFields) + tail;
    assert Plain(s);
    assert s[|s| - 1] in s;
    assert s[0] == 'P';
    if withTime {
      FieldsRead(time, TimeFields, []);
      assert IsoText(time, TimeFields) + [] == IsoText(time, TimeFields);
      assert tail[1..] == IsoText(time, TimeFields);
    } else {
      assert PartsOf(date, DateFields) + [] == PartsOf(date, DateFields);
    }
  }

  lemma FieldsLettered()
    ensures Lettered(DateFields) && Lettered(TimeFields)
  {
  }

  /** The ISO format means what the standard format with the same counts and units means. */
  lemma IsoAgrees(date: seq<Option<nat>>, time: seq<Option<nat>>, withTime: bool)
    requires |date| == |time| == 3 && IsoParts(date, time, withTime) != []
    ensures ParseDuration(IsoDuration(date, time, withTime)) == ParseDuration(StandardText(IsoParts(date, time, withTime)))
  {
    hide AddAll, IsoDuration, ParseFrom, IsoParts;
    var parts := IsoParts(date, time, withTime);
    IsoAdds(date, time, withTime);
    StandardStarts(parts);
    StandardAdds(parts, Fresh);
  }

  lemma StandardStarts(parts: seq<Part>)
    requires parts != []
    ensures StandardText(parts) != [] && StandardText(parts)[0] != 'P'
  {
    StandardNumeric(parts);
  }

  lemma WeeksAgree(n: nat)
    ensures ParseDuration("P" + Digits(n) + "W") == ParseDuration(StandardText([Part(n, Week)]))
  {
    hide Digits, ParseFrom, AddAll, NumberOf;
    var s := "P" + Digits(n) + "W";
    LeadingIs(Digits(n), "W");
    NumberOfDigits(n);
    assert s[1..] == Digits(n) + "W" && s[|s| - 1] == 'W' && s[0] == 'P';
    StandardStarts([Part(n, Week)]);
    StandardAdds([Part(n, Week)], Fresh);
  }

  lemma WeeksAdded(n: nat)
    ensures AddAll([Part(n, Week)], Fresh) == if n * 7 <= MAX32 then Some(Duration(0, n * 7, 0)) else None
  {
    AddedInRange(Fresh, n, Week);
    assert [Part(n, Week)][1..] == [];
  }

  /** A `P...W` is accepted exactly if it is a count of weeks that fits the days, and then it is worth seven days each. */
  lemma WeeksExact(s: string)
    requires s != [] && s[0] == 'P' && s[|s| - 1] == 'W'
    ensures ParseDuration(s).Some? <==>
      && |s| > 2 && AllDigits(s[1..|s| - 1])
      && NumberOf(s[1..|s| - 1]) * 7 <= MAX32
    ensures ParseDuration(s).Some? ==> ParseDuration(s).value == Duration(0, NumberOf(s[1..|s| - 1]) * 7, 0)
  {
    var body, digits := s[1..|s| - 1], Leading(s[1..]);
    assert s[1..] == body + "W";
    if AllDigits(body) {
      LeadingIs(body, "W");
      assert digits == body;
      WeeksAdded(NumberOf(body));
    } else {
      assert s[1..] == digits + "W" ==> body == digits;
    }
  }

  /** A number written with a fixed number of digits. */
  function Padded(n: nat, width: nat): (s: string)
    ensures |s| == width && AllDigits(s)
  {
    if width == 0 then [] else Padded(n / 10, width - 1) + ['0' + (n % 10) as char]
  }

  function Power10(n: nat): nat {
    if n == 0 then 1 else 10 * Power10(n - 1)
  }

  lemma {:induction false} NumberOfPadded(n: nat, width: nat)
    requires n < Power10(width)
    ensures NumberOf(Padded(n, width)) == n
  {
    if width > 0 {
      NumberOfPadded(n / 10, width - 1);
      var s := Padded(n, width);
      assert s[..|s| - 1] == Padded(n / 10, width - 1);
    }
  }

  function AlternativeText(y: nat, mo: nat, d: nat, h: nat, m: nat, s: nat): string {
    "P" + Padded(y, 4) + "-" + Padded(mo, 2) + "-" + Padded(d, 2) + "T" + Padded(h, 2) + ":" + Padded(m, 2) + ":" + Padded(s, 2)
  }

  lemma AlternativeShape(y: nat, mo: nat, d: nat, h: nat, m: nat, s: nat)
    ensures var t := AlternativeText(y, mo, d, h, m, s);
      && |t| == 20 && t[0] == 'P' && t[5] == t[8] == '-' && t[11] == 'T' && t[14] == t[17] == ':' && t[19] in Padded(s, 2)
      && t[1..5] == Padded(y, 4) && t[6..8] == Padded(mo, 2) && t[9..11] == Padded(d, 2)
      && t[12..14] == Padded(h, 2) && t[15..17] == Padded(m, 2) && t[18..20] == Padded(s, 2)
  {
    hide Padded, AllDigits;
  }

  /** So does the alternative ISO format. */
  lemma AlternativeAgrees(y: nat, mo: nat, d: nat, h: nat, m: nat, s: nat)
    requires y < 10000 && mo < 100 && d < 100 && h < 100 && m < 100 && s < 100
    ensures ParseDuration(AlternativeText(y, mo, d, h, m, s)) == ParseDuration(StandardText(
      [Part(y, Year), Part(mo, Month), Part(d, Day), Part(h, Hour), Part(m, Minute), Part(s, Second)]))
  {
    hide Padded, NumberOf, AddAll, ParseFrom, Digits, StandardText, AlternativeText;
    AlternativeShape(y, mo, d, h, m, s);
    assert Power10(2) == 100 && Power10(4) == 10000;
    NumberOfPadded(y, 4);
    NumberOfPadded(mo, 2);
    NumberOfPadded(d, 2);
    NumberOfPadded(h, 2);
    NumberOfPadded(m, 2);
    NumberOfPadded(s, 2);
    var parts := [Part(y, Year), Part(mo, Month), Part(d, Day), Part(h, Hour), Part(m, Minute), Part(s, Second)];
    StandardStarts(parts);
    StandardAdds(parts, Fresh);
  }
}
