/** The travel plan record and the handlers that edit it: the text-field
    updater, the people counters, and set-like add/remove of accommodations
    and activities. Each handler maps the old plan to the new one. */
module Plan {

  import opened Wrappers
  import opened Catalog
  import Keyed
  import Seqs

  datatype People = People(male: int, female: int)

  datatype Flight = Flight(from: string, to: string)

  datatype TravelPlan = TravelPlan(
    city: string,
    dates: string,
    duration: string,
    groupSize: string,
    people: People,
    flight: Flight,
    accommodations: seq<Accommodation>,
    activities: seq<Activity>)

  /** The plan the page starts with: empty text, zero people, no selections. */
  const EmptyPlan := TravelPlan("", "", "", "", People(0, 0), Flight("", ""), [], [])

  // ---------------------------------------------------------------------
  // Text fields

  /** The text fields reachable through the input handler: four top-level
      fields and the two children of `flight`. */
  datatype Field = City | Dates | Duration | GroupSize | FlightFrom | FlightTo

  /** The current text of a field. */
  function Get(p: TravelPlan, f: Field): string {
    match f
    case City => p.city
    case Dates => p.dates
    case Duration => p.duration
    case GroupSize => p.groupSize
    case FlightFrom => p.flight.from
    case FlightTo => p.flight.to
  }

  /** Write one text field. Its new value is read back by `Get`, every other
      text field reads as before, and the people counts and the selections
      are untouched; for a `flight` child the sibling child is kept. */
  function SetField(p: TravelPlan, f: Field, v: string): (r: TravelPlan)
    ensures Get(r, f) == v
    ensures forall g :: g != f ==> Get(r, g) == Get(p, g)
    ensures r.people == p.people
    ensures r.accommodations == p.accommodations && r.activities == p.activities
  {
    match f
    case City => p.(city := v)
    case Dates => p.(dates := v)
    case Duration => p.(duration := v)
    case GroupSize => p.(groupSize := v)
    case FlightFrom => p.(flight := p.flight.(from := v))
    case FlightTo => p.(flight := p.flight.(to := v))
  }

  /** Writing a field's current value back changes nothing. */
  lemma {:induction false} SetFieldToCurrent(p: TravelPlan, f: Field)
    ensures SetField(p, f, Get(p, f)) == p
  {
    match f
    case City =>
    case Dates =>
    case Duration =>
    case GroupSize =>
    case FlightFrom =>
    case FlightTo =>
  }

  /** A second write to the same field overrides the first. */
  lemma SetFieldTwice(p: TravelPlan, f: Field, a: string, b: string)
    ensures SetField(SetField(p, f, a), f, b) == SetField(p, f, b)
  {
  }

  /** Writes to different fields commute. */
  lemma SetFieldCommutes(p: TravelPlan, f: Field, g: Field, a: string, b: string)
    requires f != g
    ensures SetField(SetField(p, f, a), g, b) == SetField(SetField(p, g, b), f, a)
  {
  }

  /** The `name` attribute of the input bound to each field. */
  function FieldName(f: Field): string {
    match f
    case City => "city"
    case Dates => "dates"
    case Duration => "duration"
    case GroupSize => "groupSize"
    case FlightFrom => "flight.from"
    case FlightTo => "flight.to"
  }

  predicate IsFlightField(f: Field) {
    f == FlightFrom || f == FlightTo
  }

  /** Position of the first '.' in `s`, if any. */
  function FirstDot(s: string): (r: Option<nat>)
    ensures r.None? <==> '.' !in s
    ensures r.Some? ==> r.value < |s| && s[r.value] == '.' && '.' !in s[..r.value]
  {
    if s == [] then None
    else if s[0] == '.' then Some(0)
    else
      assert s == [s[0]] + s[1..];
      match FirstDot(s[1..])
      case None => None
      case Some(k) =>
        assert s[..k + 1] == [s[0]] + s[1..][..k];
        Some(k + 1)
  }

  /** The first dot of `a + "." + b`, when `a` has none, follows `a`. */
  lemma FirstDotAfter(a: string, b: string)
    requires '.' !in a
    ensures FirstDot(a + "." + b) == Some(|a|)
  {
    var s := a + "." + b;
    assert s[..|a|] == a && s[|a|] == '.';
  }

  /** The part of `s` before its first '.', or all of `s`. */
  function UpToDot(s: string): (r: string)
    ensures r == s || r + "." <= s
    ensures '.' !in r
  {
    match FirstDot(s)
    case None => s
    case Some(j) =>
      assert s[..j + 1] == s[..j] + ".";
      s[..j]
  }

  /** The field a dot-free name addresses. */
  function TopLevelField(name: string): (r: Option<Field>)
    ensures r.Some? ==> FieldName(r.value) == name && !IsFlightField(r.value)
  {
    if name == "city" then Some(City)
    else if name == "dates" then Some(Dates)
    else if name == "duration" then Some(Duration)
    else if name == "groupSize" then Some(GroupSize)
    else None
  }

  /** The field a `parent.child` pair addresses. */
  function ChildField(parent: string, child: string): (r: Option<Field>)
    ensures r.Some? ==> FieldName(r.value) == parent + "." + child && IsFlightField(r.value)
  {
    if parent == "flight" && child == "from" then Some(FlightFrom)
    else if parent == "flight" && child == "to" then Some(FlightTo)
    else None
  }

  /** The field an input name addresses. A name without a dot is a top-level
      field; a dotted name is split into `parent` (before the first dot) and
      `child` (up to the next dot), as `const [parent, child] =
      name.split(".")` does. Names that address no text field of the plan
      give `None`. */
  function ParseName(name: string): (r: Option<Field>)
    ensures r.Some? ==> (IsFlightField(r.value) <==> '.' in name)
    ensures r.Some? ==> FieldName(r.value) <= name
  {
    if '.' !in name then TopLevelField(name)
    else
      var i := FirstDot(name).value;
      var parent, rest := name[..i], name[i + 1..];
      var child := UpToDot(rest);
      assert parent + "." + child <= name by {
        assert name == parent + "." + rest;
        assert child <= rest;
      }
      ChildField(parent, child)
  }

  /** A dot-free name is looked up among the top-level fields. */
  lemma ParseDotFree(name: string)
    requires '.' !in name
    ensures ParseName(name) == TopLevelField(name)
  {
  }

  /** A `parent.child` name with dot-free parts is looked up as a child. */
  lemma ParseDotted(parent: string, child: string)
    requires '.' !in parent && '.' !in child
    ensures ParseName(parent + "." + child) == ChildField(parent, child)
  {
    var name := parent + "." + child;
    FirstDotAfter(parent, child);
    assert name[..|parent|] == parent;
    assert name[|parent| + 1..] == child;
  }

  /** The four top-level input names parse to their fields. */
  lemma TopLevelNamesParse()
    ensures ParseName("city") == Some(City) && ParseName("dates") == Some(Dates)
    ensures ParseName("duration") == Some(Duration) && ParseName("groupSize") == Some(GroupSize)
  {
    ParseDotFree("city");
    ParseDotFree("dates");
    ParseDotFree("duration");
    ParseDotFree("groupSize");
  }

  /** The two flight input names parse to their fields. */
  lemma FlightNamesParse()
    ensures ParseName("flight.from") == Some(FlightFrom) && ParseName("flight.to") == Some(FlightTo)
  {
    ParseDotted("flight", "from");
    ParseDotted("flight", "to");
  }

  /** Every input's name parses back to its own field. */
  lemma ParseFieldName(f: Field)
    ensures ParseName(FieldName(f)) == Some(f)
  {
    TopLevelNamesParse();
    FlightNamesParse();
  }

  /** `p.c.…` starts with `p.c.` when `c.` starts `rest`. */
  lemma DottedPrefix(parent: string, child: string, rest: string)
    requires child + "." <= rest
    ensures parent + "." + child + "." <= parent + "." + rest
  {
    var long := parent + "." + rest;
    var short := parent + "." + child + ".";
    assert |short| <= |long|;
    forall j | 0 <= j < |short|
      ensures short[j] == long[j]
    {
      if j > |parent| {
        assert short[j] == (child + ".")[j - |parent| - 1];
        assert long[j] == rest[j - |parent| - 1];
      }
    }
  }

  /** A name that parses to a field is that field's name, except that a
      dotted name may carry further ".…" segments, which are ignored. */
  lemma ParsedNameIsFieldName(name: string, f: Field)
    requires ParseName(name) == Some(f)
    ensures name == FieldName(f) || (IsFlightField(f) && FieldName(f) + "." <= name)
  {
    if '.' in name {
      var i := FirstDot(name).value;
      SplitParts(name, i);
      ParsedPartsAreFieldName(name[..i], name[i + 1..], f);
    }
  }

  /** A name splits around its first dot. */
  lemma SplitParts(name: string, i: int)
    requires 0 <= i < |name| && name[i] == '.'
    ensures name == name[..i] + "." + name[i + 1..]
  {
  }

  /** The dotted case of `ParsedNameIsFieldName`, on the split name. */
  lemma ParsedPartsAreFieldName(parent: string, rest: string, f: Field)
    requires ChildField(parent, UpToDot(rest)) == Some(f)
    ensures parent + "." + rest == FieldName(f) || (IsFlightField(f) && FieldName(f) + "." <= parent + "." + rest)
  {
    var child := UpToDot(rest);
    if child != rest {
      DottedPrefix(parent, child, rest);
    }
  }

  /** The input handler: the event's `name` selects the field to overwrite
      with `value`. `None` when the name addresses no text field. */
  function InputChange(p: TravelPlan, name: string, value: string): (r: Option<TravelPlan>)
    ensures r.Some? <==> ParseName(name).Some?
    ensures r.Some? ==> Get(r.value, ParseName(name).value) == value
    ensures r.Some? ==> forall g :: g != ParseName(name).value ==> Get(r.value, g) == Get(p, g)
    ensures r.Some? ==> r.value.people == p.people
    ensures r.Some? ==> r.value.accommodations == p.accommodations && r.value.activities == p.activities
  {
    match ParseName(name)
    case None => None
    case Some(f) => Some(SetField(p, f, value))
  }

  /** Editing an input of the form writes exactly the field it is bound to. */
  lemma InputChangeWritesBoundField(p: TravelPlan, f: Field, value: string)
    ensures InputChange(p, FieldName(f), value) == Some(SetField(p, f, value))
  {
    ParseFieldName(f);
  }

  // ---------------------------------------------------------------------
  // People counters

  datatype Gender = Male | Female

  function OtherGender(g: Gender): Gender {
    match g
    case Male => Female
    case Female => Male
  }

  function Count(p: TravelPlan, g: Gender): int {
    match g
    case Male => p.people.male
    case Female => p.people.female
  }

  predicate CountsNonNegative(p: TravelPlan) {
    p.people.male >= 0 && p.people.female >= 0
  }

  /** The counter handler: a negative value is ignored; otherwise only the
      named counter takes the value. */
  function PeopleChange(p: TravelPlan, g: Gender, value: int): (r: TravelPlan)
    ensures value < 0 ==> r == p
    ensures value >= 0 ==> Count(r, g) == value
    ensures Count(r, OtherGender(g)) == Count(p, OtherGender(g))
    ensures r.(people := p.people) == p
    ensures CountsNonNegative(p) ==> CountsNonNegative(r)
  {
    if value >= 0 then
      match g
      case Male => p.(people := p.people.(male := value))
      case Female => p.(people := p.people.(female := value))
    else p
  }

  // ---------------------------------------------------------------------
  // Selected accommodations and activities

  /** No two selected accommodations, and no two selected activities, share
      a name. */
  predicate NoDuplicateNames(p: TravelPlan) {
    && Keyed.UniqueKeys(p.accommodations, AccommodationName)
    && Keyed.UniqueKeys(p.activities, ActivityName)
  }

  predicate HasAccommodation(p: TravelPlan, name: string) {
    Keyed.HasKey(p.accommodations, AccommodationName, name)
  }

  predicate HasActivity(p: TravelPlan, name: string) {
    Keyed.HasKey(p.activities, ActivityName, name)
  }

  /** Add an accommodation unless one with its name is already selected. */
  function AddAccommodation(p: TravelPlan, a: Accommodation): (r: TravelPlan)
    ensures HasAccommodation(p, a.name) ==> r == p
    ensures !HasAccommodation(p, a.name) ==> r.accommodations == p.accommodations + [a]
    ensures r.(accommodations := p.accommodations) == p
    ensures HasAccommodation(r, a.name)
    ensures NoDuplicateNames(p) ==> NoDuplicateNames(r)
  {
    p.(accommodations := Keyed.Insert(p.accommodations, AccommodationName, a))
  }

  /** Remove every selected accommodation named like `a`. */
  function RemoveAccommodation(p: TravelPlan, a: Accommodation): (r: TravelPlan)
    ensures !HasAccommodation(r, a.name)
    ensures forall x :: x in r.accommodations <==> x in p.accommodations && x.name != a.name
    ensures forall x :: multiset(r.accommodations)[x] == if x.name != a.name then multiset(p.accommodations)[x] else 0
    ensures !HasAccommodation(p, a.name) ==> r == p
    ensures r.(accommodations := p.accommodations) == p
    ensures NoDuplicateNames(p) ==> NoDuplicateNames(r)
  {
    p.(accommodations := Keyed.Remove(p.accommodations, AccommodationName, a.name))
  }

  /** Add an activity unless one with its name is already selected. */
  function AddActivity(p: TravelPlan, a: Activity): (r: TravelPlan)
    ensures HasActivity(p, a.name) ==> r == p
    ensures !HasActivity(p, a.name) ==> r.activities == p.activities + [a]
    ensures r.(activities := p.activities) == p
    ensures HasActivity(r, a.name)
    ensures NoDuplicateNames(p) ==> NoDuplicateNames(r)
  {
    p.(activities := Keyed.Insert(p.activities, ActivityName, a))
  }

  /** Remove every selected activity named like `a`. */
  function RemoveActivity(p: TravelPlan, a: Activity): (r: TravelPlan)
    ensures !HasActivity(r, a.name)
    ensures forall x :: x in r.activities <==> x in p.activities && x.name != a.name
    ensures forall x :: multiset(r.activities)[x] == if x.name != a.name then multiset(p.activities)[x] else 0
    ensures !HasActivity(p, a.name) ==> r == p
    ensures r.(activities := p.activities) == p
    ensures NoDuplicateNames(p) ==> NoDuplicateNames(r)
  {
    p.(activities := Keyed.Remove(p.activities, ActivityName, a.name))
  }

  /** Removal keeps the surviving selections in their original order. */
  lemma RemoveKeepsOrder(p: TravelPlan, a: Accommodation, b: Activity)
    ensures Seqs.IsSubseq(RemoveAccommodation(p, a).accommodations, p.accommodations)
    ensures Seqs.IsSubseq(RemoveActivity(p, b).activities, p.activities)
  {
    Keyed.RemoveKeepsOrder(p.accommodations, AccommodationName, a.name);
    Keyed.RemoveKeepsOrder(p.activities, ActivityName, b.name);
  }

  /** Removing the same name twice is removing it once. */
  lemma RemoveIdempotent(p: TravelPlan, a: Accommodation, b: Activity)
    ensures RemoveAccommodation(RemoveAccommodation(p, a), a) == RemoveAccommodation(p, a)
    ensures RemoveActivity(RemoveActivity(p, b), b) == RemoveActivity(p, b)
  {
    Keyed.RemoveIdempotent(p.accommodations, AccommodationName, a.name);
    Keyed.RemoveIdempotent(p.activities, ActivityName, b.name);
  }

  /** The grid's button for a suggestion: remove when its name is selected,
      add otherwise. Either way the name's membership flips. */
  function ToggleAccommodation(p: TravelPlan, a: Accommodation): (r: TravelPlan)
    ensures HasAccommodation(r, a.name) <==> !HasAccommodation(p, a.name)
    ensures !HasAccommodation(p, a.name) ==> r.accommodations == p.accommodations + [a]
    ensures HasAccommodation(p, a.name) ==>
      forall x :: x in r.accommodations <==> x in p.accommodations && x.name != a.name
    ensures HasAccommodation(p, a.name) ==>
      forall x :: multiset(r.accommodations)[x] == if x.name != a.name then multiset(p.accommodations)[x] else 0
    ensures HasAccommodation(p, a.name) ==> Seqs.IsSubseq(r.accommodations, p.accommodations)
    ensures r.(accommodations := p.accommodations) == p
    ensures NoDuplicateNames(p) ==> NoDuplicateNames(r)
  {
    if HasAccommodation(p, a.name) then
      Keyed.RemoveKeepsOrder(p.accommodations, AccommodationName, a.name);
      RemoveAccommodation(p, a)
    else AddAccommodation(p, a)
  }

  /** The grid's button for an activity suggestion, as for accommodations. */
  function ToggleActivity(p: TravelPlan, a: Activity): (r: TravelPlan)
    ensures HasActivity(r, a.name) <==> !HasActivity(p, a.name)
    ensures !HasActivity(p, a.name) ==> r.activities == p.activities + [a]
    ensures HasActivity(p, a.name) ==>
      forall x :: x in r.activities <==> x in p.activities && x.name != a.name
    ensures HasActivity(p, a.name) ==>
      forall x :: multiset(r.activities)[x] == if x.name != a.name then multiset(p.activities)[x] else 0
    ensures HasActivity(p, a.name) ==> Seqs.IsSubseq(r.activities, p.activities)
    ensures r.(activities := p.activities) == p
    ensures NoDuplicateNames(p) ==> NoDuplicateNames(r)
  {
    if HasActivity(p, a.name) then
      Keyed.RemoveKeepsOrder(p.activities, ActivityName, a.name);
      RemoveActivity(p, a)
    else AddActivity(p, a)
  }

  /** Adding an unselected accommodation and removing it again restores the
      plan; so does pressing its grid button twice. */
  lemma AccommodationRoundTrip(p: TravelPlan, a: Accommodation)
    requires !HasAccommodation(p, a.name)
    ensures RemoveAccommodation(AddAccommodation(p, a), a) == p
    ensures ToggleAccommodation(ToggleAccommodation(p, a), a) == p
  {
    Keyed.InsertThenRemove(p.accommodations, AccommodationName, a);
  }

  /** The same round trip for activities. */
  lemma ActivityRoundTrip(p: TravelPlan, a: Activity)
    requires !HasActivity(p, a.name)
    ensures RemoveActivity(AddActivity(p, a), a) == p
    ensures ToggleActivity(ToggleActivity(p, a), a) == p
  {
    Keyed.InsertThenRemove(p.activities, ActivityName, a);
  }

}
