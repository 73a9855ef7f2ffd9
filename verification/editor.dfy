/** The create-plan page as a whole: its search state and plan, the
    destination selection, the events its controls can deliver, and the
    invariant every reachable page state satisfies. */
module Editor {

  import opened Wrappers
  import opened Catalog
  import opened Search
  import opened Plan
  import Keyed
  import Seqs

  datatype Page = Page(search: SearchState, plan: TravelPlan)

  /** The page as first rendered. */
  const Initial := Page(EmptySearch, EmptyPlan)

  /** Clicking a search result: the destination becomes the selection and
      the plan's city, previously chosen suggestions are dropped, the search
      box is cleared, and every other plan field is kept. */
  function SelectDestination(page: Page, d: Destination): (r: Page)
    ensures r.search.selected == Some(d)
    ensures r.search.query == [] && r.search.filtered == []
    ensures r.plan.city == d.city
    ensures r.plan.accommodations == [] && r.plan.activities == []
    ensures r.plan.dates == page.plan.dates && r.plan.duration == page.plan.duration
    ensures r.plan.groupSize == page.plan.groupSize
    ensures r.plan.people == page.plan.people && r.plan.flight == page.plan.flight
  {
    Page(SearchState("", [], Some(d)), page.plan.(city := d.city, accommodations := [], activities := []))
  }

  /** What the user can do on the page. Indexes address the rendered lists:
      the search results, a destination's suggestion grids, and the
      "selected" summaries. */
  datatype Event =
    | TypeQuery(query: string)
    | PickResult(index: nat)
    | EditField(field: Field, value: string)
    | EditCount(gender: Gender, count: int)
    | PressAccommodation(index: nat)
    | PressActivity(index: nat)
    | DropAccommodation(index: nat)
    | DropActivity(index: nat)
    | SavePlan

  /** Clicking the `i`-th search result, if there is one. */
  function PickResultAt(page: Page, i: nat): (r: Page)
    ensures i < |page.search.filtered| ==>
      && r.search.selected == Some(page.search.filtered[i])
      && r.plan.city == page.search.filtered[i].city
      && r.search.query == [] && r.search.filtered == []
      && r.plan.accommodations == [] && r.plan.activities == []
      && r.plan.(city := page.plan.city, accommodations := page.plan.accommodations,
                 activities := page.plan.activities) == page.plan
    ensures i >= |page.search.filtered| ==> r == page
  {
    if i < |page.search.filtered| then SelectDestination(page, page.search.filtered[i]) else page
  }

  /** Typing into a text input of the form. The city input is disabled once
      a destination is selected, so it then delivers nothing. */
  function EditText(page: Page, f: Field, v: string): (r: Page)
    ensures r.search == page.search
    ensures f == City && page.search.selected.Some? ==> r == page
    ensures !(f == City && page.search.selected.Some?) ==> r.plan == SetField(page.plan, f, v)
  {
    if f == City && page.search.selected.Some? then page
    else
      InputChangeWritesBoundField(page.plan, f, v);
      page.(plan := InputChange(page.plan, FieldName(f), v).value)
  }

  /** The grid button of the `i`-th accommodation suggestion of the selected
      destination; the grid is only shown once a destination is selected. */
  function PressSuggestedAccommodation(page: Page, i: nat): (r: Page)
    ensures r.search == page.search
    ensures r.plan.(accommodations := page.plan.accommodations) == page.plan
    ensures page.search.selected.None? ==> r == page
    ensures page.search.selected.Some? && i >= |page.search.selected.value.accommodations| ==> r == page
    ensures page.search.selected.Some? && i < |page.search.selected.value.accommodations| ==>
      var a := page.search.selected.value.accommodations[i];
      && (HasAccommodation(r.plan, a.name) <==> !HasAccommodation(page.plan, a.name))
      && (!HasAccommodation(page.plan, a.name) ==> r.plan.accommodations == page.plan.accommodations + [a])
      && (HasAccommodation(page.plan, a.name) ==>
            forall x :: multiset(r.plan.accommodations)[x] ==
              if x.name != a.name then multiset(page.plan.accommodations)[x] else 0)
      && (HasAccommodation(page.plan, a.name) ==> Seqs.IsSubseq(r.plan.accommodations, page.plan.accommodations))
  {
    match page.search.selected
    case Some(d) =>
      if i < |d.accommodations| then page.(plan := ToggleAccommodation(page.plan, d.accommodations[i]))
      else page
    case None => page
  }

  /** The grid button of the `i`-th activity suggestion. */
  function PressSuggestedActivity(page: Page, i: nat): (r: Page)
    ensures r.search == page.search
    ensures r.plan.(activities := page.plan.activities) == page.plan
    ensures page.search.selected.None? ==> r == page
    ensures page.search.selected.Some? && i >= |page.search.selected.value.activities| ==> r == page
    ensures page.search.selected.Some? && i < |page.search.selected.value.activities| ==>
      var a := page.search.selected.value.activities[i];
      && (HasActivity(r.plan, a.name) <==> !HasActivity(page.plan, a.name))
      && (!HasActivity(page.plan, a.name) ==> r.plan.activities == page.plan.activities + [a])
      && (HasActivity(page.plan, a.name) ==>
            forall x :: multiset(r.plan.activities)[x] ==
              if x.name != a.name then multiset(page.plan.activities)[x] else 0)
      && (HasActivity(page.plan, a.name) ==> Seqs.IsSubseq(r.plan.activities, page.plan.activities))
  {
    match page.search.selected
    case Some(d) =>
      if i < |d.activities| then page.(plan := ToggleActivity(page.plan, d.activities[i]))
      else page
    case None => page
  }

  /** The remove button of the `i`-th entry of the "selected accommodations"
      summary, shown only once a destination is selected. */
  function DropChosenAccommodation(page: Page, i: nat): (r: Page)
    ensures r.search == page.search
    ensures r.plan.(accommodations := page.plan.accommodations) == page.plan
    ensures |r.plan.accommodations| <= |page.plan.accommodations|
    ensures page.search.selected.None? || i >= |page.plan.accommodations| ==> r == page
    ensures page.search.selected.Some? && i < |page.plan.accommodations| ==>
      var n := page.plan.accommodations[i].name;
      && !HasAccommodation(r.plan, n)
      && (forall x :: multiset(r.plan.accommodations)[x] ==
            if x.name != n then multiset(page.plan.accommodations)[x] else 0)
      && Seqs.IsSubseq(r.plan.accommodations, page.plan.accommodations)
  {
    if page.search.selected.Some? && i < |page.plan.accommodations| then
      Keyed.RemoveKeepsOrder(page.plan.accommodations, AccommodationName, page.plan.accommodations[i].name);
      page.(plan := RemoveAccommodation(page.plan, page.plan.accommodations[i]))
    else page
  }

  /** The remove button of the `i`-th entry of the "selected activities"
      summary. */
  function DropChosenActivity(page: Page, i: nat): (r: Page)
    ensures r.search == page.search
    ensures r.plan.(activities := page.plan.activities) == page.plan
    ensures |r.plan.activities| <= |page.plan.activities|
    ensures page.search.selected.None? || i >= |page.plan.activities| ==> r == page
    ensures page.search.selected.Some? && i < |page.plan.activities| ==>
      var n := page.plan.activities[i].name;
      && !HasActivity(r.plan, n)
      && (forall x :: multiset(r.plan.activities)[x] ==
            if x.name != n then multiset(page.plan.activities)[x] else 0)
      && Seqs.IsSubseq(r.plan.activities, page.plan.activities)
  {
    if page.search.selected.Some? && i < |page.plan.activities| then
      Keyed.RemoveKeepsOrder(page.plan.activities, ActivityName, page.plan.activities[i].name);
      page.(plan := RemoveActivity(page.plan, page.plan.activities[i]))
    else page
  }

  /** One event. Controls that are not on screen deliver nothing. Saving
      does not change the page. Only picking a result changes the selection,
      and a selection is never undone. */
  function Step(catalog: seq<Destination>, page: Page, e: Event): (r: Page)
    ensures r.search.selected != page.search.selected ==> e.PickResult?
    ensures page.search.selected.Some? ==> r.search.selected.Some?
    ensures e.SavePlan? ==> r == page
  {
    match e
    case TypeQuery(q) => page.(search := SetQuery(page.search, catalog, q))
    case PickResult(i) => PickResultAt(page, i)
    case EditField(f, v) => EditText(page, f, v)
    case EditCount(g, n) => page.(plan := PeopleChange(page.plan, g, n))
    case PressAccommodation(i) => PressSuggestedAccommodation(page, i)
    case PressActivity(i) => PressSuggestedActivity(page, i)
    case DropAccommodation(i) => DropChosenAccommodation(page, i)
    case DropActivity(i) => DropChosenActivity(page, i)
    case SavePlan => page
  }

  /** A sequence of events, applied in order. */
  function Run(catalog: seq<Destination>, page: Page, events: seq<Event>): Page
    decreases |events|
  {
    if events == [] then page else Run(catalog, Step(catalog, page, events[0]), events[1..])
  }

  /** The chosen suggestions agree with the selection: none without a
      destination; with one, the plan's city is its city and every chosen
      accommodation and activity is one of its suggestions. */
  predicate ChoicesFitSelection(sel: Option<Destination>, p: TravelPlan) {
    match sel
    case None => p.accommodations == [] && p.activities == []
    case Some(d) =>
      && p.city == d.city
      && (forall i :: 0 <= i < |p.accommodations| ==> p.accommodations[i] in d.accommodations)
      && (forall i :: 0 <= i < |p.activities| ==> p.activities[i] in d.activities)
  }

  /** The result list is the one the current query produces. */
  predicate ResultsCurrent(catalog: seq<Destination>, s: SearchState) {
    s.filtered == Results(catalog, s.query)
  }

  /** What holds of every page state the user can reach: the result list is
      the one the current query produces, a selected destination comes from
      the catalog, people counts are non-negative, no two chosen
      accommodations (activities) share a name, and the choices fit the
      selection. */
  predicate Inv(catalog: seq<Destination>, page: Page) {
    && ResultsCurrent(catalog, page.search)
    && (page.search.selected.Some? ==> page.search.selected.value in catalog)
    && CountsNonNegative(page.plan)
    && NoDuplicateNames(page.plan)
    && ChoicesFitSelection(page.search.selected, page.plan)
  }

  /** A page with an empty search, no selection, no choices and
      non-negative counts satisfies the invariant. */
  lemma UnselectedPageInv(catalog: seq<Destination>, page: Page)
    requires page.search.query == [] && page.search.filtered == [] && page.search.selected == None
    requires page.plan.accommodations == [] && page.plan.activities == []
    requires CountsNonNegative(page.plan)
    ensures Inv(catalog, page)
  {
    EmptyQueryShowsNothing(catalog);
    assert ResultsCurrent(catalog, page.search);
  }

  lemma InitialInv(catalog: seq<Destination>)
    ensures Inv(catalog, Initial)
  {
    UnselectedPageInv(catalog, Initial);
  }

  lemma PickKeepsInv(catalog: seq<Destination>, page: Page, i: nat)
    requires Inv(catalog, page)
    ensures Inv(catalog, PickResultAt(page, i))
  {
  }

  lemma EditTextKeepsInv(catalog: seq<Destination>, page: Page, f: Field, v: string)
    requires Inv(catalog, page)
    ensures Inv(catalog, EditText(page, f, v))
  {
  }

  lemma PressAccommodationKeepsInv(catalog: seq<Destination>, page: Page, i: nat)
    requires Inv(catalog, page)
    ensures Inv(catalog, PressSuggestedAccommodation(page, i))
  {
    if page.search.selected.Some? && i < |page.search.selected.value.accommodations| {
      var d := page.search.selected.value;
      var a := d.accommodations[i];
      var r := PressSuggestedAccommodation(page, i);
      assert r == page.(plan := ToggleAccommodation(page.plan, a));
      if HasAccommodation(page.plan, a.name) {
        DropAccommodationFits(d, page.plan, a);
      } else {
        AddAccommodationFits(d, page.plan, a);
      }
      assert ChoicesFitSelection(r.search.selected, r.plan);
    }
  }

  lemma PressActivityKeepsInv(catalog: seq<Destination>, page: Page, i: nat)
    requires Inv(catalog, page)
    ensures Inv(catalog, PressSuggestedActivity(page, i))
  {
    if page.search.selected.Some? && i < |page.search.selected.value.activities| {
      var d := page.search.selected.value;
      var a := d.activities[i];
      var r := PressSuggestedActivity(page, i);
      assert r == page.(plan := ToggleActivity(page.plan, a));
      if HasActivity(page.plan, a.name) {
        DropActivityFits(d, page.plan, a);
      } else {
        AddActivityFits(d, page.plan, a);
      }
      assert ChoicesFitSelection(r.search.selected, r.plan);
    }
  }

  lemma DropAccommodationKeepsInv(catalog: seq<Destination>, page: Page, i: nat)
    requires Inv(catalog, page)
    ensures Inv(catalog, DropChosenAccommodation(page, i))
  {
    if page.search.selected.Some? && i < |page.plan.accommodations| {
      DropAccommodationFits(page.search.selected.value, page.plan, page.plan.accommodations[i]);
    }
  }

  lemma DropActivityKeepsInv(catalog: seq<Destination>, page: Page, i: nat)
    requires Inv(catalog, page)
    ensures Inv(catalog, DropChosenActivity(page, i))
  {
    if page.search.selected.Some? && i < |page.plan.activities| {
      DropActivityFits(page.search.selected.value, page.plan, page.plan.activities[i]);
    }
  }

  /** Adding one of the destination's suggested accommodations keeps the
      choices within its suggestions. */
  lemma AddAccommodationFits(d: Destination, p: TravelPlan, a: Accommodation)
    requires ChoicesFitSelection(Some(d), p) && a in d.accommodations
    ensures ChoicesFitSelection(Some(d), AddAccommodation(p, a))
  {
    var r := AddAccommodation(p, a);
    forall j | 0 <= j < |r.accommodations|
      ensures r.accommodations[j] in d.accommodations
    {
      if j >= |p.accommodations| {
        assert r.accommodations[j] == a;
      }
    }
  }

  /** Adding one of the destination's suggested activities keeps the
      choices within its suggestions. */
  lemma AddActivityFits(d: Destination, p: TravelPlan, a: Activity)
    requires ChoicesFitSelection(Some(d), p) && a in d.activities
    ensures ChoicesFitSelection(Some(d), AddActivity(p, a))
  {
    var r := AddActivity(p, a);
    forall j | 0 <= j < |r.activities|
      ensures r.activities[j] in d.activities
    {
      if j >= |p.activities| {
        assert r.activities[j] == a;
      }
    }
  }

  /** Removing an accommodation keeps the choices within the suggestions. */
  lemma DropAccommodationFits(d: Destination, p: TravelPlan, a: Accommodation)
    requires ChoicesFitSelection(Some(d), p)
    ensures ChoicesFitSelection(Some(d), RemoveAccommodation(p, a))
  {
    var r := RemoveAccommodation(p, a);
    forall j | 0 <= j < |r.accommodations|
      ensures r.accommodations[j] in d.accommodations
    {
      assert r.accommodations[j] in r.accommodations;
    }
  }

  /** Removing an activity keeps the choices within the suggestions. */
  lemma DropActivityFits(d: Destination, p: TravelPlan, a: Activity)
    requires ChoicesFitSelection(Some(d), p)
    ensures ChoicesFitSelection(Some(d), RemoveActivity(p, a))
  {
    var r := RemoveActivity(p, a);
    forall j | 0 <= j < |r.activities|
      ensures r.activities[j] in d.activities
    {
      assert r.activities[j] in r.activities;
    }
  }

  /** Every event keeps the invariant. */
  lemma StepKeepsInv(catalog: seq<Destination>, page: Page, e: Event)
    requires Inv(catalog, page)
    ensures Inv(catalog, Step(catalog, page, e))
  {
    match e
    case TypeQuery(q) =>
    case PickResult(i) => PickKeepsInv(catalog, page, i);
    case EditField(f, v) => EditTextKeepsInv(catalog, page, f, v);
    case EditCount(g, n) =>
    case PressAccommodation(i) => PressAccommodationKeepsInv(catalog, page, i);
    case PressActivity(i) => PressActivityKeepsInv(catalog, page, i);
    case DropAccommodation(i) => DropAccommodationKeepsInv(catalog, page, i);
    case DropActivity(i) => DropActivityKeepsInv(catalog, page, i);
    case SavePlan =>
  }

  /** Every page reachable from the initial one satisfies the invariant. */
  lemma {:induction false} RunKeepsInv(catalog: seq<Destination>, page: Page, events: seq<Event>)
    requires Inv(catalog, page)
    ensures Inv(catalog, Run(catalog, page, events))
    decreases |events|
  {
    if events != [] {
      StepKeepsInv(catalog, page, events[0]);
      RunKeepsInv(catalog, Step(catalog, page, events[0]), events[1..]);
    }
  }

  lemma ReachableInv(catalog: seq<Destination>, events: seq<Event>)
    ensures Inv(catalog, Run(catalog, Initial, events))
  {
    InitialInv(catalog);
    RunKeepsInv(catalog, Initial, events);
  }

}
