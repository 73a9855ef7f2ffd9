# Travel plan editor — Dafny model

This project models the state logic of the "Create your travel plan" page of
a client-side travel planner. The page lets the user search a fixed catalog
of destinations, pick one, and assemble a trip plan. The plan holds dates,
duration, group size, a male/female head count, a flight origin and
destination, and the accommodations and activities chosen from the picked
destination's suggestions.

Every handler of the page is modelled as a pure function from the old state
to the new one:

- the search effect;
- destination selection;
- set-like add and remove of accommodations and activities, keyed by name;
- the add/remove toggle in the suggestion grid;
- the text-field updater with its `parent.child` names;
- the validated people counter.

A page-level `Step` function applies one user event. Events from controls
that are not on screen have no effect. `Inv` is an invariant proved for
every state reachable from the initial page. It says:

- the result list is the one the query produces;
- a selected destination comes from the catalog;
- people counts are non-negative;
- no two chosen entries share a name;
- nothing is chosen before a destination is selected;
- after selection, the plan's city is the destination's city and every
  choice is one of its suggestions.

Modules, one per concern:

- `Text` (text.dfy): ASCII `trim`, `toLowerCase` and `includes`.
- `Seqs` (seqs.dfy): an order-preserving filter and the subsequence relation.
- `Catalog` (catalog.dfy): catalog entries.
- `Search` (search.dfy): the search effect.
- `Keyed` (keyed.dfy): name-keyed set-like lists.
- `Plan` (plan.dfy): the plan record and its handlers.
- `Editor` (editor.dfy): page state, events and the invariant.
- `Wrappers` (wrappers.dfy): `Option`.

The catalog data module (`client/src/data/destinationData`) is not part of
this model. Every operation that reads the catalog takes it as a parameter.

The code tests `query.trim() === ""`, so a whitespace-only query also shows nothing.
`Text.IsBlank` states this test as "every character is whitespace", and
`Text.BlankIffTrimEmpty` proves that it agrees with `Text.Trim(s) == []`.
The code then matches with the untrimmed query, so surrounding spaces take
part in the match (`Search.QuerySpacesMustMatch`, `Search.TrailingSpaceFindsNothing`).

## Model

| member | source | states |
|---|---|---|
| Text.ToLower | client/src/pages/Create.jsx:39 | `toLowerCase` keeps the length, folds every character, and leaves no upper-case letter |
| Text.Trim | client/src/pages/Create.jsx:35 | `trim` returns a contiguous slice with only whitespace around it, neither starting nor ending with whitespace |
| Text.BlankIffTrimEmpty | client/src/pages/Create.jsx:35 | the blank test used by the model (every character is whitespace) holds exactly when `trim()` of the query is the empty string |
| Text.ToLowerKeepsSpaces | client/src/pages/Create.jsx:39 | lower-casing neither adds nor removes whitespace characters |
| Text.NotBlankWhenStartsWithNonSpace | client/src/pages/Create.jsx:35 | a query starting with a non-space character is not blank |
| Text.Includes | client/src/pages/Create.jsx:39 | `includes` is true exactly when the needle occurs at some position of the haystack |
| Text.MissingCharNotIncluded | client/src/pages/Create.jsx:39 | a needle with a character the haystack lacks is not included |
| Seqs.Filter | client/src/pages/Create.jsx:38-40 | `filter` keeps exactly the elements satisfying the predicate, with every occurrence, and nothing else |
| Seqs.FilterIsSubseq | client/src/pages/Create.jsx:38-40 | `filter` keeps the input order: the result is a subsequence of the input |
| Seqs.FilterAppend | client/src/pages/Create.jsx:38-40 | filtering a concatenation is concatenating the filtered parts |
| Seqs.FilterKeepsAll | client/src/pages/Create.jsx:74-76 | when every element passes, `filter` returns its input unchanged |
| Seqs.FilterIdempotent | client/src/pages/Create.jsx:74-76 | filtering twice by the same predicate equals filtering once |
| Search.Results | client/src/pages/Create.jsx:34-43 | a blank query gives no results; otherwise the results are exactly the catalog entries whose lower-cased city includes the lower-cased query, with all copies |
| Search.ResultsInCatalogOrder | client/src/pages/Create.jsx:38-41 | the results are a subsequence of the catalog |
| Search.MatchIgnoresQueryCase | client/src/pages/Create.jsx:39 | lower-casing the query first does not change which cities match |
| Search.QuerySpacesMustMatch | client/src/pages/Create.jsx:35-39 | the match uses the untrimmed query: any whitespace in the query must occur in the city of every result |
| Search.SetQuery | client/src/pages/Create.jsx:34-43 | typing replaces the query and keeps the selection; the new result list is empty for a blank query, and otherwise holds exactly the matching catalog entries, each as often as in the catalog, in catalog order |
| Search.ParFindsParis | client/src/pages/Create.jsx:34-43 | the query "par" against Paris and Rome finds Paris only |
| Search.TrailingSpaceFindsNothing | client/src/pages/Create.jsx:35-39 | the non-blank query "par " finds nothing in the same catalog |
| Keyed.Insert | client/src/pages/Create.jsx:59-68 | add-if-absent: a present key leaves the list unchanged, an absent one is appended; the key is present afterwards and unique keys stay unique |
| Keyed.Remove | client/src/pages/Create.jsx:71-78 | remove-by-key: the key is gone, every entry with another key remains with its multiplicity, unique keys stay unique, and an absent key changes nothing |
| Keyed.FilterKeepsUnique | client/src/pages/Create.jsx:71-78 | filtering a list whose keys are unique keeps them unique |
| Keyed.RemoveKeepsOrder | client/src/pages/Create.jsx:71-78 | removal keeps the remaining entries in their original order |
| Keyed.RemoveIdempotent | client/src/pages/Create.jsx:71-78 | removing a key twice equals removing it once |
| Keyed.InsertThenRemove | client/src/pages/Create.jsx:59-78 | adding an absent entry and removing its key restores the list |
| Plan.SetField | client/src/pages/Create.jsx:101-119 | the written field reads back the value; every other text field, the counts and the choices are unchanged (for `flight.from`/`flight.to` the sibling is kept) |
| Plan.SetFieldToCurrent | client/src/pages/Create.jsx:101-119 | writing a field's current value back changes nothing |
| Plan.SetFieldTwice | client/src/pages/Create.jsx:101-119 | a second write to the same field overrides the first |
| Plan.SetFieldCommutes | client/src/pages/Create.jsx:101-119 | writes to different fields commute |
| Plan.FirstDot | client/src/pages/Create.jsx:104 | locates the first '.' of a name, or reports that there is none |
| Plan.UpToDot | client/src/pages/Create.jsx:105 | the first `split(".")` piece is a dot-free prefix that is the whole string or is followed by a '.' |
| Plan.ParseName | client/src/pages/Create.jsx:104-105 | splitting an input name at its dots: a name that addresses a field names it exactly or extends it, and it addresses a flight field exactly when it contains a dot (see also `Plan.ParseFieldName` and `Plan.ParsedNameIsFieldName`) |
| Plan.ParseFieldName | client/src/pages/Create.jsx:223-378 | the `name` of every form input parses back to the field the input shows |
| Plan.ParsedNameIsFieldName | client/src/pages/Create.jsx:104-105 | a name that parses to a field is that field's name, or a flight field's name followed by ignored ".…" pieces |
| Plan.InputChange | client/src/pages/Create.jsx:101-119 | the handler writes exactly the field the name addresses and nothing else; names addressing no text field give `None` |
| Plan.InputChangeWritesBoundField | client/src/pages/Create.jsx:223-378 | editing a form input writes exactly its bound field |
| Plan.PeopleChange | client/src/pages/Create.jsx:122-132 | a negative value leaves the plan unchanged; otherwise only the named counter takes the value; the other counter and all other fields are kept and non-negative counts stay non-negative |
| Plan.AddAccommodation | client/src/pages/Create.jsx:59-68 | an already-present name leaves the plan unchanged; otherwise the accommodation is appended; nothing else changes and no duplicate names appear |
| Plan.RemoveAccommodation | client/src/pages/Create.jsx:71-78 | every accommodation with the name is dropped and every other one remains with its multiplicity; an absent name changes nothing; nothing else changes |
| Plan.AddActivity | client/src/pages/Create.jsx:81-88 | as for accommodations, on the activities list |
| Plan.RemoveActivity | client/src/pages/Create.jsx:91-98 | every activity with the name is dropped and every other one remains with its multiplicity; an absent name changes nothing; nothing else changes |
| Plan.RemoveKeepsOrder | client/src/pages/Create.jsx:71-98 | both removals keep the surviving entries in order |
| Plan.RemoveIdempotent | client/src/pages/Create.jsx:71-98 | both removals are idempotent |
| Plan.ToggleAccommodation | client/src/pages/Create.jsx:420-445 | the grid button flips the name's membership: an unselected entry is appended; a selected name is dropped while every other entry remains with its multiplicity and in its original order; only the accommodations change |
| Plan.ToggleActivity | client/src/pages/Create.jsx:516-541 | the activity grid button flips the name's membership: an unselected entry is appended; a selected name is dropped while every other entry remains with its multiplicity and in its original order; only the activities change |
| Plan.AccommodationRoundTrip | client/src/pages/Create.jsx:59-78 | for an unselected accommodation, add-then-remove and toggling twice both restore the plan |
| Plan.ActivityRoundTrip | client/src/pages/Create.jsx:81-98 | the same round trips for activities |
| Editor.SelectDestination | client/src/pages/Create.jsx:46-56 | selecting sets the selection and the city, empties both choice lists, clears the query and results, and keeps dates, duration, group size, people and flight |
| Editor.PickResultAt | client/src/pages/Create.jsx:178-185 | clicking an existing result selects it, sets the plan's city to its city, clears the search box and the chosen suggestions and keeps every other plan field; an index past the list does nothing |
| Editor.EditText | client/src/pages/Create.jsx:223-231 | a text edit writes its field, except that the city input is disabled once a destination is selected |
| Editor.PressSuggestedAccommodation | client/src/pages/Create.jsx:385-447 | with a destination selected, the `i`-th grid button flips its suggestion's membership (appending it, or dropping its name and keeping every other entry with its multiplicity and in order) and changes nothing else; without a selection or past the grid it does nothing |
| Editor.PressSuggestedActivity | client/src/pages/Create.jsx:481-543 | with a destination selected, the `i`-th activity grid button flips its suggestion's membership (appending it, or dropping its name and keeping every other entry with its multiplicity and in order) and changes nothing else; without a selection or past the grid it does nothing |
| Editor.DropChosenAccommodation | client/src/pages/Create.jsx:450-476 | with a destination selected, the `i`-th remove button drops every accommodation named like the `i`-th entry, keeps every other entry with its multiplicity and in order, and changes nothing else; otherwise it does nothing |
| Editor.DropChosenActivity | client/src/pages/Create.jsx:546-572 | with a destination selected, the `i`-th remove button of the activity summary drops every activity named like the `i`-th entry, keeps every other entry with its multiplicity and in order, and changes nothing else; otherwise it does nothing |
| Editor.Step | client/src/pages/Create.jsx:46-56 | only picking a result changes the selection, a selection is never undone, and saving leaves the page unchanged |
| Editor.InitialInv | client/src/pages/Create.jsx:19-31 | the initial page satisfies the invariant |
| Editor.AddAccommodationFits | client/src/pages/Create.jsx:432-433 | adding one of the selected destination's suggestions keeps the chosen accommodations among its suggestions |
| Editor.AddActivityFits | client/src/pages/Create.jsx:528-529 | the same for activities |
| Editor.DropAccommodationFits | client/src/pages/Create.jsx:71-78 | removal keeps chosen accommodations among the selected destination's suggestions |
| Editor.DropActivityFits | client/src/pages/Create.jsx:91-98 | removal keeps chosen activities among the selected destination's suggestions |
| Editor.PickKeepsInv | client/src/pages/Create.jsx:46-56 | selecting a result keeps the invariant |
| Editor.EditTextKeepsInv | client/src/pages/Create.jsx:101-119 | text edits keep the invariant (the city stays the selected destination's) |
| Editor.PressAccommodationKeepsInv | client/src/pages/Create.jsx:420-445 | the accommodation grid keeps the invariant |
| Editor.PressActivityKeepsInv | client/src/pages/Create.jsx:516-541 | the activity grid keeps the invariant |
| Editor.DropAccommodationKeepsInv | client/src/pages/Create.jsx:464-466 | the accommodation summary keeps the invariant |
| Editor.DropActivityKeepsInv | client/src/pages/Create.jsx:560-562 | the activity summary keeps the invariant |
| Editor.StepKeepsInv | client/src/pages/Create.jsx:33-132 | every event keeps the invariant |
| Editor.RunKeepsInv | client/src/pages/Create.jsx:33-132 | any sequence of events keeps the invariant |
| Editor.ReachableInv | client/src/pages/Create.jsx:19-132 | every page reachable from the initial one satisfies the invariant |

## Left out

- `client/src/App.jsx`: a routing table and a theme provider, with no logic to model.
- Rendering, styling and the dark-mode flag are presentation only. The model keeps just the rendering conditions that decide which controls exist: the result list, the disabled city input, and the suggestion and summary panels shown only after a selection.
- Saving the plan (`handleSavePlan`) only logs and shows an alert. It is the `SavePlan` event, which leaves the page unchanged.
- React's state scheduling and batching are not modelled, nor the handlers' reads of a possibly stale `travelPlan`. Each handler is applied to the state left by the previous one.
- The catalog data module is not part of this model. The catalog is a parameter. Its `rating` values are modelled as `real`, since they are only displayed.
- Text.ToLower: folds ASCII letters only, not full Unicode case mapping.
- Text.Trim: strips ASCII whitespace only, not the Unicode space and line-terminator characters JavaScript also strips.
- Plan.PeopleChange: the value is an `int`. JavaScript's coercion of the input string is not modelled: `"" >= 0` is true, `parseInt("")` is NaN, and `"1.5"` truncates to 1.
- Plan.InputChange: names that address no text field give `None`. JavaScript would add a property, or overwrite an existing field with a string or with an object spread from a string (`city.x`, plain `flight`, `people`, `accommodations`, `activities`), which has no counterpart in a typed record. This also covers `people.male` and `people.female`, which the handler would accept but the page never sends.

