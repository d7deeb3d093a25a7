# To-do list model

A Dafny model of the in-memory core of a single-page to-do list. The
application keeps an ordered list of items (`id`, `title`, `completed`) and
a filter segment taken from the route (`all`, `active`, `completed`, or any
other string). Event handlers change the list, and after each change
`render` recomputes the page from the list and the filter.

The repository holds this logic twice. `js/app.js` calls the DOM directly.
`app.js` is the same code inside a `jQuery(function ($) { ... })` wrapper,
with extra `console.log` calls. The model follows `js/app.js`. The matching
ranges in `app.js` are:

| operation | js/app.js | app.js |
|---|---|---|
| `uuid` / `pluralize` | 11-28 | 13-30 |
| `render` / `renderFooter` | 72-109 | 82-123 |
| `toggleAll` | 110-119 | 124-133 |
| `getActiveTodos` / `getCompletedTodos` / `getFilteredTodos` | 120-140 | 134-154 |
| `destroyCompleted` | 141-148 | 155-162 |
| `indexFromEl` | 151-163 | 165-177 |
| `create` | 164-182 | 178-198 |
| `toggle` | 183-191 | 199-207 |
| `editKeyup` | 201-214 | 223-238 |
| `update` | 215-235 | 239-267 |
| `destroy` | 236-242 | 268-274 |

Modules:

- `Util` (util.dfy) holds JavaScript `trim` with the full ECMAScript
  whitespace and line-terminator set, `pluralize`, and `uuid`. The identifier
  generator takes its 32 random draws (`Math.random() * 16 | 0`) as input.
  `UuidFormat` is the 8-4-4-4-12 reference layout. `Uuid` is the generator
  loop as written, proved equal to that layout. The same file declares the
  one-type `Optional` module with `Option`.
- `TodoList` (todolist.dfy) holds the item record, the three queries, and
  the backwards identifier scan of `indexFromEl`.
- `Handlers` (handlers.dfy) holds one pure function per handler. Each takes
  the state and the relevant parts of the event target. Its result is a
  `Reaction`: `Ignored` when the handler returned early, `Rendered(app)` when
  it called `render` on a new state, or `Threw` when it raised a `TypeError`
  before assigning anything.
- `View` (view.dfy) holds the data `render` and `renderFooter` compute: the
  list given to the body template, main-section and footer visibility, the
  toggle-all checkbox, and the footer template's record.
- `Controller` (controller.dfy) holds the listeners `bindEvents` installs,
  as one transition `Step`, plus properties of whole transitions.

Behaviours of the code worth knowing:

- Editing a title down to blank does not delete the item
  (js/app.js:221-223 with 238). `update` calls `destroy(e)` with the edit
  field as target, and `destroy`'s `className === "destroy"` guard fails.
  The list is unchanged and nothing is rendered.
- The main section is shown when the *filtered* list is non-empty
  (js/app.js:73-80).
- An unknown row identifier is not a no-op. `toggle` and `update` throw,
  because they read `todos[undefined]` (js/app.js:187, 230). `destroy`
  removes the first item, because `splice(undefined, 1)` starts at 0
  (js/app.js:239).
- `update` tests whether the edit field has a `data` object at all, not
  whether that object's `abort` flag is set (js/app.js:227). Escape on a
  field whose value was cleared to blank attaches `{abort: true}`
  (js/app.js:209), and `update` then returns at the blank check without
  resetting the flag or rendering (js/app.js:221-223). The field stays open
  with the object attached, so a new title typed there and confirmed with
  Enter is discarded (`StaleAbortDiscardsEdit`,
  `EscapeOnBlankDiscardsNextEnter`).

## Model

| member | source | states |
|---|---|---|
| Util.Trim | js/app.js:167 | the trimmed value is the infix left after removing leading and trailing whitespace; everything removed is whitespace, and the result neither starts nor ends with whitespace |
| Util.TrimEmptyIff | js/app.js:169 | `!val` after trimming holds exactly when the raw value is blank (empty or whitespace only) |
| Util.TrimIdempotent | js/app.js:219 | trimming an already trimmed value changes nothing, so stored titles are fixed points of trim |
| Util.Pluralize | js/app.js:26-28 | the result is the word itself exactly when the count is 1; otherwise it is the word followed by one `s` |
| Util.Variant | js/app.js:21 | the variant digit (draw AND 3, OR 8) is always 8..11 and keeps the low two bits of the draw |
| Util.UuidShape | js/app.js:16-22 | every identifier has 36 characters, hyphens exactly at positions 8, 13, 18 and 23, `4` at 14, one of `8 9 a b` at 19, and lower-case hex elsewhere |
| Util.UuidDigits | js/app.js:16-22 | the digit of loop step j is at position j plus the number of hyphens before it |
| Util.UuidRoundTrip | js/app.js:16-22 | reading the digits back from an identifier recovers every random draw except step 12 (always 4) and the top bits of step 16 (low two bits kept, value at least 8) |
| Util.Uuid | js/app.js:11-25 | the generator loop produces the 8-4-4-4-12 layout of the draws, with the version and variant digits in place |
| TodoList.KeepMembers | js/app.js:120-129 | `todos.filter` on the completed flag keeps exactly the items whose flag matches |
| TodoList.KeepIsOrderedSelection | js/app.js:120-129 | the filtered list is the items at the matching positions, in ascending position order: an order-preserving subsequence |
| TodoList.KeepAppend | js/app.js:120-129 | filtering distributes over concatenation of lists |
| TodoList.KeepKeep | js/app.js:120-124 | filtering an already filtered list by the same flag changes nothing |
| TodoList.KeepAllMatch | js/app.js:120-129 | filtering a list whose flags all match returns the whole list |
| TodoList.ActiveCompletedPartition | js/app.js:91-96 | active count plus completed count is the total number of items |
| TodoList.ActiveTodos | js/app.js:120-124 | an item is listed exactly when it is in the list and not completed |
| TodoList.CompletedTodos | js/app.js:125-129 | an item is listed exactly when it is in the list and completed; with the active list it accounts for every item |
| TodoList.FilteredTodos | js/app.js:130-140 | `active` gives the incomplete items, `completed` the completed ones, and any other filter the whole list unchanged |
| TodoList.FilteredIsOrderedSelection | js/app.js:130-137 | for `active` and `completed`, the filtered list is the order-preserving selection of the visible items |
| TodoList.IndexFromEl | js/app.js:151-163 | the scan answers the greatest position holding the identifier, or nothing exactly when no item has it |
| TodoList.HasLastWithId | js/app.js:151-163 | an identifier present in the list has a last occurrence |
| Handlers.Create | js/app.js:164-182 | renders exactly on Enter with a non-blank value; then it appends one item (fresh id, trimmed value, not completed), keeps the earlier items and the filter; otherwise it ignores the event |
| Handlers.ToggleAll | js/app.js:110-119 | every flag becomes the checkbox state; length, order, ids and titles are kept; afterwards no item is active when checked and none completed when unchecked |
| Handlers.Toggle | js/app.js:183-191 | acts only on `toggle` targets; flips the flag at exactly the last position with the row's id; ids, titles and length are unchanged; an unknown row throws |
| Handlers.DestroyCompleted | js/app.js:141-148 | acts only on `clear-completed`; keeps exactly the active items in their original order and sets the filter to `all` |
| Handlers.DestroyCompletedIdempotent | js/app.js:141-148 | clearing completed items twice gives the same state as once |
| Handlers.SpliceOne | js/app.js:239 | `splice(start, 1)` removes exactly the item at `start`, keeping the others in order, and changes nothing when `start` is past the end |
| Handlers.Destroy | js/app.js:236-242 | acts only on `destroy` targets; removes exactly the last item with the row's id, keeping the others in order; with no such item it removes the first item |
| Handlers.Update | js/app.js:215-235 | acts only on `edit` fields; a blank value changes nothing; a field with abort data re-renders unchanged; otherwise only the resolved item's title becomes the trimmed value; an unknown row throws |
| Handlers.EditKeyup | js/app.js:201-233 | Escape on an edit field never changes the list: with a blank value the handler returns without rendering (the field stays open), otherwise it re-renders the unchanged state; Enter behaves as the focus-out update; other keys and targets are ignored |
| Handlers.StaleAbortDiscardsEdit | js/app.js:227-229 | once an edit field carries a `data` object, whatever its abort flag, an update from it leaves the state unchanged |
| Handlers.EscapeOnBlankDiscardsNextEnter | js/app.js:201-235 | Escape on a field cleared to blank does nothing, and a later Enter with a non-blank title on the same field, still carrying `{abort: true}`, re-renders the unchanged state |
| View.Render | js/app.js:72-109 | main section shown iff some item is visible under the filter; toggle-all checked iff every item is completed; footer shown iff the list is non-empty; counts split the list into active and completed; word is `item` iff the active count is 1, else `items` |
| Controller.Step | js/app.js:53-71 | a key-up in the entry field reaches `create`, a change on toggle-all `toggleAll`, a footer click `destroyCompleted`, and a change, key-up, focus-out or click in the list `toggle`, `editKeyup`, `update` or `destroy`; a double-click changes no state |
| Controller.StepPreservesWellFormed | js/app.js:164-242 | if every stored title is trimmed and non-empty before an event, the same holds after it |
| Controller.StepFilterFrame | js/app.js:141-148 | only a click on `clear-completed` changes the filter, and it sets `all` |
| Controller.StepLength | js/app.js:164-182 | only a key-up in the entry field can lengthen the list, by at most one item |
| Controller.StepKeepsIdentifiers | js/app.js:164-242 | every identifier after an event was already present, except the fresh identifier of a created item |
| Controller.StepThrowsOnlyForUnknownRow | js/app.js:183-235 | a handler throws only for a change on a `toggle` checkbox, Enter in an `edit` field, or focus-out of an `edit` field, and only when the row's id is not in the list (on Enter the error comes from the focus-out listener that `blur()` dispatches, and the page reports it) |
| Controller.BuyMilkScenario | js/app.js:164-182 | from an empty list, Enter on `buy milk` yields that single active item, with a footer of 1 active "item", 0 completed, filter `all` |

## Left out

- DOM access is not modelled: element lookup, `innerHTML`, `style.display`, `focus`/`blur` as calls, `classList.add('editing')` (the whole `edit` double-click handler), and `console.log`. An event is a record of the target's id, class, row id, value and abort data.
- The Handlebars templates, the `eq` helper and the `Router` callback are outside libraries. Only the data passed to the footer template is modelled. The filter is a state field set elsewhere.
- `util.store` (localStorage and JSON) is I/O and is not modelled. The persistence write at the end of `render` is not modelled either.
- `Math.random` is not modelled. The 32 draws are an input, and identifier uniqueness is not claimed.
- The abort `data` object lives on the edit-field element between events. The model does not keep it in the state: each event carries the field's current `data`.
- Strings are sequences of Unicode scalar values, not UTF-16 code units. Lone surrogates are not represented.
- `splice` with a negative start never occurs here, so it is not modelled.
- Handlers.Create: clearing the entry field (`input.value = ''`) is not part of the result. It happens exactly when the result is `Rendered`.
