/**
 The `App` event handlers that change the list: `create`, `toggleAll`,
 `toggle`, `destroyCompleted`, `editKeyup`, `update` and `destroy`. Each one
 is a pure function of the application state and the event it receives,
 answering whether the handler returned early, re-rendered a new state, or
 threw before changing anything.
 */
module Handlers {
  import opened Optional
  import opened Util
  import opened TodoList

  const EnterKey := 13
  const EscapeKey := 27

  /** The application state: the list and the current filter segment of the route. */
  datatype App = App(todos: seq<Todo>, filter: string)

  /**
   What a handler reads from `e.target`: its `id`, its `className`, the
   `data-id` of its enclosing list row, its `value`, and the `data` property
   the Escape key attaches to an edit field (`None` while unset,
   `Some(abort)` once an object is attached).
   */
  datatype Target = Target(id: string, className: string, rowId: string, value: string, data: Option<bool>)

  /**
   How a handler ends: it returned before doing anything, it called `render`
   on the given state, or it threw a `TypeError` (reading a property of
   `todos[undefined]`) before any assignment.
   */
  datatype Reaction = Ignored | Rendered(app: App) | Threw

  /** The state once a handler has finished. */
  function After(app: App, r: Reaction): App
  {
    if r.Rendered? then r.app else app
  }

  /**
   `create`: on Enter with a value that is not blank, appends one active item
   holding the trimmed value and a fresh identifier drawn from `random`; any
   other key or a blank value returns at once. The input field is cleared
   exactly when the handler renders.
   */
  function Create(app: App, which: int, value: string, random: seq<Nibble>): (r: Reaction)
    requires |random| == 32
    ensures r.Rendered? || r.Ignored?
    ensures r.Rendered? <==> which == EnterKey && !Blank(value)
    ensures r.Rendered? ==>
      && |r.app.todos| == |app.todos| + 1
      && r.app.todos[..|app.todos|] == app.todos
      && r.app.todos[|app.todos|] == Todo(UuidFormat(random), Trim(value), false)
      && r.app.filter == app.filter
  {
    TrimEmptyIff(value);
    var val := Trim(value);
    if which != EnterKey || val == "" then Ignored
    else Rendered(app.(todos := app.todos + [Todo(UuidFormat(random), val, false)]))
  }

  /** Every item with its flag set to `checked`. */
  function SetAll(todos: seq<Todo>, checked: bool): seq<Todo>
  {
    seq(|todos|, i requires 0 <= i < |todos| => todos[i].(completed := checked))
  }

  /**
   `toggleAll`: sets every flag to the checkbox state, keeping the length,
   order, identifiers and titles; afterwards no item is active when checked
   and none is completed when unchecked.
   */
  function ToggleAll(app: App, checked: bool): (r: Reaction)
    ensures r.Rendered? && r.app.filter == app.filter
    ensures |r.app.todos| == |app.todos|
    ensures forall i :: 0 <= i < |app.todos| ==>
      && r.app.todos[i].id == app.todos[i].id
      && r.app.todos[i].title == app.todos[i].title
      && r.app.todos[i].completed == checked
    ensures checked ==> ActiveTodos(r.app.todos) == [] && CompletedTodos(r.app.todos) == r.app.todos
    ensures !checked ==> CompletedTodos(r.app.todos) == [] && ActiveTodos(r.app.todos) == r.app.todos
  {
    var todos := SetAll(app.todos, checked);
    KeepAllMatch(todos, checked);
    KeepMembers(todos, !checked);
    assert Keep(todos, !checked) == [] by {
      if Keep(todos, !checked) != [] {
        assert Keep(todos, !checked)[0] in Keep(todos, !checked);
      }
    }
    Rendered(app.(todos := todos))
  }

  /**
   `toggle`: only for a target of class `toggle`; flips the flag of the last
   item whose identifier is the row's, and nothing else. A row whose
   identifier is not in the list makes the handler throw.
   */
  function Toggle(app: App, t: Target): (r: Reaction)
    ensures t.className != "toggle" ==> r.Ignored?
    ensures t.className == "toggle" && !HasId(app.todos, t.rowId) ==> r.Threw?
    ensures t.className == "toggle" && HasId(app.todos, t.rowId) ==>
      && r.Rendered? && r.app.filter == app.filter
      && |r.app.todos| == |app.todos|
      && forall j :: 0 <= j < |app.todos| ==>
        && r.app.todos[j].id == app.todos[j].id
        && r.app.todos[j].title == app.todos[j].title
        && (r.app.todos[j].completed != app.todos[j].completed <==> IsLastWithId(app.todos, t.rowId, j))
  {
    if t.className != "toggle" then Ignored
    else match IndexFromEl(app.todos, t.rowId)
      case None => Threw
      case Some(i) =>
        var todo := app.todos[i];
        Rendered(app.(todos := app.todos[i := todo.(completed := !todo.completed)]))
  }

  /**
   `destroyCompleted`: only for a click on `clear-completed`; keeps exactly
   the active items, in order, and resets the filter to `all`.
   */
  function DestroyCompleted(app: App, t: Target): (r: Reaction)
    ensures t.id != "clear-completed" ==> r.Ignored?
    ensures t.id == "clear-completed" ==>
      && r.Rendered? && r.app.filter == "all"
      && |r.app.todos| + |CompletedTodos(app.todos)| == |app.todos|
      && (forall x :: x in r.app.todos <==> x in app.todos && !x.completed)
      && |r.app.todos| == |Selected(app.todos, false)|
      && (forall k :: 0 <= k < |r.app.todos| ==>
            Selected(app.todos, false)[k] < |app.todos| && r.app.todos[k] == app.todos[Selected(app.todos, false)[k]])
  {
    if t.id == "clear-completed" then
      ActiveCompletedPartition(app.todos);
      KeepIsOrderedSelection(app.todos, false);
      Rendered(App(ActiveTodos(app.todos), "all"))
    else Ignored
  }

  /** Clearing the completed items a second time changes nothing more. */
  lemma DestroyCompletedIdempotent(app: App, t: Target)
    ensures var once := After(app, DestroyCompleted(app, t));
      After(once, DestroyCompleted(once, t)) == once
  {
    KeepKeep(app.todos, false);
  }

  /** `splice(start, 1)` for a start that is not negative: drops the item at `start`, if any. */
  function SpliceOne(todos: seq<Todo>, start: nat): (r: seq<Todo>)
    ensures start < |todos| ==> RemovedAt(todos, r, start)
    ensures start >= |todos| ==> r == todos
  {
    if start < |todos| then todos[..start] + todos[start + 1..] else todos
  }

  /** `after` is `before` with exactly the item at `m` taken out, the rest in order. */
  predicate RemovedAt(before: seq<Todo>, after: seq<Todo>, m: nat)
  {
    && m < |before|
    && |after| == |before| - 1
    && (forall j :: 0 <= j < m ==> after[j] == before[j])
    && (forall j :: m <= j < |after| ==> after[j] == before[j + 1])
  }

  /**
   `destroy`: only for a target of class `destroy`; removes the last item
   whose identifier is the row's. With no such item `indexFromEl` answers
   `undefined`, which `splice` reads as position 0, so the first item goes.
   */
  function Destroy(app: App, t: Target): (r: Reaction)
    ensures t.className != "destroy" ==> r.Ignored?
    ensures t.className == "destroy" ==> r.Rendered? && r.app.filter == app.filter
    ensures t.className == "destroy" ==>
      forall m :: IsLastWithId(app.todos, t.rowId, m) ==> RemovedAt(app.todos, r.app.todos, m)
    ensures t.className == "destroy" && !HasId(app.todos, t.rowId) ==>
      if |app.todos| == 0 then r.app.todos == [] else RemovedAt(app.todos, r.app.todos, 0)
  {
    if t.className == "destroy" then
      var start := match IndexFromEl(app.todos, t.rowId) case Some(i) => i case None => 0;
      assert forall m :: IsLastWithId(app.todos, t.rowId, m) ==> m == start;
      Rendered(app.(todos := SpliceOne(app.todos, start)))
    else Ignored
  }

  /**
   `update` on focus-out: only for an `edit` field. A blank value calls
   `destroy` with the same event, whose class guard then fails, so nothing
   happens; a field carrying an abort object re-renders without any change;
   otherwise the last item whose identifier is the row's gets the trimmed
   value as its title, and an unknown row makes the handler throw.
   */
  function Update(app: App, t: Target): (r: Reaction)
    ensures t.className != "edit" ==> r.Ignored?
    ensures t.className == "edit" && Blank(t.value) ==> r.Ignored?
    ensures t.className == "edit" && !Blank(t.value) && t.data.Some? ==> r == Rendered(app)
    ensures t.className == "edit" && !Blank(t.value) && t.data.None? && !HasId(app.todos, t.rowId) ==> r.Threw?
    ensures t.className == "edit" && !Blank(t.value) && t.data.None? && HasId(app.todos, t.rowId) ==>
      && r.Rendered? && r.app.filter == app.filter
      && |r.app.todos| == |app.todos|
      && forall j :: 0 <= j < |app.todos| ==>
        && r.app.todos[j].id == app.todos[j].id
        && r.app.todos[j].completed == app.todos[j].completed
        && r.app.todos[j].title == (if IsLastWithId(app.todos, t.rowId, j) then Trim(t.value) else app.todos[j].title)
  {
    TrimEmptyIff(t.value);
    if t.className != "edit" then Ignored
    else
      var val := Trim(t.value);
      if val == "" then Destroy(app, t)
      else if t.data.Some? then Rendered(app)
      else match IndexFromEl(app.todos, t.rowId)
        case None => Threw
        case Some(i) => Rendered(app.(todos := app.todos[i := app.todos[i].(title := val)]))
  }

  /**
   `editKeyup` on an `edit` field: Enter blurs it and Escape attaches
   `{abort: true}` and blurs it; the blur runs `update` at once. Escape
   therefore never changes the list: a blank field returns at the blank
   check without rendering and stays open, any other value re-renders the
   unchanged state, closing the editor. Other keys or targets do nothing.
   On Enter, `Threw` stands for the error the focus-out listener raises and
   the page reports; `editKeyup` itself returns normally from `blur()`.
   */
  function EditKeyup(app: App, t: Target, which: int): (r: Reaction)
    ensures t.className != "edit" || (which != EnterKey && which != EscapeKey) ==> r.Ignored?
    ensures t.className == "edit" && which == EscapeKey ==> r == (if Blank(t.value) then Ignored else Rendered(app))
    ensures t.className == "edit" && which == EnterKey ==> r == Update(app, t)
  {
    if t.className != "edit" then Ignored
    else if which == EnterKey then Update(app, t)
    else if which == EscapeKey then Update(app, t.(data := Some(true)))
    else Ignored
  }

  /**
   The abort check tests only that the field carries a `data` object,
   whatever its flag says: once an object is attached, every later update
   from that field leaves the state as it was.
   */
  lemma StaleAbortDiscardsEdit(app: App, t: Target)
    requires t.className == "edit" && t.data.Some?
    ensures After(app, Update(app, t)) == app
  {
  }

  /**
   Escape on a field that was cleared to blank attaches `{abort: true}`, and
   `update` returns at the blank check without resetting the flag or
   rendering, so the field stays open with the object attached. Typing a new
   title there and pressing Enter is then discarded: the list is unchanged.
   */
  lemma EscapeOnBlankDiscardsNextEnter(app: App, t: Target, text: string)
    requires t.className == "edit" && Blank(t.value) && !Blank(text)
    ensures EditKeyup(app, t, EscapeKey) == Ignored
    ensures var typed := t.(value := text, data := Some(true));
      EditKeyup(app, typed, EnterKey) == Rendered(app)
  {
  }
}
