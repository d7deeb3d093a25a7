/**
 The listeners `bindEvents` installs, as one transition function: each
 event names the element the listener sits on and the signal, and is handed
 to the handler that listener calls. Properties of whole transitions are
 proved here.
 */
module Controller {
  import opened Util
  import opened TodoList
  import opened Handlers
  import opened View

  datatype Event =
    | EntryKeyUp(which: int, value: string)     // keyup on #new-todo
    | ToggleAllChange(checked: bool)            // change on #toggle-all
    | FooterClick(target: Target)               // click inside #footer
    | ListChange(target: Target)                // change inside #todo-list
    | ListDblClick(target: Target)              // dblclick inside #todo-list
    | ListKeyUp(target: Target, which: int)     // keyup inside #todo-list
    | ListFocusOut(target: Target)              // focusout inside #todo-list
    | ListClick(target: Target)                 // click inside #todo-list

  /**
   Dispatch of one event. `random` stands for the 32 draws `util.uuid` would
   make should the event create an item. A double-click only changes the
   page (it opens the row's edit field), never the state.
   */
  function Step(app: App, e: Event, random: seq<Nibble>): (r: Reaction)
    requires |random| == 32
    ensures e.EntryKeyUp? ==> r == Create(app, e.which, e.value, random)
    ensures e.ToggleAllChange? ==> r == ToggleAll(app, e.checked)
    ensures e.FooterClick? ==> r == DestroyCompleted(app, e.target)
    ensures e.ListChange? ==> r == Toggle(app, e.target)
    ensures e.ListDblClick? ==> r == Ignored
    ensures e.ListKeyUp? ==> r == EditKeyup(app, e.target, e.which)
    ensures e.ListFocusOut? ==> r == Update(app, e.target)
    ensures e.ListClick? ==> r == Destroy(app, e.target)
  {
    match e
    case EntryKeyUp(which, value) => Create(app, which, value, random)
    case ToggleAllChange(checked) => ToggleAll(app, checked)
    case FooterClick(t) => DestroyCompleted(app, t)
    case ListChange(t) => Toggle(app, t)
    case ListDblClick(_) => Ignored
    case ListKeyUp(t, which) => EditKeyup(app, t, which)
    case ListFocusOut(t) => Update(app, t)
    case ListClick(t) => Destroy(app, t)
  }

  /** A stored title is trimmed and not empty. */
  predicate TitleOk(title: string)
  {
    title != "" && Trim(title) == title
  }

  predicate WellFormed(app: App)
  {
    forall i :: 0 <= i < |app.todos| ==> TitleOk(app.todos[i].title)
  }

  /**
   No event ever stores an empty or untrimmed title: creation and editing
   store trimmed non-blank values, and every other change keeps, moves or
   drops existing items.
   */
  lemma StepPreservesWellFormed(app: App, e: Event, random: seq<Nibble>)
    requires |random| == 32
    requires WellFormed(app)
    ensures WellFormed(After(app, Step(app, e, random)))
  {
    match e
    case EntryKeyUp(which, value) => CreatePreservesWellFormed(app, which, value, random);
    case ToggleAllChange(checked) => ToggleAllPreservesWellFormed(app, checked);
    case FooterClick(t) => DestroyCompletedPreservesWellFormed(app, t);
    case ListChange(t) => TogglePreservesWellFormed(app, t);
    case ListDblClick(_) =>
    case ListKeyUp(t, which) =>
      if t.className == "edit" && which == EnterKey {
        UpdatePreservesWellFormed(app, t);
      } else if t.className == "edit" && which == EscapeKey {
        assert After(app, EditKeyup(app, t, which)) == app;
      }
    case ListFocusOut(t) => UpdatePreservesWellFormed(app, t);
    case ListClick(t) => DestroyPreservesWellFormed(app, t);
  }

  lemma ToggleAllPreservesWellFormed(app: App, checked: bool)
    requires WellFormed(app)
    ensures WellFormed(After(app, ToggleAll(app, checked)))
  {
    var next := After(app, ToggleAll(app, checked));
    assert forall i :: 0 <= i < |next.todos| ==> next.todos[i].title == app.todos[i].title;
  }

  lemma DestroyCompletedPreservesWellFormed(app: App, t: Target)
    requires WellFormed(app)
    ensures WellFormed(After(app, DestroyCompleted(app, t)))
  {
    var r := DestroyCompleted(app, t);
    if r.Rendered? {
      var idx := Selected(app.todos, false);
      assert forall i :: 0 <= i < |r.app.todos| ==> r.app.todos[i] == app.todos[idx[i]];
    }
  }

  lemma TogglePreservesWellFormed(app: App, t: Target)
    requires WellFormed(app)
    ensures WellFormed(After(app, Toggle(app, t)))
  {
    var r := Toggle(app, t);
    if r.Rendered? {
      assert t.className == "toggle" && HasId(app.todos, t.rowId);
      forall i | 0 <= i < |r.app.todos|
        ensures TitleOk(r.app.todos[i].title)
      {
        assert r.app.todos[i].title == app.todos[i].title;
      }
    }
  }

  /** Trimming a value that is not blank yields an acceptable title. */
  lemma TrimmedTitleOk(value: string)
    requires !Blank(value)
    ensures TitleOk(Trim(value))
  {
    TrimIdempotent(value);
    TrimEmptyIff(value);
  }

  /** Appending an item with an acceptable title keeps every title acceptable. */
  lemma AppendedKeepsTitles(todos: seq<Todo>, x: Todo)
    requires TitleOk(x.title)
    requires forall i :: 0 <= i < |todos| ==> TitleOk(todos[i].title)
    ensures var after := todos + [x];
      forall i :: 0 <= i < |after| ==> TitleOk(after[i].title)
  {
    var after := todos + [x];
    forall i | 0 <= i < |after|
      ensures TitleOk(after[i].title)
    {
      if i < |todos| {
        assert after[i] == todos[i];
      }
    }
  }

  lemma CreatePreservesWellFormed(app: App, which: int, value: string, random: seq<Nibble>)
    requires |random| == 32
    requires WellFormed(app)
    ensures WellFormed(After(app, Create(app, which, value, random)))
  {
    if which == EnterKey && !Blank(value) {
      TrimEmptyIff(value);
      TrimmedTitleOk(value);
      var x := Todo(UuidFormat(random), Trim(value), false);
      assert Create(app, which, value, random) == Rendered(app.(todos := app.todos + [x]));
      AppendedKeepsTitles(app.todos, x);
    }
  }

  lemma UpdatePreservesWellFormed(app: App, t: Target)
    requires WellFormed(app)
    ensures WellFormed(After(app, Update(app, t)))
  {
    if t.className == "edit" && !Blank(t.value) && t.data.None? && HasId(app.todos, t.rowId) {
      TrimEmptyIff(t.value);
      TrimmedTitleOk(t.value);
      var k := IndexFromEl(app.todos, t.rowId).value;
      var title := Trim(t.value);
      assert Update(app, t) == Rendered(app.(todos := app.todos[k := app.todos[k].(title := title)]));
      RetitledKeepsTitles(app.todos, k, title);
    }
  }

  /** Giving one item an acceptable title keeps every title acceptable. */
  lemma RetitledKeepsTitles(todos: seq<Todo>, k: nat, title: string)
    requires k < |todos| && TitleOk(title)
    requires forall i :: 0 <= i < |todos| ==> TitleOk(todos[i].title)
    ensures var after := todos[k := todos[k].(title := title)];
      forall i :: 0 <= i < |after| ==> TitleOk(after[i].title)
  {
    var after := todos[k := todos[k].(title := title)];
    forall i | 0 <= i < |after|
      ensures TitleOk(after[i].title)
    {
      if i != k {
        assert after[i] == todos[i];
      }
    }
  }

  lemma DestroyPreservesWellFormed(app: App, t: Target)
    requires WellFormed(app)
    ensures WellFormed(After(app, Destroy(app, t)))
  {
    var r := Destroy(app, t);
    if r.Rendered? && |app.todos| > 0 {
      var m := 0;
      if HasId(app.todos, t.rowId) {
        HasLastWithId(app.todos, t.rowId);
        m :| IsLastWithId(app.todos, t.rowId, m);
      }
      assert RemovedAt(app.todos, r.app.todos, m);
      RemovedAtKeepsTitles(app.todos, r.app.todos, m);
    }
  }

  /** Taking one item out of a list of acceptable titles leaves only acceptable titles. */
  lemma RemovedAtKeepsTitles(before: seq<Todo>, after: seq<Todo>, m: nat)
    requires RemovedAt(before, after, m)
    requires forall i :: 0 <= i < |before| ==> TitleOk(before[i].title)
    ensures forall i :: 0 <= i < |after| ==> TitleOk(after[i].title)
  {
    forall i | 0 <= i < |after|
      ensures TitleOk(after[i].title)
    {
      assert after[i].title == before[if i < m then i else i + 1].title;
    }
  }

  /** Only a click on `clear-completed` changes the filter, and it sets `all`. */
  lemma StepFilterFrame(app: App, e: Event, random: seq<Nibble>)
    requires |random| == 32
    ensures After(app, Step(app, e, random)).filter ==
      if e.FooterClick? && e.target.id == "clear-completed" then "all" else app.filter
  {
  }

  /**
   Only a key-up in the entry field can lengthen the list, by one item; every
   other event keeps or shortens it.
   */
  lemma StepLength(app: App, e: Event, random: seq<Nibble>)
    requires |random| == 32
    ensures |After(app, Step(app, e, random)).todos| <= |app.todos| + (if e.EntryKeyUp? then 1 else 0)
  {
    var r := Step(app, e, random);
    if e.FooterClick? && r.Rendered? {
      ActiveCompletedPartition(app.todos);
    }
  }

  /** Every identifier in `after` already occurs in `before`. */
  predicate IdsFrom(before: seq<Todo>, after: seq<Todo>)
  {
    forall i :: 0 <= i < |after| ==> HasId(before, after[i].id)
  }

  /**
   Every identifier in the list after an event was already in the list,
   except the fresh identifier of an item the entry field creates.
   */
  lemma StepKeepsIdentifiers(app: App, e: Event, random: seq<Nibble>)
    requires |random| == 32
    ensures var next := After(app, Step(app, e, random));
      forall i :: 0 <= i < |next.todos| ==>
        HasId(app.todos, next.todos[i].id) || (e.EntryKeyUp? && next.todos[i].id == UuidFormat(random))
  {
    match e
    case EntryKeyUp(which, value) => CreateKeepsIdentifiers(app, which, value, random);
    case ToggleAllChange(checked) =>
      var next := After(app, ToggleAll(app, checked));
      assert forall i :: 0 <= i < |next.todos| ==> next.todos[i].id == app.todos[i].id;
    case FooterClick(t) => DestroyCompletedKeepsIdentifiers(app, t);
    case ListChange(t) =>
      var next := After(app, Toggle(app, t));
      assert forall i :: 0 <= i < |next.todos| ==> next.todos[i].id == app.todos[i].id;
    case ListDblClick(_) => SameIds(app.todos);
    case ListKeyUp(t, which) =>
      if t.className == "edit" && which == EnterKey {
        UpdateKeepsIdentifiers(app, t);
      } else {
        assert After(app, EditKeyup(app, t, which)) == app;
        SameIds(app.todos);
      }
    case ListFocusOut(t) => UpdateKeepsIdentifiers(app, t);
    case ListClick(t) => DestroyKeepsIdentifiers(app, t);
  }

  lemma SameIds(todos: seq<Todo>)
    ensures IdsFrom(todos, todos)
  {
    assert forall i :: 0 <= i < |todos| ==> todos[i].id == todos[i].id;
  }

  lemma CreateKeepsIdentifiers(app: App, which: int, value: string, random: seq<Nibble>)
    requires |random| == 32
    ensures var next := After(app, Create(app, which, value, random));
      forall i :: 0 <= i < |next.todos| ==> HasId(app.todos, next.todos[i].id) || next.todos[i].id == UuidFormat(random)
  {
    var r := Create(app, which, value, random);
    var n := |app.todos|;
    if r.Rendered? {
      forall i | 0 <= i < n
        ensures r.app.todos[i] == app.todos[i]
      {
        assert r.app.todos[i] == r.app.todos[..n][i];
      }
    } else {
      SameIds(app.todos);
    }
  }

  lemma DestroyCompletedKeepsIdentifiers(app: App, t: Target)
    ensures IdsFrom(app.todos, After(app, DestroyCompleted(app, t)).todos)
  {
    var r := DestroyCompleted(app, t);
    if r.Rendered? {
      var idx := Selected(app.todos, false);
      assert forall i :: 0 <= i < |r.app.todos| ==> r.app.todos[i] == app.todos[idx[i]];
    } else {
      SameIds(app.todos);
    }
  }

  lemma UpdateKeepsIdentifiers(app: App, t: Target)
    ensures IdsFrom(app.todos, After(app, Update(app, t)).todos)
  {
    var next := After(app, Update(app, t));
    assert forall i :: 0 <= i < |next.todos| ==> next.todos[i].id == app.todos[i].id;
  }

  lemma DestroyKeepsIdentifiers(app: App, t: Target)
    ensures IdsFrom(app.todos, After(app, Destroy(app, t)).todos)
  {
    var r := Destroy(app, t);
    if r.Rendered? && |app.todos| > 0 {
      var m := 0;
      if HasId(app.todos, t.rowId) {
        HasLastWithId(app.todos, t.rowId);
        m :| IsLastWithId(app.todos, t.rowId, m);
      }
      assert RemovedAt(app.todos, r.app.todos, m);
      forall i | 0 <= i < |r.app.todos|
        ensures HasId(app.todos, r.app.todos[i].id)
      {
        assert r.app.todos[i] == app.todos[if i < m then i else i + 1];
      }
    } else {
      SameIds(app.todos);
    }
  }

  /**
   A handler throws only for a row whose identifier is missing from the
   list: a `toggle` change, an edit field's Enter key or its focus-out.
   */
  lemma StepThrowsOnlyForUnknownRow(app: App, e: Event, random: seq<Nibble>)
    requires |random| == 32
    ensures Step(app, e, random).Threw? ==>
      && ((e.ListChange? && e.target.className == "toggle")
          || (e.ListKeyUp? && e.target.className == "edit" && e.which == EnterKey)
          || (e.ListFocusOut? && e.target.className == "edit"))
      && !HasId(app.todos, e.target.rowId)
  {
  }

  /**
   Starting from an empty list under `all`, typing `buy milk` and pressing
   Enter gives a one-item list whose footer reads one active "item".
   */
  lemma BuyMilkScenario(random: seq<Nibble>)
    requires |random| == 32
    ensures var next := After(App([], "all"), Step(App([], "all"), EntryKeyUp(EnterKey, "buy milk"), random));
      && next.todos == [Todo(UuidFormat(random), "buy milk", false)]
      && Render(next).footer == Footer(1, "item", 0, "all")
      && Render(next).mainVisible && !Render(next).toggleAllChecked
  {
    var s := "buy milk";
    assert !IsWhitespace(s[0]) && !IsWhitespace(s[|s| - 1]);
    TrimmedAlready(s);
    var t := Todo(UuidFormat(random), s, false);
    var next := App([t], "all");
    assert Create(App([], "all"), EnterKey, s, random) == Rendered(next);
    SingleActiveRender(t);
  }

  /** A value that neither starts nor ends with whitespace is its own trim and is not blank. */
  lemma TrimmedAlready(s: string)
    requires |s| > 0 && !IsWhitespace(s[0]) && !IsWhitespace(s[|s| - 1])
    ensures Trim(s) == s && !Blank(s)
  {
    assert TrimStart(s) == s;
    assert TrimEnd(s) == s;
  }

  /** The page for a single active item under `all`. */
  lemma SingleActiveRender(t: Todo)
    requires !t.completed
    ensures Render(App([t], "all")) == Page([t], true, false, true, Footer(1, "item", 0, "all"))
  {
    assert [t][..0] == [];
    assert Keep([t], false) == [t];
    assert Keep([t], true) == [];
  }
}
