/**
 The in-memory to-do list: the items, the three queries the view is built
 from (`getActiveTodos`, `getCompletedTodos`, `getFilteredTodos`) and the
 backwards identifier scan `indexFromEl` that turns a list row into a
 position in the list.
 */
module TodoList {
  import opened Optional

  datatype Todo = Todo(id: string, title: string, completed: bool)

  /** The items whose flag equals `completed`, in list order (`todos.filter`). */
  function Keep(todos: seq<Todo>, completed: bool): (r: seq<Todo>)
    ensures |r| <= |todos|
    decreases |todos|
  {
    if |todos| == 0 then []
    else
      var last := todos[|todos| - 1];
      Keep(todos[..|todos| - 1], completed) + (if last.completed == completed then [last] else [])
  }

  /** `Keep` retains exactly the items whose flag matches. */
  lemma {:induction false} KeepMembers(todos: seq<Todo>, completed: bool)
    ensures forall t :: t in Keep(todos, completed) <==> t in todos && t.completed == completed
    decreases |todos|
  {
    if |todos| > 0 {
      var n := |todos| - 1;
      KeepMembers(todos[..n], completed);
      assert todos == todos[..n] + [todos[n]];
    }
  }

  /** Positions of the items `Keep` retains. */
  function Selected(todos: seq<Todo>, completed: bool): seq<nat>
    decreases |todos|
  {
    if |todos| == 0 then []
    else
      Selected(todos[..|todos| - 1], completed)
      + (if todos[|todos| - 1].completed == completed then [|todos| - 1] else [])
  }

  ghost predicate Ascending(idx: seq<nat>)
  {
    forall a, b :: 0 <= a < b < |idx| ==> idx[a] < idx[b]
  }

  /** Retained positions are in range and strictly ascending. */
  lemma {:induction false} SelectedAscending(todos: seq<Todo>, completed: bool)
    ensures var idx := Selected(todos, completed);
      Ascending(idx) && forall k :: 0 <= k < |idx| ==> idx[k] < |todos|
    decreases |todos|
  {
    if |todos| > 0 {
      SelectedAscending(todos[..|todos| - 1], completed);
    }
  }

  /** A position is retained exactly when its item's flag matches. */
  lemma {:induction false} SelectedExactly(todos: seq<Todo>, completed: bool)
    ensures forall i :: 0 <= i < |todos| ==> (i in Selected(todos, completed) <==> todos[i].completed == completed)
    decreases |todos|
  {
    if |todos| > 0 {
      var n := |todos| - 1;
      SelectedExactly(todos[..n], completed);
      SelectedAscending(todos[..n], completed);
      assert forall i :: 0 <= i < n ==> todos[i] == todos[..n][i];
    }
  }

  /** The k-th item `Keep` returns is the item at the k-th retained position. */
  lemma {:induction false} KeepAtSelected(todos: seq<Todo>, completed: bool)
    ensures var idx := Selected(todos, completed); var r := Keep(todos, completed);
      |idx| == |r| && forall k :: 0 <= k < |idx| ==> idx[k] < |todos| && r[k] == todos[idx[k]]
    decreases |todos|
  {
    if |todos| > 0 {
      var n := |todos| - 1;
      KeepAtSelected(todos[..n], completed);
      var idx0 := Selected(todos[..n], completed);
      forall k | 0 <= k < |idx0|
        ensures todos[..n][idx0[k]] == todos[idx0[k]]
      {
      }
    }
  }

  /**
   `Keep` is an order-preserving selection: its k-th item is the item at the
   k-th retained position, positions ascend, and a position is retained
   exactly when its item's flag matches.
   */
  lemma KeepIsOrderedSelection(todos: seq<Todo>, completed: bool)
    ensures var idx := Selected(todos, completed); var r := Keep(todos, completed);
      && |idx| == |r|
      && Ascending(idx)
      && (forall k :: 0 <= k < |idx| ==> idx[k] < |todos| && r[k] == todos[idx[k]])
      && (forall i :: 0 <= i < |todos| ==> (i in idx <==> todos[i].completed == completed))
  {
    SelectedAscending(todos, completed);
    SelectedExactly(todos, completed);
    KeepAtSelected(todos, completed);
  }

  /** Selection distributes over concatenation. */
  lemma {:induction false} KeepAppend(a: seq<Todo>, b: seq<Todo>, completed: bool)
    ensures Keep(a + b, completed) == Keep(a, completed) + Keep(b, completed)
    decreases |b|
  {
    if |b| > 0 {
      var n := |b| - 1;
      var last := b[n];
      var tail := if last.completed == completed then [last] else [];
      assert (a + b)[..|a + b| - 1] == a + b[..n];
      assert (a + b)[|a + b| - 1] == last;
      assert Keep(a + b, completed) == Keep(a + b[..n], completed) + tail;
      KeepAppend(a, b[..n], completed);
      assert Keep(b, completed) == Keep(b[..n], completed) + tail;
    } else {
      assert a + b == a;
    }
  }

  /** Selecting again with the same flag changes nothing. */
  lemma {:induction false} KeepKeep(todos: seq<Todo>, completed: bool)
    ensures Keep(Keep(todos, completed), completed) == Keep(todos, completed)
    decreases |todos|
  {
    if |todos| > 0 {
      var n := |todos| - 1;
      var last := todos[n];
      var tail := if last.completed == completed then [last] else [];
      KeepKeep(todos[..n], completed);
      KeepAppend(Keep(todos[..n], completed), tail, completed);
    }
  }

  /** Every item is either active or completed, never both. */
  lemma {:induction false} ActiveCompletedPartition(todos: seq<Todo>)
    ensures |Keep(todos, false)| + |Keep(todos, true)| == |todos|
    decreases |todos|
  {
    if |todos| > 0 {
      ActiveCompletedPartition(todos[..|todos| - 1]);
    }
  }

  /** `getActiveTodos`: the items not yet completed. */
  function ActiveTodos(todos: seq<Todo>): (r: seq<Todo>)
    ensures forall t :: t in r <==> t in todos && !t.completed
  {
    KeepMembers(todos, false);
    Keep(todos, false)
  }

  /** `getCompletedTodos`: the completed items. */
  function CompletedTodos(todos: seq<Todo>): (r: seq<Todo>)
    ensures forall t :: t in r <==> t in todos && t.completed
    ensures |ActiveTodos(todos)| + |r| == |todos|
  {
    ActiveCompletedPartition(todos);
    KeepMembers(todos, true);
    Keep(todos, true)
  }

  /** Whether the view selected by `filter` lists the item `t`. */
  predicate Visible(filter: string, t: Todo)
  {
    (filter == "active" ==> !t.completed) && (filter == "completed" ==> t.completed)
  }

  /**
   `getFilteredTodos`: the active items for `active`, the completed ones for
   `completed`, and the whole list, untouched, for any other filter string.
   */
  function FilteredTodos(todos: seq<Todo>, filter: string): (r: seq<Todo>)
    ensures forall t :: t in r <==> t in todos && Visible(filter, t)
    ensures |r| <= |todos|
    ensures filter != "active" && filter != "completed" ==> r == todos
  {
    if filter == "active" then ActiveTodos(todos)
    else if filter == "completed" then CompletedTodos(todos)
    else todos
  }

  /** The filtered list is the order-preserving selection of the visible items. */
  lemma FilteredIsOrderedSelection(todos: seq<Todo>, filter: string)
    requires filter == "active" || filter == "completed"
    ensures var flag := filter == "completed"; var idx := Selected(todos, flag); var r := FilteredTodos(todos, filter);
      && |idx| == |r|
      && Ascending(idx)
      && (forall k :: 0 <= k < |idx| ==> idx[k] < |todos| && r[k] == todos[idx[k]])
      && (forall i :: 0 <= i < |todos| ==> (i in idx <==> Visible(filter, todos[i])))
  {
    KeepIsOrderedSelection(todos, filter == "completed");
  }

  /** Position of the last item with identifier `id` holds that item. */
  predicate IsLastWithId(todos: seq<Todo>, id: string, i: int)
  {
    0 <= i < |todos| && todos[i].id == id && forall j :: i < j < |todos| ==> todos[j].id != id
  }

  predicate HasId(todos: seq<Todo>, id: string)
  {
    exists i :: 0 <= i < |todos| && todos[i].id == id
  }

  /**
   `indexFromEl` after the row's `data-id` has been read: scans from the end
   and answers the greatest position holding `id`, or nothing (`undefined`)
   when no item has it.
   */
  function IndexFromEl(todos: seq<Todo>, id: string): (r: Option<nat>)
    ensures r.Some? ==> IsLastWithId(todos, id, r.value)
    ensures r.None? <==> !HasId(todos, id)
    decreases |todos|
  {
    if |todos| == 0 then None
    else if todos[|todos| - 1].id == id then Some(|todos| - 1)
    else
      var r := IndexFromEl(todos[..|todos| - 1], id);
      assert forall j :: 0 <= j < |todos| - 1 ==> todos[j] == todos[..|todos| - 1][j];
      r
  }

  /** An identifier that occurs has a last occurrence. */
  lemma HasLastWithId(todos: seq<Todo>, id: string)
    requires HasId(todos, id)
    ensures exists i :: IsLastWithId(todos, id, i)
  {
    var r := IndexFromEl(todos, id);
    assert IsLastWithId(todos, id, r.value);
  }

  /** Items whose flags all equal `completed` are all kept. */
  lemma {:induction false} KeepAllMatch(todos: seq<Todo>, completed: bool)
    requires forall i :: 0 <= i < |todos| ==> todos[i].completed == completed
    ensures Keep(todos, completed) == todos
    decreases |todos|
  {
    if |todos| > 0 {
      var n := |todos| - 1;
      KeepAllMatch(todos[..n], completed);
      assert todos[..n] + [todos[n]] == todos;
    }
  }
}
