/**
 What `render` and `renderFooter` compute from the state before handing it
 to the templates and the page: the list the body template receives, the
 visibility of the main section and of the footer, the toggle-all checkbox,
 and the record given to the footer template.
 */
module View {
  import opened Util
  import opened TodoList
  import opened Handlers

  /** The record passed to the footer template. */
  datatype Footer = Footer(activeTodoCount: nat, activeTodoWord: string, completedTodos: nat, filter: string)

  datatype Page = Page(list: seq<Todo>, mainVisible: bool, toggleAllChecked: bool, footerVisible: bool, footer: Footer)

  /**
   `render` with `renderFooter`: the main section shows when the filtered
   list is non-empty, toggle-all is checked when no item is active (also on
   an empty list), the footer shows when the list is non-empty, and the
   footer counts split the list into active and completed items.
   */
  function Render(app: App): (p: Page)
    ensures p.list == FilteredTodos(app.todos, app.filter)
    ensures forall t :: t in p.list <==> t in app.todos && Visible(app.filter, t)
    ensures p.mainVisible <==> exists t :: t in app.todos && Visible(app.filter, t)
    ensures p.toggleAllChecked <==> forall t :: t in app.todos ==> t.completed
    ensures p.footerVisible <==> |app.todos| > 0
    ensures p.footer.activeTodoCount + p.footer.completedTodos == |app.todos|
    ensures p.footer.completedTodos == |CompletedTodos(app.todos)|
    ensures p.footer.activeTodoWord == "item" <==> p.footer.activeTodoCount == 1
    ensures p.footer.activeTodoCount != 1 ==> p.footer.activeTodoWord == "items"
    ensures p.footer.filter == app.filter
  {
    var todos := FilteredTodos(app.todos, app.filter);
    var active := |ActiveTodos(app.todos)|;
    ActiveCompletedPartition(app.todos);
    KeepMembers(app.todos, true);
    assert todos != [] ==> todos[0] in todos;
    assert ActiveTodos(app.todos) != [] ==> ActiveTodos(app.todos)[0] in ActiveTodos(app.todos);
    Page(
      todos,
      |todos| > 0,
      active == 0,
      |app.todos| > 0,
      Footer(active, Pluralize(active, "item"), |app.todos| - active, app.filter))
  }
}
