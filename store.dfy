/** The app's state and the handlers that change it: the `todos` and `categories`
    globals of main.js as the fields of one object.
    Dialog answers (`confirm`, `prompt`), form field values and the clock are inputs of
    the methods; rendering and the write to localStorage are not modelled. */
module TodoStore {
  import opened Builtins
  import opened TodoModel
  import opened View
  import opened Storage
  import opened Reordering

  /** What handleDeleteCurrentCategory does with the two dropdown values. */
  datatype DeleteRequest =
    | RefuseAllView
    | RefuseTodayView
    | DeleteCategory(id: string)
    | NothingSelected

  /** The filter dropdown decides when it has a value: "all" and "today" are refused and
      any other value is deleted. Only an empty filter lets the form's category select
      decide; with both empty there is nothing to delete. */
  function DeleteCurrentCategoryRequest(filterValue: string, selectValue: string): (r: DeleteRequest)
    ensures r == RefuseAllView <==> filterValue == "all"
    ensures r == RefuseTodayView <==> filterValue == TodayCategoryId
    ensures r == NothingSelected <==> filterValue == "" && selectValue == ""
    ensures r.DeleteCategory? ==> r.id != "" && r.id == if filterValue != "" then filterValue else selectValue
    ensures r.DeleteCategory? && filterValue != "" ==> r.id != "all" && r.id != TodayCategoryId
  {
    if filterValue != "" then
      if filterValue == "all" then RefuseAllView
      else if filterValue == TodayCategoryId then RefuseTodayView
      else DeleteCategory(filterValue)
    else if selectValue != "" then DeleteCategory(selectValue)
    else NothingSelected
  }

  class Store {
    var todos: seq<Todo>
    var categories: seq<Category>

    /** The globals before loadFromStorage runs. */
    constructor()
      ensures todos == [] && categories == []
    {
      todos := [];
      categories := [];
    }

    /** loadFromStorage: install the repaired stored state. */
    method Load(raw: Stored, now: int, nowIso: string)
      modifies this
      ensures State(todos, categories) == LoadState(raw, now, nowIso)
      ensures |categories| > 0
    {
      var s := LoadState(raw, now, nowIso);
      todos := s.todos;
      categories := s.categories;
    }

    /** saveToStorage: the value written, as JSON.parse reads it back. */
    function Saved(): (r: Stored)
      reads this
      ensures r.Obj? && r.categories == Some(categories)
      ensures r.todos.Some? && |r.todos.value| == |todos|
      ensures forall k :: 0 <= k < |todos| ==> r.todos.value[k] == Item(ToRaw(todos[k]))
      ensures (forall t :: t in todos ==> Persistable(t)) && categories != [] ==>
                forall now: int, nowIso: string :: LoadState(r, now, nowIso) == State(todos, categories)
    {
      SaveLoadAnyClock(State(todos, categories));
      Snapshot(State(todos, categories))
    }

    /** addTodo: trim the title and description; refuse an empty title or an empty
        category; otherwise append the task createTodo builds, with the clock reading
        `now` as id and `nowIso` as creation time. */
    method AddTodo(titleText: string, descriptionText: string, categoryValue: string,
                   dueDateValue: string, now: int, nowIso: string) returns (added: bool)
      modifies this
      ensures added <==> Trim(titleText) != "" && categoryValue != ""
      ensures added ==> todos == old(todos) + [CreateTodo(old(todos), Trim(titleText), Trim(descriptionText),
                                                          categoryValue, dueDateValue, now, nowIso)]
      ensures !added ==> todos == old(todos)
      ensures categories == old(categories)
    {
      var title := Trim(titleText);
      var description := Trim(descriptionText);
      if title == "" || categoryValue == "" {
        return false;
      }
      var t := CreateTodo(todos, title, description, categoryValue, dueDateValue, now, nowIso);
      todos := todos + [t];
      return true;
    }

    /** deleteTodo: nothing happens unless a task has that id; then, if the user confirms,
        every task with that id is removed. The categories are left as they are, whatever
        the tasks left in them. `asked` says whether the confirmation was shown. */
    method DeleteTodo(id: int, confirmed: bool) returns (asked: bool)
      modifies this
      ensures asked <==> exists t :: t in old(todos) && t.id == id
      ensures asked && confirmed ==> todos == WithoutId(old(todos), id)
      ensures !(asked && confirmed) ==> todos == old(todos)
      ensures categories == old(categories)
    {
      var k := IndexOfId(todos, id);
      if k < 0 {
        return false;
      }
      asked := true;
      if confirmed {
        todos := WithoutId(todos, id);
      }
    }

    /** toggleTodo: flip `completed` on the tasks with that id. */
    method ToggleTodo(id: int)
      modifies this
      ensures todos == Toggled(old(todos), id)
      ensures categories == old(categories)
    {
      todos := Toggled(todos, id);
    }

    /** deleteCategoryById: "today" is refused and an unknown id ignored (`related` is
        `None`); otherwise `related` is the number of tasks in the category, shown in the
        confirmation, and confirming removes those tasks and the category. */
    method DeleteCategoryById(categoryId: string, confirmed: bool) returns (related: Option<nat>)
      modifies this
      ensures related.Some? <==> categoryId != TodayCategoryId && HasCategory(old(categories), categoryId)
      ensures related.Some? ==> related.value == |InCategory(old(todos), categoryId)|
      ensures related.Some? && confirmed ==>
                todos == NotInCategory(old(todos), categoryId)
                && categories == WithoutCategory(old(categories), categoryId)
      ensures !(related.Some? && confirmed) ==> todos == old(todos) && categories == old(categories)
    {
      if categoryId == TodayCategoryId {
        return None;
      }
      if CategoryIndex(categories, categoryId) < 0 {
        return None;
      }
      related := Some(|InCategory(todos, categoryId)|);
      if confirmed {
        todos := NotInCategory(todos, categoryId);
        categories := WithoutCategory(categories, categoryId);
      }
    }

    /** handleAddCategory: `answer` is what `prompt` returned (`None` when cancelled). A
        name that trims to nothing is ignored; otherwise a category named by the trimmed
        answer is appended, its id the clock reading `now` in decimal. */
    method HandleAddCategory(answer: Option<string>, now: nat) returns (added: bool)
      modifies this
      ensures added <==> answer.Some? && Trim(answer.value) != ""
      ensures added ==> categories == old(categories) + [Category(NatToString(now), Trim(answer.value))]
      ensures !added ==> categories == old(categories)
      ensures todos == old(todos)
    {
      if answer.None? || answer.value == "" {
        return false;
      }
      var trimmed := Trim(answer.value);
      if trimmed == "" {
        return false;
      }
      categories := categories + [Category(NatToString(now), trimmed)];
      return true;
    }

    /** handleDeleteCurrentCategory: decide from the two dropdowns, then hand a category id
        to deleteCategoryById. An absent dropdown reads as an empty value. */
    method HandleDeleteCurrentCategory(filterValue: string, selectValue: string, confirmed: bool)
      returns (request: DeleteRequest, related: Option<nat>)
      modifies this
      ensures request == DeleteCurrentCategoryRequest(filterValue, selectValue)
      ensures !request.DeleteCategory? ==>
                related == None && todos == old(todos) && categories == old(categories)
      ensures request.DeleteCategory? ==>
                && (related.Some? <==> request.id != TodayCategoryId && HasCategory(old(categories), request.id))
                && (related.Some? ==> related.value == |InCategory(old(todos), request.id)|)
                && (related.Some? && confirmed ==>
                      todos == NotInCategory(old(todos), request.id)
                      && categories == WithoutCategory(old(categories), request.id))
                && (!(related.Some? && confirmed) ==> todos == old(todos) && categories == old(categories))
    {
      request := DeleteCurrentCategoryRequest(filterValue, selectValue);
      related := None;
      if request.DeleteCategory? {
        related := DeleteCategoryById(request.id, confirmed);
      }
    }

    /** handleDrop: with no dragged task (null or 0), or a drop on the dragged task itself,
        nothing happens; otherwise the dragged task is moved onto the target. The dragged
        id is an input. */
    method HandleDrop(draggingTodoId: Option<int>, targetId: int, search: string, filter: string, today: string)
      modifies this
      ensures draggingTodoId.None? || draggingTodoId == Some(0) || draggingTodoId == Some(targetId) ==>
                todos == old(todos)
      ensures draggingTodoId.Some? && draggingTodoId != Some(0) && draggingTodoId != Some(targetId) ==>
                todos == Reordered(old(todos), draggingTodoId.value, targetId, search, filter, today)
      ensures categories == old(categories)
    {
      if draggingTodoId.None? || draggingTodoId.value == 0 || draggingTodoId.value == targetId {
        return;
      }
      Reorder(draggingTodoId.value, targetId, search, filter, today);
    }

    /** reorderTodos: move the source task to the target's place in the visible list, then
        set each visible task's `order` to its new position plus one, in place. */
    method Reorder(sourceId: int, targetId: int, search: string, filter: string, today: string)
      modifies this
      ensures todos == Reordered(old(todos), sourceId, targetId, search, filter, today)
      ensures categories == old(categories)
    {
      var visible := Visible(todos, search, filter, today);
      var sourceIndex := IndexOfId(visible, sourceId);
      var targetIndex := IndexOfId(visible, targetId);
      if sourceIndex < 0 || targetIndex < 0 {
        return;
      }
      if visible[sourceIndex].completed != visible[targetIndex].completed {
        return;
      }
      RenumberAlong(Moved(visible, sourceIndex, targetIndex));
    }

    /** The `forEach` of reorderTodos: the task at index `p` of `moved` gives its order
        `p + 1` to the first stored task with its id. */
    method RenumberAlong(moved: seq<Todo>)
      modifies this
      ensures todos == Renumber(old(todos), moved, |moved|)
      ensures categories == old(categories)
    {
      var updated := todos;
      var index := 0;
      while index < |moved|
        invariant 0 <= index <= |moved|
        invariant todos == old(todos) && categories == old(categories)
        invariant updated == Renumber(todos, moved, index)
      {
        RenumberNext(todos, moved, index);
        var idx := IndexOfId(updated, moved[index].id);
        if idx != -1 {
          updated := updated[idx := updated[idx].(order := index + 1)];
        }
        index := index + 1;
      }
      todos := updated;
    }
  }

  // ---------------------------------------------------------------------------
  // What the handlers do to the state

  /** A task added with a fresh id keeps the ids unique. */
  lemma AddKeepsUniqueIds(todos: seq<Todo>, t: Todo)
    requires UniqueIds(todos)
    requires forall u :: u in todos ==> u.id != t.id
    ensures UniqueIds(todos + [t])
  {
  }

  /** A task added through the form, with a clock that does not read 0, survives a save and
      a reload unchanged. */
  lemma AddedTodoPersists(todos: seq<Todo>, title: string, description: string, categoryId: string,
                          dueDate: string, now: int, nowIso: string)
    requires now != 0 && nowIso != "" && categoryId != ""
    requires forall t :: t in todos ==> Persistable(t)
    ensures forall t :: t in todos + [CreateTodo(todos, title, description, categoryId, dueDate, now, nowIso)] ==>
              Persistable(t)
  {
  }

  /** A task added without a due date sorts after every incomplete task already stored,
      dated or not, and before every completed one: its order is the largest, and the
      date clause needs both tasks dated. */
  lemma AddedUndatedTodoSortsLast(todos: seq<Todo>, title: string, description: string,
                                  categoryId: string, id: int, createdAt: string, u: Todo)
    requires u in todos
    ensures var t := CreateTodo(todos, title, description, categoryId, "", id, createdAt);
            (!u.completed ==> Compare(u, t) < 0) && (u.completed ==> Compare(u, t) > 0)
  {
  }

  /** Toggling keeps the ids and every persistable task persistable. */
  lemma ToggleKeepsIdsAndPersistable(todos: seq<Todo>, id: int)
    ensures UniqueIds(todos) ==> UniqueIds(Toggled(todos, id))
    ensures (forall t :: t in todos ==> Persistable(t)) ==> forall t :: t in Toggled(todos, id) ==> Persistable(t)
  {
    var r := Toggled(todos, id);
    if forall t :: t in todos ==> Persistable(t) {
      forall t | t in r ensures Persistable(t) {
        var k :| 0 <= k < |r| && r[k] == t;
        assert todos[k] in todos;
      }
    }
  }

  /** Deleting a task keeps the ids unique and every remaining task persistable, and no
      task with that id is left. */
  lemma DeleteTodoKeepsInvariants(todos: seq<Todo>, id: int)
    ensures forall t :: t in WithoutId(todos, id) ==> t.id != id
    ensures UniqueIds(todos) ==> UniqueIds(WithoutId(todos, id))
    ensures (forall t :: t in todos ==> Persistable(t)) ==> forall t :: t in WithoutId(todos, id) ==> Persistable(t)
  {
    var r := WithoutId(todos, id);
    assert multiset(r) <= multiset(todos) by {
      forall t ensures multiset(r)[t] <= multiset(todos)[t] {}
    }
    if UniqueIds(todos) {
      UniqueIdsSubMultiset(r, todos);
    }
  }

  /** After a confirmed category deletion: no task and no category has that id, its name
      falls back to the "uncategorized" label, and the filter dropdown falls back to
      "all". */
  lemma DeletedCategoryIsGone(todos: seq<Todo>, categories: seq<Category>, categoryId: string)
    ensures var categories' := WithoutCategory(categories, categoryId);
            && (forall t :: t in NotInCategory(todos, categoryId) ==> t.categoryId != categoryId)
            && !HasCategory(categories', categoryId)
            && GetCategoryNameById(categories', categoryId) == UncategorizedName
            && RestoreFilterValue(categoryId, categories') ==
                 if categoryId == TodayCategoryId then TodayCategoryId else "all"
  {
  }

  /** After a confirmed category deletion the category's view is empty, whatever the
      search. */
  lemma DeletedCategoryViewIsEmpty(todos: seq<Todo>, categoryId: string, search: string, today: string)
    requires categoryId != "" && categoryId != "all" && categoryId != TodayCategoryId
    ensures Visible(NotInCategory(todos, categoryId), search, categoryId, today) == []
  {
  }

  /** A confirmed category deletion keeps the ids unique and every remaining task
      persistable. */
  lemma DeleteCategoryKeepsInvariants(todos: seq<Todo>, categoryId: string)
    ensures UniqueIds(todos) ==> UniqueIds(NotInCategory(todos, categoryId))
    ensures (forall t :: t in todos ==> Persistable(t)) ==>
              forall t :: t in NotInCategory(todos, categoryId) ==> Persistable(t)
  {
    var r := NotInCategory(todos, categoryId);
    assert multiset(r) <= multiset(todos) by {
      forall t ensures multiset(r)[t] <= multiset(todos)[t] {}
    }
    if UniqueIds(todos) {
      UniqueIdsSubMultiset(r, todos);
    }
  }

  /** A drop changes only `order`, so it keeps the ids unique and every task persistable. */
  lemma ReorderKeepsInvariants(todos: seq<Todo>, v: seq<Todo>, sourceId: int, targetId: int)
    ensures UniqueIds(todos) ==> UniqueIds(ReorderWithin(todos, v, sourceId, targetId))
    ensures (forall t :: t in todos ==> Persistable(t)) ==>
              forall t :: t in ReorderWithin(todos, v, sourceId, targetId) ==> Persistable(t)
  {
    var r := ReorderWithin(todos, v, sourceId, targetId);
    if forall t :: t in todos ==> Persistable(t) {
      forall t | t in r ensures Persistable(t) {
        var k :| 0 <= k < |r| && r[k] == t;
        assert todos[k] in todos;
      }
    }
  }

  /** A category id taken from the clock is a decimal numeral, so it is never "all",
      "today" or a default category id. */
  lemma NewCategoryIdIsNotReserved(now: nat)
    ensures var id := NatToString(now);
            id != "" && id != "all" && id != TodayCategoryId && !IsDefaultCategoryId(id)
  {
    var id := NatToString(now);
    assert AllDigits(id);
    assert !IsDigit('a') && !IsDigit('t') && !IsDigit('w') && !IsDigit('s') && !IsDigit('l');
    assert id[0] != 'a' && id[0] != 't' && id[0] != 'w' && id[0] != 's' && id[0] != 'l';
  }

  /** After adding a category under a fresh id: its name is found by id, and the filter
      dropdown keeps the new id when it is selected. */
  lemma AddedCategoryIsFound(categories: seq<Category>, now: nat, name: string)
    requires !HasCategory(categories, NatToString(now))
    ensures var id := NatToString(now);
            var categories' := categories + [Category(id, name)];
            && HasCategory(categories', id)
            && GetCategoryNameById(categories', id) == name
            && RestoreFilterValue(id, categories') == id
  {
    var id := NatToString(now);
    var categories' := categories + [Category(id, name)];
    NewCategoryIdIsNotReserved(now);
    assert categories'[|categories|] == Category(id, name);
    assert forall k :: 0 <= k < |categories| ==> categories'[k] == categories[k];
  }
}
