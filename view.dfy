/** getVisibleTodos: the tasks matching the search box and the category filter, in the
    order its comparator gives them; and the rule renderCategorySelects uses to restore
    the category filter after the categories change. The search text, the filter value
    and today's date are inputs. */
module View {
  import opened Builtins
  import opened TodoModel

  /** The search keyword as getVisibleTodos reads it: trimmed and lower-cased. */
  function NormalizeKeyword(search: string): string {
    ToLower(Trim(search))
  }

  /** `!keyword || todo.title.toLowerCase().includes(keyword)`. */
  predicate KeywordMatches(t: Todo, keyword: string) {
    keyword == "" || Contains(ToLower(t.title), keyword)
  }

  /** The category test: an empty filter and "all" pass every task, "today" passes the
      tasks due today, and any other value passes the tasks of that category id. */
  predicate CategoryMatches(t: Todo, filter: string, today: string) {
    if filter == "" || filter == "all" then true
    else if filter == TodayCategoryId then t.dueDate == Some(today)
    else t.categoryId == filter
  }

  predicate Matches(t: Todo, keyword: string, filter: string, today: string) {
    KeywordMatches(t, keyword) && CategoryMatches(t, filter, today)
  }

  function MatchTest(keyword: string, filter: string, today: string): Todo -> bool {
    (t: Todo) => Matches(t, keyword, filter, today)
  }

  /** The `todos.filter(...)` step: each task that matches, as often as it occurs. */
  function Matching(todos: seq<Todo>, keyword: string, filter: string, today: string): (r: seq<Todo>)
    ensures forall t :: multiset(r)[t] == if Matches(t, keyword, filter, today) then multiset(todos)[t] else 0
  {
    FilterMultiset(MatchTest(keyword, filter, today), todos);
    Filter(MatchTest(keyword, filter, today), todos)
  }

  // ---------------------------------------------------------------------------
  // The comparator

  /** `a.dueDate && b.dueDate` on the stored due dates. */
  predicate HasDueDate(t: Todo) {
    Present(t.dueDate)
  }

  /** The sort comparator of getVisibleTodos: incomplete before completed; two incomplete
      tasks that both have different due dates by date; then by `order`; then by `id`.
      Only its sign matters. */
  function Compare(a: Todo, b: Todo): int {
    if a.completed != b.completed then (if a.completed then 1 else -1)
    else if !a.completed && !b.completed && HasDueDate(a) && HasDueDate(b) && a.dueDate != b.dueDate
    then LexCompare(a.dueDate.value, b.dueDate.value)
    else if a.order != b.order then a.order - b.order
    else a.id - b.id
  }

  /** The comparator is antisymmetric: swapping the arguments flips the sign. */
  lemma CompareAntisymmetric(a: Todo, b: Todo)
    ensures Sign(Compare(a, b)) == -Sign(Compare(b, a))
  {
    if a.completed == b.completed && !a.completed && HasDueDate(a) && HasDueDate(b) && a.dueDate != b.dueDate {
      LexCompareAntisymmetric(a.dueDate.value, b.dueDate.value);
    }
  }

  /** It calls two tasks equal only when they have the same id (and the same `order` and
      completion state). */
  lemma CompareZeroOnlyForSameId(a: Todo, b: Todo)
    requires Compare(a, b) == 0
    ensures a.id == b.id && a.order == b.order && a.completed == b.completed
  {
  }

  /** An incomplete task always sorts before a completed one. */
  lemma CompareIncompleteFirst(a: Todo, b: Todo)
    requires !a.completed && b.completed
    ensures Compare(a, b) < 0 && Compare(b, a) > 0
  {
  }

  /** The comparator is not transitive: the date clause applies only when both tasks have
      a due date, so three incomplete tasks, dated, undated and dated, with increasing
      `order` and the third due before the first, form a cycle. For instance `a` due
      2024-01-02 with order 1, `b` undated with order 2, `c` due 2024-01-01 with order 3. */
  lemma CompareNotTransitive(a: Todo, b: Todo, c: Todo)
    requires !a.completed && !b.completed && !c.completed
    requires HasDueDate(a) && !HasDueDate(b) && HasDueDate(c)
    requires LexCompare(c.dueDate.value, a.dueDate.value) < 0
    requires a.order < b.order < c.order
    ensures Compare(a, b) < 0 && Compare(b, c) < 0 && Compare(c, a) < 0
  {
  }

  // ---------------------------------------------------------------------------
  // The sort: insertion sort with that comparator

  /** Inserts `x` in front of the first element it does not sort after. */
  function Insert(x: Todo, s: seq<Todo>): (r: seq<Todo>)
    ensures multiset(r) == multiset(s) + multiset{x}
    ensures r[0] == x || (s != [] && r[0] == s[0])
  {
    if s == [] then [x]
    else if Compare(x, s[0]) <= 0 then [x] + s
    else
      assert s == [s[0]] + s[1..];
      [s[0]] + Insert(x, s[1..])
  }

  /** `result.sort(comparator)`, taken to be an insertion sort. */
  function SortTodos(s: seq<Todo>): (r: seq<Todo>)
    ensures multiset(r) == multiset(s)
  {
    if s == [] then []
    else
      assert s == [s[0]] + s[1..];
      Insert(s[0], SortTodos(s[1..]))
  }

  /** Every incomplete task comes before every completed one. */
  ghost predicate IncompleteFirst(s: seq<Todo>) {
    forall i, j :: 0 <= i < j < |s| && s[i].completed ==> s[j].completed
  }

  /** Each task is in comparator order with its successor. (The comparator is not
      transitive, so this does not make the list sorted.) */
  ghost predicate NeighboursOrdered(s: seq<Todo>) {
    forall i :: 0 <= i < |s| - 1 ==> Compare(s[i], s[i + 1]) <= 0
  }

  lemma {:induction false} InsertKeepsIncompleteFirst(x: Todo, s: seq<Todo>)
    requires IncompleteFirst(s)
    ensures IncompleteFirst(Insert(x, s))
  {
    if s != [] {
      var r := Insert(x, s);
      if Compare(x, s[0]) <= 0 {
        assert x.completed ==> s[0].completed;
      } else {
        var tail := Insert(x, s[1..]);
        InsertKeepsIncompleteFirst(x, s[1..]);
        assert r == [s[0]] + tail;
        if s[0].completed {
          assert x.completed;
          forall j | 0 <= j < |tail| ensures tail[j].completed {
            assert tail[j] in multiset(tail);
            assert tail[j] == x || tail[j] in s[1..];
          }
        }
      }
    }
  }

  lemma {:induction false} InsertKeepsNeighboursOrdered(x: Todo, s: seq<Todo>)
    requires NeighboursOrdered(s)
    ensures NeighboursOrdered(Insert(x, s))
  {
    if s != [] && Compare(x, s[0]) > 0 {
      var tail := Insert(x, s[1..]);
      InsertKeepsNeighboursOrdered(x, s[1..]);
      assert Insert(x, s) == [s[0]] + tail;
      CompareAntisymmetric(x, s[0]);
      assert Compare(s[0], tail[0]) <= 0;
    }
  }

  /** The sorted list never puts a completed task before an incomplete one, and each task
      is in comparator order with the next. */
  lemma {:induction false} SortOrdersCompletion(s: seq<Todo>)
    ensures IncompleteFirst(SortTodos(s))
    ensures NeighboursOrdered(SortTodos(s))
  {
    if s != [] {
      SortOrdersCompletion(s[1..]);
      InsertKeepsIncompleteFirst(s[0], SortTodos(s[1..]));
      InsertKeepsNeighboursOrdered(s[0], SortTodos(s[1..]));
    }
  }

  // ---------------------------------------------------------------------------
  // getVisibleTodos

  function Visible(todos: seq<Todo>, search: string, filter: string, today: string): seq<Todo> {
    SortTodos(Matching(todos, NormalizeKeyword(search), filter, today))
  }

  /** The visible list holds each matching task exactly as often as the store does, and
      nothing else; completed tasks come last. */
  lemma VisibleIsSortedSelection(todos: seq<Todo>, search: string, filter: string, today: string)
    ensures var v := Visible(todos, search, filter, today);
            && (forall t :: multiset(v)[t] ==
                 if Matches(t, NormalizeKeyword(search), filter, today) then multiset(todos)[t] else 0)
            && (forall t :: t in v <==> t in todos && Matches(t, NormalizeKeyword(search), filter, today))
            && IncompleteFirst(v)
  {
    var m := Matching(todos, NormalizeKeyword(search), filter, today);
    SortOrdersCompletion(m);
    forall t ensures t in Visible(todos, search, filter, today) <==> t in m {
      assert t in Visible(todos, search, filter, today) <==> t in multiset(SortTodos(m));
    }
  }

  /** A blank search with the "all" (or no) filter shows every task. */
  lemma BlankSearchShowsAll(todos: seq<Todo>, search: string, filter: string, today: string)
    requires forall k :: 0 <= k < |search| ==> IsWhitespace(search[k])
    requires filter == "" || filter == "all"
    ensures multiset(Visible(todos, search, filter, today)) == multiset(todos)
  {
    TrimEmptyIffBlank(search);
    assert NormalizeKeyword(search) == "";
    var m := Matching(todos, NormalizeKeyword(search), filter, today);
    assert multiset(m) == multiset(todos);
  }

  /** The "today" view shows exactly the tasks due today that match the search. */
  lemma TodayViewIsDueToday(todos: seq<Todo>, search: string, today: string, t: Todo)
    ensures t in Visible(todos, search, TodayCategoryId, today) <==>
              t in todos && t.dueDate == Some(today) && KeywordMatches(t, NormalizeKeyword(search))
  {
    VisibleIsSortedSelection(todos, search, TodayCategoryId, today);
  }

  /** Any other filter value shows exactly the matching tasks of that category. */
  lemma CategoryViewIsCategory(todos: seq<Todo>, search: string, filter: string, today: string, t: Todo)
    requires filter != "" && filter != "all" && filter != TodayCategoryId
    ensures t in Visible(todos, search, filter, today) <==>
              t in todos && t.categoryId == filter && KeywordMatches(t, NormalizeKeyword(search))
  {
    VisibleIsSortedSelection(todos, search, filter, today);
  }

  // ---------------------------------------------------------------------------
  // Restoring the category filter (renderCategorySelects)

  /** The option values of the filter dropdown: "all", "today", then each category id. */
  function FilterOptions(categories: seq<Category>): (r: seq<string>)
    ensures |r| == |categories| + 2
    ensures r[0] == "all" && r[1] == TodayCategoryId
    ensures forall k :: 0 <= k < |categories| ==> r[k + 2] == categories[k].id
  {
    ["all", TodayCategoryId] + seq(|categories|, k requires 0 <= k < |categories| => categories[k].id)
  }

  /** The filter value kept after the dropdown is rebuilt: a still-existing category id or
      "today" is kept, anything else falls back to "all". */
  function RestoreFilterValue(current: string, categories: seq<Category>): (r: string)
    ensures r in FilterOptions(categories)
    ensures r == current || r == "all"
    ensures r == current <==> current == "all" || current == TodayCategoryId
                              || (current != "" && HasCategory(categories, current))
  {
    var options := FilterOptions(categories);
    assert options[0] == "all" && options[1] == TodayCategoryId;
    if current != "" && current != "all" && current != TodayCategoryId then
      var k := CategoryIndex(categories, current);
      if k >= 0 then
        assert options[k + 2] == current;
        current
      else "all"
    else if current == TodayCategoryId then TodayCategoryId
    else "all"
  }

  /** Restoring a restored value changes nothing. */
  lemma RestoreFilterValueIdempotent(current: string, categories: seq<Category>)
    ensures RestoreFilterValue(RestoreFilterValue(current, categories), categories)
            == RestoreFilterValue(current, categories)
  {
  }
}
