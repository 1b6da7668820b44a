/** The records of the to-do app (tasks and categories) and the pure helpers of
    main.js that build, look up and transform them. */
module TodoModel {
  import opened Builtins

  /** A task as the app holds it after loading or creating it. `dueDate` is `None`
      where the app stores `null`. `categoryId` is compared as a string throughout. */
  datatype Todo = Todo(
    id: int,
    title: string,
    description: string,
    categoryId: string,
    completed: bool,
    createdAt: string,
    dueDate: Option<string>,
    order: int)

  datatype Category = Category(id: string, name: string)

  /** The virtual "today" filter value; never a stored category. */
  const TodayCategoryId: string := "today"

  /** The label shown for a category id that names no category. */
  const UncategorizedName: string := "未分类"

  predicate IsDefaultCategoryId(id: string) {
    id == "work" || id == "study" || id == "life"
  }

  /** The three categories installed when storage holds none: work, study, life. */
  function CreateDefaultCategories(): (r: seq<Category>)
    ensures |r| == 3
    ensures forall i, j :: 0 <= i < j < |r| ==> r[i].id != r[j].id
    ensures forall c :: c in r ==> IsDefaultCategoryId(c.id) && c.name != ""
    ensures forall id :: IsDefaultCategoryId(id) ==> exists c :: c in r && c.id == id
  {
    var r := [Category("work", "工作"), Category("study", "学习"), Category("life", "生活")];
    assert r[0] in r && r[1] in r && r[2] in r;
    r
  }

  /** Maps an old free-text category to an id: the three known ids map to themselves,
      anything else (including a missing or empty value) to "work". */
  function LegacyCategoryToId(category: Option<string>): (id: string)
    ensures IsDefaultCategoryId(id)
    ensures Some(id) == category <==> category.Some? && IsDefaultCategoryId(category.value)
    ensures Some(id) != category ==> id == "work"
  {
    if !Present(category) then "work"
    else if IsDefaultCategoryId(category.value) then category.value
    else "work"
  }

  /** A legacy category always names one of the default categories. */
  lemma LegacyCategoryHasDefault(category: Option<string>)
    ensures exists c :: c in CreateDefaultCategories() && c.id == LegacyCategoryToId(category)
  {
    var d := CreateDefaultCategories();
    assert IsDefaultCategoryId(LegacyCategoryToId(category));
  }

  // ---------------------------------------------------------------------------
  // createTodo

  /** The `reduce` in createTodo: the largest numeric `order`, or 0 when there is none
      above 0. It folds from the left, as `reduce` does. */
  function MaxOrder(todos: seq<Todo>): (m: int)
    ensures m >= 0
    ensures forall t :: t in todos ==> t.order <= m
    ensures m == 0 || exists t :: t in todos && t.order == m
  {
    if todos == [] then 0
    else
      var m := MaxOrder(todos[..|todos| - 1]);
      var last := todos[|todos| - 1];
      assert todos == todos[..|todos| - 1] + [last];
      if last.order > m then last.order else m
  }

  /** The new task createTodo builds: not completed, `dueDate` null for an empty date, and
      an `order` one above the largest existing order, hence after every existing task. */
  function CreateTodo(todos: seq<Todo>, title: string, description: string, categoryId: string,
                      dueDate: string, id: int, createdAt: string): (t: Todo)
    ensures t.id == id && t.title == title && t.description == description
    ensures t.categoryId == categoryId && t.createdAt == createdAt
    ensures !t.completed
    ensures t.dueDate == if dueDate == "" then None else Some(dueDate)
    ensures t.order >= 1 && forall u :: u in todos ==> u.order < t.order
    ensures t.order == 1 || exists u :: u in todos && u.order == t.order - 1
  {
    Todo(id, title, description, categoryId, false, createdAt,
         if dueDate == "" then None else Some(dueDate), MaxOrder(todos) + 1)
  }

  // ---------------------------------------------------------------------------
  // Lookups by id

  function IndexOfId(todos: seq<Todo>, id: int): (r: int)
    ensures -1 <= r < |todos|
    ensures r == -1 <==> forall k :: 0 <= k < |todos| ==> todos[k].id != id
    ensures r >= 0 ==> todos[r].id == id && forall k :: 0 <= k < r ==> todos[k].id != id
  {
    FirstIndex((t: Todo) => t.id == id, todos)
  }

  /** No two tasks share an id. The app takes ids from the clock and does not check this. */
  ghost predicate UniqueIds(todos: seq<Todo>) {
    forall i, j :: 0 <= i < j < |todos| ==> todos[i].id != todos[j].id
  }

  /** With unique ids, the first index holding an id is the only one. */
  lemma IndexOfUniqueId(todos: seq<Todo>, k: nat)
    requires UniqueIds(todos) && k < |todos|
    ensures IndexOfId(todos, todos[k].id) == k
  {
  }

  function CategoryIndex(categories: seq<Category>, id: string): (r: int)
    ensures -1 <= r < |categories|
    ensures r == -1 <==> forall k :: 0 <= k < |categories| ==> categories[k].id != id
    ensures r >= 0 ==> categories[r].id == id && forall k :: 0 <= k < r ==> categories[k].id != id
  {
    FirstIndex((c: Category) => c.id == id, categories)
  }

  predicate HasCategory(categories: seq<Category>, id: string) {
    CategoryIndex(categories, id) >= 0
  }

  /** getCategoryNameById: the name of the first category with that id, or the
      "uncategorized" label when none has it. */
  function GetCategoryNameById(categories: seq<Category>, categoryId: string): (name: string)
    ensures (exists c :: c in categories && c.id == categoryId) ==>
              exists k :: 0 <= k < |categories| && categories[k].id == categoryId
                          && name == categories[k].name
                          && forall j :: 0 <= j < k ==> categories[j].id != categoryId
    ensures (forall c :: c in categories ==> c.id != categoryId) ==> name == UncategorizedName
  {
    var k := CategoryIndex(categories, categoryId);
    if k >= 0 then categories[k].name else UncategorizedName
  }

  // ---------------------------------------------------------------------------
  // toggleTodo, deleteTodo, deleteCategoryById

  /** toggleTodo's map: flips `completed` on the tasks with that id and nothing else. */
  function Toggled(todos: seq<Todo>, id: int): (r: seq<Todo>)
    ensures |r| == |todos|
    ensures forall k :: 0 <= k < |todos| ==>
              r[k] == todos[k].(completed := if todos[k].id == id then !todos[k].completed
                                             else todos[k].completed)
  {
    seq(|todos|, k requires 0 <= k < |todos| =>
      if todos[k].id == id then todos[k].(completed := !todos[k].completed) else todos[k])
  }

  /** Toggling the same id twice restores the list. */
  lemma ToggleTwice(todos: seq<Todo>, id: int)
    ensures Toggled(Toggled(todos, id), id) == todos
  {
  }

  /** deleteTodo's filter: the tasks whose id differs. */
  function WithoutId(todos: seq<Todo>, id: int): (r: seq<Todo>)
    ensures forall t :: t in r <==> t in todos && t.id != id
    ensures forall t :: multiset(r)[t] == if t.id != id then multiset(todos)[t] else 0
  {
    var keep := (t: Todo) => t.id != id;
    FilterMultiset(keep, todos);
    Filter(keep, todos)
  }

  /** The filter tests of deleteCategoryById, named so that every use is the same test. */
  function InCategoryTest(categoryId: string): Todo -> bool {
    (t: Todo) => t.categoryId == categoryId
  }

  function OutsideCategoryTest(categoryId: string): Todo -> bool {
    (t: Todo) => t.categoryId != categoryId
  }

  /** deleteCategoryById's `relatedTodos`: the tasks in that category. */
  function InCategory(todos: seq<Todo>, categoryId: string): (r: seq<Todo>)
    ensures forall t :: t in r <==> t in todos && t.categoryId == categoryId
  {
    Filter(InCategoryTest(categoryId), todos)
  }

  /** deleteCategoryById's cascade: the tasks outside that category, with their counts. */
  function NotInCategory(todos: seq<Todo>, categoryId: string): (r: seq<Todo>)
    ensures forall t :: t in r <==> t in todos && t.categoryId != categoryId
    ensures forall t :: multiset(r)[t] == if t.categoryId != categoryId then multiset(todos)[t] else 0
    ensures |r| + |InCategory(todos, categoryId)| == |todos|
  {
    FilterMultiset(OutsideCategoryTest(categoryId), todos);
    FilterSplit(InCategoryTest(categoryId), OutsideCategoryTest(categoryId), todos);
    Filter(OutsideCategoryTest(categoryId), todos)
  }

  function OtherCategoryTest(categoryId: string): Category -> bool {
    (c: Category) => c.id != categoryId
  }

  /** deleteCategoryById's category filter: the categories with another id, each as
      often as before. */
  function WithoutCategory(categories: seq<Category>, categoryId: string): (r: seq<Category>)
    ensures forall c :: c in r <==> c in categories && c.id != categoryId
    ensures forall c :: multiset(r)[c] == if c.id != categoryId then multiset(categories)[c] else 0
  {
    FilterMultiset(OtherCategoryTest(categoryId), categories);
    Filter(OtherCategoryTest(categoryId), categories)
  }

  /** Deleting a category whose id occurs once, at index `k`, removes exactly that entry
      and leaves the others in their order, which is the order the filter dropdown lists
      them in and the order the name lookup searches. */
  lemma WithoutCategoryKeepsOrder(categories: seq<Category>, k: nat)
    requires k < |categories|
    requires forall j :: 0 <= j < |categories| && j != k ==> categories[j].id != categories[k].id
    ensures WithoutCategory(categories, categories[k].id) == categories[..k] + categories[k + 1..]
  {
    FilterDropsOne(OtherCategoryTest(categories[k].id), categories, k);
  }
}
