/** loadFromStorage's repair of stored records, and the snapshot saveToStorage writes.
    Reading and writing localStorage and JSON text are outside the model: the value
    JSON.parse produced is the input, as a `Stored`. */
module Storage {
  import opened Builtins
  import opened TodoModel

  /** A stored task record as JSON.parse returns it. Fields the app copies unchanged are
      typed as the app writes them, `None` standing for a missing or null field; the two
      fields whose type the app tests (`completed`, `order`) are arbitrary values. */
  datatype RawTodo = RawTodo(
    id: Option<int>,
    title: Option<string>,
    description: Option<string>,
    category: Option<string>,
    categoryId: Option<string>,
    completed: JsValue,
    createdAt: Option<string>,
    dueDate: Option<string>,
    order: JsValue)

  /** An element of a stored task array: `null` (reading a field of it throws) or a
      record (a number or string element reads as a record with no fields). */
  datatype RawItem = NullItem | Item(rec: RawTodo)

  /** What the storage key holds, after JSON.parse:
      - `Absent`: no value, or the empty string;
      - `ParseError`: the text is not JSON, or it parses to `null`, whose `.todos` throws;
      - `LegacyArray`: a bare task array, the format of older versions;
      - `Obj`: any other value; its `todos` and `categories` are `None` unless arrays. */
  datatype Stored =
    | Absent
    | ParseError
    | LegacyArray(items: seq<RawItem>)
    | Obj(todos: Option<seq<RawItem>>, categories: Option<seq<Category>>)

  datatype State = State(todos: seq<Todo>, categories: seq<Category>)

  /** The state loadFromStorage falls back to: no tasks and the default categories. */
  function DefaultState(): State {
    State([], CreateDefaultCategories())
  }

  predicate HasNullItem(items: seq<RawItem>) {
    exists k :: 0 <= k < |items| && items[k].NullItem?
  }

  /** `t.id || Date.now() + idx`. */
  function RepairId(id: Option<int>, idx: nat, now: int): int {
    if id.Some? && id.value != 0 then id.value else now + idx
  }

  /** `typeof t.order === "number" ? t.order : idx + 1`. */
  function RepairOrder(order: JsValue, idx: nat): int {
    if order.Number? then order.n else idx + 1
  }

  /** `t.dueDate || null`. */
  function RepairDueDate(dueDate: Option<string>): Option<string> {
    if Present(dueDate) then dueDate else None
  }

  /** The map over a legacy array (main.js:103-112), as the evidently intended version:
      a missing title becomes "" as in the current-format branch. The category comes only
      from the old free-text `category`; a stored `categoryId` is ignored. */
  function RepairLegacy(r: RawTodo, idx: nat, now: int, nowIso: string): Todo {
    Todo(RepairId(r.id, idx, now), OrElse(r.title, ""), OrElse(r.description, ""),
         LegacyCategoryToId(r.category), Truthy(r.completed), OrElse(r.createdAt, nowIso),
         RepairDueDate(r.dueDate), RepairOrder(r.order, idx))
  }

  /** The map over a current-format task array (main.js:126-138). */
  function RepairCurrent(r: RawTodo, idx: nat, now: int, nowIso: string): Todo {
    Todo(RepairId(r.id, idx, now), OrElse(r.title, ""), OrElse(r.description, ""),
         OrElse(r.categoryId, LegacyCategoryToId(r.category)), Truthy(r.completed),
         OrElse(r.createdAt, nowIso), RepairDueDate(r.dueDate), RepairOrder(r.order, idx))
  }

  /** Both maps of loadFromStorage, record by record. `legacy` picks the map: the legacy
      one takes the category only from the old `category`, the current one prefers a
      stored `categoryId`. Every other field is repaired alike: a missing or zero id is
      the clock plus the index, a missing or empty title or description is "", the
      completed flag is the truthiness of the stored value, a missing or empty creation
      time is the clock's ISO string, an empty due date is null, and a non-numeric order
      is the index plus one. */
  function RepairAll(items: seq<RawItem>, legacy: bool, now: int, nowIso: string): (r: seq<Todo>)
    requires !HasNullItem(items)
    ensures |r| == |items|
    ensures forall k :: 0 <= k < |items| ==>
              && (items[k].rec.id.Some? && items[k].rec.id.value != 0 ==> r[k].id == items[k].rec.id.value)
              && (items[k].rec.id.None? || items[k].rec.id.value == 0 ==> r[k].id == now + k)
              && (Present(items[k].rec.title) ==> r[k].title == items[k].rec.title.value)
              && (!Present(items[k].rec.title) ==> r[k].title == "")
              && (Present(items[k].rec.description) ==> r[k].description == items[k].rec.description.value)
              && (!Present(items[k].rec.description) ==> r[k].description == "")
              && r[k].completed == Truthy(items[k].rec.completed)
              && (Present(items[k].rec.createdAt) ==> r[k].createdAt == items[k].rec.createdAt.value)
              && (!Present(items[k].rec.createdAt) ==> r[k].createdAt == nowIso)
              && (Present(items[k].rec.dueDate) ==> r[k].dueDate == items[k].rec.dueDate)
              && (!Present(items[k].rec.dueDate) ==> r[k].dueDate.None?)
              && (items[k].rec.order.Number? ==> r[k].order == items[k].rec.order.n)
              && (!items[k].rec.order.Number? ==> r[k].order == k + 1)
    ensures legacy ==> forall k :: 0 <= k < |items| ==>
              r[k].categoryId == LegacyCategoryToId(items[k].rec.category)
    ensures !legacy ==> forall k :: 0 <= k < |items| ==>
              && (Present(items[k].rec.categoryId) ==> r[k].categoryId == items[k].rec.categoryId.value)
              && (!Present(items[k].rec.categoryId) ==> r[k].categoryId == LegacyCategoryToId(items[k].rec.category))
  {
    seq(|items|, k requires 0 <= k < |items| =>
      if legacy then RepairLegacy(items[k].rec, k, now, nowIso)
      else RepairCurrent(items[k].rec, k, now, nowIso))
  }

  /** loadFromStorage: the tasks and categories it installs. A null element anywhere in
      a task array throws inside the `try`, and the `catch` installs the fallback. */
  function LoadState(raw: Stored, now: int, nowIso: string): (s: State)
    ensures |s.categories| > 0
  {
    match raw
    case Absent => DefaultState()
    case ParseError => DefaultState()
    case LegacyArray(items) =>
      if HasNullItem(items) then DefaultState()
      else State(RepairAll(items, true, now, nowIso), CreateDefaultCategories())
    case Obj(todos, categories) =>
      var items := if todos.Some? then todos.value else [];
      var cats := if categories.Some? && categories.value != [] then categories.value
                  else CreateDefaultCategories();
      if HasNullItem(items) then DefaultState()
      else State(RepairAll(items, false, now, nowIso), cats)
  }

  /** Nothing stored, nothing readable, or a null element in either format's task
      array: no tasks and exactly the three defaults. */
  lemma LoadWithoutData(raw: Stored, now: int, nowIso: string)
    requires || raw.Absent? || raw.ParseError?
             || (raw.LegacyArray? && HasNullItem(raw.items))
             || (raw.Obj? && raw.todos.Some? && HasNullItem(raw.todos.value))
    ensures LoadState(raw, now, nowIso) == State([], CreateDefaultCategories())
  {
  }

  /** A legacy array: one task per record, the default categories, and each task in the
      category its old free-text `category` maps to, which always exists. */
  lemma LoadLegacy(items: seq<RawItem>, now: int, nowIso: string)
    requires !HasNullItem(items)
    ensures var s := LoadState(LegacyArray(items), now, nowIso);
            && s.categories == CreateDefaultCategories()
            && |s.todos| == |items|
            && forall k :: 0 <= k < |items| ==>
                 && s.todos[k].categoryId == LegacyCategoryToId(items[k].rec.category)
                 && HasCategory(s.categories, s.todos[k].categoryId)
  {
  }

  /** A current-format object: the stored categories when they are a non-empty array,
      the defaults otherwise; and no task is left without a category id. */
  lemma LoadCurrent(todos: Option<seq<RawItem>>, categories: Option<seq<Category>>,
                    now: int, nowIso: string)
    requires todos.Some? ==> !HasNullItem(todos.value)
    ensures var s := LoadState(Obj(todos, categories), now, nowIso);
            && (categories.None? || categories == Some([]) ==> s.categories == CreateDefaultCategories())
            && (categories.Some? && categories.value != [] ==> s.categories == categories.value)
            && (todos.None? ==> s.todos == [])
            && forall t :: t in s.todos ==> t.categoryId != ""
  {
  }

  /** Per-record repair in both formats: `completed` becomes the truthiness of the stored
      value, a non-numeric `order` becomes the 1-based position, an empty or missing due
      date becomes null, and a missing or zero id is replaced from the clock. */
  lemma {:induction false} LoadRepairsFields(raw: Stored, now: int, nowIso: string, k: nat)
    requires raw.LegacyArray? || raw.Obj?
    requires var items := if raw.LegacyArray? then raw.items
                          else if raw.todos.Some? then raw.todos.value else [];
             !HasNullItem(items) && k < |items|
    ensures var items := if raw.LegacyArray? then raw.items
                         else if raw.todos.Some? then raw.todos.value else [];
            var t := LoadState(raw, now, nowIso).todos[k];
            var r := items[k].rec;
            && t.completed == Truthy(r.completed)
            && (r.order.Number? ==> t.order == r.order.n)
            && (!r.order.Number? ==> t.order == k + 1)
            && (t.dueDate.Some? ==> t.dueDate.value != "" && t.dueDate == r.dueDate)
            && (Present(r.dueDate) ==> t.dueDate == r.dueDate)
            && (r.id.Some? && r.id.value != 0 ==> t.id == r.id.value)
            && (now > 0 ==> t.id != 0)
  {
  }

  // ---------------------------------------------------------------------------
  // saveToStorage

  /** The record JSON.stringify writes for a task (it has no `category` field). */
  function ToRaw(t: Todo): RawTodo {
    RawTodo(Some(t.id), Some(t.title), Some(t.description), None, Some(t.categoryId),
            Bool(t.completed), Some(t.createdAt), t.dueDate, Number(t.order))
  }

  /** The `{todos, categories}` object saveToStorage writes, as JSON.parse reads it back. */
  function Snapshot(s: State): Stored {
    Obj(Some(seq(|s.todos|, k requires 0 <= k < |s.todos| => Item(ToRaw(s.todos[k])))),
        Some(s.categories))
  }

  /** The fields loading would otherwise replace are all set: every task the app creates
      or loads has them, given a clock that does not read 0. */
  predicate Persistable(t: Todo) {
    t.id != 0 && t.categoryId != "" && t.createdAt != "" && t.dueDate != Some("")
  }

  /** With a clock past 0, every task loadFromStorage installs is persistable: the
      repairs fill in each field a save and a reload would otherwise change. */
  lemma LoadedTasksPersist(raw: Stored, now: int, nowIso: string)
    requires now > 0 && nowIso != ""
    ensures forall t :: t in LoadState(raw, now, nowIso).todos ==> Persistable(t)
  {
  }

  /** Saving then loading gives back the same tasks and categories, as long as every task
      is persistable and there is at least one category. */
  lemma {:induction false} SaveLoadRoundTrip(s: State, now: int, nowIso: string)
    requires forall t :: t in s.todos ==> Persistable(t)
    requires s.categories != []
    ensures LoadState(Snapshot(s), now, nowIso) == s
  {
    var items := Snapshot(s).todos.value;
    assert !HasNullItem(items);
    var r := RepairAll(items, false, now, nowIso);
    forall k | 0 <= k < |s.todos|
      ensures r[k] == s.todos[k]
    {
      assert Persistable(s.todos[k]);
    }
  }

  /** The round trip for every clock reading the reload may see. */
  lemma SaveLoadAnyClock(s: State)
    ensures (forall t :: t in s.todos ==> Persistable(t)) && s.categories != [] ==>
              forall now: int, nowIso: string :: LoadState(Snapshot(s), now, nowIso) == s
  {
    if (forall t :: t in s.todos ==> Persistable(t)) && s.categories != [] {
      forall now: int, nowIso: string ensures LoadState(Snapshot(s), now, nowIso) == s {
        SaveLoadRoundTrip(s, now, nowIso);
      }
    }
  }

  /** Saving with no categories left and loading again installs the defaults. */
  lemma SaveLoadNoCategories(s: State, now: int, nowIso: string)
    requires s.categories == []
    ensures LoadState(Snapshot(s), now, nowIso).categories == CreateDefaultCategories()
  {
  }

  // ---------------------------------------------------------------------------
  // The legacy map as written

  /** The title the legacy map stores as written (main.js:105): `t.title`, which is
      `undefined` when the record has none. */
  function LegacyTitleAsWritten(r: RawTodo): Option<string> {
    r.title
  }

  /** The keyword test of getVisibleTodos (main.js:170-171) on a title that may be
      `undefined`: `None` stands for the TypeError `undefined.toLowerCase()` throws. */
  function KeywordTestAsWritten(title: Option<string>, keyword: string): (r: Option<bool>)
    ensures keyword == "" ==> r == Some(true)
    ensures keyword != "" && title.None? ==> r.None?
    ensures title.Some? ==> r == Some(keyword == "" || Contains(ToLower(title.value), keyword))
  {
    if keyword == "" then Some(true)
    else if title.None? then None
    else Some(Contains(ToLower(title.value), keyword))
  }

  /** A legacy record without a title, then a search for "a": the filter throws. */
  lemma UntitledLegacyRecordBreaksSearch()
    ensures var r := RawTodo(Some(1), None, None, None, None, Undefined, None, None, Undefined);
            KeywordTestAsWritten(LegacyTitleAsWritten(r), "a").None?
  {
  }

  /** With the repaired title, the keyword test is defined for every record and keyword. */
  lemma RepairedLegacyTitleIsSearchable(r: RawTodo, idx: nat, now: int, nowIso: string, keyword: string)
    ensures var t := RepairLegacy(r, idx, now, nowIso);
            && KeywordTestAsWritten(Some(t.title), keyword).Some?
            && (Present(r.title) ==> t.title == r.title.value)
            && (!Present(r.title) ==> t.title == "")
  {
  }
}
