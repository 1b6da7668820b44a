# To-do list data model in Dafny

This project models the in-memory data model of a browser to-do list app (`main.js`). The app keeps two global lists:
- tasks, each with an id, title, description, category id, completion flag, creation time, optional due date and manual `order`;
- categories, each an id and a name.

The model covers how the app loads these lists from a stored value and how it changes them:
- adding, deleting and toggling tasks;
- adding and deleting categories, where deleting a category also deletes its tasks;
- dragging a task onto another task to reorder them.

It also covers how the app derives the visible list (a keyword search and a category filter, then a sort), the rule that restores the filter dropdown, the category name lookup, and how today's date is formatted.

The modules follow the parts of the file:

- `Builtins` holds the JavaScript built-ins the app relies on: truthiness, `trim`, `toLowerCase`, `includes`, `filter`, `findIndex`, number-to-string, `padStart`, and string comparison.
- `TodoModel` holds the records, the default categories, the legacy category mapping, `createTodo`, the lookups by id, and the list transformations behind toggle and delete.
- `Storage` holds the parsed stored value and `loadFromStorage`'s repair of each record. It also holds the snapshot `saveToStorage` writes.
- `View` holds `getVisibleTodos` (the filter, the comparator, the sort) and the filter-dropdown restore rule.
- `Dates` holds `getTodayDateString`'s formatting.
- `Reordering` holds `reorderTodos`: the splice and the renumbering.
- `TodoStore` holds the class `Store`, whose fields are the two global lists and whose methods are the handlers. It also holds lemmas about what each handler does to the state.

The sort comparator is not transitive, because its due-date clause applies only when both tasks have a due date. So the model does not claim a sorted output. The sort is an insertion sort with the app's comparator, and the model proves three things about it:
- the output is a permutation of its input;
- no completed task comes before an incomplete one;
- every adjacent pair is in comparator order.

The doc comment of `deleteTodo` (main.js:401-404) says a category is deleted when its last task goes. The body does not do this, and the model follows the body: `DeleteTodo` never changes the categories.

## Model

| member | source | states |
|---|---|---|
| Builtins.Trim | main.js:372-373 | The result has no leading or trailing whitespace and is a contiguous slice of the input, from which only whitespace was cut. |
| Builtins.TrimEmptyIffBlank | main.js:377 | A string trims to empty exactly when all its characters are whitespace. |
| Builtins.TrimIdempotent | main.js:474 | Trimming twice is trimming once. |
| Builtins.ToLower | main.js:164 | Lower-casing keeps the length and maps each character on its own. |
| Builtins.ToLowerIdempotent | main.js:164 | Lower-casing twice is lower-casing once. |
| Builtins.OrElse | main.js:128-131 | On an optional string: the value when it is present and non-empty, otherwise the fallback. |
| Builtins.NatToString | main.js:477 | The decimal rendering of a number is a non-empty string of digits, one digit long exactly for numbers below 10. |
| Builtins.ParseNatToString | main.js:477 | Reading back the decimal rendering of a number gives the number. |
| Builtins.NatToStringInjective | main.js:477 | Different clock readings give different category ids. |
| Builtins.PadStart | main.js:35-36 | Pads with leading "0" up to the width: the result ends with the input and has only zeros in front of it. |
| Builtins.LexCompare | main.js:199 | String comparison returns -1, 0 or 1, and 0 exactly for equal strings. |
| Builtins.LexCompareAntisymmetric | main.js:199 | Swapping the arguments of the string comparison negates the result. |
| Builtins.Filter | main.js:168 | `filter` keeps exactly the elements passing the test and is no longer than its input. |
| Builtins.FilterConcat | main.js:168 | Filtering a concatenation is the concatenation of the filtered parts, so `filter` keeps the surviving elements in their input order. |
| Builtins.FilterDropsOne | main.js:446-448 | A filter that rejects exactly the element at one index removes that element and leaves the rest in order. |
| Builtins.FilterMultiset | main.js:168 | `filter` keeps each passing element as often as it occurs and drops every other element. |
| Builtins.FilterSplit | main.js:434-445 | Filtering by a test and by its negation splits the list: the two lengths add up to the whole. |
| Builtins.FilterKeepsAll | main.js:168-170 | A test that every element passes leaves the list as it was. |
| Builtins.FirstIndex | main.js:588 | `findIndex` returns -1 exactly when no element passes, and otherwise the first index that passes. |
| TodoModel.CreateDefaultCategories | main.js:43-49 | Three categories with distinct ids, exactly work, study and life, each with a non-empty name. |
| TodoModel.LegacyCategoryToId | main.js:54-60 | The result is always a default id. It equals the argument exactly when the argument is "work", "study" or "life"; in every other case, missing or empty included, it is "work". |
| TodoModel.LegacyCategoryHasDefault | main.js:54-60 | The id a legacy category maps to names one of the default categories. |
| TodoModel.MaxOrder | main.js:66-69 | The `reduce` gives the largest order, or 0: it is at least every task's order, and it is 0 or some task's order. |
| TodoModel.CreateTodo | main.js:65-81 | The new task is not completed. Its due date is null for an empty input. Its order is at least 1, above every existing order, and either 1 or one more than an existing order. |
| TodoModel.IndexOfId | main.js:406 | The index of the first task with the id, or -1 exactly when no task has it. |
| TodoModel.IndexOfUniqueId | main.js:588 | With unique ids, looking a task's id up gives that task's index. |
| TodoModel.GetCategoryNameById | main.js:220-225 | The name of the first category with the id, or "未分类" when no category has it. |
| TodoModel.Toggled | main.js:459-462 | Flips `completed` on exactly the tasks with the id. Length, order of tasks and every other field are unchanged. |
| TodoModel.ToggleTwice | main.js:459-462 | Toggling the same id twice restores the list. |
| TodoModel.WithoutId | main.js:412 | Keeps exactly the tasks with another id, each as often as before. |
| TodoModel.InCategory | main.js:434-436 | Exactly the tasks of the category. |
| TodoModel.NotInCategory | main.js:443-445 | Exactly the tasks outside the category, each as often as before. Its length plus the number of tasks in the category is the total. |
| TodoModel.WithoutCategory | main.js:446-448 | Exactly the categories with another id, each as often as before. |
| TodoModel.WithoutCategoryKeepsOrder | main.js:446-448 | Deleting a category whose id occurs once removes exactly that entry and keeps the others in their order, the order the dropdown lists them in and the name lookup searches. |
| Storage.RepairAll | main.js:103-138 | One task per stored record, at the same index. A missing or zero id becomes the clock plus the index. A missing or empty title, description or creation time becomes "", "" or the clock's ISO string. `completed` is the truthiness of the stored value, an empty due date becomes null, and a non-numeric order becomes the index plus one. The legacy map takes the category id from `legacyCategoryToId` of the old category; the current map keeps a non-empty stored `categoryId` and falls back to that otherwise. |
| Storage.LoadState | main.js:89-144 | The loaded state always has at least one category. |
| Storage.LoadWithoutData | main.js:90-95 | Nothing stored, unparsable data, or a null element in a legacy or a current-format task array (the throw caught at main.js:139-142) gives no tasks and exactly the three default categories. |
| Storage.LoadLegacy | main.js:100-112 | A legacy array gets the default categories and one task per record. Each task's category is `legacyCategoryToId` of its old category, and that category exists. |
| Storage.LoadCurrent | main.js:115-138 | A current-format object keeps its categories when they are a non-empty array and gets the defaults otherwise. A missing task array gives no tasks, and no loaded task has an empty category id. |
| Storage.LoadRepairsFields | main.js:103-138 | Per record: `completed` is the truthiness of the stored value. A numeric order is kept and any other becomes the index plus one. An empty due date becomes null. A non-zero id is kept, and with a positive clock no loaded id is 0. |
| Storage.SaveLoadRoundTrip | main.js:149-159 | Saving and loading again gives back the same tasks and categories, when every task has its id, category, creation time and due date set and some category exists. |
| Storage.LoadedTasksPersist | main.js:103-138 | With a clock past 0 and a non-empty ISO string, every loaded task is persistable, so a save right after a load reloads the same tasks. |
| Storage.SaveLoadAnyClock | main.js:149-159 | The save-and-reload round trip holds whatever clock the reload reads. |
| Storage.SaveLoadNoCategories | main.js:121-123 | Saving with no categories left and loading again installs the defaults. |
| Storage.KeywordTestAsWritten | main.js:169-171 | The keyword test on a possibly undefined title: it passes for an empty keyword, throws for a missing title, and otherwise tests containment. |
| Storage.UntitledLegacyRecordBreaksSearch | main.js:105 | A legacy record without a title, then a search for "a", makes the keyword test throw. |
| Storage.RepairedLegacyTitleIsSearchable | main.js:128 | With the title repaired to "" when missing, the keyword test is defined for every record. A present title is kept and a missing one becomes "". |
| View.Matching | main.js:168-184 | The filter keeps each task that matches the keyword and the category test, as often as it occurs, and nothing else. |
| View.CompareAntisymmetric | main.js:192-212 | Swapping the comparator's arguments flips the sign of its result. |
| View.CompareZeroOnlyForSameId | main.js:206-210 | The comparator returns 0 only for tasks with the same id, order and completion state. |
| View.CompareIncompleteFirst | main.js:193-195 | An incomplete task compares below a completed one, in both argument orders. |
| View.CompareNotTransitive | main.js:197-201 | Three incomplete tasks form a cycle when they are dated, undated and dated with increasing order and the third is due before the first. |
| View.Insert | main.js:192 | Insertion adds exactly the one element, and the result starts with it or with the old head. |
| View.SortTodos | main.js:192 | The sort returns a permutation of its input. |
| View.InsertKeepsIncompleteFirst | main.js:193-195 | Inserting into a list with incomplete tasks first keeps them first. |
| View.InsertKeepsNeighboursOrdered | main.js:192-212 | Inserting into a list whose neighbours are in comparator order keeps them so. |
| View.SortOrdersCompletion | main.js:192-212 | The sorted list has every incomplete task before every completed one, and every pair of neighbours in comparator order. |
| View.VisibleIsSortedSelection | main.js:164-215 | The visible list holds each matching task exactly as often as the store does, and nothing else, with completed tasks last. |
| View.BlankSearchShowsAll | main.js:164-173 | A blank search with the "all" or an empty filter shows every task. |
| View.TodayViewIsDueToday | main.js:174-176 | The "today" filter shows exactly the tasks due today that match the search. |
| View.CategoryViewIsCategory | main.js:177-181 | Any other filter value shows exactly the matching tasks of that category. |
| View.FilterOptions | main.js:243-261 | The dropdown's options are "all", then "today", then each category's id in list order. |
| View.RestoreFilterValue | main.js:264-278 | The restored value is one of the new options. It is the old value exactly when that was "all", "today" or a non-empty id of an existing category, and "all" otherwise. |
| View.RestoreFilterValueIdempotent | main.js:264-278 | Restoring a restored value changes nothing. |
| Dates.FormatDateParts | main.js:32-38 | With a four-digit year, the date string has 10 characters: digits with dashes at positions 4 and 7, and the parts read back as year, month (one-based) and day. |
| Dates.FormatDateInjective | main.js:32-38 | For four-digit years, different dates give different strings. |
| Dates.DigitOrder | main.js:199 | Digit strings of equal length compare as the numbers they spell. |
| Dates.FormattedDatesCompareChronologically | main.js:32-38 | Comparing two formatted dates as strings, as the comparator does with due dates, gives their chronological order. |
| Reordering.Moved | main.js:583-584 | The two splices keep the length and the elements. The source lands at the target's index, and taking it out again leaves the list without the source. |
| Reordering.MovedAt | main.js:583-584 | Every other element of the moved list comes from an index that keeps the relative order. |
| Reordering.MoveWithinGroupKeepsIncompleteFirst | main.js:574-577 | Moving a task onto one with the same completion state keeps incomplete tasks ahead of completed ones. |
| Reordering.Renumber | main.js:587-592 | Renumbering changes only `order`: length, ids and every other field stay. |
| Reordering.RenumberGivesPositions | main.js:587-592 | With unique ids, each task whose id appears in the walked list gets its position there plus one, and every other task keeps its order. |
| Reordering.UniqueIdsSubMultiset | main.js:169 | A selection of tasks with unique ids has unique ids. |
| Reordering.ReorderWithin | main.js:568-592 | Reordering changes only `order`: length, ids and every other field stay. |
| Reordering.ReorderNeedsBothVisible | main.js:570-572 | A source or target outside the visible list changes nothing. |
| Reordering.ReorderKeepsCompletionGroupsApart | main.js:575-577 | With unique ids in the visible list, moving a completed task onto an incomplete one, or the reverse, changes nothing. |
| Reordering.RenumberAlongMove | main.js:583-592 | With unique task ids, after the move, each task of the moved list gets its new index plus one, and every other task is unchanged. |
| Reordering.ReorderRenumbersVisible | main.js:568-592 | With unique task ids, a permitted drop puts the source at the target's index and keeps incomplete tasks first. Each visible task gets its new position plus one, and tasks outside the visible list are unchanged. |
| TodoStore.DeleteCurrentCategoryRequest | main.js:490-521 | The filter value decides when it is set: "all" and "today" are refused and any other value is deleted. The form's select is used only when the filter is empty. Nothing is deleted when both are empty. |
| TodoStore.Store.constructor | main.js:2-3 | Both lists start empty. |
| TodoStore.Store.Load | main.js:89-144 | The fields become the loaded state. |
| TodoStore.Store.Saved | main.js:149-159 | The saved value is an object holding the categories and one record per task, each task's fields as `JSON.stringify` writes them. When every task is persistable and some category exists, loading it back gives exactly the two lists, whatever the clock. |
| TodoStore.Store.AddTodo | main.js:371-399 | An empty trimmed title or an empty category changes nothing. Otherwise exactly one task, built by `createTodo` from the trimmed title and description, is appended. Categories are unchanged. |
| TodoStore.Store.DeleteTodo | main.js:405-417 | The confirmation is shown exactly when a task has the id. A confirmed delete removes exactly the tasks with that id. Categories are never changed. |
| TodoStore.Store.ToggleTodo | main.js:459-465 | The tasks become their toggled list, and the categories stay. |
| TodoStore.Store.DeleteCategoryById | main.js:422-453 | "today" and unknown ids are ignored. Otherwise the count shown is the number of tasks in the category, and a confirmed delete removes those tasks and the category. A declined one changes nothing. |
| TodoStore.Store.HandleAddCategory | main.js:470-482 | A cancelled or blank answer changes nothing. Otherwise one category, with the clock as decimal id and the trimmed answer as name, is appended. Tasks are unchanged. |
| TodoStore.Store.HandleDeleteCurrentCategory | main.js:490-521 | The dispatch decides, and a delete request has exactly `deleteCategoryById`'s effect. |
| TodoStore.Store.HandleDrop | main.js:544-555 | No dragged task, a zero id, or a drop on the dragged task itself changes nothing. Otherwise the tasks are reordered. |
| TodoStore.Store.Reorder | main.js:568-596 | The tasks become the reordered tasks, and the categories stay. |
| TodoStore.Store.RenumberAlong | main.js:587-592 | The loop's result is the renumbering along the moved list. |
| TodoStore.AddKeepsUniqueIds | main.js:388-389 | Appending a task with a fresh id keeps ids unique. |
| TodoStore.AddedTodoPersists | main.js:65-81 | Adding a task with a non-zero clock, a creation time and a category keeps every task persistable, which is what the save-and-reload round trip requires. |
| TodoStore.AddedUndatedTodoSortsLast | main.js:65-81 | A task added without a due date sorts after every incomplete task and before every completed one. |
| TodoStore.ToggleKeepsIdsAndPersistable | main.js:459-462 | Toggling keeps ids unique and tasks persistable. |
| TodoStore.DeleteTodoKeepsInvariants | main.js:412 | After a delete no task has the id, ids stay unique, and tasks stay persistable. |
| TodoStore.DeletedCategoryIsGone | main.js:443-448 | After a category delete no task or category has the id, the name lookup falls back to "未分类", and the filter dropdown falls back to "all". |
| TodoStore.DeletedCategoryViewIsEmpty | main.js:443-445 | After a category delete the category's view is empty. |
| TodoStore.DeleteCategoryKeepsInvariants | main.js:443-445 | A category delete keeps ids unique and every remaining task persistable. |
| TodoStore.ReorderKeepsInvariants | main.js:587-592 | A drop keeps ids unique and every task persistable, since only `order` changes. |
| TodoStore.NewCategoryIdIsNotReserved | main.js:477 | A clock-based category id is never "all", "today" or a default id. |
| TodoStore.AddedCategoryIsFound | main.js:477-478 | After adding a category under a fresh id, the lookup finds its name and the filter dropdown keeps it selected. |

## Left out

- DOM caching, rendering (`renderTodos`, building options in `renderCategorySelects`), event binding and `init`: presentation only.
- `localStorage`, `JSON.parse` and `JSON.stringify`: the parsed value is the input of `LoadState`, and saving is the value `Snapshot` returns. The failure branch of `saveToStorage`, which only logs, is not modelled.
- Dialogs: the answers of `confirm` and `prompt` are inputs (`confirmed`, `answer`). The form fields and the two dropdown values are inputs too. An absent dropdown reads as an empty value.
- The clock: `Date.now()`, the ISO timestamp and today's date are inputs. `getTodayDateString` is modelled from its year, month and day.
- The `handleDragStart`, `handleDragOver` and `handleDragEnd` handlers and the `draggingTodoId` global: the dragged id is an input of `HandleDrop`. `HandleDrop` therefore does not model the reset of that global after a drop.
- Builtins.ToLower: lower-cases ASCII letters only, not the full Unicode case mapping of `toLowerCase`.
- Builtins.LexCompare: compares code points in order, not locale-sensitively like `localeCompare`. The two agree on the `YYYY-MM-DD` due dates the app stores.
- View.SortTodos: an insertion sort with the app's comparator. The browser's own sort algorithm, given a non-transitive comparator, may place tasks differently, so only the permutation, the completion grouping and the ordered neighbours are claimed.
- Numbers are integers: NaN, fractional values, and the `typeof order === "number"` fallbacks for non-numeric orders inside the comparator and `createTodo` are not modelled. Every loaded or created order is already a number.
- Storage.RawTodo: fields the app only copies are typed as the app writes them. A stored title that is a number, for instance, is not modelled.
- `String(...)` around category ids: ids are strings throughout the model, so a numeric id stored by another program is not distinguished.
- Reordering.RenumberGivesPositions, Reordering.ReorderKeepsCompletionGroupsApart, Reordering.RenumberAlongMove and Reordering.ReorderRenumbersVisible: assume unique task ids. The app takes ids from the clock and never checks them. With duplicate ids `find` picks the first task with the id, and these claims can fail in the app and in the model alike.
- Storage.RepairAll, Storage.LoadState and Storage.LoadLegacy: load the legacy format with the corrected title, "" for a missing one, so `Store.Load` does too. As written, main.js:105 keeps the title undefined; the "Findings" section models that version.
- Storage.RepairAll: reads the clock once for the whole load (`now`, `nowIso`). main.js calls `Date.now()` and `new Date()` again for each record (lines 104, 109, 127, 132), so two records repaired in different milliseconds can get clock values the model does not produce.
- Dates.FormatDateParts, Dates.FormatDateInjective and Dates.FormattedDatesCompareChronologically: stated for four-digit years only.

## Findings

| source | as written | input that shows it | evidently intended | confidence | as-written member | corrected member |
|---|---|---|---|---|---|---|
| main.js:105 | The legacy repair keeps `title: t.title`, so a legacy record without a title loads with an undefined title. `todo.title.toLowerCase()` at main.js:171 then throws whenever the search box is not empty. | stored value `[{}]`, then search text "a" | an empty-string default for a missing title, as the current-format branch has at main.js:128 | medium, not executed | Storage.UntitledLegacyRecordBreaksSearch | Storage.RepairedLegacyTitleIsSearchable |
