# To-do screen list logic, modelled in Dafny

The to-do screen of this React Native app (`src/screens/todo.js`) keeps an
ordered list of task items `{key, text, complete, editing}` and a draft string
for the input bar. Each event handler computes a new list from the current one
and installs it with a state setter:

- add appends the draft as a new incomplete item, unless the draft is empty;
- toggle-all sets every item's `complete` flag to the negation of "all items are complete";
- set-complete, set-editing and update-text locate one item by key with `findIndex`
  and rebuild the list around it with `slice`;
- remove rebuilds the list without the located item;
- delete-all-completed keeps the items whose `complete` is `false`.

The project has three modules:

- `JsArray` (`js_array.dfy`) gives the semantics of ECMAScript's
  `Array.prototype.slice` that the handlers rely on. A negative index counts back
  from the end, and every index is clamped into `[0, length]`.
- `TodoList` (`todo_list.dfy`) holds the `Item` datatype and one pure function per
  handler's list update. It also holds the rebuilds exactly as the handlers write
  them (`Rebuild`, `Cut`) and the lemmas relating the operations.
- `TodoScreen` (`todo_screen.dfy`) holds the class `Todo`, with the fields
  `todoItems: seq<Item>` and `inputValue: string` and one method per handler.
  Each method's postcondition ties the new list to the `TodoList` function applied
  to the old list. Toggle-all is a loop over an array that sets one item's flag at
  a time, as the source's `map` callback does.

`Date.now()` is not read: the add handler takes the new item's key as a parameter.
An item created by add has no `editing` property in the source. That absent,
falsy flag is `false` here.

A by-key handler given a key that is not in the list is not a no-op: the code
does not guard `findIndex` returning -1 (see "## Findings"). Only `Rebuild`,
`Cut` and `RemoveAsWritten` follow the code in that case. `SetComplete`,
`SetEditing`, `UpdateText` and `Remove` are the corrected halves: they leave the
list unchanged for an absent key. The screen's methods `HandleToggleCompleteItem`,
`HandleRemoveToDoItem`, `HandleToggleEditing` and `HandleUpdateTodoItem` use these
corrected functions. Lemma `GuardedAgreesWhenPresent` proves that the corrected
functions equal the as-written rebuilds whenever the key is present.

Toggling all twice does not restore every flag in general. It does so exactly
when all flags were equal (`ToggleAllTwiceRestores`). Otherwise every flag ends
up as "all were complete" (`ToggleAllTwice`).

## Model

| member | source | states |
|---|---|---|
| `JsArray.RelativeIndex` | src/screens/todo.js:88 | a `slice` index argument resolves into `[0, n]`: an in-range index is kept, a negative one counts back from the end, and anything beyond either end is clamped |
| `JsArray.DropLast` | src/screens/todo.js:100 | `slice(0, -1)`, which `findIndex`'s -1 produces, gives the empty list for an empty input; otherwise it gives everything but the last element, one shorter |
| `JsArray.Slice` | src/screens/todo.js:88-90 | `slice(start, end)` with indices in range is the subsequence `s[start..end]`; `slice(0, -1)` drops the last element; slicing an empty array gives an empty one |
| `TodoList.FindIndex` | src/screens/todo.js:82 | the result is -1 exactly when no item has the key; otherwise it is the first index whose item has the key |
| `TodoList.FindIndexOfUnique` | src/screens/todo.js:82 | when keys are unique, looking up the key of the item at index i gives i |
| `TodoList.Rebuild` | src/screens/todo.js:86-91 | the slice-rebuild at a found index i replaces exactly index i; at index -1 it gives all-but-last, then the new record, then the whole list (twice the length for a non-empty list) |
| `TodoList.Cut` | src/screens/todo.js:98-103 | the slice-rebuild at a found index i is `L[..i] + L[i+1..]`, one shorter; at index -1 it gives all-but-last followed by the whole list |
| `TodoList.RemoveAsWritten` | src/screens/todo.js:95-104 | remove as written: for a present key at first-match index i, the result is `L[..i] + L[i+1..]`, one shorter; an absent key yields all-but-last followed by the whole list |
| `TodoList.RemoveAsWrittenAbsentKey` | src/screens/todo.js:96-101 | removing absent key 3 from `[a, b]` as written gives `[a, a, b]` |
| `TodoList.RemoveAsWrittenAbsentKeyGrows` | src/screens/todo.js:96-101 | for any list of two or more items and an absent key, remove as written gives length `2n - 1`, more than n |
| `TodoList.RebuildAbsentKey` | src/screens/todo.js:82-91 | with an absent key 3 on `[a, b]`, the setters' rebuild gives `[a, x, a, b]` for every new record x |
| `TodoList.Add` | src/screens/todo.js:51-60 | the old list is an unchanged prefix; exactly one item is appended at the end with the given key and text, and it is incomplete |
| `TodoList.AllComplete` | src/screens/todo.js:66 | the `every` test is true exactly when every item is complete, and so true for the empty list |
| `TodoList.ToggleAll` | src/screens/todo.js:65-77 | length, order, keys, texts and editing flags are unchanged; every `complete` flag becomes the negation of "every item was complete" |
| `TodoList.SetComplete` | src/screens/todo.js:81-93 | keys are unchanged; for a present key, only the first-match index changes and only in `complete`, which takes the new value; for an absent key, the list is unchanged (guarded) |
| `TodoList.SetEditing` | src/screens/todo.js:106-118 | keys are unchanged; for a present key, only the first-match index changes and only in `editing`; for an absent key, the list is unchanged (guarded) |
| `TodoList.UpdateText` | src/screens/todo.js:120-132 | keys are unchanged; for a present key, only the first-match index changes and only in `text`; for an absent key, the list is unchanged (guarded) |
| `TodoList.Remove` | src/screens/todo.js:95-104 | for a present key at first-match index i, the result is one shorter, keeps every item before i and shifts every item after i down by one; for an absent key, the list is unchanged (guarded) |
| `TodoList.GuardedAgreesWhenPresent` | src/screens/todo.js:81-132 | for a present key, the guarded set-complete, set-editing, update-text and remove equal the rebuilds as the handlers write them |
| `TodoList.WithoutCompleted` | src/screens/todo.js:141 | an item is in the result exactly when it is in the input and is not complete; the result is no longer than the input |
| `TodoList.WithoutCompletedAppend` | src/screens/todo.js:141 | the filter distributes over concatenation, so incomplete items keep their relative order |
| `TodoList.WithoutCompletedFixed` | src/screens/todo.js:141 | the filter returns its input unchanged exactly when no item is complete |
| `TodoList.WithoutCompletedIdempotent` | src/screens/todo.js:140-143 | deleting the completed items twice equals deleting them once |
| `TodoList.WithoutCompletedKeepsKeysUnique` | src/screens/todo.js:141 | unique keys stay unique after deleting completed items |
| `TodoList.RemoveKeepsKeysUnique` | src/screens/todo.js:95-104 | unique keys stay unique after a remove |
| `TodoList.AddKeepsKeysUnique` | src/screens/todo.js:51-60 | adding under a key not yet in use keeps keys unique |
| `TodoList.AddThenRemove` | src/screens/todo.js:95-104 | removing the key of an item just added under a fresh key restores the original list |
| `TodoList.ToggleAllUniform` | src/screens/todo.js:71-74 | after toggle-all, every item carries the same `complete` flag |
| `TodoList.ToggleAllTwice` | src/screens/todo.js:65-77 | after two toggle-alls, every flag equals "all items were complete" at the start |
| `TodoList.ToggleAllTwiceRestores` | src/screens/todo.js:65-77 | two toggle-alls restore the list if and only if all flags were equal |
| `TodoScreen.Todo.constructor` | src/screens/todo.js:15-17 | the screen starts with an empty list and an empty draft |
| `TodoScreen.Todo.HandleChangeInput` | src/screens/todo.js:150 | the draft becomes the typed value |
| `TodoScreen.Todo.HandleAddToDoItem` | src/screens/todo.js:46-63 | with an empty draft, the list and the draft are unchanged; otherwise the list becomes `Add(old list, key, draft)` and the draft becomes empty; unique keys stay unique when the key is fresh |
| `TodoScreen.Todo.HandleToggleCompleteAllItems` | src/screens/todo.js:65-79 | the array loop leaves the list equal to `ToggleAll` of the old list and keeps keys unique |
| `TodoScreen.Todo.HandleToggleCompleteItem` | src/screens/todo.js:81-93 | the list becomes `SetComplete` of the old list |
| `TodoScreen.Todo.HandleRemoveToDoItem` | src/screens/todo.js:95-104 | the list becomes `Remove` of the old list; unique keys stay unique |
| `TodoScreen.Todo.HandleToggleEditing` | src/screens/todo.js:106-118 | the list becomes `SetEditing` of the old list |
| `TodoScreen.Todo.HandleUpdateTodoItem` | src/screens/todo.js:120-132 | the list becomes `UpdateText` of the old list |
| `TodoScreen.Todo.HandleDeleteAllCompleted` | src/screens/todo.js:140-143 | the list becomes `WithoutCompleted` of the old list; unique keys stay unique |

## Findings

| source | as written | input that shows it | evidently intended | confidence | as-written member | corrected member |
|---|---|---|---|---|---|---|
| src/screens/todo.js:95-104 | remove slices around the result of `findIndex` without checking for -1 | list `[a, b]` and a key neither has: the result is `[a, a, b]` | an absent key leaves the list unchanged | not executed; low, because rows pass only keys of displayed items, so an absent key needs a stale or repeated call | `TodoList.RemoveAsWrittenAbsentKey` | `TodoList.Remove` |
| src/screens/todo.js:81-93 | set-complete splices in `{...todoItems[-1], complete}` without checking for -1 (set-editing at 106-118 and update-text at 120-132 do the same) | list `[a, b]` and a key neither has: the result is `[a, x, a, b]`, where x is a record without key or text | an absent key leaves the list unchanged | not executed; low, for the same reason | `TodoList.RebuildAbsentKey` | `TodoList.SetComplete` |

## Left out

- Loading the list from AsyncStorage, with its JSON parsing and the loading flag (src/screens/todo.js:20-34), is asynchronous I/O.
- Persisting the list after every change (src/screens/todo.js:41) is asynchronous I/O and fire-and-forget.
- `Date.now()` is a clock read. The new key is a parameter of `HandleAddToDoItem`.
- The filter mode, `handleFilter`, the filtered view `filterItems` and the active count (src/screens/todo.js:36-39, 78, 134-138, 179) are left out. They depend on `itemsFilter`, and `../utils/itemsFilter` is not part of this model.
- React's batching and closures are left out. The source computes the index on the rendered `todoItems` but slices the updater's `currentTodoItems`; the model has a single current list.
- Toggle-all changes the shared item objects in place, so the previous list's items change too. The model computes new item values and does not capture that aliasing.
- The record that the as-written setters insert for an absent key lacks `key` and `text`, so it cannot be an `Item`. `Rebuild` states that case for an arbitrary record x.
- HandleToggleCompleteItem: for a key not in the list it leaves the list unchanged. The source (src/screens/todo.js:86-91) installs `DropLast(L) + [{complete}] + L`, which `Rebuild` states for any record.
- HandleRemoveToDoItem: for a key not in the list it leaves the list unchanged. The source (src/screens/todo.js:98-103) installs `DropLast(L) + L`, which `RemoveAsWritten` states.
- HandleToggleEditing: for a key not in the list it leaves the list unchanged. The source (src/screens/todo.js:111-117) installs `DropLast(L) + [{editing}] + L`, which `Rebuild` states for any record.
- HandleUpdateTodoItem: for a key not in the list it leaves the list unchanged. The source (src/screens/todo.js:125-131) installs `DropLast(L) + [{text}] + L`, which `Rebuild` states for any record.
- Rendering, `FlatList`, `Keyboard.dismiss`, styles and the loading indicator (src/screens/todo.js:145-211) are UI.
- Item keys are unbounded integers. The source's keys are JavaScript numbers compared with `===`.
