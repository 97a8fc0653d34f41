/**
 The to-do screen's state and event handlers. The screen keeps the canonical
 list of task items and the input draft; every handler replaces the list with
 one computed from the current list by a function of module TodoList.
 */
module TodoScreen {
  import opened TodoList

  class Todo {
    var todoItems: seq<Item>
    var inputValue: string

    /** The screen as first mounted: no items, empty draft. */
    constructor ()
      ensures todoItems == [] && inputValue == ""
    {
      todoItems := [];
      inputValue := "";
    }

    /** The input bar's change callback stores the draft. */
    method HandleChangeInput(value: string)
      modifies this`inputValue
      ensures inputValue == value
    {
      inputValue := value;
    }

    /** An empty draft is ignored; otherwise the draft becomes a new incomplete
        item under `key` at the end of the list and the draft is cleared. */
    method HandleAddToDoItem(key: int)
      modifies this
      ensures old(inputValue) == "" ==>
                todoItems == old(todoItems) && inputValue == old(inputValue)
      ensures old(inputValue) != "" ==>
                todoItems == Add(old(todoItems), key, old(inputValue)) && inputValue == ""
      ensures UniqueKeys(old(todoItems)) && key !in Keys(old(todoItems)) ==> UniqueKeys(todoItems)
    {
      if inputValue == "" {
        return;
      }
      if UniqueKeys(todoItems) && key !in Keys(todoItems) {
        AddKeepsKeysUnique(todoItems, key, inputValue);
      }
      todoItems := Add(todoItems, key, inputValue);
      inputValue := "";
    }

    /** Sets every item's `complete` flag, one item at a time, to the negation of
        "every item is complete". */
    method HandleToggleCompleteAllItems()
      modifies this`todoItems
      ensures todoItems == ToggleAll(old(todoItems))
      ensures UniqueKeys(old(todoItems)) ==> UniqueKeys(todoItems)
    {
      var items := todoItems;
      var itsAllComplete := AllComplete(items);
      var n := |items|;
      var newTodoItems := new Item[n](j requires 0 <= j < n => items[j]);
      var k := 0;
      while k < n
        invariant 0 <= k <= n
        invariant forall j :: 0 <= j < k ==> newTodoItems[j] == items[j].(complete := !itsAllComplete)
        invariant forall j :: k <= j < n ==> newTodoItems[j] == items[j]
      {
        newTodoItems[k] := newTodoItems[k].(complete := !itsAllComplete);
        k := k + 1;
      }
      assert newTodoItems[..] == ToggleAll(items);
      todoItems := newTodoItems[..];
      assert Keys(todoItems) == Keys(items);
      assert forall j :: 0 <= j < n ==> Keys(todoItems)[j] == todoItems[j].key;
    }

    /** Sets the `complete` flag of the first item with `key`. */
    method HandleToggleCompleteItem(key: int, complete: bool)
      modifies this`todoItems
      ensures todoItems == SetComplete(old(todoItems), key, complete)
    {
      todoItems := SetComplete(todoItems, key, complete);
    }

    /** Removes the first item with `key`. */
    method HandleRemoveToDoItem(key: int)
      modifies this`todoItems
      ensures todoItems == Remove(old(todoItems), key)
      ensures UniqueKeys(old(todoItems)) ==> UniqueKeys(todoItems)
    {
      if UniqueKeys(todoItems) {
        RemoveKeepsKeysUnique(todoItems, key);
      }
      todoItems := Remove(todoItems, key);
    }

    /** Sets the `editing` flag of the first item with `key`. */
    method HandleToggleEditing(key: int, editing: bool)
      modifies this`todoItems
      ensures todoItems == SetEditing(old(todoItems), key, editing)
    {
      todoItems := SetEditing(todoItems, key, editing);
    }

    /** Replaces the text of the first item with `key`. */
    method HandleUpdateTodoItem(key: int, text: string)
      modifies this`todoItems
      ensures todoItems == UpdateText(old(todoItems), key, text)
    {
      todoItems := UpdateText(todoItems, key, text);
    }

    /** Keeps only the items that are not complete. */
    method HandleDeleteAllCompleted()
      modifies this`todoItems
      ensures todoItems == WithoutCompleted(old(todoItems))
      ensures UniqueKeys(old(todoItems)) ==> UniqueKeys(todoItems)
    {
      if UniqueKeys(todoItems) {
        WithoutCompletedKeepsKeysUnique(todoItems);
      }
      todoItems := WithoutCompleted(todoItems);
    }
  }
}
