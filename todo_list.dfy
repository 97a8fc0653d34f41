/**
 The list transformations of the to-do screen: each handler computes a new
 ordered list of task items from the current one. Every function here is pure;
 the screen object in module TodoScreen installs their results.
 */
module TodoList {
  import opened JsArray

  /** A task record `{key, text, complete, editing}`. An item created by the add
      handler carries no `editing` property; that absent (falsy) flag is `false` here. */
  datatype Item = Item(key: int, text: string, complete: bool, editing: bool)

  /** The keys of a list, position by position. */
  function Keys(items: seq<Item>): (r: seq<int>)
  {
    seq(|items|, i requires 0 <= i < |items| => items[i].key)
  }

  /** No key occurs twice in the list. */
  predicate UniqueKeys(items: seq<Item>)
  {
    forall i, j :: 0 <= i < j < |items| ==> items[i].key != items[j].key
  }

  /** `items.findIndex(item => item.key === key)`: the index of the first item with
      the key, or -1 when no item has it. */
  function FindIndex(items: seq<Item>, key: int): (r: int)
    ensures -1 <= r < |items|
    ensures r == -1 <==> key !in Keys(items)
    ensures 0 <= r ==> items[r].key == key
    ensures 0 <= r ==> forall j :: 0 <= j < r ==> items[j].key != key
  {
    if |items| == 0 then -1
    else
      assert Keys(items) == [items[0].key] + Keys(items[1..]);
      if items[0].key == key then 0
      else
        var k := FindIndex(items[1..], key);
        if k == -1 then -1 else k + 1
  }

  /** Within a list whose keys are unique, the item holding a key is found at its own index. */
  lemma {:induction false} FindIndexOfUnique(items: seq<Item>, i: int)
    requires UniqueKeys(items)
    requires 0 <= i < |items|
    ensures FindIndex(items, items[i].key) == i
  {
    assert items[i].key in Keys(items) by { assert Keys(items)[i] == items[i].key; }
  }

  // ---------------------------------------------------------------------------
  // The rebuilds exactly as the handlers write them

  /** `[...items.slice(0, i), x, ...items.slice(i + 1)]`, the rebuild of the
      set-complete, set-editing and update-text handlers, for any index `i` that
      `findIndex` can return. With `i == -1` it is not a no-op: the list becomes
      all but its last item, then `x`, then the whole list again. */
  function Rebuild(items: seq<Item>, i: int, x: Item): (r: seq<Item>)
    requires -1 <= i < |items|
    ensures 0 <= i ==> r == items[i := x]
    ensures i == -1 ==> r == DropLast(items) + [x] + items
    ensures i == -1 && 0 < |items| ==> |r| == 2 * |items|
  {
    var r := Slice(items, 0, i) + [x] + Slice(items, i + 1, |items|);
    assert 0 <= i ==> r == items[i := x] by {
      if 0 <= i {
        assert Slice(items, 0, i) == items[..i];
        assert Slice(items, i + 1, |items|) == items[i + 1..];
        assert forall j :: 0 <= j < |items| ==> r[j] == items[i := x][j];
      }
    }
    r
  }

  /** `[...items.slice(0, i), ...items.slice(i + 1)]`, the rebuild of the remove
      handler. With `i == -1` the list becomes all but its last item followed by
      the whole list again. */
  function Cut(items: seq<Item>, i: int): (r: seq<Item>)
    requires -1 <= i < |items|
    ensures 0 <= i ==> r == items[..i] + items[i + 1..] && |r| == |items| - 1
    ensures i == -1 ==> r == DropLast(items) + items
  {
    Slice(items, 0, i) + Slice(items, i + 1, |items|)
  }

  /** The remove handler as written: the index `findIndex` returns is used unchecked. */
  function RemoveAsWritten(items: seq<Item>, key: int): (r: seq<Item>)
    ensures key in Keys(items) ==>
              var i := FindIndex(items, key);
              |r| == |items| - 1 && r == items[..i] + items[i + 1..]
    ensures key !in Keys(items) ==> r == DropLast(items) + items
  {
    Cut(items, FindIndex(items, key))
  }

  /** Removing an absent key from a two-item list duplicates the first item. */
  lemma RemoveAsWrittenAbsentKey()
    ensures var a, b := Item(1, "a", false, false), Item(2, "b", false, false);
            RemoveAsWritten([a, b], 3) == [a, a, b]
  {
  }

  /** Whenever the list holds two or more items, an absent key makes the
      as-written remove grow the list instead of leaving it alone. */
  lemma RemoveAsWrittenAbsentKeyGrows(items: seq<Item>, key: int)
    requires key !in Keys(items) && 2 <= |items|
    ensures |RemoveAsWritten(items, key)| == 2 * |items| - 1 > |items|
  {
  }

  /** Setting a flag of an absent key with the as-written rebuild inserts the new
      record and repeats the list: `[a, b]` becomes `[a, x, a, b]` whatever `x` is. */
  lemma RebuildAbsentKey(x: Item)
    ensures var a, b := Item(1, "a", false, false), Item(2, "b", false, false);
            Rebuild([a, b], FindIndex([a, b], 3), x) == [a, x, a, b]
  {
  }

  // ---------------------------------------------------------------------------
  // The handlers' list transformations, with the index -1 guarded

  /** Two lists agree everywhere except possibly at index `i`. */
  predicate SameExceptAt(before: seq<Item>, after: seq<Item>, i: int)
  {
    |after| == |before| && forall j :: 0 <= j < |before| && j != i ==> after[j] == before[j]
  }

  /** The add handler's update: the draft becomes a new incomplete item at the end. */
  function Add(items: seq<Item>, key: int, text: string): (r: seq<Item>)
    ensures |r| == |items| + 1
    ensures r[..|items|] == items
    ensures r[|items|].key == key && r[|items|].text == text && !r[|items|].complete
  {
    items + [Item(key, text, false, false)]
  }

  /** `items.every(item => item.complete === true)`, which visits the items in
      order and stops at the first incomplete one; an empty list gives `true`. */
  function AllComplete(items: seq<Item>): (r: bool)
    ensures r <==> forall i :: 0 <= i < |items| ==> items[i].complete
  {
    |items| == 0 || (items[0].complete && AllComplete(items[1..]))
  }

  /** The toggle-all handler's update: every item's `complete` becomes the negation
      of "all items were complete"; nothing else about any item changes. */
  function ToggleAll(items: seq<Item>): (r: seq<Item>)
    ensures |r| == |items| && Keys(r) == Keys(items)
    ensures forall i :: 0 <= i < |items| ==>
              r[i].text == items[i].text && r[i].editing == items[i].editing
    ensures forall i :: 0 <= i < |items| ==> r[i].complete == !AllComplete(items)
  {
    var target := !AllComplete(items);
    seq(|items|, i requires 0 <= i < |items| => items[i].(complete := target))
  }

  /** The set-complete handler's update for `key`. */
  function SetComplete(items: seq<Item>, key: int, complete: bool): (r: seq<Item>)
    ensures Keys(r) == Keys(items)
    ensures key !in Keys(items) ==> r == items
    ensures key in Keys(items) ==>
              var i := FindIndex(items, key);
              SameExceptAt(items, r, i) && r[i].complete == complete &&
              r[i].text == items[i].text && r[i].editing == items[i].editing
  {
    var i := FindIndex(items, key);
    if i == -1 then items else Rebuild(items, i, items[i].(complete := complete))
  }

  /** The set-editing handler's update for `key`. */
  function SetEditing(items: seq<Item>, key: int, editing: bool): (r: seq<Item>)
    ensures Keys(r) == Keys(items)
    ensures key !in Keys(items) ==> r == items
    ensures key in Keys(items) ==>
              var i := FindIndex(items, key);
              SameExceptAt(items, r, i) && r[i].editing == editing &&
              r[i].text == items[i].text && r[i].complete == items[i].complete
  {
    var i := FindIndex(items, key);
    if i == -1 then items else Rebuild(items, i, items[i].(editing := editing))
  }

  /** The update-text handler's update for `key`. */
  function UpdateText(items: seq<Item>, key: int, text: string): (r: seq<Item>)
    ensures Keys(r) == Keys(items)
    ensures key !in Keys(items) ==> r == items
    ensures key in Keys(items) ==>
              var i := FindIndex(items, key);
              SameExceptAt(items, r, i) && r[i].text == text &&
              r[i].complete == items[i].complete && r[i].editing == items[i].editing
  {
    var i := FindIndex(items, key);
    if i == -1 then items else Rebuild(items, i, items[i].(text := text))
  }

  /** The remove handler's update for `key`: the first item with the key is taken
      out and the others keep their relative order. */
  function Remove(items: seq<Item>, key: int): (r: seq<Item>)
    ensures key !in Keys(items) ==> r == items
    ensures key in Keys(items) ==>
              var i := FindIndex(items, key);
              |r| == |items| - 1 && r == items[..i] + items[i + 1..]
  {
    var i := FindIndex(items, key);
    if i == -1 then items else Cut(items, i)
  }

  /** Wherever the key is present the guarded updates are exactly the rebuilds the
      handlers write, so the guard changes nothing but the absent-key case. */
  lemma GuardedAgreesWhenPresent(items: seq<Item>, key: int, complete: bool, text: string)
    requires key in Keys(items)
    ensures var i := FindIndex(items, key);
            && SetComplete(items, key, complete) == Rebuild(items, i, items[i].(complete := complete))
            && SetEditing(items, key, complete) == Rebuild(items, i, items[i].(editing := complete))
            && UpdateText(items, key, text) == Rebuild(items, i, items[i].(text := text))
            && Remove(items, key) == RemoveAsWritten(items, key)
  {
  }

  /** The delete-all-completed handler's update:
      `items.filter(({complete}) => complete === false)`. */
  function WithoutCompleted(items: seq<Item>): (r: seq<Item>)
    ensures |r| <= |items|
    ensures forall x :: x in r <==> x in items && !x.complete
  {
    if |items| == 0 then []
    else
      var rest := WithoutCompleted(items[1..]);
      assert forall x :: x in items <==> x == items[0] || x in items[1..];
      if items[0].complete then rest else [items[0]] + rest
  }

  // ---------------------------------------------------------------------------
  // Properties that relate several operations

  /** The filter distributes over concatenation: it keeps the incomplete items in
      their original relative order. */
  lemma {:induction false} WithoutCompletedAppend(a: seq<Item>, b: seq<Item>)
    ensures WithoutCompleted(a + b) == WithoutCompleted(a) + WithoutCompleted(b)
  {
    if |a| == 0 {
      assert a + b == b;
    } else {
      assert (a + b)[1..] == a[1..] + b;
      WithoutCompletedAppend(a[1..], b);
    }
  }

  /** The filter leaves a list alone exactly when no item in it is complete. */
  lemma {:induction false} WithoutCompletedFixed(items: seq<Item>)
    ensures WithoutCompleted(items) == items <==> forall i :: 0 <= i < |items| ==> !items[i].complete
  {
    if |items| > 0 {
      var rest := items[1..];
      WithoutCompletedFixed(rest);
      if items[0].complete {
        assert |WithoutCompleted(items)| <= |rest| < |items|;
      } else {
        var r := WithoutCompleted(items);
        assert r == [items[0]] + WithoutCompleted(rest);
        assert r == items <==> WithoutCompleted(rest) == rest by {
          assert items == [items[0]] + rest;
          if r == items { assert r[1..] == WithoutCompleted(rest); }
        }
        assert (forall i :: 0 <= i < |items| ==> !items[i].complete) <==>
               (forall i :: 0 <= i < |rest| ==> !rest[i].complete) by {
          assert forall i :: 1 <= i < |items| ==> items[i] == rest[i - 1];
        }
      }
    }
  }

  /** Deleting the completed items twice is the same as deleting them once. */
  lemma WithoutCompletedIdempotent(items: seq<Item>)
    ensures WithoutCompleted(WithoutCompleted(items)) == WithoutCompleted(items)
  {
  }

  /** Deleting completed items never introduces a repeated key. */
  lemma {:induction false} WithoutCompletedKeepsKeysUnique(items: seq<Item>)
    requires UniqueKeys(items)
    ensures UniqueKeys(WithoutCompleted(items))
  {
    if |items| > 0 {
      var rest := WithoutCompleted(items[1..]);
      WithoutCompletedKeepsKeysUnique(items[1..]);
      if !items[0].complete {
        forall j | 0 <= j < |rest| ensures rest[j].key != items[0].key {
          assert rest[j] in rest;
          var k :| 0 <= k < |items[1..]| && items[1..][k] == rest[j];
          assert items[k + 1] == rest[j];
        }
      }
    }
  }

  /** Removing a key never introduces a repeated key. */
  lemma RemoveKeepsKeysUnique(items: seq<Item>, key: int)
    requires UniqueKeys(items)
    ensures UniqueKeys(Remove(items, key))
  {
    var r := Remove(items, key);
    if key in Keys(items) {
      var i := FindIndex(items, key);
      forall a, b | 0 <= a < b < |r| ensures r[a].key != r[b].key {
        var a', b' := if a < i then a else a + 1, if b < i then b else b + 1;
        assert r[a] == items[a'] && r[b] == items[b'];
      }
    }
  }

  /** Adding with a key that is not yet in use keeps keys unique. */
  lemma AddKeepsKeysUnique(items: seq<Item>, key: int, text: string)
    requires UniqueKeys(items) && key !in Keys(items)
    ensures UniqueKeys(Add(items, key, text))
  {
    var r := Add(items, key, text);
    forall i | 0 <= i < |items| ensures r[i].key != key {
      assert Keys(items)[i] == items[i].key;
      assert r[i] == items[i];
    }
  }

  /** Adding an item under a fresh key and then removing that key restores the list. */
  lemma AddThenRemove(items: seq<Item>, key: int, text: string)
    requires key !in Keys(items)
    ensures Remove(Add(items, key, text), key) == items
  {
    var added := Add(items, key, text);
    forall j | 0 <= j < |items| ensures added[j].key != key {
      assert Keys(items)[j] == items[j].key;
    }
    assert Keys(added)[|items|] == key;
    assert FindIndex(added, key) == |items|;
    assert added[..|items|] == items;
  }

  /** After a toggle-all every item carries the same flag. */
  lemma ToggleAllUniform(items: seq<Item>)
    ensures var r := ToggleAll(items);
            forall i, j :: 0 <= i < j < |r| ==> r[i].complete == r[j].complete
  {
  }

  /** Toggling all twice sets every flag to whether all items were complete at
      first: a list with both complete and incomplete items ends all incomplete. */
  lemma ToggleAllTwice(items: seq<Item>)
    ensures var r := ToggleAll(ToggleAll(items));
            |r| == |items| && forall i :: 0 <= i < |r| ==> r[i].complete == AllComplete(items)
  {
  }

  /** Toggling all twice restores the list exactly when all flags were equal. */
  lemma ToggleAllTwiceRestores(items: seq<Item>)
    ensures ToggleAll(ToggleAll(items)) == items <==>
            forall i, j :: 0 <= i < j < |items| ==> items[i].complete == items[j].complete
  {
    var r := ToggleAll(ToggleAll(items));
    ToggleAllTwice(items);
    if forall i, j :: 0 <= i < j < |items| ==> items[i].complete == items[j].complete {
      if |items| > 0 {
        assert AllComplete(items) == items[0].complete by {
          assert forall i :: 0 < i < |items| ==> items[i].complete == items[0].complete;
        }
        forall i | 0 <= i < |items| ensures r[i] == items[i] {
          assert Keys(r)[i] == Keys(items)[i];
        }
      }
    } else {
      var i, j :| 0 <= i < j < |items| && items[i].complete != items[j].complete;
      assert r[i].complete == r[j].complete;
    }
  }
}
