/** `Flyweight<T>`: interning of items (state and symbol labels) as dense
    integer keys 0, 1, 2, ..., with a forward table item -> key and a
    reverse table key -> item.

    The `AddItem` shown in the source does not do what its callers rely on
    (it never advances the key counter, returns no key and writes one past
    the end of the reverse table).  `AddItem` below is the repaired
    operation: a new item gets the next key, an item already present keeps
    its key.  `AddItemAsWritten` models the code as it stands. */
module Flyweights {

  datatype Flyweight<T(==)> = Flyweight(forward: map<T, int>, reverse: seq<T>, numKeys: int)

  /** The two tables are inverse bijections between the items and the keys
      [0, numKeys). */
  ghost predicate Valid<T>(f: Flyweight<T>) {
    && f.numKeys == |f.reverse|
    && (forall k :: 0 <= k < |f.reverse| ==> f.reverse[k] in f.forward && f.forward[f.reverse[k]] == k)
    && (forall x :: x in f.forward ==> 0 <= f.forward[x] < |f.reverse| && f.reverse[f.forward[x]] == x)
  }

  /** No item occurs twice. */
  ghost predicate Distinct<T>(items: seq<T>) {
    forall i, j :: 0 <= i < j < |items| ==> items[i] != items[j]
  }

  /** `NumItems()`: the number of keys issued. */
  function NumItems<T(==)>(f: Flyweight<T>): int {
    f.numKeys
  }

  /** A flyweight with both tables empty and the counter at zero. */
  function Empty<T(==)>(): (f: Flyweight<T>)
    ensures Valid(f) && NumItems(f) == 0
  {
    Flyweight(map[], [], 0)
  }

  /** `Clear`: both tables emptied and the counter reset, so no item has a
      key any more (a valid flyweight with no keys has no items). */
  function Clear<T(==)>(f: Flyweight<T>): (r: Flyweight<T>)
    ensures Valid(r) && NumItems(r) == 0
  {
    Empty()
  }

  /** `GetItemKey(item)`: the item's key, or -1 if it was never added. */
  function GetItemKey<T(==)>(f: Flyweight<T>, x: T): (key: int)
    requires Valid(f)
    ensures key == -1 <==> x !in f.reverse
    ensures key != -1 ==> 0 <= key < NumItems(f) && f.reverse[key] == x
  {
    if x in f.forward then f.forward[x] else -1
  }

  /** `KeyToItem(key)` (defined as `GetItem` in the source): the item with
      that key.  Only issued keys [0, NumItems) may be looked up. */
  function KeyToItem<T(==)>(f: Flyweight<T>, key: int): (x: T)
    requires Valid(f) && 0 <= key < NumItems(f)
    ensures GetItemKey(f, x) == key
  {
    f.reverse[key]
  }

  /** `AddItem(item)`, repaired: an item already present keeps its key and
      leaves the flyweight unchanged; a new item is given the next key
      `NumItems()`, and every earlier key keeps its item. */
  function AddItem<T(==)>(f: Flyweight<T>, x: T): (r: (Flyweight<T>, int))
    requires Valid(f)
    ensures Valid(r.0)
    ensures 0 <= r.1 < NumItems(r.0) && KeyToItem(r.0, r.1) == x && GetItemKey(r.0, x) == r.1
    ensures x in f.reverse ==> r.0 == f && r.1 == GetItemKey(f, x)
    ensures x !in f.reverse ==> r.1 == NumItems(f) && r.0.reverse == f.reverse + [x]
  {
    if x in f.forward then (f, f.forward[x])
    else
      var g := Flyweight(f.forward[x := f.numKeys], f.reverse + [x], f.numKeys + 1);
      assert forall k :: 0 <= k < |f.reverse| ==> g.reverse[k] == f.reverse[k];
      (g, f.numKeys)
  }

  /** Key and item are inverse lookups once the item has been added. */
  lemma KeyItemRoundTrip<T>(f: Flyweight<T>, x: T, key: int)
    requires Valid(f)
    ensures x in f.reverse ==> KeyToItem(f, GetItemKey(f, x)) == x
    ensures 0 <= key < NumItems(f) ==> GetItemKey(f, KeyToItem(f, key)) == key
  {
  }

  /** A flyweight without keys knows no item. */
  lemma NoKeysNoItems<T>(f: Flyweight<T>, x: T)
    requires Valid(f) && NumItems(f) == 0
    ensures GetItemKey(f, x) == -1
  {
  }

  /** A valid flyweight never holds an item twice. */
  lemma ValidDistinct<T>(f: Flyweight<T>)
    requires Valid(f)
    ensures Distinct(f.reverse)
  {
    forall i, j | 0 <= i < j < |f.reverse|
      ensures f.reverse[i] != f.reverse[j]
    {
      assert f.forward[f.reverse[i]] == i;
      assert f.forward[f.reverse[j]] == j;
    }
  }

  /** Adding a list of items in order, starting from `f`. */
  function AddAll<T(==)>(f: Flyweight<T>, items: seq<T>): (r: Flyweight<T>)
    requires Valid(f)
    ensures Valid(r)
    decreases |items|
  {
    if |items| == 0 then f else AddAll(AddItem(f, items[0]).0, items[1..])
  }

  /** A valid flyweight is determined by its reverse table. */
  lemma ValidDeterminedByItems<T>(f: Flyweight<T>, g: Flyweight<T>)
    requires Valid(f) && Valid(g) && f.reverse == g.reverse
    ensures f == g
  {
    forall x | x in g.forward
      ensures x in f.forward && g.forward[x] == f.forward[x]
    {
      assert f.reverse[g.forward[x]] == x;
    }
    forall x | x in f.forward
      ensures x in g.forward
    {
      assert g.reverse[f.forward[x]] == x;
    }
    assert f.forward == g.forward;
  }

  /** Re-adding the items of a flyweight, in key order, to a cleared one
      rebuilds exactly the same flyweight: the tables are determined by the
      item order alone. */
  lemma RebuildFromItems<T>(f: Flyweight<T>)
    requires Valid(f)
    ensures AddAll(Empty(), f.reverse) == f
  {
    ValidDistinct(f);
    AddAllDistinct(Empty(), f.reverse);
    var r := AddAll(Empty<T>(), f.reverse);
    assert r.reverse == [] + f.reverse == f.reverse;
    ValidDeterminedByItems(r, f);
  }

  /** Adding items none of which is present, all different, appends them
      to the reverse table in order. */
  lemma {:induction false} AddAllDistinct<T>(f: Flyweight<T>, items: seq<T>)
    requires Valid(f)
    requires Distinct(items)
    requires forall i :: 0 <= i < |items| ==> items[i] !in f.reverse
    ensures AddAll(f, items).reverse == f.reverse + items
    decreases |items|
  {
    if |items| > 0 {
      var g := AddItem(f, items[0]).0;
      assert g.reverse == f.reverse + [items[0]];
      TailFresh(f.reverse, items);
      AddAllDistinct(g, items[1..]);
      ConsShift(f.reverse, items);
    }
  }

  /** The rest of a list of distinct fresh items stays fresh once its head
      has been added. */
  lemma TailFresh<T>(have: seq<T>, items: seq<T>)
    requires |items| > 0 && Distinct(items)
    requires forall i :: 0 <= i < |items| ==> items[i] !in have
    ensures Distinct(items[1..])
    ensures forall i :: 0 <= i < |items[1..]| ==> items[1..][i] !in have + [items[0]]
  {
    forall i | 0 <= i < |items[1..]|
      ensures items[1..][i] !in have + [items[0]]
    {
      assert items[1..][i] == items[i + 1];
      assert items[i + 1] != items[0];
    }
  }

  lemma ConsShift<T>(have: seq<T>, items: seq<T>)
    requires |items| > 0
    ensures have + items == (have + [items[0]]) + items[1..]
  {
    assert items == [items[0]] + items[1..];
  }

  // ---------------------------------------------------------------------
  // The source as it stands.

  /** `AddItem` as written, on a flyweight whose reverse table has
      `numKeys` entries: the item is mapped to the current counter, the
      reverse table is resized to the counter (so it keeps its size) and
      the item is stored at index `numKeys`, one past its end; the counter
      is not advanced.  The flag says whether that store was in range. */
  function AddItemAsWritten<T(==)>(f: Flyweight<T>, x: T): (r: (Flyweight<T>, bool))
    requires f.numKeys == |f.reverse|
    ensures r.0.numKeys == |r.0.reverse|
    ensures !r.1
  {
    var resized := f.reverse[..f.numKeys];
    (Flyweight(f.forward[x := f.numKeys], resized, f.numKeys), f.numKeys < |resized|)
  }

  /** From a cleared flyweight, two different items added as written both
      get key 0, nothing is counted, and the reverse table stays empty:
      `KeyToItem` has nothing to return for either of them. */
  lemma AddItemAsWrittenCollides()
    ensures var (f1, _) := AddItemAsWritten(Empty<string>(), "a");
      var (f2, _) := AddItemAsWritten(f1, "b");
      f2.forward["a"] == 0 && f2.forward["b"] == 0 && NumItems(f2) == 0 && f2.reverse == []
    ensures var (f1, k1) := AddItem(Empty<string>(), "a");
      var (f2, k2) := AddItem(f1, "b");
      k1 == 0 && k2 == 1 && NumItems(f2) == 2 && f2.reverse == ["a", "b"]
  {
    var (g1, k1) := AddItem(Empty<string>(), "a");
    assert g1.reverse == ["a"];
    assert "b" !in g1.reverse;
  }

  /** The default constructor leaves `_numKeys` uninitialised; whatever it
      holds becomes the first key issued.  Only a counter of 0 gives a
      consistent flyweight, which is what `Clear` (and `Empty`) provides. */
  function ConstructedAsWritten<T(==)>(indeterminate: int): (f: Flyweight<T>)
    ensures Valid(f) <==> indeterminate == 0
  {
    Flyweight(map[], [], indeterminate)
  }

  /** `GetItem`'s range guard as written: `key < 0 && key >= _numKeys`. */
  predicate GetItemGuardAsWritten(key: int, numKeys: int) {
    key < 0 && key >= numKeys
  }

  /** The guard the error message describes: the key is out of range. */
  predicate GetItemGuard(key: int, numKeys: int) {
    key < 0 || key >= numKeys
  }

  /** With a non-negative counter no key satisfies the written guard, so
      the out-of-range key `numKeys` reads past the reverse table silently;
      the intended guard fires exactly on the keys `KeyToItem` may not be
      asked for. */
  lemma GetItemGuardNeverFires(numKeys: int)
    requires numKeys >= 0
    ensures forall key :: !GetItemGuardAsWritten(key, numKeys)
    ensures GetItemGuard(numKeys, numKeys)
    ensures forall key :: GetItemGuard(key, numKeys) <==> !(0 <= key < numKeys)
  {
  }
}
