/**
 * `LauncherModel` of src/launcher.tsx: the list of launcher items that
 * extensions register with `add`, each registration removable through
 * the disposer `add` returns, and the category order the launcher shows.
 */
module Model {
  import opened Wrappers
  import opened Items

  /**
   * The object `createItem` returns. JavaScript compares objects by
   * identity, so two registrations of equal options are still two
   * distinct items; a class gives the model the same identity.
   */
  class ItemRef {
    const options: Item

    constructor (options: Item)
      ensures this.options == options
    {
      this.options := options;
    }
  }

  /** `s` with its first occurrence of `x` removed (`s` itself when `x` is absent). */
  function RemoveFirst<T(==)>(s: seq<T>, x: T): (r: seq<T>)
    ensures x !in s ==> r == s
    ensures multiset(r) == multiset(s) - multiset{x}
  {
    if s == [] then []
    else
      assert s == [s[0]] + s[1..];
      if s[0] == x then s[1..]
      else [s[0]] + RemoveFirst(s[1..], x)
  }

  /** Removing the first occurrence cuts the sequence at that occurrence and keeps everything else in order. */
  lemma {:induction false} RemoveFirstAt<T>(s: seq<T>, x: T, i: nat)
    requires i < |s| && s[i] == x && x !in s[..i]
    ensures RemoveFirst(s, x) == s[..i] + s[i + 1..]
  {
    if i > 0 {
      assert s[1..][..i - 1] == s[1..i];
      assert x !in s[1..][..i - 1];
      RemoveFirstAt(s[1..], x, i - 1);
      assert s[1..][i..] == s[i + 1..];
      assert [s[0]] + s[1..i] == s[..i];
    }
  }

  /** An element that comes after every earlier occurrence of `x` is unaffected: only the tail changes. */
  lemma {:induction false} RemoveFirstAfter<T>(s: seq<T>, t: seq<T>, x: T)
    requires x !in s
    ensures RemoveFirst(s + t, x) == s + RemoveFirst(t, x)
  {
    if s != [] {
      var u := s + t;
      assert u[0] == s[0] && u[0] != x;
      assert u[1..] == s[1..] + t;
      RemoveFirstAfter(s[1..], t, x);
      assert [s[0]] + (s[1..] + RemoveFirst(t, x)) == s + RemoveFirst(t, x);
    } else {
      assert s + t == t;
    }
  }

  /** Removing an element that was just appended, and occurs nowhere else, restores the sequence. */
  lemma RemoveFirstUndoesAppend<T>(s: seq<T>, x: T)
    requires x !in s
    ensures RemoveFirst(s + [x], x) == s
  {
    RemoveFirstAfter(s, [x], x);
  }

  /**
   * `ArrayExt.firstIndexOf`: the index of the first element equal to `x`,
   * or -1 when there is none.
   */
  method FirstIndexOf<T(==)>(s: seq<T>, x: T) returns (i: int)
    ensures -1 <= i < |s|
    ensures i == -1 <==> x !in s
    ensures 0 <= i ==> s[i] == x && x !in s[..i]
  {
    i := 0;
    while i < |s|
      invariant 0 <= i <= |s|
      invariant x !in s[..i]
    {
      if s[i] == x {
        return;
      }
      assert s[..i + 1] == s[..i] + [s[i]];
      i := i + 1;
    }
    assert s[..i] == s;
    i := -1;
  }

  /** No item object occurs twice in `s`, and every item went through `createItem`. */
  ghost predicate Registered(s: seq<ItemRef>) {
    && (forall i, j :: 0 <= i < j < |s| ==> s[i] != s[j])
    && (forall i :: 0 <= i < |s| ==> Normalised(s[i].options))
  }

  /** Cutting one element out of a registered sequence leaves it registered. */
  lemma RegisteredCut(s: seq<ItemRef>, i: nat)
    requires Registered(s) && i < |s|
    ensures Registered(s[..i] + s[i + 1..])
  {
    var t := s[..i] + s[i + 1..];
    forall a | 0 <= a < |t|
      ensures t[a] == if a < i then s[a] else s[a + 1]
    {
    }
  }

  class LauncherModel {
    /** `_items`, in registration order. */
    var items: seq<ItemRef>
    /** The settings' `categories` value, or `None` when the model has no settings. */
    const settings: Option<seq<string>>

    /** No item object is registered twice, and every item went through `createItem`. */
    ghost predicate Valid()
      reads this
    {
      Registered(items)
    }

    /** `new LauncherModel(settings)`: an empty model. */
    constructor (settings: Option<seq<string>>)
      ensures Valid() && items == [] && this.settings == settings
    {
      items := [];
      this.settings := settings;
    }

    /** The `categories` getter: the settings' order, or `['IPython', 'Other']` without settings. */
    function Categories(): (r: seq<string>)
      ensures settings.None? ==> r == ["IPython", "Other"]
      ensures settings.Some? ==> r == settings.value
    {
      if settings.Some? then settings.value else ["IPython", "Other"]
    }

    /** What `items()` iterates over: the registered options, in order. */
    function Items(): (r: seq<Item>)
      reads this
      ensures |r| == |items|
      ensures forall i :: 0 <= i < |items| ==> r[i] == items[i].options
    {
      seq(|items|, i reads this requires 0 <= i < |items| => items[i].options)
    }

    /**
     * `add(options)`: normalises the options into a new item and appends
     * it. The returned item stands for the disposer, which is `Dispose`
     * applied to it.
     */
    method Add(options: Item) returns (item: ItemRef)
      requires Valid()
      modifies this
      ensures Valid()
      ensures fresh(item) && item.options == CreateItem(options)
      ensures items == old(items) + [item]
    {
      item := new ItemRef(CreateItem(options));
      items := items + [item];
    }

    /** The body of the disposer `add` returns: `ArrayExt.removeFirstOf(this._items, item)`. */
    method Dispose(item: ItemRef)
      requires Valid()
      modifies this
      ensures Valid()
      ensures items == RemoveFirst(old(items), item)
    {
      var i := FirstIndexOf(items, item);
      if i >= 0 {
        RemoveFirstAt(items, item, i);
        RegisteredCut(items, i);
        items := items[..i] + items[i + 1..];
      }
    }
  }

  /**
   * Adding an item and running its disposer leaves the model as it was,
   * and running the disposer again changes nothing.
   */
  method AddThenDispose(m: LauncherModel, options: Item)
    requires m.Valid()
    modifies m
    ensures m.items == old(m.items)
  {
    var item := m.Add(options);
    assert item !in old(m.items);
    RemoveFirstUndoesAppend(old(m.items), item);
    m.Dispose(item);
    m.Dispose(item);
  }
}
