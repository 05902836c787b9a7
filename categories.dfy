/**
 * The category pipeline of `Launcher.render` (src/launcher.tsx), as
 * functions on values: group the items into singleton cards per
 * category, fold the `Console` cards into the `Notebook` cards under
 * `IPython`, sort every category, order the categories and drop the
 * empty ones. The imperative `Render` method follows these step by step.
 */
module Categories {
  import opened Wrappers
  import opened Items

  /** A card: the items shown on one launcher card, the first of which the card is drawn from. */
  type Card = c: seq<Item> | |c| > 0 witness [Item("", None, None, None, None, map[])]

  /**
   * The `categories` object of `render`: its keys in insertion order (the
   * order `for (const cat in categories)` visits them) and the cards
   * stored under each key.
   */
  datatype Dict = Dict(keys: seq<string>, cards: map<string, seq<Card>>)

  ghost predicate Distinct(s: seq<string>) {
    forall i, j :: 0 <= i < j < |s| ==> s[i] != s[j]
  }

  /** Every key is listed once, and exactly the stored keys are listed. */
  ghost predicate ValidDict(d: Dict) {
    Distinct(d.keys) && forall k :: k in d.cards <==> k in d.keys
  }

  /** `categories[cat] = v`: a new key goes to the end of the key order, an existing one keeps its place. */
  function Put(d: Dict, cat: string, v: seq<Card>): Dict {
    Dict(if cat in d.cards then d.keys else d.keys + [cat], d.cards[cat := v])
  }

  /** `s` without any occurrence of `x`. */
  function Without(s: seq<string>, x: string): (r: seq<string>)
    ensures forall y :: y in r <==> y in s && y != x
  {
    if s == [] then []
    else Without(s[..|s| - 1], x) + (if s[|s| - 1] == x then [] else [s[|s| - 1]])
  }

  /** `delete categories[cat]` */
  function Delete(d: Dict, cat: string): Dict {
    Dict(Without(d.keys, cat), d.cards - {cat})
  }

  lemma {:induction false} WithoutDistinct(s: seq<string>, x: string)
    requires Distinct(s)
    ensures Distinct(Without(s, x))
  {
    if s != [] {
      var p := s[..|s| - 1];
      assert Distinct(p);
      WithoutDistinct(p, x);
      assert s[|s| - 1] !in p;
    }
  }

  lemma PutValid(d: Dict, cat: string, v: seq<Card>)
    requires ValidDict(d)
    ensures ValidDict(Put(d, cat, v))
  {
  }

  lemma DeleteValid(d: Dict, cat: string)
    requires ValidDict(d)
    ensures ValidDict(Delete(d, cat))
  {
    WithoutDistinct(d.keys, cat);
  }

  // ---------------------------------------------------------------------
  // Grouping (each model item becomes a singleton card under its key)

  /** The items filed under `k`, in input order. */
  function KeyFilter(items: seq<Item>, k: string): (r: seq<Item>)
    ensures forall x :: x in r <==> x in items && CategoryKey(x) == k
  {
    if items == [] then []
    else
      var x := items[|items| - 1];
      assert items == items[..|items| - 1] + [x];
      KeyFilter(items[..|items| - 1], k) + (if CategoryKey(x) == k then [x] else [])
  }

  /** One singleton card per item, in order. */
  function Singletons(s: seq<Item>): (r: seq<Card>)
    ensures |r| == |s|
    ensures forall i :: 0 <= i < |s| ==> r[i] == [s[i]]
  {
    if s == [] then [] else Singletons(s[..|s| - 1]) + [[s[|s| - 1]]]
  }

  /** The loop of lines 109-115: every item is pushed, as a card of its own, under its key. */
  function Group(items: seq<Item>): Dict {
    if items == [] then Dict([], map[])
    else
      var x := items[|items| - 1];
      var cat := CategoryKey(x);
      var d := Group(items[..|items| - 1]);
      var d' := if cat in d.cards then d else Put(d, cat, []);
      Put(d', cat, d'.cards[cat] + [[x]])
  }

  /**
   * Grouping files every item under exactly its own key, as a singleton
   * card, with the cards of one category in input order; a category
   * exists exactly when some item has that key.
   */
  lemma GroupSpec(items: seq<Item>)
    ensures ValidDict(Group(items))
    ensures forall k :: k in Group(items).cards <==> KeyFilter(items, k) != []
    ensures forall k :: k in Group(items).cards ==> Group(items).cards[k] == Singletons(KeyFilter(items, k))
  {
    GroupValid(items);
    GroupContents(items);
  }

  /** The grouped key order lists each category once, and exactly the categories stored. */
  lemma {:induction false} GroupValid(items: seq<Item>)
    ensures ValidDict(Group(items))
  {
    if items != [] {
      var p := items[..|items| - 1];
      var x := items[|items| - 1];
      GroupValid(p);
      var d := Group(p);
      var cat := CategoryKey(x);
      var d' := if cat in d.cards then d else Put(d, cat, []);
      PutValid(d, cat, []);
      PutValid(d', cat, d'.cards[cat] + [[x]]);
    }
  }

  lemma {:induction false} GroupContents(items: seq<Item>)
    ensures forall k :: k in Group(items).cards <==> KeyFilter(items, k) != []
    ensures forall k :: k in Group(items).cards ==> Group(items).cards[k] == Singletons(KeyFilter(items, k))
  {
    if items != [] {
      var p := items[..|items| - 1];
      var x := items[|items| - 1];
      GroupContents(p);
      assert p + [x] == items;
      forall k
        ensures k in Group(items).cards <==> KeyFilter(items, k) != []
        ensures k in Group(items).cards ==> Group(items).cards[k] == Singletons(KeyFilter(items, k))
      {
        GroupStepAt(p, x, k);
      }
    }
  }

  /** Filing one more item keeps the category `k` equal to the singletons of its items. */
  lemma GroupStepAt(p: seq<Item>, x: Item, k: string)
    requires k in Group(p).cards <==> KeyFilter(p, k) != []
    requires k in Group(p).cards ==> Group(p).cards[k] == Singletons(KeyFilter(p, k))
    ensures k in Group(p + [x]).cards <==> KeyFilter(p + [x], k) != []
    ensures k in Group(p + [x]).cards ==> Group(p + [x]).cards[k] == Singletons(KeyFilter(p + [x], k))
  {
    GroupLast(p, x);
    KeyFilterLast(p, x, k);
    if k == CategoryKey(x) {
      SingletonsAppend(KeyFilter(p, k), x);
    }
  }

  /** Filing `x` after `p` pushes the card `[x]` onto its category, creating the category when absent. */
  lemma GroupLast(p: seq<Item>, x: Item)
    ensures var d := Group(p);
      var cat := CategoryKey(x);
      var entry: seq<Card> := if cat in d.cards then d.cards[cat] else [];
      && Group(p + [x]).cards == d.cards[cat := entry + [[x]]]
      && Group(p + [x]).keys == if cat in d.cards then d.keys else d.keys + [cat]
  {
    var items := p + [x];
    assert items[..|items| - 1] == p && items[|items| - 1] == x;
  }

  lemma KeyFilterLast(p: seq<Item>, x: Item, k: string)
    ensures KeyFilter(p + [x], k) == KeyFilter(p, k) + (if CategoryKey(x) == k then [x] else [])
  {
    var items := p + [x];
    assert items[..|items| - 1] == p && items[|items| - 1] == x;
  }

  lemma SingletonsAppend(f: seq<Item>, x: Item)
    ensures Singletons(f + [x]) == Singletons(f) + [[x]]
  {
    assert (f + [x])[..|f|] == f;
  }

  /** A category exists exactly when some item is filed under it. */
  lemma GroupHasKey(items: seq<Item>, k: string)
    ensures k in Group(items).cards <==> KeyFilter(items, k) != []
  {
    GroupSpec(items);
  }

  /** No item is lost: every item is filed, as a card of its own, under its key. */
  lemma GroupFilesEveryItem(items: seq<Item>, x: Item)
    requires x in items
    ensures CategoryKey(x) in Group(items).cards && [x] in Group(items).cards[CategoryKey(x)]
  {
    GroupSpec(items);
    var f := KeyFilter(items, CategoryKey(x));
    assert x in f;
    var n :| 0 <= n < |f| && f[n] == x;
    assert Singletons(f)[n] == [x];
  }

  /** The position of the first item filed under `k`, or `|items|` when there is none. */
  function FirstFiled(items: seq<Item>, k: string): (r: nat)
    ensures r <= |items|
    ensures r < |items| ==> CategoryKey(items[r]) == k
    ensures forall i :: 0 <= i < r ==> CategoryKey(items[i]) != k
  {
    if items == [] then 0
    else if CategoryKey(items[0]) == k then 0
    else 1 + FirstFiled(items[1..], k)
  }

  /** Filing one more item moves no category's first item, and gives a new category its first one. */
  lemma FirstFiledLast(p: seq<Item>, x: Item, k: string)
    ensures FirstFiled(p + [x], k)
         == if FirstFiled(p, k) < |p| then FirstFiled(p, k)
            else if CategoryKey(x) == k then |p|
            else |p| + 1
  {
    var items := p + [x];
    var r, q := FirstFiled(items, k), FirstFiled(p, k);
    assert forall i :: 0 <= i < |p| ==> items[i] == p[i];
    assert items[|p|] == x;
  }

  /** A category is grouped exactly when some item is filed under it. */
  lemma {:induction false} GroupKeyMembers(items: seq<Item>)
    ensures forall k :: k in Group(items).keys <==> FirstFiled(items, k) < |items|
  {
    if items != [] {
      var p := items[..|items| - 1];
      var x := items[|items| - 1];
      assert p + [x] == items;
      GroupKeyMembers(p);
      GroupValid(p);
      GroupLast(p, x);
      forall k
        ensures k in Group(items).keys <==> FirstFiled(items, k) < |items|
      {
        FirstFiledLast(p, x, k);
      }
    }
  }

  /**
   * The key order of the grouped categories is the order in which their
   * first items come: a category is created by the first item filed there.
   */
  lemma {:induction false} GroupKeyOrder(items: seq<Item>)
    ensures var keys := Group(items).keys;
      forall i, j :: 0 <= i < j < |keys| ==> FirstFiled(items, keys[i]) < FirstFiled(items, keys[j])
  {
    if items != [] {
      var p := items[..|items| - 1];
      var x := items[|items| - 1];
      var cat := CategoryKey(x);
      assert p + [x] == items;
      GroupKeyOrder(p);
      GroupKeyMembers(p);
      GroupValid(p);
      GroupLast(p, x);
      var old_keys := Group(p).keys;
      var keys := Group(items).keys;
      forall i, j | 0 <= i < j < |keys|
        ensures FirstFiled(items, keys[i]) < FirstFiled(items, keys[j])
      {
        FirstFiledLast(p, x, keys[i]);
        FirstFiledLast(p, x, keys[j]);
        assert keys[i] == old_keys[i] && keys[i] in old_keys;
        if j < |old_keys| {
          assert keys[j] == old_keys[j] && keys[j] in old_keys;
        } else {
          assert keys[j] == cat && cat !in old_keys;
        }
      }
    }
  }

  /** Grouped category `a` comes before category `b` exactly when the first item filed under `a` comes first. */
  lemma GroupKeyOrderIff(items: seq<Item>)
    ensures var keys := Group(items).keys;
      forall i, j :: 0 <= i < |keys| && 0 <= j < |keys| ==>
        (i < j <==> FirstFiled(items, keys[i]) < FirstFiled(items, keys[j]))
  {
    GroupKeyOrder(items);
    GroupValid(items);
  }

  // ---------------------------------------------------------------------
  // Merging the consoles into the notebook cards (lines 117-145)

  /** `(args['kernelPreference'] && args['kernelPreference']['name']) || ''` */
  function ConsoleName(args: Args): string {
    OrEmpty(args.kernelPreferenceName)
  }

  /** The test `kernels.find` applies to a card: its first item's kernel name and label match. */
  predicate KernelMatches(kernel: Card, name: string, title: string, host: Host) {
    && kernel[0].args.Some?
    && OrEmpty(kernel[0].args.value.kernelName) == name
    && LabelOf(host, kernel[0]) == title
  }

  /** `kernels.find(...)`, as the index of the first matching card. */
  function FindKernel(kernels: seq<Card>, name: string, title: string, host: Host): (r: Option<nat>)
    ensures r.Some? ==> r.value < |kernels| && KernelMatches(kernels[r.value], name, title, host)
    ensures r.Some? ==> forall j :: 0 <= j < r.value ==> !KernelMatches(kernels[j], name, title, host)
    ensures r.None? ==> forall j :: 0 <= j < |kernels| ==> !KernelMatches(kernels[j], name, title, host)
  {
    if kernels == [] then None
    else if KernelMatches(kernels[0], name, title, host) then Some(0)
    else match FindKernel(kernels[1..], name, title, host)
      case None => None
      case Some(i) => Some(i + 1)
  }

  /**
   * One step of `consoles.forEach`: a console without arguments is
   * skipped; otherwise its item joins the first card with the same kernel
   * name and label, or its card is appended when no card matches.
   */
  function MergeConsole(kernels: seq<Card>, console: Card, host: Host): seq<Card> {
    var c := console[0];
    if c.args.None? then kernels
    else match FindKernel(kernels, ConsoleName(c.args.value), LabelOf(host, c), host)
      case Some(i) => kernels[i := kernels[i] + [c]]
      case None => kernels + [console]
  }

  /**
   * What one merge step does: nothing for a console without arguments;
   * otherwise the console's item is appended to the first matching card
   * when there is one, and the console's card is appended to the list
   * when there is none.
   */
  lemma MergeConsoleSpec(kernels: seq<Card>, console: Card, host: Host)
    ensures console[0].args.None? ==> MergeConsole(kernels, console, host) == kernels
    ensures console[0].args.Some? ==>
      var name, title := ConsoleName(console[0].args.value), LabelOf(host, console[0]);
      if exists i :: 0 <= i < |kernels| && KernelMatches(kernels[i], name, title, host) then
        exists i :: 0 <= i < |kernels| && KernelMatches(kernels[i], name, title, host)
          && (forall j :: 0 <= j < i ==> !KernelMatches(kernels[j], name, title, host))
          && MergeConsole(kernels, console, host) == kernels[i := kernels[i] + [console[0]]]
      else
        MergeConsole(kernels, console, host) == kernels + [console]
  {
    var c := console[0];
    if c.args.Some? {
      var name, title := ConsoleName(c.args.value), LabelOf(host, c);
      match FindKernel(kernels, name, title, host)
      case Some(i) =>
        assert KernelMatches(kernels[i], name, title, host);
      case None =>
    }
  }

  /** The whole `forEach`, consoles in order, starting from the notebook cards. */
  function MergeAll(kernels: seq<Card>, consoles: seq<Card>, host: Host): seq<Card> {
    if consoles == [] then kernels
    else MergeConsole(MergeAll(kernels, consoles[..|consoles| - 1], host), consoles[|consoles| - 1], host)
  }

  /** All items of a list of cards, card after card. */
  function Flatten(cards: seq<Card>): (r: seq<Item>) {
    if cards == [] then [] else Flatten(cards[..|cards| - 1]) + cards[|cards| - 1]
  }

  /** The items that have arguments, in order. */
  function WithArgs(s: seq<Item>): (r: seq<Item>)
    ensures forall x :: x in r <==> x in s && x.args.Some?
  {
    if s == [] then []
    else
      assert s == s[..|s| - 1] + [s[|s| - 1]];
      WithArgs(s[..|s| - 1]) + (if s[|s| - 1].args.Some? then [s[|s| - 1]] else [])
  }

  /** An item appended at the end is kept, at the end, exactly when it has arguments. */
  lemma WithArgsAppend(s: seq<Item>, x: Item)
    ensures WithArgs(s + [x]) == WithArgs(s) + (if x.args.Some? then [x] else [])
  {
    assert (s + [x])[..|s|] == s;
  }

  /** The last single-item card contributes its item to the items with arguments exactly when it has them. */
  lemma WithArgsFlattenLast(cards: seq<Card>)
    requires cards != [] && |cards[|cards| - 1]| == 1
    ensures var x := cards[|cards| - 1][0];
      WithArgs(Flatten(cards)) == WithArgs(Flatten(cards[..|cards| - 1])) + (if x.args.Some? then [x] else [])
  {
    var x := cards[|cards| - 1][0];
    assert cards[|cards| - 1] == [x];
    assert Flatten(cards) == Flatten(cards[..|cards| - 1]) + [x];
    WithArgsAppend(Flatten(cards[..|cards| - 1]), x);
  }

  lemma {:induction false} FlattenAppend(a: seq<Card>, b: seq<Card>)
    ensures Flatten(a + b) == Flatten(a) + Flatten(b)
  {
    if b != [] {
      var b' := b[..|b| - 1];
      assert (a + b)[..|a + b| - 1] == a + b';
      FlattenAppend(a, b');
    } else {
      assert a + b == a;
    }
  }

  /** Every item of every card is an item of the flattened list. */
  lemma {:induction false} InFlatten(cards: seq<Card>, i: nat, j: nat)
    requires i < |cards| && j < |cards[i]|
    ensures cards[i][j] in Flatten(cards)
  {
    if i < |cards| - 1 {
      InFlatten(cards[..|cards| - 1], i, j);
    }
  }

  /** Appending an item to one card adds exactly that item to the flattened list. */
  lemma {:induction false} FlattenUpdate(cards: seq<Card>, i: nat, x: Item)
    requires i < |cards|
    ensures multiset(Flatten(cards[i := cards[i] + [x]])) == multiset(Flatten(cards)) + multiset{x}
  {
    var n := |cards|;
    var u := cards[i := cards[i] + [x]];
    if i == n - 1 {
      assert u[..n - 1] == cards[..n - 1];
      assert Flatten(u) == Flatten(cards[..n - 1]) + (cards[i] + [x]);
    } else {
      var p := cards[..n - 1];
      var c: Card := cards[i] + [x];
      assert u[..n - 1] == p[i := c];
      assert u[n - 1] == cards[n - 1];
      FlattenUpdate(p, i, x);
      assert Flatten(u) == Flatten(p[i := c]) + cards[n - 1];
    }
  }

  lemma {:induction false} FlattenSingletons(s: seq<Item>)
    ensures Flatten(Singletons(s)) == s
  {
    if s != [] {
      var p := s[..|s| - 1];
      FlattenSingletons(p);
      assert Singletons(s)[..|s| - 1] == Singletons(p);
      assert p + [s[|s| - 1]] == s;
    }
  }

  /** One step of the merge keeps every card, at its place, as a prefix of what it becomes. */
  lemma MergeConsoleKeeps(kernels: seq<Card>, console: Card, host: Host)
    ensures |MergeConsole(kernels, console, host)| >= |kernels|
    ensures forall i :: 0 <= i < |kernels| ==> kernels[i] <= MergeConsole(kernels, console, host)[i]
  {
    var c := console[0];
    if c.args.Some? {
      match FindKernel(kernels, ConsoleName(c.args.value), LabelOf(host, c), host)
      case Some(i) =>
        assert kernels[i] <= kernels[i] + [c];
      case None =>
    }
  }

  /** One step of the merge adds the console's item when it has arguments, and nothing else. */
  lemma MergeConsoleAdds(kernels: seq<Card>, console: Card, host: Host)
    requires |console| == 1
    ensures multiset(Flatten(MergeConsole(kernels, console, host)))
         == multiset(Flatten(kernels)) + multiset(if console[0].args.Some? then [console[0]] else [])
  {
    var c := console[0];
    if c.args.Some? {
      assert console == [c];
      match FindKernel(kernels, ConsoleName(c.args.value), LabelOf(host, c), host)
      case Some(i) =>
        FlattenUpdate(kernels, i, c);
      case None =>
        FlattenAppend(kernels, [console]);
        assert Flatten([console]) == console by {
          assert [console][..0] == [];
        }
    }
  }

  /** The merge keeps every notebook card at its place, with the notebook items still first. */
  lemma {:induction false} MergeAllKeepsNotebooks(notebooks: seq<Card>, consoles: seq<Card>, host: Host)
    ensures |MergeAll(notebooks, consoles, host)| >= |notebooks|
    ensures forall i :: 0 <= i < |notebooks| ==> notebooks[i] <= MergeAll(notebooks, consoles, host)[i]
  {
    if consoles != [] {
      var n := |consoles|;
      var p := consoles[..n - 1];
      var c := consoles[n - 1];
      MergeAllKeepsNotebooks(notebooks, p, host);
      var k := MergeAll(notebooks, p, host);
      MergeConsoleKeeps(k, c, host);
      assert MergeAll(notebooks, consoles, host) == MergeConsole(k, c, host);
    }
  }

  /**
   * The merge adds exactly the consoles that have arguments: the merged
   * items are the notebooks plus those consoles.
   */
  lemma {:induction false} MergeAllItems(notebooks: seq<Card>, consoles: seq<Card>, host: Host)
    requires forall j :: 0 <= j < |consoles| ==> |consoles[j]| == 1
    ensures multiset(Flatten(MergeAll(notebooks, consoles, host)))
         == multiset(Flatten(notebooks)) + multiset(WithArgs(Flatten(consoles)))
  {
    if consoles != [] {
      MergeAllItems(notebooks, consoles[..|consoles| - 1], host);
      MergeAllItemsStep(notebooks, consoles, host);
    }
  }

  /** One console more: the merge and the items with arguments both grow by the same item, if any. */
  lemma MergeAllItemsStep(notebooks: seq<Card>, consoles: seq<Card>, host: Host)
    requires consoles != [] && |consoles[|consoles| - 1]| == 1
    requires var p := consoles[..|consoles| - 1];
      multiset(Flatten(MergeAll(notebooks, p, host)))
        == multiset(Flatten(notebooks)) + multiset(WithArgs(Flatten(p)))
    ensures multiset(Flatten(MergeAll(notebooks, consoles, host)))
         == multiset(Flatten(notebooks)) + multiset(WithArgs(Flatten(consoles)))
  {
    var p := consoles[..|consoles| - 1];
    var c := consoles[|consoles| - 1];
    var k := MergeAll(notebooks, p, host);
    var extra := if c[0].args.Some? then [c[0]] else [];
    assert MergeAll(notebooks, consoles, host) == MergeConsole(k, c, host);
    MergeConsoleAdds(k, c, host);
    WithArgsFlattenLast(consoles);
    ghost var a, b, e := multiset(Flatten(notebooks)), multiset(WithArgs(Flatten(p))), multiset(extra);
    assert multiset(WithArgs(Flatten(consoles))) == b + e;
  }


  // ---------------------------------------------------------------------
  // Sorting every category (lines 147-153)

  /** How two cards compare: `sortCmp` on their first items. */
  function CardCmp(a: Card, b: Card, host: Host): int {
    SortCmp(a[0], b[0], host)
  }

  /** Inserts a card before the first card it does not compare above. */
  function Insert(c: Card, s: seq<Card>, host: Host): (r: seq<Card>)
    ensures multiset(r) == multiset(s) + multiset{c}
  {
    if s == [] then [c]
    else
      assert s == [s[0]] + s[1..];
      if CardCmp(c, s[0], host) <= 0 then [c] + s
      else [s[0]] + Insert(c, s[1..], host)
  }

  /**
   * `cards.sort((a, b) => sortCmp(a[0], b[0], ...))`. The engine's sort is
   * not part of this model; an insertion sort stands for it, and what the
   * launcher relies on is proved of it: the result is a permutation of the
   * cards and, when `sortCmp` is a preorder, ordered by it.
   */
  function SortCards(s: seq<Card>, host: Host): (r: seq<Card>)
    ensures multiset(r) == multiset(s)
  {
    if s == [] then []
    else
      assert s == [s[0]] + s[1..];
      Insert(s[0], SortCards(s[1..], host), host)
  }

  /** Cards in non-decreasing order of `sortCmp` on their first items. */
  ghost predicate SortedCards(s: seq<Card>, host: Host) {
    forall i, j :: 0 <= i < j < |s| ==> CardCmp(s[i], s[j], host) <= 0
  }

  /** Every card's first item has a rank, as every item `createItem` made has. */
  ghost predicate Ranked(s: seq<Card>) {
    forall c: Card :: c in s ==> c[0].rank.Some?
  }

  /** A card that compares at or below every card of a sorted list can go in front of it. */
  lemma SortedCons(c: Card, s: seq<Card>, host: Host)
    requires SortedCards(s, host)
    requires forall j :: 0 <= j < |s| ==> CardCmp(c, s[j], host) <= 0
    ensures SortedCards([c] + s, host)
  {
    var r := [c] + s;
    forall i, j | 0 <= i < j < |r|
      ensures CardCmp(r[i], r[j], host) <= 0
    {
      if i > 0 {
        assert r[i] == s[i - 1] && r[j] == s[j - 1];
      } else {
        assert r[j] == s[j - 1];
      }
    }
  }

  lemma {:induction false} InsertSorted(c: Card, s: seq<Card>, host: Host)
    requires TotalPreorder(host.collate)
    requires c[0].rank.Some? && Ranked(s) && SortedCards(s, host)
    ensures SortedCards(Insert(c, s, host), host)
  {
    if s == [] {
      assert Insert(c, s, host) == [c];
    } else if CardCmp(c, s[0], host) <= 0 {
      forall j | 0 <= j < |s|
        ensures CardCmp(c, s[j], host) <= 0
      {
        if j > 0 {
          assert s[0] in s && s[j] in s;
          SortCmpTransitive(c[0], s[0][0], s[j][0], host);
        }
      }
      SortedCons(c, s, host);
    } else {
      var t := s[1..];
      assert Ranked(t) by {
        forall x: Card | x in t ensures x[0].rank.Some? {
          assert x in s;
        }
      }
      assert SortedCards(t, host) by {
        forall i, j | 0 <= i < j < |t| ensures CardCmp(t[i], t[j], host) <= 0 {
          assert t[i] == s[i + 1] && t[j] == s[j + 1];
        }
      }
      InsertSorted(c, t, host);
      SortCmpAntisymmetric(c[0], s[0][0], host);
      InsertBelowHead(c, s, host);
    }
  }

  /**
   * The head of a sorted list compares at or below the card inserted
   * after it and at or below the rest of the list.
   */
  lemma InsertBelowHead(c: Card, s: seq<Card>, host: Host)
    requires s != [] && SortedCards(s, host) && CardCmp(s[0], c, host) <= 0
    requires SortedCards(Insert(c, s[1..], host), host)
    ensures SortedCards([s[0]] + Insert(c, s[1..], host), host)
  {
    var t := s[1..];
    var r' := Insert(c, t, host);
    InsertMembers(c, t, host);
    forall y | y in t
      ensures CardCmp(s[0], y, host) <= 0
    {
      var m :| 0 <= m < |t| && t[m] == y;
      assert y == s[m + 1];
    }
    forall j | 0 <= j < |r'|
      ensures CardCmp(s[0], r'[j], host) <= 0
    {
      assert r'[j] in r';
    }
    SortedCons(s[0], r', host);
  }

  /** Inserting brings in no card but the inserted one. */
  lemma InsertMembers(c: Card, t: seq<Card>, host: Host)
    ensures forall y :: y in Insert(c, t, host) ==> y == c || y in t
  {
    forall y | y in Insert(c, t, host)
      ensures y == c || y in t
    {
      assert y in multiset(Insert(c, t, host));
    }
  }

  /** When every card is ranked and the collation is a total preorder, sorting orders the cards. */
  lemma {:induction false} SortCardsSorted(s: seq<Card>, host: Host)
    requires TotalPreorder(host.collate) && Ranked(s)
    ensures SortedCards(SortCards(s, host), host)
  {
    if s != [] {
      var t := s[1..];
      assert Ranked(t) by {
        forall x: Card | x in t ensures x[0].rank.Some? {
          assert x in s;
        }
      }
      SortCardsSorted(t, host);
      var st := SortCards(t, host);
      assert Ranked(st) by {
        forall x: Card | x in st ensures x[0].rank.Some? {
          assert x in multiset(st);
          assert x in t;
        }
      }
      InsertSorted(s[0], st, host);
    }
  }

  /** Sorting every category: the keys stay, each list of cards is sorted. */
  function SortAll(d: Dict, host: Host): (r: Dict)
    ensures r.keys == d.keys && r.cards.Keys == d.cards.Keys
    ensures forall k :: k in d.cards ==> r.cards[k] == SortCards(d.cards[k], host)
  {
    Dict(d.keys, map k | k in d.cards :: SortCards(d.cards[k], host))
  }

  lemma FlattenCons(c: Card, s: seq<Card>)
    ensures Flatten([c] + s) == c + Flatten(s)
  {
    FlattenAppend([c], s);
    assert [c][..0] == [];
  }

  /** Sorting keeps the items of a list of cards, only their order changes. */
  lemma {:induction false} InsertFlatten(c: Card, s: seq<Card>, host: Host)
    ensures multiset(Flatten(Insert(c, s, host))) == multiset(Flatten(s)) + multiset(c)
  {
    if s == [] {
      FlattenCons(c, s);
    } else {
      var t := s[1..];
      FlattenCons(s[0], t);
      assert [s[0]] + t == s;
      if CardCmp(c, s[0], host) <= 0 {
        FlattenCons(c, s);
      } else {
        InsertFlatten(c, t, host);
        FlattenCons(s[0], Insert(c, t, host));
      }
    }
  }

  lemma {:induction false} SortCardsFlatten(s: seq<Card>, host: Host)
    ensures multiset(Flatten(SortCards(s, host))) == multiset(Flatten(s))
  {
    if s != [] {
      var c, t := s[0], s[1..];
      var st := SortCards(t, host);
      assert SortCards(s, host) == Insert(c, st, host);
      SortCardsFlatten(t, host);
      InsertFlatten(c, st, host);
      assert s == [c] + t;
      FlattenCons(c, t);
    }
  }


  // ---------------------------------------------------------------------
  // Ordering the categories (lines 155-168) and the sections (173-176)

  const WebDSDocumentation := "WebDS_Documentation"

  /** The first loop: the model's categories, in their order, that have a key. */
  function Listed(settings: seq<string>, d: Dict): (r: seq<string>)
    ensures forall c :: c in r <==> c in settings && c in d.cards
  {
    if settings == [] then []
    else
      var c := settings[|settings| - 1];
      Listed(settings[..|settings| - 1], d) + (if c in d.cards then [c] else [])
  }

  /** The second loop: the keys, in insertion order, that the model does not list, except `WebDS_Documentation`. */
  function Unlisted(keys: seq<string>, settings: seq<string>): (r: seq<string>)
    ensures forall c :: c in r <==> c in keys && c !in settings && c != WebDSDocumentation
  {
    if keys == [] then []
    else
      var c := keys[|keys| - 1];
      Unlisted(keys[..|keys| - 1], settings) + (if c !in settings && c != WebDSDocumentation then [c] else [])
  }

  /** `idx` embeds `a` in `b`: it picks, in increasing positions of `b`, the elements of `a` in order. */
  ghost predicate Embeds(a: seq<string>, b: seq<string>, idx: seq<int>) {
    && |idx| == |a|
    && (forall i :: 0 <= i < |a| ==> 0 <= idx[i] < |b| && a[i] == b[idx[i]])
    && (forall i, j :: 0 <= i < j < |a| ==> idx[i] < idx[j])
  }

  /** `a` is a subsequence of `b`: it keeps some of the elements of `b`, in their order. */
  ghost predicate Subsequence(a: seq<string>, b: seq<string>) {
    exists idx :: Embeds(a, b, idx)
  }

  lemma EmbedsSkip(a: seq<string>, b: seq<string>, idx: seq<int>, c: string)
    requires Embeds(a, b, idx)
    ensures Embeds(a, b + [c], idx)
  {
  }

  lemma EmbedsTake(a: seq<string>, b: seq<string>, idx: seq<int>, c: string)
    requires Embeds(a, b, idx)
    ensures Embeds(a + [c], b + [c], idx + [|b|])
  {
  }

  /** `delete` keeps the order of the remaining keys. */
  lemma {:induction false} WithoutInOrder(s: seq<string>, x: string)
    ensures Subsequence(Without(s, x), s)
  {
    if s == [] {
      assert Embeds([], [], []);
    } else {
      var p := s[..|s| - 1];
      var c := s[|s| - 1];
      assert p + [c] == s;
      WithoutInOrder(p, x);
      var idx :| Embeds(Without(p, x), p, idx);
      if c != x {
        assert Without(s, x) == Without(p, x) + [c];
        EmbedsTake(Without(p, x), p, idx, c);
        assert Embeds(Without(s, x), s, idx + [|p|]);
      } else {
        assert Without(s, x) == Without(p, x);
        EmbedsSkip(Without(p, x), p, idx, c);
        assert Embeds(Without(s, x), s, idx);
      }
    }
  }

  /** The first loop keeps the settings' order: the listed part is a subsequence of the settings. */
  lemma {:induction false} ListedInOrder(settings: seq<string>, d: Dict)
    ensures Subsequence(Listed(settings, d), settings)
  {
    if settings == [] {
      assert Embeds([], [], []);
    } else {
      var p := settings[..|settings| - 1];
      var c := settings[|settings| - 1];
      assert p + [c] == settings;
      ListedInOrder(p, d);
      var idx :| Embeds(Listed(p, d), p, idx);
      if c in d.cards {
        assert Listed(settings, d) == Listed(p, d) + [c];
        EmbedsTake(Listed(p, d), p, idx, c);
        assert Embeds(Listed(settings, d), settings, idx + [|p|]);
      } else {
        assert Listed(settings, d) == Listed(p, d);
        EmbedsSkip(Listed(p, d), p, idx, c);
        assert Embeds(Listed(settings, d), settings, idx);
      }
    }
  }

  /** The second loop keeps the key insertion order: the unlisted part is a subsequence of the keys. */
  lemma {:induction false} UnlistedInOrder(keys: seq<string>, settings: seq<string>)
    ensures Subsequence(Unlisted(keys, settings), keys)
  {
    if keys == [] {
      assert Embeds([], [], []);
    } else {
      var p := keys[..|keys| - 1];
      var c := keys[|keys| - 1];
      assert p + [c] == keys;
      UnlistedInOrder(p, settings);
      var idx :| Embeds(Unlisted(p, settings), p, idx);
      if c !in settings && c != WebDSDocumentation {
        assert Unlisted(keys, settings) == Unlisted(p, settings) + [c];
        EmbedsTake(Unlisted(p, settings), p, idx, c);
        assert Embeds(Unlisted(keys, settings), keys, idx + [|p|]);
      } else {
        assert Unlisted(keys, settings) == Unlisted(p, settings);
        EmbedsSkip(Unlisted(p, settings), p, idx, c);
        assert Embeds(Unlisted(keys, settings), keys, idx);
      }
    }
  }

  /** `orderedCategories` */
  function OrderCategories(settings: seq<string>, d: Dict): seq<string> {
    Listed(settings, d) + Unlisted(d.keys, settings)
  }

  lemma {:induction false} ListedDistinct(settings: seq<string>, d: Dict)
    requires Distinct(settings)
    ensures Distinct(Listed(settings, d))
  {
    if settings != [] {
      var p := settings[..|settings| - 1];
      assert Distinct(p);
      ListedDistinct(p, d);
      assert settings[|settings| - 1] !in p;
    }
  }

  lemma {:induction false} UnlistedDistinct(keys: seq<string>, settings: seq<string>)
    requires Distinct(keys)
    ensures Distinct(Unlisted(keys, settings))
  {
    if keys != [] {
      var p := keys[..|keys| - 1];
      assert Distinct(p);
      UnlistedDistinct(p, settings);
      assert keys[|keys| - 1] !in p;
    }
  }

  /**
   * The categories are shown listed ones first, then the others; only
   * categories that exist are shown; every category is shown except
   * `WebDS_Documentation` when the model does not list it; and no
   * category is shown twice when the model lists none twice.
   */
  lemma OrderCategoriesSpec(settings: seq<string>, d: Dict)
    requires ValidDict(d)
    ensures forall c :: c in OrderCategories(settings, d) ==> c in d.cards
    ensures forall c :: c in d.cards ==>
      (c in OrderCategories(settings, d) <==> c in settings || c != WebDSDocumentation)
    ensures var o := OrderCategories(settings, d);
      forall i, j :: 0 <= i < j < |o| && o[j] in settings ==> o[i] in settings
    ensures Distinct(settings) ==> Distinct(OrderCategories(settings, d))
  {
    var l, u := Listed(settings, d), Unlisted(d.keys, settings);
    var o := l + u;
    forall i, j | 0 <= i < j < |o| && o[j] in settings
      ensures o[i] in settings
    {
      if j < |l| {
        assert o[i] == l[i] && l[i] in l;
      } else {
        assert false;
      }
    }
    UnlistedDistinct(d.keys, settings);
    if Distinct(settings) {
      ListedDistinct(settings, d);
      forall i, j | 0 <= i < j < |o|
        ensures o[i] != o[j]
      {
        if i < |l| && |l| <= j {
          assert o[i] == l[i] && l[i] in l && o[j] == u[j - |l|] && u[j - |l|] in u;
        } else if |l| <= i {
          assert o[i] == u[i - |l|] && o[j] == u[j - |l|];
        }
      }
    }
  }

  /** A rendered section: a category and its cards. */
  datatype Section = Section(category: string, cards: seq<Card>)

  /** `orderedCategories.forEach`: one section per listed category, skipping those with no cards. */
  function Sections(ordered: seq<string>, d: Dict): (r: seq<Section>)
    requires forall c :: c in ordered ==> c in d.cards
    ensures forall s :: s in r ==> s.category in d.cards && s.cards == d.cards[s.category] && |s.cards| > 0
  {
    if ordered == [] then []
    else
      var c := ordered[|ordered| - 1];
      Sections(ordered[..|ordered| - 1], d) + (if |d.cards[c]| == 0 then [] else [Section(c, d.cards[c])])
  }

  /** When no category is empty, there is exactly one section per ordered category, in that order. */
  lemma {:induction false} SectionsOfNonEmpty(ordered: seq<string>, d: Dict)
    requires forall c :: c in ordered ==> c in d.cards
    requires forall k :: k in d.cards ==> |d.cards[k]| > 0
    ensures |Sections(ordered, d)| == |ordered|
    ensures forall i :: 0 <= i < |ordered| ==> Sections(ordered, d)[i] == Section(ordered[i], d.cards[ordered[i]])
  {
    if ordered != [] {
      var p := ordered[..|ordered| - 1];
      SectionsOfNonEmpty(p, d);
    }
  }

  // ---------------------------------------------------------------------
  // The whole pipeline

  /**
   * Why `render` throws: `consoles.forEach` on an undefined `Console`
   * category (line 127), or an undefined `Notebook` category reached
   * through `kernels.find` (line 132) or `categories['IPython'].sort`
   * (line 148).
   */
  datatype RenderError = ConsoleCategoryMissing | NotebookCategoryMissing

  /** Lines 117-145: the two kernel categories are taken out and their merge is stored as `IPython`. */
  function Merged(grouped: Dict, host: Host): Dict
    requires "Notebook" in grouped.cards && "Console" in grouped.cards
  {
    var notebooks, consoles := grouped.cards["Notebook"], grouped.cards["Console"];
    var rest := Delete(Delete(grouped, "Notebook"), "Console");
    Put(rest, "IPython", MergeAll(notebooks, consoles, host))
  }

  /** The `categories` object after the merge and the sort (lines 105-153). */
  function Categorize(items: seq<Item>, host: Host): Result<Dict, RenderError> {
    var grouped := Group(items);
    if "Console" !in grouped.cards then Failure(ConsoleCategoryMissing)
    else if "Notebook" !in grouped.cards then Failure(NotebookCategoryMissing)
    else Success(SortAll(Merged(grouped, host), host))
  }

  /** The sections `render` draws, given the model's items and its categories. */
  function Pipeline(items: seq<Item>, settings: seq<string>, host: Host): Result<seq<Section>, RenderError> {
    match Categorize(items, host)
    case Failure(e) => Failure(e)
    case Success(d) =>
      CategorizeValid(items, host);
      OrderCategoriesSpec(settings, d);
      Success(Sections(OrderCategories(settings, d), d))
  }

  lemma CategorizeValid(items: seq<Item>, host: Host)
    ensures Categorize(items, host).Success? ==> ValidDict(Categorize(items, host).value)
  {
    var grouped := Group(items);
    GroupSpec(items);
    if "Console" in grouped.cards && "Notebook" in grouped.cards {
      var d1 := Delete(grouped, "Notebook");
      DeleteValid(grouped, "Notebook");
      DeleteValid(d1, "Console");
      var notebooks, consoles := grouped.cards["Notebook"], grouped.cards["Console"];
      PutValid(Delete(d1, "Console"), "IPython", MergeAll(notebooks, consoles, host));
      assert Categorize(items, host).value == SortAll(Merged(grouped, host), host);
    }
  }

  /**
   * The key order the second ordering loop visits: the grouped keys without
   * `Notebook` and `Console`, followed by `IPython` when no item created it.
   */
  lemma CategorizeKeyOrder(items: seq<Item>, host: Host)
    requires Categorize(items, host).Success?
    ensures var g := Group(items);
      Categorize(items, host).value.keys
        == Without(Without(g.keys, "Notebook"), "Console") + (if "IPython" in g.cards then [] else ["IPython"])
  {
    var g := Group(items);
    var rest := Delete(Delete(g, "Notebook"), "Console");
    assert rest.keys == Without(Without(g.keys, "Notebook"), "Console");
    assert "IPython" in rest.cards <==> "IPython" in g.cards;
    var m := Merged(g, host);
    assert m == Put(rest, "IPython", MergeAll(g.cards["Notebook"], g.cards["Console"], host));
    assert Categorize(items, host).value == SortAll(m, host);
  }

  /** `render` throws exactly when there is no `Console` item, or no `Notebook` item. */
  lemma CategorizeFailure(items: seq<Item>, host: Host)
    ensures Categorize(items, host) == Failure(ConsoleCategoryMissing) <==> KeyFilter(items, "Console") == []
    ensures Categorize(items, host) == Failure(NotebookCategoryMissing)
        <==> KeyFilter(items, "Console") != [] && KeyFilter(items, "Notebook") == []
    ensures Categorize(items, host).Success?
        <==> KeyFilter(items, "Console") != [] && KeyFilter(items, "Notebook") != []
  {
    GroupHasKey(items, "Console");
    GroupHasKey(items, "Notebook");
  }

  /**
   * After the merge the two kernel categories are gone and `IPython`
   * exists; every other category exists exactly when some item is filed
   * under it.
   */
  lemma CategorizeKeys(items: seq<Item>, host: Host)
    requires Categorize(items, host).Success?
    ensures var d := Categorize(items, host).value;
      && ValidDict(d)
      && "Notebook" !in d.cards && "Console" !in d.cards && "IPython" in d.cards
      && forall k :: k != "Notebook" && k != "Console" && k != "IPython" ==>
           (k in d.cards <==> KeyFilter(items, k) != [])
  {
    CategorizeValid(items, host);
    var g := Group(items);
    GroupSpec(items);
    assert Categorize(items, host).value.cards.Keys == Merged(g, host).cards.Keys;
  }

  /** Every category but `IPython` holds one singleton card per item filed under it, sorted. */
  lemma CategorizeOthers(items: seq<Item>, host: Host)
    requires Categorize(items, host).Success?
    ensures var d := Categorize(items, host).value;
      forall k :: k in d.cards && k != "IPython" ==>
        d.cards[k] == SortCards(Singletons(KeyFilter(items, k)), host)
  {
    var g := Group(items);
    GroupSpec(items);
    var m := Merged(g, host);
    assert Categorize(items, host).value == SortAll(m, host);
    forall k | k in m.cards && k != "IPython"
      ensures m.cards[k] == Singletons(KeyFilter(items, k))
    {
      assert m.cards[k] == g.cards[k];
    }
  }

  /**
   * `IPython` holds exactly the notebook items and the console items that
   * have arguments: as many items as there are notebooks plus such consoles.
   */
  lemma CategorizeIPython(items: seq<Item>, host: Host)
    requires Categorize(items, host).Success?
    ensures var ipython := Categorize(items, host).value.cards["IPython"];
      && multiset(Flatten(ipython))
         == multiset(KeyFilter(items, "Notebook")) + multiset(WithArgs(KeyFilter(items, "Console")))
      && |Flatten(ipython)| == |KeyFilter(items, "Notebook")| + |WithArgs(KeyFilter(items, "Console"))|
  {
    var g := Group(items);
    var nb, cs := KeyFilter(items, "Notebook"), KeyFilter(items, "Console");
    assert g.cards["Notebook"] == Singletons(nb) && g.cards["Console"] == Singletons(cs) by {
      GroupSpec(items);
    }
    var merged := MergeAll(Singletons(nb), Singletons(cs), host);
    assert Merged(g, host).cards["IPython"] == merged;
    assert Categorize(items, host).value.cards["IPython"] == SortCards(merged, host);
    SortCardsFlatten(merged, host);
    MergeAllItems(Singletons(nb), Singletons(cs), host);
    FlattenSingletons(nb);
    FlattenSingletons(cs);
    ghost var f := Flatten(SortCards(merged, host));
    ghost var w := nb + WithArgs(cs);
    assert multiset(f) == multiset(w);
    assert |multiset(f)| == |f| && |multiset(w)| == |w|;
  }

  /** No category is left empty, so no category is skipped when the sections are drawn. */
  lemma CategorizeNonEmpty(items: seq<Item>, host: Host)
    requires Categorize(items, host).Success?
    ensures var d := Categorize(items, host).value;
      forall k :: k in d.cards ==> |d.cards[k]| > 0
  {
    var g := Group(items);
    GroupNonEmpty(items);
    var m := Merged(g, host);
    var d := SortAll(m, host);
    assert Categorize(items, host).value == d;
    MergeAllKeepsNotebooks(g.cards["Notebook"], g.cards["Console"], host);
    forall k | k in d.cards
      ensures |d.cards[k]| > 0
    {
      var s := m.cards[k];
      SortCardsLength(s, host);
      if k != "IPython" {
        assert s == g.cards[k];
      }
    }
  }

  lemma SortCardsLength(s: seq<Card>, host: Host)
    ensures |SortCards(s, host)| == |s|
  {
    assert |multiset(SortCards(s, host))| == |multiset(s)|;
  }

  lemma GroupNonEmpty(items: seq<Item>)
    ensures forall k :: k in Group(items).cards ==> |Group(items).cards[k]| > 0
  {
    GroupSpec(items);
  }


  /** Items that `createItem` made all have ranks. */
  ghost predicate AllRanked(items: seq<Item>) {
    forall i :: 0 <= i < |items| ==> items[i].rank.Some?
  }

  /** The merged kernel cards are drawn from ranked items. */
  lemma MergedRanked(items: seq<Item>, host: Host)
    requires AllRanked(items)
    requires "Notebook" in Group(items).cards && "Console" in Group(items).cards
    ensures Ranked(MergeAll(Group(items).cards["Notebook"], Group(items).cards["Console"], host))
  {
    var g := Group(items);
    var nb, cs := KeyFilter(items, "Notebook"), KeyFilter(items, "Console");
    assert g.cards["Notebook"] == Singletons(nb) && g.cards["Console"] == Singletons(cs) by {
      GroupSpec(items);
    }
    var merged := MergeAll(Singletons(nb), Singletons(cs), host);
    MergeAllItems(Singletons(nb), Singletons(cs), host);
    FlattenSingletons(nb);
    FlattenSingletons(cs);
    forall x | x in Flatten(merged)
      ensures x.rank.Some?
    {
      assert x in multiset(Flatten(merged));
      assert x in nb || x in WithArgs(cs);
      assert x in items;
    }
    RankedOfItems(merged);
  }

  /** Cards whose items are all ranked are ranked. */
  lemma RankedOfItems(cards: seq<Card>)
    requires forall x :: x in Flatten(cards) ==> x.rank.Some?
    ensures Ranked(cards)
  {
    forall c: Card | c in cards
      ensures c[0].rank.Some?
    {
      var i :| 0 <= i < |cards| && cards[i] == c;
      InFlatten(cards, i, 0);
    }
  }

  /** The singleton cards of a category are drawn from ranked items. */
  lemma SingletonsRanked(items: seq<Item>, k: string)
    requires AllRanked(items)
    ensures Ranked(Singletons(KeyFilter(items, k)))
  {
    var f := KeyFilter(items, k);
    var s := Singletons(f);
    forall c: Card | c in s
      ensures c[0].rank.Some?
    {
      var i :| 0 <= i < |s| && s[i] == c;
      assert c[0] == f[i] && f[i] in f;
    }
  }

  /**
   * When `createItem` ranked every item and the collation is a total
   * preorder, every category's cards are in `sortCmp` order.
   */
  lemma CategorizeSorted(items: seq<Item>, host: Host)
    requires Categorize(items, host).Success?
    requires TotalPreorder(host.collate)
    requires AllRanked(items)
    ensures var d := Categorize(items, host).value;
      forall k :: k in d.cards ==> SortedCards(d.cards[k], host)
  {
    var g := Group(items);
    GroupSpec(items);
    var m := Merged(g, host);
    var d := SortAll(m, host);
    assert Categorize(items, host).value == d;
    forall k | k in d.cards
      ensures SortedCards(d.cards[k], host)
    {
      if k == "IPython" {
        MergedRanked(items, host);
      } else {
        assert m.cards[k] == g.cards[k];
        SingletonsRanked(items, k);
      }
      SortCardsSorted(m.cards[k], host);
    }
  }

  /** When `createItem` ranked every item and the collation is a total preorder, every section's cards are in `sortCmp` order. */
  lemma PipelineSorted(items: seq<Item>, settings: seq<string>, host: Host)
    requires Pipeline(items, settings, host).Success?
    requires TotalPreorder(host.collate)
    requires AllRanked(items)
    ensures forall s :: s in Pipeline(items, settings, host).value ==> SortedCards(s.cards, host)
  {
    CategorizeSorted(items, host);
    var d := Categorize(items, host).value;
    CategorizeValid(items, host);
    OrderCategoriesSpec(settings, d);
  }

  /** The category `k` is drawn as a section. */
  predicate HasSection(r: seq<Section>, k: string) {
    exists i :: 0 <= i < |r| && r[i].category == k
  }

  /** A section is drawn for exactly the categories named, in order, by the sections. */
  lemma HasSectionIff(r: seq<Section>, o: seq<string>)
    requires |r| == |o| && forall i :: 0 <= i < |o| ==> r[i].category == o[i]
    ensures forall k :: HasSection(r, k) <==> k in o
  {
    forall k
      ensures HasSection(r, k) <==> k in o
    {
      if k in o {
        var i :| 0 <= i < |o| && o[i] == k;
        assert r[i].category == k;
      }
    }
  }

  /** `render` draws one section per ordered category, with that category's cards. */
  lemma PipelineSections(items: seq<Item>, settings: seq<string>, host: Host)
    requires Pipeline(items, settings, host).Success?
    ensures var d := Categorize(items, host).value;
      var o := OrderCategories(settings, d);
      var r := Pipeline(items, settings, host).value;
      && |r| == |o|
      && (forall i :: 0 <= i < |o| ==> r[i].category == o[i] && o[i] in d.cards && r[i].cards == d.cards[o[i]])
  {
    var d := Categorize(items, host).value;
    var o := OrderCategories(settings, d);
    CategorizeValid(items, host);
    CategorizeNonEmpty(items, host);
    OrderCategoriesSpec(settings, d);
    assert Pipeline(items, settings, host).value == Sections(o, d);
    SectionsOfNonEmpty(o, d);
  }

  /**
   * Which categories `render` draws: never `Notebook` or `Console`, always
   * `IPython`, and any other category exactly when some item is filed
   * under it and it is not an unlisted `WebDS_Documentation`.
   */
  lemma PipelineCategories(items: seq<Item>, settings: seq<string>, host: Host)
    requires Pipeline(items, settings, host).Success?
    ensures var r := Pipeline(items, settings, host).value;
      && !HasSection(r, "Notebook") && !HasSection(r, "Console") && HasSection(r, "IPython")
      && forall k :: k != "Notebook" && k != "Console" && k != "IPython" ==>
           (HasSection(r, k) <==> KeyFilter(items, k) != [] && (k in settings || k != WebDSDocumentation))
  {
    var d := Categorize(items, host).value;
    var o := OrderCategories(settings, d);
    var r := Pipeline(items, settings, host).value;
    PipelineSections(items, settings, host);
    HasSectionIff(r, o);
    CategorizeKeys(items, host);
    OrderCategoriesSpec(settings, d);
  }
}
