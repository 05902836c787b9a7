/**
 * Launcher items and the two helpers of the `Private` namespace of
 * src/launcher.tsx: `createItem`, which normalises the options an
 * extension registers, and `sortCmp`, the comparison the launcher sorts
 * its cards with.
 */
module Items {
  import opened Wrappers

  /** A rank as the launcher uses it: a finite integer, `-Infinity` or `Infinity`. */
  datatype Rank = NegInfinity | Finite(n: int) | Infinity

  /**
   * JavaScript's `<` on ranks: `-Infinity` is below and `Infinity` above
   * every finite rank, and neither is below itself.
   */
  predicate RankLess(a: Rank, b: Rank) {
    match a
    case NegInfinity => !b.NegInfinity?
    case Infinity => false
    case Finite(x) => b.Infinity? || (b.Finite? && x < b.n)
  }

  /**
   * The JSON arguments of a command, reduced to the two entries the
   * launcher reads (`kernelName`, and `kernelPreference.name`) and the
   * rest, which only the host's `label` function looks at.
   */
  datatype Args = Args(kernelName: Option<string>, kernelPreferenceName: Option<string>, others: map<string, string>)

  /** `ILauncher.IItemOptions`: every field but `command` may be undefined. */
  datatype Item = Item(
    command: string,
    args: Option<Args>,
    category: Option<string>,
    rank: Option<Rank>,
    kernelIconUrl: Option<string>,
    metadata: map<string, string>)

  /** A string is truthy in JavaScript when it is defined and not empty. */
  predicate Truthy(s: Option<string>) {
    s.Some? && s.value != ""
  }

  /** `s || ''` */
  function OrEmpty(s: Option<string>): (r: string)
    ensures Truthy(s) ==> r == s.value
    ensures !Truthy(s) ==> r == ""
  {
    if Truthy(s) then s.value else ""
  }

  /** The category an item is filed under by the launcher: `item.category || 'Other'`. */
  function CategoryKey(item: Item): (k: string)
    ensures k != ""
    ensures Truthy(item.category) ==> k == item.category.value
    ensures !Truthy(item.category) ==> k == "Other"
  {
    if Truthy(item.category) then item.category.value else "Other"
  }

  /** What `createItem` guarantees of an item: a defined category and a defined rank. */
  predicate Normalised(item: Item) {
    item.category.Some? && item.rank.Some?
  }

  /**
   * `Private.createItem`: every field is copied, the category becomes
   * `options.category || ''` and the rank `options.rank` unless it is
   * undefined, in which case it becomes `Infinity`.
   */
  function CreateItem(options: Item): (r: Item)
    ensures Normalised(r)
    ensures r.command == options.command && r.args == options.args
    ensures r.kernelIconUrl == options.kernelIconUrl && r.metadata == options.metadata
    ensures Truthy(options.category) ==> r.category == options.category
    ensures !Truthy(options.category) ==> r.category == Some("")
    ensures options.rank.Some? ==> r.rank == options.rank
    ensures options.rank.None? ==> r.rank == Some(Infinity)
  {
    options.(
      category := Some(OrEmpty(options.category)),
      rank := if options.rank != None then options.rank else Some(Infinity))
  }

  /** Normalising twice is normalising once. */
  lemma CreateItemIdempotent(options: Item)
    ensures CreateItem(CreateItem(options)) == CreateItem(options)
  {
  }

  /** Normalisation never moves an item to another category of the launcher. */
  lemma CreateItemKeepsCategoryKey(options: Item)
    ensures CategoryKey(CreateItem(options)) == CategoryKey(options)
  {
  }

  /**
   * The host's services the comparison depends on: the command registry's
   * `label(command, args)` and string collation, given as the relation
   * "collates at or before" from which `localeCompare` is derived.
   */
  datatype Host = Host(commandLabel: (string, Option<Args>) -> string, collate: (string, string) -> bool)

  /** The collation is a total preorder, the way `localeCompare` orders strings. */
  ghost predicate TotalPreorder(le: (string, string) -> bool) {
    && (forall x, y :: le(x, y) || le(y, x))
    && (forall x, y, z :: le(x, y) && le(y, z) ==> le(x, z))
  }

  /** `x.localeCompare(y)`, reduced to its sign. */
  function LocaleCompare(host: Host, x: string, y: string): (r: int)
    ensures r == 0 <==> host.collate(x, y) && host.collate(y, x)
    ensures r < 0 <==> host.collate(x, y) && !host.collate(y, x)
  {
    if host.collate(x, y) && host.collate(y, x) then 0
    else if host.collate(x, y) then -1
    else 1
  }

  /** The label `sortCmp` ranks an item by. */
  function LabelOf(host: Host, item: Item): string {
    host.commandLabel(item.command, item.args)
  }

  /** True when `sortCmp` decides by rank alone: both ranks are defined and they differ. */
  predicate RankDecides(a: Item, b: Item) {
    a.rank != b.rank && a.rank.Some? && b.rank.Some?
  }

  /**
   * `Private.sortCmp`: by rank when both ranks are defined and differ,
   * otherwise by the collation of the two labels.
   */
  function SortCmp(a: Item, b: Item, host: Host): (r: int)
    ensures -1 <= r <= 1
    ensures RankDecides(a, b) ==> (r == -1 <==> RankLess(a.rank.value, b.rank.value))
    ensures RankDecides(a, b) ==> r != 0
    ensures !RankDecides(a, b) ==> r == LocaleCompare(host, LabelOf(host, a), LabelOf(host, b))
  {
    if RankDecides(a, b) then
      (if RankLess(a.rank.value, b.rank.value) then -1 else 1)
    else
      LocaleCompare(host, LabelOf(host, a), LabelOf(host, b))
  }

  /** When the ranks do not decide, the result depends on the two labels only. */
  lemma SortCmpByLabels(a: Item, b: Item, a': Item, b': Item, host: Host)
    requires !RankDecides(a, b) && !RankDecides(a', b')
    requires LabelOf(host, a) == LabelOf(host, a') && LabelOf(host, b) == LabelOf(host, b')
    ensures SortCmp(a, b, host) == SortCmp(a', b', host)
  {
  }

  /** `RankLess` is a strict total order on ranks. */
  lemma RankLessTotal(x: Rank, y: Rank)
    ensures x != y ==> (RankLess(x, y) <==> !RankLess(y, x))
    ensures !RankLess(x, x)
  {
  }

  /** With a total collation, swapping the arguments of `sortCmp` flips its sign. */
  lemma SortCmpAntisymmetric(a: Item, b: Item, host: Host)
    requires forall x, y :: host.collate(x, y) || host.collate(y, x)
    ensures SortCmp(b, a, host) == -SortCmp(a, b, host)
  {
    if RankDecides(a, b) {
      RankLessTotal(a.rank.value, b.rank.value);
    } else {
      var la, lb := LabelOf(host, a), LabelOf(host, b);
      assert host.collate(la, lb) || host.collate(lb, la);
    }
  }

  /**
   * On normalised items (every rank defined), and with a collation that is
   * a total preorder, `sortCmp` is transitive: it orders by rank first and
   * then by label.
   */
  lemma {:induction false} SortCmpTransitive(a: Item, b: Item, c: Item, host: Host)
    requires TotalPreorder(host.collate)
    requires a.rank.Some? && b.rank.Some? && c.rank.Some?
    requires SortCmp(a, b, host) <= 0 && SortCmp(b, c, host) <= 0
    ensures SortCmp(a, c, host) <= 0
  {
    var ra, rb, rc := a.rank.value, b.rank.value, c.rank.value;
    var la, lb, lc := LabelOf(host, a), LabelOf(host, b), LabelOf(host, c);
    if ra == rb && rb == rc {
      assert host.collate(la, lb) && host.collate(lb, lc);
      assert host.collate(la, lc);
    } else if ra == rb {
      assert RankLess(rb, rc);
    } else if rb == rc {
      assert RankLess(ra, rb);
    } else {
      assert RankLess(ra, rb) && RankLess(rb, rc);
      if ra == rc {
        RankLessTotal(ra, rb);
      }
    }
  }
}
