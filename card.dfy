/**
 * The `Card` element of src/launcher.tsx: the option buttons of kernel
 * cards and their labels, and the `pending` flag of the launcher that keeps a second
 * click from starting a second command while one is still running.
 */
module Cards {
  import opened Wrappers
  import opened Items
  import opened Categories

  /** `KERNEL_CATEGORIES` at line 39. */
  const KernelCategories: seq<string> := ["Notebook", "Console"]

  /** The label of the option button for `item` on a card of `cardSize` items (lines 305-308). */
  function OptionLabel(item: Item, cardSize: nat): (text: string)
    ensures (Truthy(item.category) && (cardSize > 1 || item.category.value in KernelCategories))
              ==> text == item.category.value
    ensures (!Truthy(item.category) || (cardSize <= 1 && item.category.value !in KernelCategories))
              ==> text == "Open"
  {
    if Truthy(item.category) && (cardSize > 1 || item.category.value in KernelCategories)
    then item.category.value
    else "Open"
  }

  /** `getOptions(items)`: one label per item of the card, in order. */
  function OptionLabels(card: Card): (labels: seq<string>)
    ensures |labels| == |card|
    ensures forall i :: 0 <= i < |card| ==> labels[i] == OptionLabel(card[i], |card|)
  {
    seq(|card|, i requires 0 <= i < |card| => OptionLabel(card[i], |card|))
  }

  /**
   * The option buttons `Card` draws on a card of `category`: a kernel card
   * (the `IPython` category, line 179) shows `getOptions(items)`
   * (lines 330-361); every other card is drawn without options
   * (lines 366-389).
   */
  function CardOptions(category: string, card: Card): (options: seq<string>)
    ensures category == "IPython" ==> options == OptionLabels(card)
    ensures category != "IPython" ==> options == []
  {
    if category == "IPython" then OptionLabels(card) else []
  }

  /** A button reads `Open` or names a non-empty category of its item. */
  lemma OptionLabelCases(item: Item, cardSize: nat)
    ensures var text := OptionLabel(item, cardSize);
      text == "Open" || (item.category.Some? && text == item.category.value && text != "")
  {
  }

  /** An item filed under `Notebook` or `Console` carries that category itself. */
  lemma KernelKeyCategory(x: Item)
    requires CategoryKey(x) in KernelCategories
    ensures Truthy(x.category) && x.category.value == CategoryKey(x)
  {
  }

  /**
   * On every card of the `IPython` category that `render` builds, each
   * button is labelled with its item's own category, `Notebook` or
   * `Console`, however many items the card has.
   */
  lemma KernelCardLabels(items: seq<Item>, host: Host, i: nat, j: nat)
    requires Categorize(items, host).Success?
    requires var ipython := Categorize(items, host).value.cards["IPython"];
      i < |ipython| && j < |ipython[i]|
    ensures var card := Categorize(items, host).value.cards["IPython"][i];
      && card[j].category.Some?
      && card[j].category.value in KernelCategories
      && |CardOptions("IPython", card)| == |card|
      && CardOptions("IPython", card)[j] == card[j].category.value
  {
    var ipython := Categorize(items, host).value.cards["IPython"];
    var x := ipython[i][j];
    CategorizeIPython(items, host);
    InFlatten(ipython, i, j);
    assert x in multiset(Flatten(ipython));
    if x in multiset(KeyFilter(items, "Notebook")) {
      assert CategoryKey(x) == "Notebook";
    } else {
      assert x in WithArgs(KeyFilter(items, "Console"));
      assert CategoryKey(x) == "Console";
    }
    KernelKeyCategory(x);
  }

  /**
   * Every other category holds cards of one item filed under it, and such
   * a card is drawn without option buttons.
   */
  lemma OtherCardsPlain(items: seq<Item>, host: Host, k: string, card: Card)
    requires Categorize(items, host).Success?
    requires k != "IPython" && k in Categorize(items, host).value.cards
    requires card in Categorize(items, host).value.cards[k]
    ensures |card| == 1 && CategoryKey(card[0]) == k
    ensures CardOptions(k, card) == []
  {
    CategorizeOthers(items, host);
    SortedSingletonCard(KeyFilter(items, k), k, host, card);
  }

  /** A card of the sorted singletons of items filed under `k` holds one such item. */
  lemma SortedSingletonCard(s: seq<Item>, k: string, host: Host, card: Card)
    requires forall x :: x in s ==> CategoryKey(x) == k
    requires card in SortCards(Singletons(s), host)
    ensures |card| == 1 && CategoryKey(card[0]) == k
  {
    assert card in multiset(SortCards(Singletons(s), host));
    assert card in Singletons(s);
    var n :| 0 <= n < |Singletons(s)| && Singletons(s)[n] == card;
    assert card == [s[n]];
    assert s[n] in s;
  }

  /** How a launched command settles: its promise resolves to a value, which may be a widget, or rejects. */
  datatype Outcome = Resolved(isWidget: bool) | Rejected

  /** What happens to a launcher: a click on a button for an item, or the settling of the command it ran. */
  datatype Event = Clicked(item: Item) | Settled(outcome: Outcome)

  /** The launcher as the click guard sees it, and what it has started and seen settle so far. */
  datatype GuardState = GuardState(pending: bool, disposed: bool, launched: seq<Item>, settled: nat)

  /** One event, as `onClick` and the promise callbacks of lines 271-290 handle it. */
  function Step(s: GuardState, e: Event): (r: GuardState)
    ensures e.Clicked? && s.pending ==> r == s
    ensures e.Clicked? && !s.pending ==> r == s.(pending := true, launched := s.launched + [e.item])
    ensures e.Settled? ==> !r.pending && r.launched == s.launched && r.settled == s.settled + 1
    ensures e.Settled? ==> (r.disposed <==> s.disposed || e.outcome == Resolved(true))
  {
    match e
    case Clicked(item) =>
      if s.pending then s else s.(pending := true, launched := s.launched + [item])
    case Settled(outcome) =>
      s.(pending := false, disposed := s.disposed || outcome == Resolved(true), settled := s.settled + 1)
  }

  /** The state after a sequence of events, from a fresh launcher. */
  function Run(events: seq<Event>): GuardState {
    if events == [] then GuardState(false, false, [], 0)
    else Step(Run(events[..|events| - 1]), events[|events| - 1])
  }

  /** A command settles only after a click launched it, and only while it is still pending. */
  ghost predicate Possible(events: seq<Event>) {
    forall n :: 0 <= n < |events| && events[n].Settled? ==> Run(events[..n]).pending
  }

  /**
   * At most one command is in flight: every launched command but the
   * pending one has settled, so clicking faster launches nothing more.
   */
  lemma {:induction false} AtMostOneInFlight(events: seq<Event>)
    requires Possible(events)
    ensures |Run(events).launched| == Run(events).settled + (if Run(events).pending then 1 else 0)
  {
    if events != [] {
      var prefix := events[..|events| - 1];
      assert Possible(prefix) by {
        forall n | 0 <= n < |prefix| && prefix[n].Settled?
          ensures Run(prefix[..n]).pending
        {
          assert prefix[..n] == events[..n];
        }
      }
      AtMostOneInFlight(prefix);
      assert events[..|events| - 1] == prefix;
    }
  }

  /** A click while a command is pending changes nothing and launches nothing. */
  lemma ClickWhilePendingIgnored(events: seq<Event>, item: Item)
    requires Run(events).pending
    ensures Run(events + [Clicked(item)]) == Run(events)
  {
    assert (events + [Clicked(item)])[..|events|] == events;
  }

  /** The number of clicks among the events. */
  function Clicks(events: seq<Event>): nat {
    if events == [] then 0
    else Clicks(events[..|events| - 1]) + (if events[|events| - 1].Clicked? then 1 else 0)
  }

  /** Only clicked items are ever launched, and each launch takes a click of its own. */
  lemma {:induction false} LaunchedWereClicked(events: seq<Event>)
    ensures forall x :: x in Run(events).launched ==> Clicked(x) in events
    ensures |Run(events).launched| <= Clicks(events) <= |events|
  {
    if events != [] {
      var prefix := events[..|events| - 1];
      LaunchedWereClicked(prefix);
      assert forall e :: e in prefix ==> e in events;
    }
  }

  /** The launcher widget: its `pending` flag, and whether it has disposed of itself. */
  class Launcher {
    var pending: bool
    var disposed: bool
    /** The clicks and completions it has seen. */
    ghost var history: seq<Event>

    ghost predicate Valid()
      reads this
    {
      Possible(history)
      && pending == Run(history).pending
      && disposed == Run(history).disposed
    }

    constructor()
      ensures Valid() && history == [] && !pending && !disposed
    {
      pending := false;
      disposed := false;
      history := [];
    }

    /** `onClick` (lines 272-279): ignored while pending; otherwise marks the launcher pending and launches `item`. */
    method Click(item: Item) returns (launch: Option<Item>)
      requires Valid()
      modifies this
      ensures Valid() && history == old(history) + [Clicked(item)]
      ensures old(pending) ==> launch == None
      ensures !old(pending) ==> launch == Some(item)
      ensures pending && disposed == old(disposed)
    {
      history := history + [Clicked(item)];
      assert history[..|history| - 1] == old(history);
      assert Possible(history) by {
        forall n | 0 <= n < |history| && history[n].Settled?
          ensures Run(history[..n]).pending
        {
          assert n < |old(history)|;
          assert history[..n] == old(history)[..n];
        }
      }
      if pending {
        return None;
      }
      pending := true;
      launch := Some(item);
    }

    /**
     * The promise callbacks (lines 279-289): the command in flight has
     * settled; the launcher is no longer pending, and it disposes of itself
     * when the command produced a widget.
     */
    method Settle(outcome: Outcome) returns (widget: bool)
      requires Valid() && pending
      modifies this
      ensures Valid() && history == old(history) + [Settled(outcome)]
      ensures !pending
      ensures widget <==> outcome == Resolved(true)
      ensures disposed <==> old(disposed) || widget
    {
      history := history + [Settled(outcome)];
      assert history[..|history| - 1] == old(history);
      assert Possible(history) by {
        forall n | 0 <= n < |history| && history[n].Settled?
          ensures Run(history[..n]).pending
        {
          if n < |old(history)| {
            assert history[..n] == old(history)[..n];
          }
        }
      }
      pending := false;
      widget := outcome == Resolved(true);
      if widget {
        disposed := true;
      }
    }
  }
}
