/**
 * `Launcher.render` of src/launcher.tsx, step by step as the source does
 * it: the `categories` object is built by a loop of pushes, the consoles
 * are folded into the notebook cards one by one, every category is
 * sorted in a loop over its keys, and the category order and the sections
 * are collected by loops that push. Each step is proved to compute the
 * corresponding function of the `Categories` module.
 */
module Render {
  import opened Wrappers
  import opened Items
  import opened Categories
  import Model

  /** Lines 109-115: `each(this.model.items(), ...)` files every item as a singleton card under its key. */
  method GroupItems(items: seq<Item>) returns (categories: Dict)
    ensures categories == Group(items)
  {
    categories := Dict([], map[]);
    for i := 0 to |items|
      invariant categories == Group(items[..i])
    {
      var item := items[i];
      var cat := CategoryKey(item);
      if cat !in categories.cards {
        categories := Put(categories, cat, []);
      }
      categories := Put(categories, cat, categories.cards[cat] + [[item]]);
      assert items[..i + 1][..i] == items[..i];
    }
    assert items[..|items|] == items;
  }

  /** `kernels.find(...)` at line 132: the index of the first matching card, or -1. */
  method FindKernelIndex(kernels: seq<Card>, name: string, title: string, host: Host) returns (index: int)
    ensures FindKernel(kernels, name, title, host) == if index < 0 then None else Some(index)
  {
    index := 0;
    while index < |kernels|
      invariant 0 <= index <= |kernels|
      invariant forall j :: 0 <= j < index ==> !KernelMatches(kernels[j], name, title, host)
    {
      var kernel := kernels[index];
      if kernel[0].args.Some? {
        var kernelName := OrEmpty(kernel[0].args.value.kernelName);
        var kernelLabel := host.commandLabel(kernel[0].command, kernel[0].args);
        if kernelName == name && kernelLabel == title {
          return;
        }
      }
      index := index + 1;
    }
    index := -1;
  }

  /** Lines 126-144: `consoles.forEach`, starting from the notebook cards. */
  method MergeKernels(notebooks: seq<Card>, consoles: seq<Card>, host: Host) returns (kernels: seq<Card>)
    ensures kernels == MergeAll(notebooks, consoles, host)
  {
    kernels := notebooks;
    for j := 0 to |consoles|
      invariant kernels == MergeAll(notebooks, consoles[..j], host)
    {
      var console := consoles[j];
      assert consoles[..j + 1][..j] == consoles[..j];
      if console[0].args.Some? {
        var consoleName := OrEmpty(console[0].args.value.kernelPreferenceName);
        var consoleLabel := host.commandLabel(console[0].command, console[0].args);
        var index := FindKernelIndex(kernels, consoleName, consoleLabel, host);
        if index >= 0 {
          kernels := kernels[index := kernels[index] + [console[0]]];
        } else {
          kernels := kernels + [console];
        }
      }
    }
    assert consoles[..|consoles|] == consoles;
  }

  /** Lines 147-153: `for (const cat in categories)` sorts every category's cards. */
  method SortCategories(categories: Dict, host: Host) returns (sorted: Dict)
    requires ValidDict(categories)
    ensures sorted == SortAll(categories, host)
  {
    sorted := categories;
    var keys := categories.keys;
    for n := 0 to |keys|
      invariant sorted.keys == keys && sorted.cards.Keys == categories.cards.Keys
      invariant forall k :: k in categories.cards ==>
        sorted.cards[k] == if k in keys[..n] then SortCards(categories.cards[k], host) else categories.cards[k]
    {
      var cat := sorted.keys[n];
      assert keys[..n + 1] == keys[..n] + [cat];
      assert cat !in keys[..n];
      sorted := Dict(sorted.keys, sorted.cards[cat := SortCards(sorted.cards[cat], host)]);
    }
    assert keys[..|keys|] == keys;
  }

  /** Lines 155-168: the listed categories that exist, then the unlisted ones but `WebDS_Documentation`. */
  method OrderedCategories(settings: seq<string>, categories: Dict) returns (ordered: seq<string>)
    ensures ordered == OrderCategories(settings, categories)
  {
    ordered := [];
    for s := 0 to |settings|
      invariant ordered == Listed(settings[..s], categories)
    {
      var cat := settings[s];
      assert settings[..s + 1][..s] == settings[..s];
      if cat in categories.cards {
        ordered := ordered + [cat];
      }
    }
    assert settings[..|settings|] == settings;
    var listed := ordered;
    var keys := categories.keys;
    for t := 0 to |keys|
      invariant ordered == listed + Unlisted(keys[..t], settings)
    {
      var cat := keys[t];
      assert keys[..t + 1][..t] == keys[..t];
      if cat !in settings {
        if cat != WebDSDocumentation {
          ordered := ordered + [cat];
        }
      }
    }
    assert keys[..|keys|] == keys;
  }

  /** Lines 173-176: one section per ordered category, skipping empty ones. */
  method DrawSections(ordered: seq<string>, categories: Dict) returns (sections: seq<Section>)
    requires forall c :: c in ordered ==> c in categories.cards
    ensures sections == Sections(ordered, categories)
  {
    sections := [];
    for u := 0 to |ordered|
      invariant sections == Sections(ordered[..u], categories)
    {
      var cat := ordered[u];
      assert ordered[..u + 1][..u] == ordered[..u];
      if |categories.cards[cat]| != 0 {
        sections := sections + [Section(cat, categories.cards[cat])];
      }
    }
    assert ordered[..|ordered|] == ordered;
  }

  /**
   * `render()` given `this.model.items()` and `this.model.categories`:
   * the sections it draws, or the error it throws when a kernel category
   * is missing.
   */
  method Render(items: seq<Item>, settings: seq<string>, host: Host) returns (r: Result<seq<Section>, RenderError>)
    ensures r == Pipeline(items, settings, host)
  {
    var categories := GroupItems(items);
    ghost var grouped := categories;
    var notebooks: Option<seq<Card>> := None;
    if "Notebook" in categories.cards {
      notebooks := Some(categories.cards["Notebook"]);
      categories := Delete(categories, "Notebook");
    }
    var consoles: Option<seq<Card>> := None;
    if "Console" in categories.cards {
      consoles := Some(categories.cards["Console"]);
      categories := Delete(categories, "Console");
    }
    if consoles.None? {
      return Failure(ConsoleCategoryMissing);
    }
    if notebooks.None? {
      return Failure(NotebookCategoryMissing);
    }
    var kernels := MergeKernels(notebooks.value, consoles.value, host);
    categories := Put(categories, "IPython", kernels);
    assert categories == Merged(grouped, host);
    CategorizeValid(items, host);
    GroupSpec(items);
    DeleteValid(grouped, "Notebook");
    DeleteValid(Delete(grouped, "Notebook"), "Console");
    PutValid(Delete(Delete(grouped, "Notebook"), "Console"), "IPython", kernels);
    categories := SortCategories(categories, host);
    var ordered := OrderedCategories(settings, categories);
    OrderCategoriesSpec(settings, categories);
    var sections := DrawSections(ordered, categories);
    r := Success(sections);
  }

  /** `render()` of a launcher whose model is `model`: its items in registration order, its category order. */
  method RenderModel(model: Model.LauncherModel, host: Host) returns (r: Result<seq<Section>, RenderError>)
    ensures r == Pipeline(model.Items(), model.Categories(), host)
  {
    r := Render(model.Items(), model.Categories(), host);
  }

  /** Every item of a launcher model went through `createItem`, so every item is ranked. */
  lemma ModelItemsRanked(model: Model.LauncherModel)
    requires model.Valid()
    ensures AllRanked(model.Items())
  {
    forall i | 0 <= i < |model.Items()|
      ensures model.Items()[i].rank.Some?
    {
      assert model.Items()[i] == model.items[i].options;
    }
  }

  /** With a total-preorder collation, every section rendered from a launcher model is in `sortCmp` order. */
  lemma ModelSectionsSorted(model: Model.LauncherModel, host: Host)
    requires model.Valid()
    requires TotalPreorder(host.collate)
    requires Pipeline(model.Items(), model.Categories(), host).Success?
    ensures forall s :: s in Pipeline(model.Items(), model.Categories(), host).value ==> SortedCards(s.cards, host)
  {
    ModelItemsRanked(model);
    PipelineSorted(model.Items(), model.Categories(), host);
  }
}
