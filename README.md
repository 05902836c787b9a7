# webds_launcher: a Dafny model of the launcher core

This project models the core of the WebDS launcher, `src/launcher.tsx`. The launcher is a JupyterLab panel that shows the commands extensions register, as cards grouped into categories.

- **Registering items.** `LauncherModel` keeps the registered items. `add` normalises an item with `Private.createItem` and appends it. It returns a disposer that removes that item object again (`ArrayExt.removeFirstOf`).
- **Rendering.** `Launcher.render` does the following:
  - files every item as a one-item card under `category || 'Other'`;
  - takes out the `Notebook` and `Console` categories;
  - folds each console into the first card with the same kernel name and label, or adds it as a card of its own, and stores the result as `IPython`. The search also covers console cards added earlier;
  - sorts every category with `Private.sortCmp`;
  - orders the categories: first those the settings list, then the rest in insertion order, without `WebDS_Documentation`;
  - draws one section per non-empty category.
- **Cards.** Only kernel cards, those of the `IPython` category, have option buttons. Each button reads `Open` or the item's category. Other cards have no option buttons. A `pending` flag ignores clicks while a launched command is still running.

Modules:

- `Wrappers` (wrappers.dfy): `Option` and `Result`.
- `Items` (items.dfy): the item record, `createItem`, and `sortCmp` with its ordering properties. The host's `label` and string collation are abstracted as a `Host` value.
- `Model` (model.dfy): `LauncherModel` as a class. Its `items` field is a sequence of item objects, so an item is identified by reference, as JavaScript's `===` identifies it. `Add` and `Dispose` update that field.
- `Categories` (categories.dfy): the render pipeline as functions on values, and what is proved about them.
  - The `categories` object is a `Dict`: the keys in insertion order, plus a map.
  - The pipeline's result is either the list of sections or the error the source throws when a kernel category is missing. The one other throw in `render`, in the drawing code, is listed under "## Left out".
- `Render` (render.dfy): `render` as the source writes it, as loops that push, delete and sort. Each loop is proved to compute the corresponding function of `Categories`.
- `Cards` (card.dfy): the option-label rule and the click guard.
  - The click guard is a `Launcher` class with a `pending` field.
  - Beside it is a pure trace model of clicks and completions, about which the guard's properties are proved.

The source has two behaviours that are modelled exactly as written:

- **Missing kernel category.** If no item is filed under `Console`, `render` throws when it reaches `consoles.forEach` (line 127). If `Console` exists but `Notebook` does not, it throws at `kernels.find` (line 132) or at the sort of the undefined `IPython` entry (line 148). The model returns `Failure(ConsoleCategoryMissing)` or `Failure(NotebookCategoryMissing)` and invents no fallback.
- **Existing `IPython` category.** `categories['IPython'] = kernels` (line 145) replaces any category an item had itself named `IPython`, and the key keeps its place.

## Model

| member | source | states |
|---|---|---|
| Items.OrEmpty | src/launcher.tsx:405 | `s \|\| ''`: the string itself when it is non-empty, otherwise `''` |
| Items.CategoryKey | src/launcher.tsx:110 | the key an item is filed under is its category when that is non-empty, otherwise `Other`; it is never empty |
| Items.CreateItem | src/launcher.tsx:400-408 | every field is copied except category and rank; the category becomes the given one, or `''` when falsy; the rank becomes the given one, or `Infinity` when undefined |
| Items.CreateItemIdempotent | src/launcher.tsx:400-408 | normalising an already normalised item changes nothing |
| Items.CreateItemKeepsCategoryKey | src/launcher.tsx:400-408 | normalisation never moves an item to another category |
| Items.LabelOf | src/launcher.tsx:422-423 | the `commands.label(command, args)` an item is compared by; lines 131 and 136 read the same label in the merge |
| Items.LocaleCompare | src/launcher.tsx:424 | the comparison is 0 exactly when the labels collate both ways, and negative exactly when only the first collates before the second |
| Items.RankLess | src/launcher.tsx:419 | JavaScript `<` on ranks, with `-Infinity` below and `Infinity` above every finite rank; its properties are in `RankLessTotal` |
| Items.SortCmp | src/launcher.tsx:410-425 | the result is -1, 0 or 1. When both ranks are defined and differ, it is -1 exactly when the first rank is below the second, and never 0. Otherwise it is `localeCompare` of the two labels |
| Items.SortCmpByLabels | src/launcher.tsx:418-424 | when the ranks do not decide, the result depends only on the two labels |
| Items.RankLessTotal | src/launcher.tsx:419 | `<` on ranks, with `-Infinity` at the bottom and `Infinity` on top, is irreflexive and total on distinct ranks |
| Items.SortCmpAntisymmetric | src/launcher.tsx:410-425 | with a total collation, swapping the two items negates the result |
| Items.SortCmpTransitive | src/launcher.tsx:410-425 | on ranked items, with a total-preorder collation, "compares at or below" is transitive |
| Model.ItemRef.constructor | src/launcher.tsx:57-63 | the item object `createItem` returns, holding the given options; `_items` holds these objects and `removeFirstOf` compares them by identity, as Dafny compares class references |
| Model.RemoveFirst | src/launcher.tsx:63 | removing an absent item changes nothing; otherwise exactly one occurrence leaves the multiset |
| Model.RemoveFirstAt | src/launcher.tsx:63 | removing the first occurrence at index i gives the elements before i followed by those after i, in order |
| Model.RemoveFirstAfter | src/launcher.tsx:63 | elements before the first occurrence are unaffected; only the tail changes |
| Model.RemoveFirstUndoesAppend | src/launcher.tsx:56-65 | removing an item that was just appended, and occurs nowhere else, restores the list |
| Model.FirstIndexOf | src/launcher.tsx:63 | returns the index of the first element equal to the item, or -1 exactly when there is none |
| Model.LauncherModel.constructor | src/launcher.tsx:42-46 | a new model has no items and keeps the settings it was given |
| Model.LauncherModel.Categories | src/launcher.tsx:48-54 | with no settings the order is exactly `['IPython', 'Other']`; otherwise it is the settings' list unchanged |
| Model.LauncherModel.Items | src/launcher.tsx:68-70 | yields the registered items' options, in registration order |
| Model.RegisteredCut | src/launcher.tsx:63 | removing one item keeps every other item distinct and normalised |
| Model.LauncherModel.Add | src/launcher.tsx:56-61 | appends exactly one fresh item, the normalised options, after the unchanged earlier items. No item object occurs twice, and every item went through `createItem` |
| Model.LauncherModel.Dispose | src/launcher.tsx:62-65 | removes only the first occurrence of the item, keeping the others in order; an absent item changes nothing |
| Model.AddThenDispose | src/launcher.tsx:56-65 | adding an item and running its disposer, once or twice, leaves the items as they were |
| Categories.Without | src/launcher.tsx:119 | deleting a key keeps every other key and only those |
| Categories.WithoutDistinct | src/launcher.tsx:119 | deleting a key keeps the key order free of duplicates |
| Categories.Put | src/launcher.tsx:112 | `categories[cat] = v`: a new key goes last in the key order, and an existing key keeps its place; `PutValid` states what it keeps |
| Categories.Delete | src/launcher.tsx:119 | `delete categories[cat]`; `DeleteValid` and `WithoutInOrder` state what it keeps |
| Categories.PutValid | src/launcher.tsx:112 | storing a category keeps each key listed once, and the listed keys are exactly the stored ones |
| Categories.DeleteValid | src/launcher.tsx:119 | deleting a category keeps each key listed once, and the listed keys are exactly the stored ones |
| Categories.KeyFilter | src/launcher.tsx:110 | an item is among those filed under a key exactly when it is in the input and has that key |
| Categories.Singletons | src/launcher.tsx:114 | one card per item, in order, each holding just that item |
| Categories.Group | src/launcher.tsx:109-115 | the loop that pushes every item as a singleton card under its key; `GroupSpec`, `GroupFilesEveryItem` and `GroupKeyOrderIff` state what it builds |
| Categories.GroupSpec | src/launcher.tsx:109-115 | a category exists exactly when some item has its key; it holds those items as singleton cards in input order; each key is listed once |
| Categories.GroupValid | src/launcher.tsx:109-115 | the grouped key order lists each category once, and exactly the categories stored |
| Categories.GroupContents | src/launcher.tsx:109-115 | a grouped category exists exactly when some item has its key, and holds those items as singleton cards in input order |
| Categories.GroupLast | src/launcher.tsx:110-114 | filing one more item pushes its singleton card onto its category, creating the category first when absent |
| Categories.GroupFilesEveryItem | src/launcher.tsx:109-115 | no item is lost: every item's singleton card is in the category of its key |
| Categories.FirstFiled | src/launcher.tsx:110-112 | the position of the first item filed under a key, or the input length when there is none |
| Categories.FirstFiledLast | src/launcher.tsx:110-112 | filing one more item moves no category's first item, and gives a new category its first item |
| Categories.GroupKeyMembers | src/launcher.tsx:111-112 | a key is in the key order exactly when some item is filed under it |
| Categories.GroupKeyOrder | src/launcher.tsx:111-112 | in the key order, each category's first item comes after the first item of every category listed before it |
| Categories.GroupKeyOrderIff | src/launcher.tsx:111-112 | category `a` comes before category `b` in the key order exactly when the first item filed under `a` comes before the first item filed under `b` |
| Categories.GroupHasKey | src/launcher.tsx:111-113 | a category exists exactly when some item is filed under it |
| Categories.ConsoleName | src/launcher.tsx:130 | the console's `kernelPreference.name`, or `''` |
| Categories.KernelMatches | src/launcher.tsx:133-137 | the `find` test: the card's first item has arguments, its `kernelName` or `''` equals the name, and its label equals the console's label |
| Categories.FindKernel | src/launcher.tsx:132-138 | finds the first card whose first item has arguments, the console's kernel name and the console's label, or reports that none matches |
| Categories.MergeConsole | src/launcher.tsx:128-143 | one step of the `forEach` over consoles; `MergeConsoleSpec` states it |
| Categories.MergeAll | src/launcher.tsx:126-144 | the whole `forEach`, starting from the notebook cards; `MergeAllItems` and `MergeAllKeepsNotebooks` state its result |
| Categories.MergeConsoleSpec | src/launcher.tsx:127-144 | a console without arguments is dropped; otherwise it joins the first matching card, or becomes a new last card when none matches |
| Categories.WithArgs | src/launcher.tsx:128-129 | an item is kept exactly when it is in the input and has arguments |
| Categories.FlattenAppend | src/launcher.tsx:126-145 | the items of two lists of cards are the items of the first list, then those of the second |
| Categories.InFlatten | src/launcher.tsx:126-145 | every item of every card is among the items of the list |
| Categories.FlattenUpdate | src/launcher.tsx:140 | pushing an item onto one card adds exactly that item to the list's items |
| Categories.FlattenSingletons | src/launcher.tsx:114 | the items of the singleton cards are the items themselves, in order |
| Categories.MergeConsoleKeeps | src/launcher.tsx:139-143 | one merge step never drops a card and only extends existing cards at the end |
| Categories.MergeConsoleAdds | src/launcher.tsx:127-144 | one merge step adds the console's item to the items exactly when it has arguments |
| Categories.MergeAllKeepsNotebooks | src/launcher.tsx:126-144 | every notebook card survives the merge, in place, as a prefix of the merged card |
| Categories.WithArgsAppend | src/launcher.tsx:128-129 | an item added last is kept, last, exactly when it has arguments |
| Categories.WithArgsFlattenLast | src/launcher.tsx:128-129 | a last single-item console card adds its item to the kept consoles exactly when it has arguments |
| Categories.MergeAllItemsStep | src/launcher.tsx:127-143 | one more console grows the merged items and the kept consoles by the same item, if any |
| Categories.MergeAllItems | src/launcher.tsx:126-144 | for single-item console cards, the merged cards hold exactly the notebook items plus the console items that have arguments |
| Categories.CardCmp | src/launcher.tsx:149-151 | the sort's comparator: `sortCmp` on the cards' first items; the order it gives is stated by `SortCardsSorted` |
| Categories.Insert | src/launcher.tsx:148-151 | inserting a card into a list adds exactly that card |
| Categories.InsertMembers | src/launcher.tsx:148-151 | inserting brings in no card but the inserted one |
| Categories.SortCards | src/launcher.tsx:147-153 | sorting a category's cards gives a permutation of them |
| Categories.SortedCons | src/launcher.tsx:148-151 | a card at or below every card of a sorted list can go in front of it |
| Categories.InsertSorted | src/launcher.tsx:148-151 | inserting a ranked card into a sorted list of ranked cards keeps it sorted by `sortCmp` |
| Categories.SortCardsSorted | src/launcher.tsx:147-153 | sorted cards are in non-decreasing `sortCmp` order of their first items |
| Categories.SortAll | src/launcher.tsx:147-153 | sorting keeps the categories and their key order and sorts each category's cards |
| Categories.FlattenCons | src/launcher.tsx:147-153 | the items of a card in front of a list are the card's items, then the list's |
| Categories.InsertFlatten | src/launcher.tsx:148-151 | inserting a card adds exactly its items to the list's items |
| Categories.SortCardsFlatten | src/launcher.tsx:147-153 | sorting neither adds nor loses an item |
| Categories.Listed | src/launcher.tsx:155-160 | the first part holds exactly the configured categories that are present |
| Categories.Unlisted | src/launcher.tsx:162-168 | the second part holds exactly the present categories that are not configured and are not `WebDS_Documentation` |
| Categories.WithoutInOrder | src/launcher.tsx:119 | deleting a key keeps the order of the remaining keys (a subsequence) |
| Categories.ListedInOrder | src/launcher.tsx:155-160 | the first part is a subsequence of the settings, so it keeps their order |
| Categories.UnlistedInOrder | src/launcher.tsx:162-168 | the second part is a subsequence of the keys, so it keeps their insertion order |
| Categories.OrderCategories | src/launcher.tsx:155-168 | the listed categories followed by the unlisted ones; `OrderCategoriesSpec`, `ListedInOrder` and `UnlistedInOrder` state it |
| Categories.ListedDistinct | src/launcher.tsx:155-160 | the first part has no duplicates when the settings have none |
| Categories.UnlistedDistinct | src/launcher.tsx:162-168 | the second part has no duplicates |
| Categories.OrderCategoriesSpec | src/launcher.tsx:155-168 | every ordered category is present; a present category is ordered exactly when it is configured or is not `WebDS_Documentation`; configured categories come first; no duplicates when the settings have none |
| Categories.Sections | src/launcher.tsx:173-176 | every section is a present category with its cards, and none is empty |
| Categories.SectionsOfNonEmpty | src/launcher.tsx:173-176 | when no category is empty, there is one section per ordered category, in order |
| Categories.Merged | src/launcher.tsx:117-145 | `Notebook` and `Console` deleted and `IPython` set to the merge; stated by `CategorizeKeys`, `CategorizeIPython` and `CategorizeKeyOrder` |
| Categories.Categorize | src/launcher.tsx:105-153 | the `categories` object after the merge and the sort, or the error thrown; stated by the `Categorize…` lemmas |
| Categories.Pipeline | src/launcher.tsx:105-176 | the sections `render` draws, or its error; stated by `PipelineSections`, `PipelineCategories` and `PipelineSorted` |
| Categories.CategorizeValid | src/launcher.tsx:105-153 | the categories object lists each of its keys exactly once |
| Categories.CategorizeKeyOrder | src/launcher.tsx:117-145 | the categories' key order is the grouped order without `Notebook` and `Console`, followed by `IPython` unless an item created it |
| Categories.CategorizeFailure | src/launcher.tsx:117-148 | render fails for a missing `Console` category exactly when no item is filed under `Console`; it fails for a missing `Notebook` category exactly when consoles exist and notebooks do not; it succeeds exactly when both exist |
| Categories.CategorizeKeys | src/launcher.tsx:117-145 | `Notebook` and `Console` are gone and `IPython` exists; any other category exists exactly when some item is filed under it |
| Categories.CategorizeOthers | src/launcher.tsx:109-153 | every category but `IPython` holds its own items as singleton cards, sorted |
| Categories.CategorizeIPython | src/launcher.tsx:117-153 | `IPython` holds exactly the notebook items plus the console items with arguments, with the counts to match |
| Categories.CategorizeNonEmpty | src/launcher.tsx:173-176 | no category is ever empty, so the skip of empty categories never fires |
| Categories.SortCardsLength | src/launcher.tsx:147-153 | sorting keeps the number of cards |
| Categories.GroupNonEmpty | src/launcher.tsx:109-115 | every grouped category holds at least one card |
| Categories.MergedRanked | src/launcher.tsx:126-145 | the merged kernel cards are drawn from ranked items |
| Categories.SingletonsRanked | src/launcher.tsx:114 | the singleton cards of ranked items are ranked |
| Categories.CategorizeSorted | src/launcher.tsx:147-153 | for items made by `createItem` and a total-preorder collation, every category is sorted by `sortCmp` |
| Categories.PipelineSorted | src/launcher.tsx:147-176 | for items made by `createItem` and a total-preorder collation, every drawn section's cards are in `sortCmp` order |
| Categories.HasSectionIff | src/launcher.tsx:173-176 | a section is drawn for exactly the categories the sections are built from |
| Categories.PipelineSections | src/launcher.tsx:155-176 | the sections follow the category order one to one, each with that category's sorted cards |
| Categories.PipelineCategories | src/launcher.tsx:105-176 | no `Notebook` or `Console` section; an `IPython` section exists; any other category has a section exactly when some item is filed under it and it is configured or is not `WebDS_Documentation` |
| Render.GroupItems | src/launcher.tsx:109-115 | the loop that pushes singleton cards builds exactly the grouping |
| Render.FindKernelIndex | src/launcher.tsx:132-138 | the search loop returns the first matching card's index, or -1 when none matches |
| Render.MergeKernels | src/launcher.tsx:126-144 | the `forEach` over consoles, pushing in place, computes exactly the merge |
| Render.SortCategories | src/launcher.tsx:147-153 | the loop over the keys sorts every category, and nothing else changes |
| Render.OrderedCategories | src/launcher.tsx:155-168 | the two pushing loops compute exactly the category order |
| Render.DrawSections | src/launcher.tsx:173-176 | the loop that skips empty categories computes exactly the sections |
| Render.Render | src/launcher.tsx:105-176 | the whole imperative render gives exactly the pipeline's sections, or its error |
| Render.RenderModel | src/launcher.tsx:100-176 | rendering a launcher model uses its items in registration order and its category order |
| Render.ModelItemsRanked | src/launcher.tsx:56-59 | every item of a launcher model has a rank, since `add` normalises it |
| Render.ModelSectionsSorted | src/launcher.tsx:100-176 | with a total-preorder collation, every section rendered from a launcher model is in `sortCmp` order |
| Cards.KernelCategories | src/launcher.tsx:39 | `KERNEL_CATEGORIES`: `Notebook` and `Console` |
| Cards.OptionLabel | src/launcher.tsx:305-308 | a button is labelled with the item's category when that is non-empty and either the card has more than one item or the category is `Notebook` or `Console`; otherwise it reads `Open` |
| Cards.OptionLabels | src/launcher.tsx:303-321 | one label per item of the card, in order |
| Cards.CardOptions | src/launcher.tsx:179 | a kernel card, of the `IPython` category, shows `getOptions` (lines 330-361); any other card has no option buttons (lines 366-389) |
| Cards.OptionLabelCases | src/launcher.tsx:305-308 | a label is `Open` or the item's own non-empty category |
| Cards.KernelKeyCategory | src/launcher.tsx:110 | an item filed under `Notebook` or `Console` carries that category itself |
| Cards.KernelCardLabels | src/launcher.tsx:303-361 | every `IPython` card has one option button per item, labelled `Notebook` or `Console`, the item's own category |
| Cards.OtherCardsPlain | src/launcher.tsx:109-153 | every card of any other category holds exactly one item filed under it, and is drawn without option buttons (lines 366-389) |
| Cards.SortedSingletonCard | src/launcher.tsx:147-153 | a card of the sorted singleton cards of a category holds exactly one item of that category |
| Cards.Step | src/launcher.tsx:271-290 | a click while pending does nothing; otherwise a click sets pending and launches the item; a completion, success or failure, clears pending, and a widget result disposes of the launcher |
| Cards.Run | src/launcher.tsx:271-290 | the guard state after a sequence of clicks and completions, from a fresh launcher; stated by `AtMostOneInFlight`, `ClickWhilePendingIgnored` and `LaunchedWereClicked` |
| Cards.AtMostOneInFlight | src/launcher.tsx:271-290 | every launched command but the pending one has completed, so at most one is in flight |
| Cards.ClickWhilePendingIgnored | src/launcher.tsx:274-276 | a click while pending leaves the whole state unchanged |
| Cards.LaunchedWereClicked | src/launcher.tsx:271-278 | only clicked items are launched, and there are never more launches than clicks |
| Cards.Launcher.constructor | src/launcher.tsx:244 | a new launcher is not pending |
| Cards.Launcher.Click | src/launcher.tsx:272-278 | ignored while pending; otherwise sets pending and launches the item |
| Cards.Launcher.Settle | src/launcher.tsx:279-289 | clears pending on either outcome; disposes of the launcher exactly when the command produced a widget |

## Left out

- Rendering: JSX, CSS classes, icons and `LabIcon` resolution (src/launcher.tsx:170-238, 323-389), and src/icons.ts. These are UI with no state the core depends on.
- The split of sections into `floats` and `sections`. It is layout only.
- The drawing code can also throw: a kernel card without `kernelIconUrl` whose label is empty fails at `label[0].toUpperCase()` (src/launcher.tsx:349). That code is part of the JSX left out, so the model does not capture this error.
- `CommandRegistry`: `label` is the uninterpreted `Host.commandLabel`. `caption`, `icon` and `iconClass` feed only the UI. `execute` is an outcome passed to `Launcher.Settle`.
- `cwd` injection: `sortCmp` and `execute` see the arguments extended with `cwd`, while the merge's labels see them without it. The model passes the item's own arguments in both places.
- `localeCompare`: locale-dependent collation. It is a relation supplied by the host. Ordering lemmas assume it is a total preorder.
- Ranks as floating point: `-Infinity` and `Infinity` are modelled as the ends of an extended integer. NaN and fractional ranks are not modelled.
- Categories.SortCards: `Array.prototype.sort` is modelled by one particular insertion sort. Stability is not stated. The order an engine produces for a comparison that is not a preorder is not modelled.
- JavaScript `for...in` visits integer-like keys first, in numeric order. The model uses insertion order for every key.
- The click handler's Promise and asynchrony. Only the `pending` transitions and the dispose on a widget result are modelled. The callback that receives the widget and `console.error` are left out.
- Cards.Launcher.Settle: requires a command in flight (`pending`). In the source a completion only follows a launch.
- `stateChanged` signals of `LauncherModel`. Nothing in the core observes them.
- `this.dispose()` in the `LauncherModel` constructor is not modelled.
- `DisposableDelegate` runs its callback at most once. In the model the disposer may run any number of times, and a second run changes nothing: the item is a fresh object that is no longer registered.
- The `this.model` null check of `render`. There is always a model.
- `Private.keyProperty`, an id counter attached by the host library.
- The settings' `categories` value is taken as a list of strings. A settings object without it is not modelled.
- `kernelName` and `kernelPreference` with non-string JSON values. Only strings or absence are modelled.
- All of src/index.ts: plugin activation, settings and state loading, widget tracking, and the DOM scroll and resize handlers. It is host plumbing, and src/index.ts is not part of this model.
