# Recipe store model

A Dafny model of the recipe store of a mobile recipe-box app
(`src/context/RecipesContext.tsx`). The store holds two things:

- an ordered list of saved `Recipe` records, newest first;
- a registry of category and tag labels (`RecipeMetadata`).

It offers these operations:

- `addRecipe` builds a record, prepends it and merges its labels into the registry;
- `addCategory` and `addTag` register a trimmed, non-blank label;
- `removeCategory` and `removeTag` drop a label from the registry and from the recipes;
- the `categories` and `tags` views merge the registered labels with the labels in use;
- `getRecipeById` finds a recipe by its id.

Two helpers underlie all of it:

- `normalizeLabel` trims a string;
- `unique` trims every element, drops empty strings and keeps the first occurrence of each.

Layout:

- `types.dfy` (module `RecipeTypes`) holds the records of `src/types/recipe.ts`. An optional field becomes an `Option`.
- `labels.dfy` (module `Labels`) holds trimming, `unique`, the `filter` that removals use, and their properties.
- `store.dfy` (module `RecipesContext`) has two parts:
  - the pure parts as functions on values: building a record, the removal cascades, the derived views, the lookup and the store invariant `ValidState`;
  - the provider as the class `RecipesProvider`, with fields `recipes`, `metadata` and `isLoading`, whose methods replace those fields as the source's state setters do.

Trimming follows `String.prototype.trim`. It strips the ECMAScript WhiteSpace and LineTerminator characters from both ends. All of them lie in the Basic Multilingual Plane, so a Dafny `char` and a UTF-16 code unit agree on them.

Two behaviours of the code that a reader might not expect:

- A whitespace-only category given to `addRecipe` is not dropped. It is stored on the recipe as the empty string, because the presence test looks at the untrimmed string, so a stored label can be empty. It is never registered, and the `categories` view filters it out (`BlankCategoryStoredAsEmpty`). Conversely, `removeCategory` with a blank name looks for the empty category, so it clears every category stored as the empty string (`RemoveBlankCategoryClearsEmpty`).
- Loaded data is taken as it comes, so labels read from storage are not necessarily trimmed or unique. The store invariant `ValidState` is therefore a property that the operations preserve. It is not something the bootstrap establishes.

## Model

| member | source | states |
|---|---|---|
| Labels.NormalizeLabel | src/context/RecipesContext.tsx:21-23 | the result has no white space at either end, and an already-trimmed value is returned unchanged |
| Labels.NormalizeLabelEmptyIffBlank | src/context/RecipesContext.tsx:21-23 | trimming gives the empty string exactly when the value is all white space |
| Labels.NormalizeLabelKeepsMiddle | src/context/RecipesContext.tsx:21-23 | the trimmed value is a contiguous middle slice of the input, and what is cut on either side is white space |
| Labels.Unique | src/context/RecipesContext.tsx:25-27 | the result is duplicate-free, holds only non-empty trimmed labels, and is no longer than the input |
| Labels.UniqueMembers | src/context/RecipesContext.tsx:25-27 | x is in unique(vs) iff x is non-empty and is the trim of some element of vs |
| Labels.UniqueSnoc | src/context/RecipesContext.tsx:25-27 | appending one value keeps the earlier result as a prefix (Set insertion order) |
| Labels.UniqueKeepsFirstOccurrenceOrder | src/context/RecipesContext.tsx:25-27 | elements of unique(vs) appear in the order of their first occurrence (after trimming) in vs |
| Labels.UniqueOfLabelList | src/context/RecipesContext.tsx:25-27 | on a duplicate-free list of trimmed non-empty labels, unique changes nothing |
| Labels.UniqueIdempotent | src/context/RecipesContext.tsx:25-27 | unique(unique(vs)) == unique(vs) |
| Labels.UniqueKeepsPrefix | src/context/RecipesContext.tsx:163 | de-duplicating a longer list keeps the de-duplicated front part as a prefix, so registered labels come first in the views |
| Labels.Without | src/context/RecipesContext.tsx:113 | filtering out x leaves no x and is no longer than the input |
| Labels.WithoutCounts | src/context/RecipesContext.tsx:113 | filtering out x removes every copy of x and keeps every other element with its multiplicity |
| Labels.WithoutKeepsOrder | src/context/RecipesContext.tsx:151 | the surviving elements keep their relative order (a subsequence of the input) |
| Labels.WithoutKeepsLabelList | src/context/RecipesContext.tsx:146 | filtering a duplicate-free label list yields a duplicate-free label list |
| Labels.WithoutAbsent | src/context/RecipesContext.tsx:113 | filtering out an absent value changes nothing |
| Labels.WithoutAppend | src/context/RecipesContext.tsx:113 | filtering distributes over concatenation |
| RecipesContext.BuildRecipe | src/context/RecipesContext.tsx:61-76 | the record carries the given id and timestamp, copies the content fields, has no category exactly when none or "" was supplied and otherwise the trimmed one, and has unique(tags) as its tags |
| RecipesContext.RemoveBlankCategoryClearsEmpty | src/context/RecipesContext.tsx:109-118 | removing a whitespace-only name clears a category stored as the empty string and leaves the rest of the recipe as it was |
| RecipesContext.BlankCategoryStoredAsEmpty | src/context/RecipesContext.tsx:61-82 | a whitespace-only category is stored as Some("") and contributes nothing to the registry |
| RecipesContext.RegisterLabel | src/context/RecipesContext.tsx:94-101 | a blank name leaves the registry unchanged; otherwise the result is a label list that contains the trimmed name |
| RecipesContext.RegisterLabelAppends | src/context/RecipesContext.tsx:94-101 | on a valid registry, registering appends the trimmed name when it is new and otherwise changes nothing |
| RecipesContext.RegisterLabelIdempotent | src/context/RecipesContext.tsx:92-105 | registering the same name twice equals registering it once |
| RecipesContext.TrimLunch | src/context/RecipesContext.tsx:21-23 | trimming " Lunch " yields "Lunch" |
| RecipesContext.LunchRegisteredOnce | src/context/RecipesContext.tsx:92-105 | adding " Lunch " and then "Lunch" to an empty registry leaves exactly ["Lunch"] |
| RecipesContext.DuplicateTagsCollapse | src/context/RecipesContext.tsx:62 | tags ["a", "a", "b"] are stored as ["a", "b"] |
| RecipesContext.RemoveUndoesRegister | src/context/RecipesContext.tsx:107-123 | removing a label that registering just added restores the registry |
| RecipesContext.ClearCategory | src/context/RecipesContext.tsx:116-118 | same length; recipes filed under the name lose their category, no recipe keeps it, only the category field changes, and other recipes are unchanged |
| RecipesContext.StripTag | src/context/RecipesContext.tsx:149-152 | same length; no recipe keeps the tag, each recipe's tags are its old tags filtered, and no other field changes |
| RecipesContext.RecipeCategories | src/context/RecipesContext.tsx:160-162 | holds exactly the non-empty categories that recipes are filed under |
| RecipesContext.RecipeTags | src/context/RecipesContext.tsx:167 | holds exactly the tags that occur on some recipe |
| RecipesContext.EffectiveCategories | src/context/RecipesContext.tsx:159-164 | the categories view is a duplicate-free label list, with the de-duplicated registered categories as its prefix |
| RecipesContext.EffectiveTags | src/context/RecipesContext.tsx:166-169 | the tags view is a duplicate-free label list, with the de-duplicated registered tags as its prefix |
| RecipesContext.EffectiveCategoriesMembers | src/context/RecipesContext.tsx:159-164 | x is in the categories view iff x is non-empty and is the trim of a registered category or of a recipe's category |
| RecipesContext.EffectiveTagsMembers | src/context/RecipesContext.tsx:166-169 | x is in the tags view iff x is non-empty and is the trim of a registered tag or of a tag on some recipe |
| RecipesContext.FindById | src/context/RecipesContext.tsx:171-174 | none exactly when no recipe has the id; otherwise the first recipe with that id |
| RecipesContext.RemovedLabelDoesNotOccur | src/context/RecipesContext.tsx:113 | after filtering a label list, no remaining entry trims to the removed label |
| RecipesContext.StrippedTagUnused | src/context/RecipesContext.tsx:149-152 | when every recipe's tags are trimmed, duplicate-free labels, after stripping no recipe carries a tag that trims to the removed tag |
| RecipesContext.RemovedCategoryLeavesView | src/context/RecipesContext.tsx:107-123 | in a valid store, after removal the trimmed name is not in the categories view either |
| RecipesContext.RemovedTagLeavesView | src/context/RecipesContext.tsx:140-157 | in a valid store, after removal the trimmed name is not in the tags view either |
| RecipesContext.AddRecipeKeepsValid | src/context/RecipesContext.tsx:78-85 | prepending a record with an unused id and clean labels and merging its labels keeps the store invariant |
| RecipesContext.RemoveCategoryKeepsValid | src/context/RecipesContext.tsx:111-118 | removing a category keeps the store invariant |
| RecipesContext.RemoveTagKeepsValid | src/context/RecipesContext.tsx:144-152 | removing a tag keeps the store invariant |
| RecipesContext.NewRecipeLabelsInViews | src/context/RecipesContext.tsx:78-85 | the tags and non-empty category of a prepended recipe with clean labels (label-list tags, trimmed category) appear in the views |
| RecipesContext.RecipesProvider.constructor | src/context/RecipesContext.tsx:34-36 | the provider starts with no recipes, an empty registry, loading, and valid |
| RecipesContext.RecipesProvider.FinishLoad | src/context/RecipesContext.tsx:38-47 | bootstrap adopts the stored recipes and metadata and leaves the loading state |
| RecipesContext.RecipesProvider.AddRecipe | src/context/RecipesContext.tsx:59-90 | returns the built record, prepends it to the unchanged old list, merges its category and tags into the registry with unique, makes it findable by id, shows its labels in the views, and keeps the invariant when the id was unused |
| RecipesContext.RecipesProvider.AddCategory | src/context/RecipesContext.tsx:92-105 | the categories become RegisterLabel(old, name); tags, recipes and loading are unchanged; the invariant is kept |
| RecipesContext.RecipesProvider.RemoveCategory | src/context/RecipesContext.tsx:107-123 | the registry drops the trimmed name, recipes are ClearCategory of the old list, tags are unchanged, and in a valid store the invariant is kept and the name leaves the view |
| RecipesContext.RecipesProvider.AddTag | src/context/RecipesContext.tsx:125-138 | the tags become RegisterLabel(old, name); categories, recipes and loading are unchanged; the invariant is kept |
| RecipesContext.RecipesProvider.RemoveTag | src/context/RecipesContext.tsx:140-157 | the registry drops the trimmed name, recipes are StripTag of the old list, categories are unchanged, and in a valid store the invariant is kept and the name leaves the view |

## Left out

- Persistence. `persistRecipes`, `persistMetadata` and the AsyncStorage wrapper in `src/storage/recipeStorage.ts` are not part of this model. `FinishLoad` takes the loaded values as arbitrary inputs.
- The asynchronous, concurrent layer is not modelled. Each operation is one sequential, atomic update of the fields. Three consequences:
  - the `Promise.all` double writes of the removals and their partial-failure window are absent;
  - React's state hooks, memoisation and stale-closure reads are absent;
  - the crash window between the two writes of `addRecipe` is absent.
- `createId` and `new Date().toISOString()` read the clock and a random source. The id and the timestamp are parameters of `AddRecipe`.
- RecipesContext.RecipesProvider.AddRecipe: keeps the invariant only when the given id is not in use. `createId` does not guarantee unique ids, so the model makes this an explicit hypothesis.
- Mutations are not blocked while `isLoading` holds, because the source does not block them.
- The `source.tags ?? []` fallback is unreachable here. The declared input type makes `tags` a required list, so `BuildRecipe` uses the given list.
- The recipe extractor (`src/services/recipeExtractor.ts`), the theme, the screens and navigation are UI or network code, not store logic.
- `useRecipes` throws outside a provider. That is React context plumbing and is not modelled.
- Labels.NormalizeLabel: works on Dafny characters. Code points above the Basic Multilingual Plane, which JavaScript stores as two UTF-16 code units, never count as white space in either model. The model does not reproduce the UTF-16 representation itself.
