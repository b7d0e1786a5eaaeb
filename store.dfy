/** The recipe store of src/context/RecipesContext.tsx: the ordered list of
    saved recipes (newest first), the registry of category and tag labels, the
    operations that change them, and the views derived from them.

    The pure parts (building a record, the cascades of the removals, the
    effective label lists, the lookup) are functions on values; the provider
    whose state the operations replace is the class `RecipesProvider`. */
module RecipesContext {
  import opened RecipeTypes
  import opened Labels

  // ---------------------------------------------------------------------------
  // Building a recipe

  /** The category stored on a new recipe. The presence test looks at the
      untrimmed value, so only a missing or empty category is dropped, so a blank one is kept, trimmed to
      the empty string. */
  function CleanCategory(category: Option<string>): Option<string> {
    if category.Some? && category.value != [] then Some(NormalizeLabel(category.value)) else None
  }

  /** The category a recipe contributes to a label list: nothing when it is
      absent or empty, otherwise the category itself. */
  function CategoryEntry(category: Option<string>): seq<string> {
    if category.Some? && category.value != [] then [category.value] else []
  }

  /** The record `addRecipe` builds. Identity and timestamp are given; the
      content fields are copied; the category is cleaned as above; the tags
      are de-duplicated labels. */
  function BuildRecipe(source: ExtractedRecipe, id: string, createdAt: string): (r: Recipe)
    ensures r.id == id && r.createdAt == createdAt
    ensures r.title == source.title && r.url == source.url && r.imageUrl == source.imageUrl
    ensures r.ingredients == source.ingredients && r.steps == source.steps
    ensures r.cookTime == source.cookTime && r.servings == source.servings
    ensures r.category.None? <==> source.category.None? || source.category.value == []
    ensures r.category.Some? ==> r.category.value == NormalizeLabel(source.category.value)
    ensures r.tags == Unique(source.tags) && IsLabelList(r.tags)
  {
    Recipe(id, source.title, source.url, source.imageUrl, source.ingredients, source.steps,
           CleanCategory(source.category), Unique(source.tags),
           source.cookTime, source.servings, createdAt)
  }

  /** A whitespace-only category is stored on the recipe as the empty string,
      not as absent, and contributes nothing to the category registry. */
  lemma BlankCategoryStoredAsEmpty(source: ExtractedRecipe, id: string, createdAt: string)
    requires source.category.Some? && source.category.value != [] && IsBlank(source.category.value)
    ensures BuildRecipe(source, id, createdAt).category == Some([])
    ensures CategoryEntry(BuildRecipe(source, id, createdAt).category) == []
  {
    NormalizeLabelEmptyIffBlank(source.category.value);
  }

  // ---------------------------------------------------------------------------
  // The registry operations, as functions of the old list

  /** The registry list after `addCategory(name)` / `addTag(name)`: a name
      that is blank after trimming changes nothing; otherwise the trimmed name
      is merged in with `unique`. */
  function RegisterLabel(registry: seq<string>, name: string): (r: seq<string>)
    ensures IsBlank(name) ==> r == registry
    ensures !IsBlank(name) ==> IsLabelList(r) && NormalizeLabel(name) in r
  {
    NormalizeLabelEmptyIffBlank(name);
    var cleanName := NormalizeLabel(name);
    if cleanName == [] then registry
    else
      UniqueMembers(registry + [cleanName], cleanName);
      OccursSnoc(registry, cleanName, cleanName);
      Unique(registry + [cleanName])
  }

  /** On a registry that already holds duplicate-free labels, registering a
      name appends its trimmed form when it is new and otherwise changes
      nothing: earlier labels keep their order. */
  lemma RegisterLabelAppends(registry: seq<string>, name: string)
    requires IsLabelList(registry) && !IsBlank(name)
    ensures RegisterLabel(registry, name) ==
      var cleanName := NormalizeLabel(name);
      if cleanName in registry then registry else registry + [cleanName]
  {
    NormalizeLabelEmptyIffBlank(name);
    UniqueOfLabelList(registry);
    UniqueSnoc(registry, NormalizeLabel(name));
  }

  /** Registering the same name twice is the same as registering it once,
      whatever the registry held before (e.g. " Lunch " then "Lunch"). */
  lemma RegisterLabelIdempotent(registry: seq<string>, name: string)
    ensures RegisterLabel(RegisterLabel(registry, name), name) == RegisterLabel(registry, name)
  {
    if !IsBlank(name) {
      RegisterLabelAppends(RegisterLabel(registry, name), name);
    }
  }

  /** Registering " Lunch " and then "Lunch" on an empty registry leaves
      exactly one entry, "Lunch". */
  lemma LunchRegisteredOnce()
    ensures RegisterLabel(RegisterLabel([], " Lunch "), "Lunch") == ["Lunch"]
  {
    TrimLunch();
    VisibleAsciiIsNotWhitespace('L');
    assert !IsBlank(" Lunch ") by { assert " Lunch "[1] == 'L'; }
    assert !IsBlank("Lunch") by { assert "Lunch"[0] == 'L'; }
    var once := RegisterLabel([], " Lunch ");
    assert once == ["Lunch"] by {
      RegisterLabelAppends([], " Lunch ");
    }
    assert RegisterLabel(once, "Lunch") == once by {
      assert IsLabelList(once);
      RegisterLabelAppends(once, "Lunch");
    }
  }

  /** Trimming " Lunch " gives "Lunch", and "Lunch" is already trimmed. */
  lemma TrimLunch()
    ensures NormalizeLabel(" Lunch ") == "Lunch" && IsTrimmed("Lunch")
  {
    assert " Lunch "[0] == ' ' && IsWhitespace(' ');
    assert " Lunch "[1..] == "Lunch ";
    VisibleAsciiIsNotWhitespace('L');
    VisibleAsciiIsNotWhitespace('h');
    assert "Lunch "[0] == 'L' && "Lunch "[5] == ' ';
    assert "Lunch "[..5] == "Lunch";
    assert "Lunch"[0] == 'L' && "Lunch"[4] == 'h';
  }

  /** Tags ["a", "a", "b"] are stored as ["a", "b"]: first occurrences, in
      order, without duplicates. */
  lemma DuplicateTagsCollapse()
    ensures Unique(["a", "a", "b"]) == ["a", "b"]
  {
    VisibleAsciiIsNotWhitespace('a');
    VisibleAsciiIsNotWhitespace('b');
    assert "a"[0] == 'a' && "b"[0] == 'b';
    assert IsTrimmed("a") && IsTrimmed("b");
    assert ["a", "a", "b"][..2] == ["a", "a"];
    assert ["a", "a"][..1] == ["a"];
    assert [] + ["a"] == ["a"];
  }

  /** Removing a label that was just registered, and was new, restores the
      registry. */
  lemma RemoveUndoesRegister(registry: seq<string>, name: string)
    requires IsLabelList(registry) && !IsBlank(name) && NormalizeLabel(name) !in registry
    ensures Without(RegisterLabel(registry, name), NormalizeLabel(name)) == registry
  {
    var cleanName := NormalizeLabel(name);
    RegisterLabelAppends(registry, name);
    WithoutAppend(registry, [cleanName], cleanName);
    WithoutAbsent(registry, cleanName);
  }

  // ---------------------------------------------------------------------------
  // The cascades of the removals

  /** Every recipe filed under exactly `name` loses its category; all other
      recipes stay as they were, and nothing else about any recipe changes. */
  function ClearCategory(rs: seq<Recipe>, name: string): (r: seq<Recipe>)
    ensures |r| == |rs|
    ensures forall i :: 0 <= i < |rs| ==> r[i].category != Some(name)
    ensures forall i :: 0 <= i < |rs| && rs[i].category == Some(name) ==> r[i].category.None?
    ensures forall i :: 0 <= i < |rs| ==> r[i] == rs[i].(category := r[i].category)
    ensures forall i :: 0 <= i < |rs| && rs[i].category != Some(name) ==> r[i] == rs[i]
  {
    seq(|rs|, i requires 0 <= i < |rs| =>
      if rs[i].category == Some(name) then rs[i].(category := None) else rs[i])
  }

  /** Removing a whitespace-only category name clears every category stored
      as the empty string (see `BlankCategoryStoredAsEmpty`). */
  lemma RemoveBlankCategoryClearsEmpty(r: Recipe, name: string)
    requires r.category == Some([]) && IsBlank(name)
    ensures ClearCategory([r], NormalizeLabel(name)) == [r.(category := None)]
  {
    NormalizeLabelEmptyIffBlank(name);
  }

  /** Every recipe loses the tag `name` and keeps its other tags in their
      order; nothing else about any recipe changes. */
  function StripTag(rs: seq<Recipe>, name: string): (r: seq<Recipe>)
    ensures |r| == |rs|
    ensures forall i :: 0 <= i < |rs| ==> name !in r[i].tags
    ensures forall i :: 0 <= i < |rs| ==> r[i] == rs[i].(tags := r[i].tags)
    ensures forall i :: 0 <= i < |rs| ==> r[i].tags == Without(rs[i].tags, name)
  {
    seq(|rs|, i requires 0 <= i < |rs| => rs[i].(tags := Without(rs[i].tags, name)))
  }

  // ---------------------------------------------------------------------------
  // Derived views

  /** The categories recipes are filed under, in recipe order, leaving out
      absent and empty ones. */
  function RecipeCategories(rs: seq<Recipe>): (r: seq<string>)
    ensures forall x :: x in r <==> x != [] && exists i :: 0 <= i < |rs| && rs[i].category == Some(x)
  {
    if rs == [] then []
    else
      var rest := RecipeCategories(rs[1..]);
      assert forall x :: (exists i :: 0 <= i < |rs| && rs[i].category == Some(x))
                      <==> rs[0].category == Some(x) || (exists i :: 0 <= i < |rs| - 1 && rs[1..][i].category == Some(x)) by {
        forall x | exists i :: 0 <= i < |rs| && rs[i].category == Some(x)
          ensures rs[0].category == Some(x) || (exists i :: 0 <= i < |rs| - 1 && rs[1..][i].category == Some(x))
        {
          var i :| 0 <= i < |rs| && rs[i].category == Some(x);
          if i > 0 { assert rs[1..][i - 1] == rs[i]; }
        }
      }
      CategoryEntry(rs[0].category) + rest
  }

  /** All the recipes' tags, recipe after recipe. */
  function RecipeTags(rs: seq<Recipe>): (r: seq<string>)
    ensures forall x :: x in r <==> exists i :: 0 <= i < |rs| && x in rs[i].tags
  {
    if rs == [] then []
    else
      var rest := RecipeTags(rs[1..]);
      assert forall x :: (exists i :: 0 <= i < |rs| && x in rs[i].tags)
                      <==> x in rs[0].tags || (exists i :: 0 <= i < |rs| - 1 && x in rs[1..][i].tags) by {
        forall x | exists i :: 0 <= i < |rs| && x in rs[i].tags
          ensures x in rs[0].tags || (exists i :: 0 <= i < |rs| - 1 && x in rs[1..][i].tags)
        {
          var i :| 0 <= i < |rs| && x in rs[i].tags;
          if i > 0 { assert rs[1..][i - 1] == rs[i]; }
        }
      }
      rs[0].tags + rest
  }

  /** Some recipe is filed under a category whose trimmed form is `x`. */
  ghost predicate UsesCategory(rs: seq<Recipe>, x: string) {
    exists i :: 0 <= i < |rs| && rs[i].category.Some? && NormalizeLabel(rs[i].category.value) == x
  }

  /** Some recipe carries a tag whose trimmed form is `x`. */
  ghost predicate UsesTag(rs: seq<Recipe>, x: string) {
    exists i, j :: 0 <= i < |rs| && 0 <= j < |rs[i].tags| && NormalizeLabel(rs[i].tags[j]) == x
  }

  /** The `categories` memo: registered categories first, then those in use. */
  function EffectiveCategories(metadata: RecipeMetadata, rs: seq<Recipe>): (r: seq<string>)
    ensures IsLabelList(r)
    ensures Unique(metadata.categories) <= r
  {
    var all := metadata.categories + RecipeCategories(rs);
    UniqueKeepsPrefix(metadata.categories, all);
    Unique(all)
  }

  /** The `tags` memo: registered tags first, then those in use. */
  function EffectiveTags(metadata: RecipeMetadata, rs: seq<Recipe>): (r: seq<string>)
    ensures IsLabelList(r)
    ensures Unique(metadata.tags) <= r
  {
    var all := metadata.tags + RecipeTags(rs);
    UniqueKeepsPrefix(metadata.tags, all);
    Unique(all)
  }

  lemma OccursAppend(a: seq<string>, b: seq<string>, x: string)
    ensures Occurs(a + b, x) <==> Occurs(a, x) || Occurs(b, x)
  {
    if Occurs(a + b, x) {
      var i :| 0 <= i < |a + b| && NormalizeLabel((a + b)[i]) == x;
      if i >= |a| { assert (a + b)[i] == b[i - |a|]; }
    }
    if Occurs(a, x) {
      var i :| 0 <= i < |a| && NormalizeLabel(a[i]) == x;
      assert (a + b)[i] == a[i];
    }
    if Occurs(b, x) {
      var i :| 0 <= i < |b| && NormalizeLabel(b[i]) == x;
      assert (a + b)[|a| + i] == b[i];
    }
  }

  /** The effective categories are exactly the non-empty trimmed forms of
      the registered categories and of the categories recipes are filed under:
      a superset of both, and nothing else. */
  lemma EffectiveCategoriesMembers(metadata: RecipeMetadata, rs: seq<Recipe>, x: string)
    ensures x in EffectiveCategories(metadata, rs) <==>
            x != [] && (Occurs(metadata.categories, x) || UsesCategory(rs, x))
  {
    var used := RecipeCategories(rs);
    UniqueMembers(metadata.categories + used, x);
    OccursAppend(metadata.categories, used, x);
    if x != [] {
      UsedCategoriesOccur(rs, x);
    }
  }

  lemma UsedCategoriesOccur(rs: seq<Recipe>, x: string)
    requires x != []
    ensures Occurs(RecipeCategories(rs), x) <==> UsesCategory(rs, x)
  {
    if Occurs(RecipeCategories(rs), x) {
      OccurringCategoryIsUsed(rs, x);
    }
    if UsesCategory(rs, x) {
      UsedCategoryOccurs(rs, x);
    }
  }

  lemma OccurringCategoryIsUsed(rs: seq<Recipe>, x: string)
    requires Occurs(RecipeCategories(rs), x)
    ensures UsesCategory(rs, x)
  {
    var used := RecipeCategories(rs);
    var k :| 0 <= k < |used| && NormalizeLabel(used[k]) == x;
    var c := used[k];
    assert c in used;
    var i :| 0 <= i < |rs| && rs[i].category == Some(c);
    assert rs[i].category.Some? && NormalizeLabel(rs[i].category.value) == x;
  }

  lemma UsedCategoryOccurs(rs: seq<Recipe>, x: string)
    requires x != [] && UsesCategory(rs, x)
    ensures Occurs(RecipeCategories(rs), x)
  {
    var used := RecipeCategories(rs);
    var i :| 0 <= i < |rs| && rs[i].category.Some? && NormalizeLabel(rs[i].category.value) == x;
    var c := rs[i].category.value;
    assert c != [] by {
      assert NormalizeLabel([]) == [];
    }
    assert c in used;
    var k :| 0 <= k < |used| && used[k] == c;
    assert NormalizeLabel(used[k]) == x;
  }

  /** The effective tags are exactly the non-empty trimmed forms of the
      registered tags and of the tags on recipes. */
  lemma EffectiveTagsMembers(metadata: RecipeMetadata, rs: seq<Recipe>, x: string)
    ensures x in EffectiveTags(metadata, rs) <==>
            x != [] && (Occurs(metadata.tags, x) || UsesTag(rs, x))
  {
    var used := RecipeTags(rs);
    UniqueMembers(metadata.tags + used, x);
    OccursAppend(metadata.tags, used, x);
    UsedTagsOccur(rs, x);
  }

  lemma UsedTagsOccur(rs: seq<Recipe>, x: string)
    ensures Occurs(RecipeTags(rs), x) <==> UsesTag(rs, x)
  {
    if Occurs(RecipeTags(rs), x) {
      OccurringTagIsUsed(rs, x);
    }
    if UsesTag(rs, x) {
      UsedTagOccurs(rs, x);
    }
  }

  lemma OccurringTagIsUsed(rs: seq<Recipe>, x: string)
    requires Occurs(RecipeTags(rs), x)
    ensures UsesTag(rs, x)
  {
    var used := RecipeTags(rs);
    var k :| 0 <= k < |used| && NormalizeLabel(used[k]) == x;
    var t := used[k];
    assert t in used;
    var i :| 0 <= i < |rs| && t in rs[i].tags;
    var j :| 0 <= j < |rs[i].tags| && rs[i].tags[j] == t;
    assert NormalizeLabel(rs[i].tags[j]) == x;
  }

  lemma UsedTagOccurs(rs: seq<Recipe>, x: string)
    requires UsesTag(rs, x)
    ensures Occurs(RecipeTags(rs), x)
  {
    var used := RecipeTags(rs);
    var i, j :| 0 <= i < |rs| && 0 <= j < |rs[i].tags| && NormalizeLabel(rs[i].tags[j]) == x;
    var t := rs[i].tags[j];
    assert t in rs[i].tags;
    assert t in used;
    var k :| 0 <= k < |used| && used[k] == t;
    assert NormalizeLabel(used[k]) == x;
  }

  // ---------------------------------------------------------------------------
  // Lookup

  /** Lookup by id: the first recipe with the
      id, or none when no recipe has it. */
  function FindById(rs: seq<Recipe>, id: string): (r: Option<Recipe>)
    ensures r.None? <==> forall i :: 0 <= i < |rs| ==> rs[i].id != id
    ensures r.Some? ==> exists i :: 0 <= i < |rs| && rs[i] == r.value && r.value.id == id
                                    && forall j :: 0 <= j < i ==> rs[j].id != id
  {
    if rs == [] then None
    else if rs[0].id == id then Some(rs[0])
    else
      var r := FindById(rs[1..], id);
      assert forall i :: 1 <= i < |rs| ==> rs[i] == rs[1..][i - 1];
      r
  }

  // ---------------------------------------------------------------------------
  // The store's invariant

  predicate DistinctIds(rs: seq<Recipe>) {
    forall i, j :: 0 <= i < j < |rs| ==> rs[i].id != rs[j].id
  }

  /** What the store's operations keep true: registered labels are
      duplicate-free labels, every recipe's tags are too, every stored category
      is trimmed (possibly empty, see `BlankCategoryStoredAsEmpty`), and ids
      are distinct. Loaded data is taken as it comes and need not satisfy it. */
  ghost predicate ValidState(metadata: RecipeMetadata, rs: seq<Recipe>) {
    && IsLabelList(metadata.categories)
    && IsLabelList(metadata.tags)
    && (forall i :: 0 <= i < |rs| ==> IsLabelList(rs[i].tags))
    && (forall i :: 0 <= i < |rs| && rs[i].category.Some? ==> IsTrimmed(rs[i].category.value))
    && DistinctIds(rs)
  }

  /** In a valid state, after `removeCategory(name)` the trimmed name is gone
      from the effective categories too. */
  lemma RemovedCategoryLeavesView(metadata: RecipeMetadata, rs: seq<Recipe>, name: string)
    requires ValidState(metadata, rs)
    ensures NormalizeLabel(name) !in
            EffectiveCategories(metadata.(categories := Without(metadata.categories, NormalizeLabel(name))),
                                ClearCategory(rs, NormalizeLabel(name)))
  {
    var c := NormalizeLabel(name);
    var registered := Without(metadata.categories, c);
    var cleared := ClearCategory(rs, c);
    EffectiveCategoriesMembers(metadata.(categories := registered), cleared, c);
    RemovedLabelDoesNotOccur(metadata.categories, c);
    assert !UsesCategory(cleared, c) by {
      forall i | 0 <= i < |cleared| && cleared[i].category.Some?
        ensures NormalizeLabel(cleared[i].category.value) != c
      {
        assert cleared[i].category == rs[i].category;
      }
    }
  }

  /** Once a label is filtered out of a label list, no element normalises to it. */
  lemma RemovedLabelDoesNotOccur(registry: seq<string>, c: string)
    requires IsLabelList(registry)
    ensures !Occurs(Without(registry, c), c)
  {
    var registered := Without(registry, c);
    WithoutCounts(registry, c);
    forall k | 0 <= k < |registered| ensures NormalizeLabel(registered[k]) != c {
      assert registered[k] in multiset(registered);
      assert registered[k] in registry;
    }
  }

  /** Once a tag is stripped from recipes whose tags are labels, no recipe
      carries a tag that normalises to it. */
  lemma StrippedTagUnused(rs: seq<Recipe>, c: string)
    requires forall i :: 0 <= i < |rs| ==> IsLabelList(rs[i].tags)
    ensures !UsesTag(StripTag(rs, c), c)
  {
    var stripped := StripTag(rs, c);
    forall i, j | 0 <= i < |stripped| && 0 <= j < |stripped[i].tags|
      ensures NormalizeLabel(stripped[i].tags[j]) != c
    {
      var t := stripped[i].tags[j];
      WithoutCounts(rs[i].tags, c);
      assert t in multiset(Without(rs[i].tags, c));
      assert t in rs[i].tags;
      var k :| 0 <= k < |rs[i].tags| && rs[i].tags[k] == t;
      assert IsLabel(rs[i].tags[k]);
    }
  }

  /** In a valid state, after `removeTag(name)` the trimmed name is gone from
      the effective tags too. */
  lemma RemovedTagLeavesView(metadata: RecipeMetadata, rs: seq<Recipe>, name: string)
    requires ValidState(metadata, rs)
    ensures NormalizeLabel(name) !in
            EffectiveTags(metadata.(tags := Without(metadata.tags, NormalizeLabel(name))),
                          StripTag(rs, NormalizeLabel(name)))
  {
    var c := NormalizeLabel(name);
    var registered := Without(metadata.tags, c);
    var stripped := StripTag(rs, c);
    EffectiveTagsMembers(metadata.(tags := registered), stripped, c);
    RemovedLabelDoesNotOccur(metadata.tags, c);
    StrippedTagUnused(rs, c);
  }

  /** Adding a recipe whose id is not in use keeps the store valid. */
  lemma AddRecipeKeepsValid(metadata: RecipeMetadata, rs: seq<Recipe>, recipe: Recipe)
    requires ValidState(metadata, rs) && FindById(rs, recipe.id).None?
    requires IsLabelList(recipe.tags)
    requires recipe.category.Some? ==> IsTrimmed(recipe.category.value)
    ensures ValidState(RecipeMetadata(Unique(metadata.categories + CategoryEntry(recipe.category)),
                                      Unique(metadata.tags + recipe.tags)),
                       [recipe] + rs)
  {
    var next := [recipe] + rs;
    forall i, j | 0 <= i < j < |next| ensures next[i].id != next[j].id {
      assert next[j] == rs[j - 1];
      if i > 0 { assert next[i] == rs[i - 1]; }
    }
    forall i | 0 <= i < |next| ensures IsLabelList(next[i].tags) {
      if i > 0 { assert next[i] == rs[i - 1]; }
    }
  }

  /** Removing a category keeps the store valid. */
  lemma RemoveCategoryKeepsValid(metadata: RecipeMetadata, rs: seq<Recipe>, c: string)
    requires ValidState(metadata, rs)
    ensures ValidState(metadata.(categories := Without(metadata.categories, c)), ClearCategory(rs, c))
  {
    WithoutKeepsLabelList(metadata.categories, c);
    var cleared := ClearCategory(rs, c);
    assert forall i :: 0 <= i < |rs| ==> cleared[i].id == rs[i].id && cleared[i].tags == rs[i].tags;
  }

  /** Removing a tag keeps the store valid. */
  lemma RemoveTagKeepsValid(metadata: RecipeMetadata, rs: seq<Recipe>, c: string)
    requires ValidState(metadata, rs)
    ensures ValidState(metadata.(tags := Without(metadata.tags, c)), StripTag(rs, c))
  {
    WithoutKeepsLabelList(metadata.tags, c);
    var stripped := StripTag(rs, c);
    forall i | 0 <= i < |rs| ensures IsLabelList(stripped[i].tags) {
      WithoutKeepsLabelList(rs[i].tags, c);
    }
    assert forall i :: 0 <= i < |rs| ==> stripped[i].id == rs[i].id && stripped[i].category == rs[i].category;
  }

  /** The labels of a newly prepended recipe show up in the effective lists. */
  lemma NewRecipeLabelsInViews(metadata: RecipeMetadata, rs: seq<Recipe>, recipe: Recipe)
    requires IsLabelList(recipe.tags)
    requires recipe.category.Some? ==> IsTrimmed(recipe.category.value)
    ensures forall t :: t in recipe.tags ==> t in EffectiveTags(metadata, [recipe] + rs)
    ensures recipe.category.Some? && recipe.category.value != [] ==>
            recipe.category.value in EffectiveCategories(metadata, [recipe] + rs)
  {
    var next := [recipe] + rs;
    forall t | t in recipe.tags ensures t in EffectiveTags(metadata, next) {
      var k :| 0 <= k < |recipe.tags| && recipe.tags[k] == t;
      EffectiveTagsMembers(metadata, next, t);
      assert next[0].tags[k] == t;
    }
    if recipe.category.Some? && recipe.category.value != [] {
      var c := recipe.category.value;
      EffectiveCategoriesMembers(metadata, next, c);
      assert next[0].category == Some(c);
    }
  }

  // ---------------------------------------------------------------------------
  // The provider

  class RecipesProvider {
    var recipes: seq<Recipe>
    var metadata: RecipeMetadata
    var isLoading: bool

    ghost predicate Valid()
      reads this
    {
      ValidState(metadata, recipes)
    }

    /** The `categories` the provider exposes. */
    function Categories(): seq<string>
      reads this
    {
      EffectiveCategories(metadata, recipes)
    }

    /** The `tags` the provider exposes. */
    function Tags(): seq<string>
      reads this
    {
      EffectiveTags(metadata, recipes)
    }

    /** `getRecipeById`: a read of the current list, changing nothing. */
    function GetRecipeById(id: string): Option<Recipe>
      reads this
    {
      FindById(recipes, id)
    }

    /** The provider starts loading, with nothing in it. */
    constructor ()
      ensures recipes == [] && metadata == RecipeMetadata([], []) && isLoading
      ensures Valid()
    {
      recipes := [];
      metadata := RecipeMetadata([], []);
      isLoading := true;
    }

    /** The bootstrap step: adopt what storage returned and leave Loading. */
    method FinishLoad(storedRecipes: seq<Recipe>, storedMetadata: RecipeMetadata)
      modifies this
      ensures recipes == storedRecipes && metadata == storedMetadata && !isLoading
    {
      recipes := storedRecipes;
      metadata := storedMetadata;
      isLoading := false;
    }

    /** `addRecipe`: build the record, prepend it, and merge its category and
      tags into the registry. */
    method AddRecipe(source: ExtractedRecipe, id: string, createdAt: string) returns (recipe: Recipe)
      modifies this
      ensures recipe == BuildRecipe(source, id, createdAt)
      ensures recipes == [recipe] + old(recipes)
      ensures metadata.categories == Unique(old(metadata.categories) + CategoryEntry(recipe.category))
      ensures metadata.tags == Unique(old(metadata.tags) + recipe.tags)
      ensures isLoading == old(isLoading)
      ensures GetRecipeById(id) == Some(recipe)
      ensures forall t :: t in recipe.tags ==> t in Tags()
      ensures recipe.category.Some? && recipe.category.value != [] ==> recipe.category.value in Categories()
      ensures old(Valid()) && FindById(old(recipes), id).None? ==> Valid()
    {
      recipe := BuildRecipe(source, id, createdAt);
      ghost var wasValid := Valid() && FindById(recipes, id).None?;
      if wasValid {
        AddRecipeKeepsValid(metadata, recipes, recipe);
      }
      var cleanCategory := recipe.category;
      var cleanTags := recipe.tags;
      recipes := [recipe] + recipes;
      metadata := RecipeMetadata(Unique(metadata.categories + CategoryEntry(cleanCategory)),
                                 Unique(metadata.tags + cleanTags));
      NewRecipeLabelsInViews(metadata, old(recipes), recipe);
    }

    /** `addCategory`: register the trimmed name unless it is blank. */
    method AddCategory(name: string)
      modifies this
      ensures metadata == old(metadata).(categories := RegisterLabel(old(metadata.categories), name))
      ensures recipes == old(recipes) && isLoading == old(isLoading)
      ensures old(Valid()) ==> Valid()
    {
      var cleanName := NormalizeLabel(name);
      if cleanName == [] {
        return;
      }
      metadata := metadata.(categories := Unique(metadata.categories + [cleanName]));
    }

    /** `removeCategory`: drop the trimmed name from the registry and clear it
      from every recipe filed under it. */
    method RemoveCategory(name: string)
      modifies this
      ensures metadata == old(metadata).(categories := Without(old(metadata.categories), NormalizeLabel(name)))
      ensures recipes == ClearCategory(old(recipes), NormalizeLabel(name))
      ensures isLoading == old(isLoading)
      ensures old(Valid()) ==> Valid() && NormalizeLabel(name) !in Categories()
    {
      var cleanName := NormalizeLabel(name);
      ghost var wasValid := Valid();
      if wasValid {
        RemovedCategoryLeavesView(metadata, recipes, name);
        RemoveCategoryKeepsValid(metadata, recipes, cleanName);
      }
      var nextMetadata := metadata.(categories := Without(metadata.categories, cleanName));
      var nextRecipes := ClearCategory(recipes, cleanName);
      metadata := nextMetadata;
      recipes := nextRecipes;
    }

    /** `addTag`: register the trimmed name unless it is blank. */
    method AddTag(name: string)
      modifies this
      ensures metadata == old(metadata).(tags := RegisterLabel(old(metadata.tags), name))
      ensures recipes == old(recipes) && isLoading == old(isLoading)
      ensures old(Valid()) ==> Valid()
    {
      var cleanName := NormalizeLabel(name);
      if cleanName == [] {
        return;
      }
      metadata := metadata.(tags := Unique(metadata.tags + [cleanName]));
    }

    /** `removeTag`: drop the trimmed name from the registry and from every
      recipe's tags. */
    method RemoveTag(name: string)
      modifies this
      ensures metadata == old(metadata).(tags := Without(old(metadata.tags), NormalizeLabel(name)))
      ensures recipes == StripTag(old(recipes), NormalizeLabel(name))
      ensures isLoading == old(isLoading)
      ensures old(Valid()) ==> Valid() && NormalizeLabel(name) !in Tags()
    {
      var cleanName := NormalizeLabel(name);
      ghost var wasValid := Valid();
      if wasValid {
        RemovedTagLeavesView(metadata, recipes, name);
        RemoveTagKeepsValid(metadata, recipes, cleanName);
      }
      var nextMetadata := metadata.(tags := Without(metadata.tags, cleanName));
      var nextRecipes := StripTag(recipes, cleanName);
      metadata := nextMetadata;
      recipes := nextRecipes;
    }
  }
}
