/** The records the recipe store keeps and receives (src/types/recipe.ts).
    An optional field becomes an `Option<T>`. */
module RecipeTypes {

  datatype Option<T> = None | Some(value: T)

  /** A saved recipe. `id` and `createdAt` are fixed when the record is built. */
  datatype Recipe = Recipe(
    id: string,
    title: string,
    url: string,
    imageUrl: Option<string>,
    ingredients: seq<string>,
    steps: seq<string>,
    category: Option<string>,
    tags: seq<string>,
    cookTime: Option<string>,
    servings: Option<string>,
    createdAt: string)

  /** The registry of known labels, kept apart from the recipes that use them. */
  datatype RecipeMetadata = RecipeMetadata(categories: seq<string>, tags: seq<string>)

  /** A recipe draft as the extractor returns it, before it has an identity. */
  datatype ExtractedRecipe = ExtractedRecipe(
    title: string,
    url: string,
    imageUrl: Option<string>,
    ingredients: seq<string>,
    steps: seq<string>,
    category: Option<string>,
    tags: seq<string>,
    cookTime: Option<string>,
    servings: Option<string>)
}
