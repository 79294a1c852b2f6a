/** The records of the application (types.ts). Optional TypeScript fields
    become `Option`s; `number` fields become `int` for timestamps and `real`
    for the formality score. */
module Types {
  import opened Wrappers

  datatype ClothingCategory = TOP | BOTTOM | SHOES

  /** The descriptive tags of a garment; every one may be missing. The
      TypeScript field `type` is called `garmentType` here. */
  datatype Tags = Tags(
    color: Option<string>,
    garmentType: Option<string>,
    style: Option<string>,
    season: Option<string>,
    name: Option<string>,
    subCategory: Option<string>,
    warmth: Option<string>,
    neckline: Option<string>,
    closure: Option<string>,
    dominantColor: Option<string>,
    colorPalette: Option<seq<string>>,
    pattern: Option<string>,
    fit: Option<string>,
    formalityReasoning: Option<string>,
    formality: Option<real>,
    styleTags: Option<seq<string>>)

  /** Tags holding only the four basic fields. */
  function BasicTags(color: string, garmentType: string, style: string, season: string): (t: Tags)
    ensures t.color == Some(color) && t.garmentType == Some(garmentType)
    ensures t.style == Some(style) && t.season == Some(season)
    ensures t.subCategory.None? && t.dominantColor.None? && t.styleTags.None?
  {
    Tags(Some(color), Some(garmentType), Some(style), Some(season),
         None, None, None, None, None, None, None, None, None, None, None, None)
  }

  datatype ClothingItem = ClothingItem(
    id: string,
    image: string,
    category: ClothingCategory,
    tags: Tags,
    createdAt: int)

  datatype UserProfile = UserProfile(
    name: string,
    height: string,
    weight: string,
    gender: string,
    skinTone: string,
    avatarImage: Option<string>)

  datatype OutfitRecommendation = OutfitRecommendation(
    topId: string,
    bottomId: string,
    reasoning: string,
    styleName: string,
    generatedVisual: Option<string>)

  /** A recommendation that was kept: all of its fields plus an id and a
      timestamp (`SavedOutfit extends OutfitRecommendation`). */
  datatype SavedOutfit = SavedOutfit(
    id: string,
    timestamp: int,
    topId: string,
    bottomId: string,
    reasoning: string,
    styleName: string,
    generatedVisual: Option<string>)

  /** The recommendation a saved outfit extends. */
  function RecommendationOf(s: SavedOutfit): OutfitRecommendation {
    OutfitRecommendation(s.topId, s.bottomId, s.reasoning, s.styleName, s.generatedVisual)
  }

  /** The profile the application starts from (App.tsx). */
  const DefaultProfile: UserProfile :=
    UserProfile("User", "170cm", "65kg", "Female", "Medium", None)
}
