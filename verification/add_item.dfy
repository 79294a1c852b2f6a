/** The decisions of the add-item screen (views/AddItemView.tsx): the
    category inferred from the analysis tags, the item record built on save,
    and the soft-fail check after background removal. The analysis and the
    background removal themselves are external; their outcomes are
    parameters. */
module AddItem {
  import opened Wrappers
  import opened Text
  import opened Types

  /** Lower-case words in a garment type that make it a bottom. */
  const BottomKeywords: seq<string> :=
    ["pants", "jeans", "skirt", "shorts", "trousers",
     "leggings", "joggers", "sweatpants", "slacks", "chinos", "bottom"]

  /** `keywords.some(k => text.includes(k))`. */
  function AnyKeyword(text: string, keywords: seq<string>): bool {
    if |keywords| == 0 then false
    else Contains(text, keywords[0]) || AnyKeyword(text, keywords[1..])
  }

  /** Some keyword occurs somewhere in `text`. */
  ghost predicate HasKeyword(text: string, keywords: seq<string>) {
    exists k, i :: 0 <= k < |keywords| && OccursAt(text, keywords[k], i)
  }

  lemma {:induction false} AnyKeywordIff(text: string, keywords: seq<string>)
    ensures AnyKeyword(text, keywords) <==> HasKeyword(text, keywords)
    decreases |keywords|
  {
    if |keywords| > 0 {
      ContainsIff(text, keywords[0]);
      AnyKeywordIff(text, keywords[1..]);
      if HasKeyword(text, keywords[1..]) {
        var k, i :| 0 <= k < |keywords[1..]| && OccursAt(text, keywords[1..][k], i);
        assert OccursAt(text, keywords[k + 1], i);
      }
      if HasKeyword(text, keywords) {
        var k, i :| 0 <= k < |keywords| && OccursAt(text, keywords[k], i);
        if k > 0 {
          assert OccursAt(text, keywords[1..][k - 1], i);
        }
      }
    }
  }

  /** The category chosen in `analyze` from the tag `category` and the tag
      `type`: an explicit BOTTOM or TOP wins; otherwise a bottom keyword in
      the lower-cased type makes it a BOTTOM and anything else a TOP. */
  function InferCategory(category: Option<string>, garmentType: Option<string>): (c: ClothingCategory)
    ensures c != SHOES
    ensures category == Some("BOTTOM") ==> c == BOTTOM
    ensures category == Some("TOP") ==> c == TOP
  {
    if category == Some("BOTTOM") then BOTTOM
    else if category == Some("TOP") then TOP
    else if AnyKeyword(ToLower(garmentType.GetOr("")), BottomKeywords) then BOTTOM
    else TOP
  }

  /** Without an explicit BOTTOM or TOP, the result is BOTTOM exactly when
      one of the keywords occurs in the lower-cased type (a missing type
      reads as the empty string). */
  lemma InferFromType(category: Option<string>, garmentType: Option<string>)
    requires category != Some("BOTTOM") && category != Some("TOP")
    ensures InferCategory(category, garmentType) == BOTTOM
        <==> HasKeyword(ToLower(garmentType.GetOr("")), BottomKeywords)
  {
    AnyKeywordIff(ToLower(garmentType.GetOr("")), BottomKeywords);
  }

  /** A type without any keyword, such as a missing one, gives TOP, and so
      does a SHOES tag with such a type. */
  lemma MissingTypeIsTop(category: Option<string>)
    requires category != Some("BOTTOM")
    ensures InferCategory(category, None) == TOP
  {
    if category != Some("TOP") {
      InferFromType(category, None);
      assert ToLower("") == "";
    }
  }

  /** The case of the type does not matter: lower-casing it first gives the
      same category. */
  lemma CaseInsensitive(category: Option<string>, t: string)
    ensures InferCategory(category, Some(ToLower(t))) == InferCategory(category, Some(t))
  {
    assert ToLower(ToLower(t)) == ToLower(t);
  }

  /** An upper-case keyword inside a longer type is still found. */
  lemma SlimJeansAreBottoms()
    ensures InferCategory(Some("OTHER"), Some("Slim JEANS")) == BOTTOM
  {
    var t := ToLower("Slim JEANS");
    assert t == "slim jeans";
    assert OccursAt(t, BottomKeywords[1], 5);
    InferFromType(Some("OTHER"), Some("Slim JEANS"));
  }

  /** What the analysis of a photo returns: the suggested category and the
      garment tags. */
  datatype Analysis = Analysis(category: Option<string>, tags: Tags)

  const AnalyzeFailedError: string := "Could not auto-detect tags. Please select category manually."

  /** `analyze`: a reply sets the inferred category and clears the error; a
      failed analysis keeps the current category and reports the error. */
  function Analyze(current: ClothingCategory, reply: Option<Analysis>): (r: (ClothingCategory, Option<string>))
    ensures reply.None? ==> r == (current, Some(AnalyzeFailedError))
    ensures reply.Some? ==> r.1.None? && r.0 == InferCategory(reply.value.category, reply.value.tags.garmentType)
    ensures r.0 != SHOES || current == SHOES
  {
    match reply
    case None => (current, Some(AnalyzeFailedError))
    case Some(a) => (InferCategory(a.category, a.tags.garmentType), None)
  }

  /** The tags a saved item gets when the final analysis fails. */
  const DefaultTags: Tags := BasicTags("Unknown", "Clothing", "Casual", "All")

  /** `handleSave`: nothing without an image; otherwise an item with the
      image, the chosen category and the fresh tags, or the default tags
      when the final analysis fails. `id` and `createdAt` are the clock
      readings. */
  function SaveItem(image: Option<string>, category: ClothingCategory, reanalysis: Option<Tags>,
                    id: string, createdAt: int): (r: Option<ClothingItem>)
    ensures r.Some? <==> TruthyOpt(image)
    ensures r.Some? ==> r.value.image == image.value && r.value.category == category
    ensures r.Some? ==> r.value.id == id && r.value.createdAt == createdAt
    ensures r.Some? && reanalysis.Some? ==> r.value.tags == reanalysis.value
    ensures r.Some? && reanalysis.None? ==>
      && r.value.tags.color == Some("Unknown") && r.value.tags.garmentType == Some("Clothing")
      && r.value.tags.style == Some("Casual") && r.value.tags.season == Some("All")
  {
    if !TruthyOpt(image) then None
    else Some(ClothingItem(id, image.value, category, reanalysis.GetOr(DefaultTags), createdAt))
  }

  /** The part of the screen background removal acts on. */
  datatype PhotoState = PhotoState(image: Option<string>, bgRemoved: bool, warning: Option<string>)

  /** How the background removal call ends. */
  datatype Removal = Returned(result: string) | Threw

  const OfflineWarning: string := "Offline Mode: Background removal unavailable. Using original image."
  const RemovalFailedWarning: string := "Could not remove background. Using original."

  /** `handleRemoveBackground`: without an image nothing happens. A result
      identical to the input is a soft failure and only sets a warning; a
      different result replaces the image and marks the background removed;
      a thrown error sets the other warning. */
  function RemoveBackground(s: PhotoState, removal: Removal): (r: PhotoState)
    ensures !TruthyOpt(s.image) ==> r == s
    ensures TruthyOpt(s.image) ==>
      && (r.image != s.image <==> removal.Returned? && removal.result != s.image.value)
      && (r.image != s.image ==> r.image == Some(removal.result) && r.bgRemoved && r.warning.None?)
      && (r.image == s.image ==> r.bgRemoved == s.bgRemoved && r.warning.Some?)
      && (removal.Returned? && removal.result == s.image.value ==> r.warning == Some(OfflineWarning))
      && (removal.Threw? ==> r.warning == Some(RemovalFailedWarning))
  {
    if !TruthyOpt(s.image) then s
    else
      match removal
      case Returned(result) =>
        if result == s.image.value then s.(warning := Some(OfflineWarning))
        else PhotoState(Some(result), true, None)
      case Threw => s.(warning := Some(RemovalFailedWarning))
  }

  /** Removing the background again after a soft failure leaves the image
      as it is: a soft failure is a fixed point apart from the warning. */
  lemma SoftFailureIsStable(s: PhotoState)
    requires TruthyOpt(s.image)
    ensures var r := RemoveBackground(s, Returned(s.image.value));
      && r.image == s.image && r.bgRemoved == s.bgRemoved
      && RemoveBackground(r, Returned(s.image.value)) == r
  {
  }
}
