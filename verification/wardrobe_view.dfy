/** The closet screen (views/WardrobeView.tsx): the category filter and the
    caption lines shown for each item. */
module WardrobeView {
  import opened Wrappers
  import opened Text
  import opened Types
  import opened Seqs

  /** The filter tab: all items, or one category. */
  datatype Filter = All | Only(category: ClothingCategory)

  predicate Shown(f: Filter, item: ClothingItem) {
    f.All? || item.category == f.category
  }

  /** `items.filter(item => filter === 'ALL' || item.category === filter)`:
      everything for `All`; otherwise exactly the items of the chosen
      category, as often as they occur and in their order. */
  function FilteredItems(items: seq<ClothingItem>, f: Filter): (r: seq<ClothingItem>)
    ensures f.All? ==> r == items
    ensures f.Only? ==> forall k :: 0 <= k < |r| ==> r[k].category == f.category
    ensures f.Only? ==> forall x: ClothingItem :: x.category == f.category ==> multiset(r)[x] == multiset(items)[x]
    ensures Subseq(r, items)
  {
    var r := Keep(items, (item: ClothingItem) => Shown(f, item));
    if f.All? then
      KeepAll(items, (item: ClothingItem) => Shown(f, item));
      r
    else r
  }

  /** The filters partition nothing away: every item of a category shows
      under that category's tab, and an item shows under a tab only if it
      has that category. */
  lemma FilterMembership(items: seq<ClothingItem>, c: ClothingCategory, x: ClothingItem)
    ensures x in FilteredItems(items, Only(c)) <==> x in items && x.category == c
  {
    var r := FilteredItems(items, Only(c));
    if x in items && x.category == c {
      assert x in multiset(items);
    }
    if x in r {
      assert x in multiset(r);
    }
  }

  /** The first caption line, `{dominant_color || color} {sub_category || type}`:
      each half is the more specific tag when it is non-empty, else the
      basic one; a missing value renders as nothing. */
  function Caption(t: Tags): (r: string)
    ensures r == ColourPart(t) + " " + KindPart(t)
  {
    Render(OrElse(t.dominantColor, t.color)) + " " + Render(OrElse(t.subCategory, t.garmentType))
  }

  /** The colour half, stated case by case. */
  function ColourPart(t: Tags): string {
    if TruthyOpt(t.dominantColor) then t.dominantColor.value else Render(t.color)
  }

  /** The kind half, stated case by case. */
  function KindPart(t: Tags): string {
    if TruthyOpt(t.subCategory) then t.subCategory.value else Render(t.garmentType)
  }

  /** The two halves are chosen independently: a non-empty specific tag
      hides its basic tag, whatever the other half shows, and the basic tag
      it hides can be anything. */
  lemma CaptionHalvesIndependent(t: Tags, color: Option<string>, garmentType: Option<string>)
    ensures TruthyOpt(t.dominantColor) ==>
      Caption(t.(color := color)) == t.dominantColor.value + " " + KindPart(t)
    ensures TruthyOpt(t.subCategory) ==>
      Caption(t.(garmentType := garmentType)) == ColourPart(t) + " " + t.subCategory.value
    ensures !TruthyOpt(t.dominantColor) && !TruthyOpt(t.subCategory) ==>
      Caption(t) == Render(t.color) + " " + Render(t.garmentType)
  {
  }

  const StyleSeparator: string := " · "

  /** The second caption line, `style_tags?.join(' · ') || style || 'Casual'`:
      the joined style tags when that is non-empty, else the style when
      non-empty, else "Casual". It is never empty. */
  function StyleLine(t: Tags): (r: string)
    ensures |r| > 0
    ensures t.styleTags.Some? && Truthy(Join(t.styleTags.value, StyleSeparator)) ==>
      r == Join(t.styleTags.value, StyleSeparator)
    ensures (t.styleTags.None? || Join(t.styleTags.value, StyleSeparator) == "") ==>
      r == if TruthyOpt(t.style) then t.style.value else "Casual"
  {
    var joined := match t.styleTags
      case None => None
      case Some(tags) => Some(Join(tags, StyleSeparator));
    OrElse(joined, OrElse(t.style, Some("Casual"))).GetOr("Casual")
  }

  /** The style tags are shown when there are at least two, or one that is
      not empty; with none, or a single empty one, the style or "Casual" is
      shown instead. */
  lemma StyleTagsShown(t: Tags)
    requires t.styleTags.Some?
    ensures |t.styleTags.value| >= 2 || (|t.styleTags.value| == 1 && t.styleTags.value[0] != "") ==>
      StyleLine(t) == Join(t.styleTags.value, StyleSeparator)
    ensures |t.styleTags.value| == 0 || t.styleTags.value == [""] ==>
      StyleLine(t) == if TruthyOpt(t.style) then t.style.value else "Casual"
  {
    JoinEmptyIff(t.styleTags.value, StyleSeparator);
  }

  /** An item saved with the default tags is captioned "Unknown Clothing"
      with the style "Casual". */
  lemma DefaultTagsCaption()
    ensures Caption(BasicTags("Unknown", "Clothing", "Casual", "All")) == "Unknown Clothing"
    ensures StyleLine(BasicTags("Unknown", "Clothing", "Casual", "All")) == "Casual"
  {
  }
}
