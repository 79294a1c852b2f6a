/** The stylist screen (views/StylistView.tsx): the guards before asking for
    advice, the split of the closet into tops and bottoms, the lookup of the
    recommended items by id, the source of the generated picture and the
    outfit record kept on save. The advice and picture generators are
    external; their answers are parameters. */
module StylistView {
  import opened Wrappers
  import opened Text
  import opened Types
  import opened Seqs

  predicate IsTop(item: ClothingItem) { item.category == TOP }

  predicate IsBottom(item: ClothingItem) { item.category == BOTTOM }

  /** `items.filter(i => i.category === ClothingCategory.TOP)`. */
  function TopsOf(items: seq<ClothingItem>): (r: seq<ClothingItem>)
    ensures forall k :: 0 <= k < |r| ==> r[k].category == TOP
    ensures forall x: ClothingItem :: x.category == TOP ==> multiset(r)[x] == multiset(items)[x]
    ensures Subseq(r, items)
  {
    Keep(items, IsTop)
  }

  /** `items.filter(i => i.category === ClothingCategory.BOTTOM)`. */
  function BottomsOf(items: seq<ClothingItem>): (r: seq<ClothingItem>)
    ensures forall k :: 0 <= k < |r| ==> r[k].category == BOTTOM
    ensures forall x: ClothingItem :: x.category == BOTTOM ==> multiset(r)[x] == multiset(items)[x]
    ensures Subseq(r, items)
  {
    Keep(items, IsBottom)
  }

  /** What `handleGetAdvice` does before any request: nothing for a blank
      occasion, an alert when the closet lacks a top or a bottom, and
      otherwise a request with the tops and the bottoms. */
  datatype AdviceStep =
    | Ignored
    | MissingGarments
    | RequestAdvice(tops: seq<ClothingItem>, bottoms: seq<ClothingItem>)

  ghost predicate HasCategory(items: seq<ClothingItem>, c: ClothingCategory) {
    exists k :: 0 <= k < |items| && items[k].category == c
  }

  function PlanAdvice(context: string, items: seq<ClothingItem>): (r: AdviceStep)
    ensures r.Ignored? <==> Trim(context) == ""
    ensures r.RequestAdvice? <==> Trim(context) != "" && HasCategory(items, TOP) && HasCategory(items, BOTTOM)
    ensures r.RequestAdvice? ==> r.tops == TopsOf(items) && r.bottoms == BottomsOf(items)
  {
    if Trim(context) == "" then Ignored
    else
      var tops := TopsOf(items);
      var bottoms := BottomsOf(items);
      NonEmptyIffPresent(items, tops, TOP);
      NonEmptyIffPresent(items, bottoms, BOTTOM);
      if |tops| == 0 || |bottoms| == 0 then MissingGarments
      else RequestAdvice(tops, bottoms)
  }

  /** A category's list is non-empty exactly when the closet has an item of
      that category. */
  lemma NonEmptyIffPresent(items: seq<ClothingItem>, part: seq<ClothingItem>, c: ClothingCategory)
    requires forall k :: 0 <= k < |part| ==> part[k].category == c
    requires forall x: ClothingItem :: x.category == c ==> multiset(part)[x] == multiset(items)[x]
    ensures |part| > 0 <==> HasCategory(items, c)
  {
    if HasCategory(items, c) {
      var k :| 0 <= k < |items| && items[k].category == c;
      assert items[k] in multiset(items);
      assert items[k] in multiset(part);
    }
    if |part| > 0 {
      assert part[0] in multiset(part);
      assert part[0] in multiset(items);
      var k :| 0 <= k < |items| && items[k] == part[0];
    }
  }

  /** Shoes are offered to the stylist neither as tops nor as bottoms. */
  lemma ShoesAreNeverOffered(context: string, items: seq<ClothingItem>, x: ClothingItem)
    requires x.category == SHOES
    ensures var r := PlanAdvice(context, items);
      r.RequestAdvice? ==> x !in r.tops && x !in r.bottoms
  {
  }

  /** `xs.find(t => String(t.id) === String(id))`: the first item with the
      id. Ids are strings already, so `String` changes nothing. */
  function FindById(xs: seq<ClothingItem>, id: string): (r: Option<ClothingItem>)
    ensures r.None? <==> forall k :: 0 <= k < |xs| ==> xs[k].id != id
    ensures r.Some? ==> exists k :: FirstWithId(xs, id, k) && xs[k] == r.value
  {
    if |xs| == 0 then None
    else if xs[0].id == id then
      assert FirstWithId(xs, id, 0);
      Some(xs[0])
    else
      var r := FindById(xs[1..], id);
      assert r.Some? ==> exists k :: FirstWithId(xs, id, k) && xs[k] == r.value by {
        if r.Some? {
          var k :| FirstWithId(xs[1..], id, k) && xs[1..][k] == r.value;
          assert FirstWithId(xs, id, k + 1);
        }
      }
      r
  }

  /** `xs[k]` has the id and no item before it does. */
  ghost predicate FirstWithId(xs: seq<ClothingItem>, id: string, k: int) {
    0 <= k < |xs| && xs[k].id == id && forall j :: 0 <= j < k ==> xs[j].id != id
  }

  /** A found item carries the id and was in the list. */
  lemma FoundItemMatches(xs: seq<ClothingItem>, id: string)
    ensures FindById(xs, id).Some? ==> FindById(xs, id).value.id == id && FindById(xs, id).value in xs
  {
    if FindById(xs, id).Some? {
      var k :| FirstWithId(xs, id, k) && xs[k] == FindById(xs, id).value;
    }
  }

  datatype VisualError = VisualError(message: string, details: Option<string>)

  const ItemsNotFound: VisualError := VisualError(
    "Matching items not found in inventory.",
    Some("The AI selected items that couldn't be matched to your closet. Please try again."))

  /** After the advice arrives: ask for the picture with the recommended top
      and bottom, or report that they are not in the closet. */
  datatype VisualStep = RequestVisual(top: ClothingItem, bottom: ClothingItem) | NotFound(error: VisualError)

  function PlanVisual(tops: seq<ClothingItem>, bottoms: seq<ClothingItem>, rec: OutfitRecommendation): (r: VisualStep)
    ensures r.RequestVisual? <==> FindById(tops, rec.topId).Some? && FindById(bottoms, rec.bottomId).Some?
    ensures r.RequestVisual? ==> r.top == FindById(tops, rec.topId).value && r.bottom == FindById(bottoms, rec.bottomId).value
    ensures r.NotFound? ==> r.error == ItemsNotFound
  {
    match (FindById(tops, rec.topId), FindById(bottoms, rec.bottomId))
    case (Some(top), Some(bottom)) => RequestVisual(top, bottom)
    case _ => NotFound(ItemsNotFound)
  }

  /** The picture is requested only for a top and a bottom of the closet
      that carry the recommended ids. */
  lemma VisualUsesRecommendedGarments(context: string, items: seq<ClothingItem>, rec: OutfitRecommendation)
    requires PlanAdvice(context, items).RequestAdvice?
    ensures var a := PlanAdvice(context, items);
      var v := PlanVisual(a.tops, a.bottoms, rec);
      v.RequestVisual? ==>
        && v.top.category == TOP && v.top.id == rec.topId && v.top in items
        && v.bottom.category == BOTTOM && v.bottom.id == rec.bottomId && v.bottom in items
  {
    var a := PlanAdvice(context, items);
    var v := PlanVisual(a.tops, a.bottoms, rec);
    if v.RequestVisual? {
      FoundItemMatches(a.tops, rec.topId);
      FoundItemMatches(a.bottoms, rec.bottomId);
      assert v.top in multiset(a.tops);
      assert v.bottom in multiset(a.bottoms);
      assert v.top in multiset(items);
      assert v.bottom in multiset(items);
    }
  }

  /** `setRecommendation(prev => prev ? { ...prev, generatedVisual } : null)`,
      done only for a non-empty picture. */
  function AttachVisual(current: Option<OutfitRecommendation>, visual: string): (r: Option<OutfitRecommendation>)
    ensures r.Some? <==> current.Some?
    ensures !Truthy(visual) ==> r == current
    ensures Truthy(visual) && r.Some? ==> r.value.generatedVisual == Some(visual)
    ensures r.Some? ==> r.value.(generatedVisual := current.value.generatedVisual) == current.value
  {
    if Truthy(visual) && current.Some? then Some(current.value.(generatedVisual := Some(visual)))
    else current
  }

  const DataPrefix: string := "data:"
  const JpegPrefix: string := "data:image/jpeg;base64,"

  /** The `src` of the picture: a data URI is used as it is, older raw
      base64 gets the JPEG data-URI prefix. The result is always a data
      URI. */
  function VisualSrc(v: string): (src: string)
    ensures StartsWith(src, DataPrefix)
    ensures StartsWith(v, DataPrefix) ==> src == v
    ensures !StartsWith(v, DataPrefix) ==> |src| == |JpegPrefix| + |v| && src[|JpegPrefix|..] == v && src[..|JpegPrefix|] == JpegPrefix
  {
    if StartsWith(v, DataPrefix) then v
    else
      assert (JpegPrefix + v)[..|DataPrefix|] == JpegPrefix[..|DataPrefix|];
      JpegPrefix + v
  }

  /** Normalising twice is normalising once. */
  lemma VisualSrcIdempotent(v: string)
    ensures VisualSrc(VisualSrc(v)) == VisualSrc(v)
  {
  }

  /** The picture area shows an image only for a non-empty picture. */
  function PictureOf(rec: OutfitRecommendation): (src: Option<string>)
    ensures src.Some? <==> TruthyOpt(rec.generatedVisual)
    ensures src.Some? ==> StartsWith(src.value, DataPrefix)
  {
    if TruthyOpt(rec.generatedVisual) then Some(VisualSrc(rec.generatedVisual.value)) else None
  }

  datatype Tab = NewTab | HistoryTab

  /** The part of the screen `handleSave` touches. */
  datatype StylistState = StylistState(
    tab: Tab,
    context: string,
    recommendation: Option<OutfitRecommendation>,
    visualError: Option<VisualError>)

  /** `handleSave`: without a recommendation nothing happens; otherwise the
      recommendation is kept with a new id and timestamp (the clock
      readings), the history tab opens and the form is cleared. */
  function HandleSave(s: StylistState, id: string, timestamp: int): (r: (StylistState, Option<SavedOutfit>))
    ensures s.recommendation.None? ==> r == (s, None)
    ensures s.recommendation.Some? ==>
      && r.1.Some?
      && RecommendationOf(r.1.value) == s.recommendation.value
      && r.1.value.id == id && r.1.value.timestamp == timestamp
      && r.0 == StylistState(HistoryTab, "", None, None)
  {
    match s.recommendation
    case None => (s, None)
    case Some(rec) =>
      (StylistState(HistoryTab, "", None, None),
       Some(SavedOutfit(id, timestamp, rec.topId, rec.bottomId, rec.reasoning, rec.styleName, rec.generatedVisual)))
  }

  /** Every saved outfit is what saving its own recommendation under its
      own id and timestamp produces: the record adds exactly the two
      fields. */
  lemma SavedOutfitRoundTrip(s: StylistState, saved: SavedOutfit)
    requires s.recommendation == Some(RecommendationOf(saved))
    ensures HandleSave(s, saved.id, saved.timestamp).1 == Some(saved)
  {
  }
}
