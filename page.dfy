/**
 * The parsed product page, reduced to the three lookups the tracker makes,
 * and the order in which it tries them.
 */
module Page {
  import opened Wrappers

  /** `find(id="priceblock_dealprice")`, `find(id="priceblock_ourprice")`, `find(class_="a-offscreen")`. */
  datatype Selector = DealPriceId | OurPriceId | OffscreenClass

  /**
   * What each lookup finds: the whitespace-stripped text of the first
   * matching element, or None when the page has no such element.
   */
  datatype Document = Document(dealPrice: Option<string>, ourPrice: Option<string>, offscreen: Option<string>)

  function Find(doc: Document, sel: Selector): Option<string>
  {
    match sel
    case DealPriceId => doc.dealPrice
    case OurPriceId => doc.ourPrice
    case OffscreenClass => doc.offscreen
  }

  /** The priority of the lookups: deal price, then our price, then the offscreen class. */
  const LookupOrder: seq<Selector> := [DealPriceId, OurPriceId, OffscreenClass]

  /** The element text the tracker settles on, and the lookups it made to get it, in order. */
  datatype Selection = Selection(element: Option<string>, consulted: seq<Selector>)

  /** Each fallback lookup runs only when the ones before it found nothing. */
  function SelectPriceElement(doc: Document): Selection
  {
    var deal := Find(doc, DealPriceId);
    if deal.Some? then Selection(deal, [DealPriceId])
    else
      var our := Find(doc, OurPriceId);
      if our.Some? then Selection(our, [DealPriceId, OurPriceId])
      else Selection(Find(doc, OffscreenClass), LookupOrder)
  }

  /** Lookup number `i` in priority order is the first one that finds an element. */
  ghost predicate FirstPresent(doc: Document, i: int)
  {
    0 <= i < |LookupOrder| && Find(doc, LookupOrder[i]).Some?
    && forall j :: 0 <= j < i ==> Find(doc, LookupOrder[j]).None?
  }

  /**
   * First present wins: the selected text is that of the first lookup in
   * priority order that finds something, and nothing is selected exactly
   * when no lookup finds anything.
   */
  lemma SelectionIsFirstPresent(doc: Document)
    ensures forall i :: FirstPresent(doc, i) ==> SelectPriceElement(doc).element == Find(doc, LookupOrder[i])
    ensures SelectPriceElement(doc).element.None? <==>
      forall i :: 0 <= i < |LookupOrder| ==> Find(doc, LookupOrder[i]).None?
  {
    forall i | FirstPresent(doc, i)
      ensures SelectPriceElement(doc).element == Find(doc, LookupOrder[i])
    {
      if i > 0 { assert Find(doc, LookupOrder[0]).None?; }
      if i > 1 { assert Find(doc, LookupOrder[1]).None?; }
    }
    if SelectPriceElement(doc).element.Some? {
      if doc.dealPrice.Some? {
        assert Find(doc, LookupOrder[0]).Some?;
      } else if doc.ourPrice.Some? {
        assert Find(doc, LookupOrder[1]).Some?;
      } else {
        assert Find(doc, LookupOrder[2]).Some?;
      }
    }
  }

  /**
   * The lookups made are a prefix of the priority order; all of them but the
   * last found nothing, and the last one supplies the selected text.
   */
  lemma ConsultedInOrder(doc: Document)
    ensures var r := SelectPriceElement(doc);
      0 < |r.consulted| <= |LookupOrder|
      && r.consulted == LookupOrder[..|r.consulted|]
      && (forall j :: 0 <= j < |r.consulted| - 1 ==> Find(doc, r.consulted[j]).None?)
      && r.element == Find(doc, r.consulted[|r.consulted| - 1])
  {
  }

  /**
   * Lookups that are not made do not matter: two pages on which the lookups
   * made for the first agree give the same selection.
   */
  lemma OnlyConsultedLookupsMatter(doc: Document, other: Document)
    requires forall sel :: sel in SelectPriceElement(doc).consulted ==> Find(other, sel) == Find(doc, sel)
    ensures SelectPriceElement(other) == SelectPriceElement(doc)
  {
    assert DealPriceId in SelectPriceElement(doc).consulted;
    if doc.dealPrice.None? {
      assert OurPriceId in SelectPriceElement(doc).consulted;
      if doc.ourPrice.None? {
        assert OffscreenClass in SelectPriceElement(doc).consulted;
      }
    }
  }
}
