/** The three field rules of the scraper: checkUpcAvailable, getPrice and
    getQty. Each takes the parsed page; the two rules that the source lets
    throw return an Outcome instead. */
module Fields {
  import opened Strings
  import opened Dom

  /** checkUpcAvailable: whether the UPC selector matches a node, which is
      exactly when reading its text cannot throw. */
  function CheckUpcAvailable(doc: Document): (available: bool)
    ensures available <==> Text(doc, Upc).Ok?
    ensures available ==> Text(doc, Upc).value == First(doc, Upc)
  {
    Count(doc, Upc) > 0
  }

  /** getPrice. With exactly two pricing spans the price is the first span's
      text; otherwise it is the first `[\d,.]+` run of the pricing
      paragraph's text, and a paragraph without one makes `$matches[1]`
      undefined, so the function returns null and PHP raises a TypeError.
      A price containing `/` throws a LogicException. */
  function GetPrice(doc: Document, pricingSpansCount: int): (r: Outcome<string>)
    ensures r.Ok? ==> '/' !in r.value
    ensures r.Throw? && r.failure == DifferentHtml ==> pricingSpansCount == 2
    ensures pricingSpansCount == 2 ==>
      (r.Ok? <==> HasNode(doc, PriceV1) && '/' !in First(doc, PriceV1))
    ensures pricingSpansCount == 2 && r.Ok? ==> r.value == First(doc, PriceV1)
    ensures pricingSpansCount != 2 ==>
      (r.Ok? <==> HasNode(doc, PriceV2) && PriceToken(First(doc, PriceV2)).Some?)
    ensures pricingSpansCount != 2 && r.Ok? ==> Some(r.value) == PriceToken(First(doc, PriceV2))
    ensures r.Throw? && r.failure == NullPrice <==>
      pricingSpansCount != 2 && HasNode(doc, PriceV2) && PriceToken(First(doc, PriceV2)).None?
  {
    var price :=
      if pricingSpansCount == 2 then Text(doc, PriceV1)
      else
        match Text(doc, PriceV2)
        case Throw(f) => Throw(f)
        case Ok(priceField) =>
          match PriceToken(priceField)
          case None => Throw(NullPrice)
          case Some(token) => Ok(token);
    match price
    case Throw(f) => Throw(f)
    case Ok(p) => if '/' in p then Throw(DifferentHtml) else Ok(p)
  }

  /** The pack size read from a product name: the digits of the leftmost
      ` <digits>/<word>` in it, or "1" when there is none. */
  function QtyFromName(productName: string): (qty: string)
    ensures IsNumeral(qty)
  {
    match QtyGroup(productName)
    case Some(group) => group
    case None => "1"
  }

  /** The name rule picks the leftmost occurrence of the pattern. */
  lemma QtyFromNameLeftmost(productName: string, i: nat, j: nat)
    requires QtyPattern(productName, i, j)
    requires forall i': nat, j': nat :: i' < i ==> !QtyPattern(productName, i', j')
    ensures QtyFromName(productName) == productName[i + 1..j]
  {
    QtyGroupIsLeftmostMatch(productName, i, j);
  }

  /** Without any occurrence of the pattern the name rule gives "1". */
  lemma QtyFromNameDefault(productName: string)
    requires forall i: nat, j: nat :: !QtyPattern(productName, i, j)
    ensures QtyFromName(productName) == "1"
  {
    QtyGroupNoneIffNoMatch(productName);
  }

  /** getQty. Both layouts read the raw quantity through a selector equal to
      SELECTOR_PRICE_V1, the first pricing span; `/Each` gives "1", anything
      else defers to the product name. */
  function GetQty(doc: Document, pricingSpansCount: int, productName: string): (r: Outcome<string>)
    ensures r.Ok? <==> HasNode(doc, PriceV1)
    ensures r.Throw? ==> r.failure == EmptyNodeList
    ensures r.Ok? ==> IsNumeral(r.value)
    ensures r.Ok? && First(doc, PriceV1) == "/Each" ==> r.value == "1"
    ensures r.Ok? && First(doc, PriceV1) != "/Each" ==> r.value == QtyFromName(productName)
  {
    var qty := if pricingSpansCount == 2 then Text(doc, QtyV1) else Text(doc, QtyV2);
    match qty
    case Throw(f) => Throw(f)
    case Ok(raw) => if raw == "/Each" then Ok("1") else Ok(QtyFromName(productName))
  }

  /** In the two-span layout the raw quantity is the price span itself, so
      when the price is accepted it contains no `/`, is not `/Each`, and the
      quantity always comes from the product name. */
  lemma TwoSpanQtyFromName(doc: Document, productName: string)
    requires GetPrice(doc, 2).Ok?
    ensures GetQty(doc, 2, productName) == Ok(QtyFromName(productName))
  {
    assert '/' in "/Each";
  }
}
