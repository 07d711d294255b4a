/** The parsed HTML page as the scraper sees it through Symfony's Crawler:
    the fixed CSS selectors, the node list each of them yields, and the two
    Crawler calls the scraper makes on a node list, `count()` and `text()`.
    Selector evaluation itself belongs to the library and is not modelled:
    a document is given by the texts of the nodes each selector matches. */
module Dom {

  /** The selectors the scraper queries, named as in the source. */
  datatype Selector =
    | PricingSpans | PriceV1 | PriceV2 | QtyV1 | QtyV2 | Name | Sku | Upc

  /** The CSS text of each selector. */
  function Css(s: Selector): string {
    match s
    case PricingSpans => "#priceBox > div.pricing p.price:not(.enter-email) > span"
    case PriceV1 => "#priceBox > div.pricing p.price:not(.enter-email) > span:nth-child(1)"
    case PriceV2 => "#priceBox > div.pricing p.price:not(.enter-email)"
    case QtyV1 => "#priceBox > div.pricing p.price:not(.enter-email) > span:nth-child(1)"
    case QtyV2 => "#priceBox > div.pricing p.price:not(.enter-email) > span:nth-child(1)"
    case Name => "#mainProductContentContainer > h1"
    case Sku => "#mainProductContentContainer > div.product-subhead > span.item-number > span > span"
    case Upc => "#page > div.side-col.aside.new-exp > div:nth-child(2) > div > div.meta > div.product__stat > span.product__stat-desc"
  }

  /** Selectors with the same CSS text select the same nodes, so a document
      is indexed by one representative of each distinct text. */
  function Canonical(s: Selector): Selector {
    if s == QtyV1 || s == QtyV2 then PriceV1 else s
  }

  /** The two quantity selectors have the text of the first-span price
      selector. */
  lemma QtySelectorsAreFirstSpan()
    ensures Css(QtyV1) == Css(PriceV1) && Css(QtyV2) == Css(PriceV1)
  {
  }

  /** A representative has the text of every selector it stands for. */
  lemma CanonicalKeepsCss(s: Selector)
    ensures Css(Canonical(s)) == Css(s)
  {
    if s == QtyV1 || s == QtyV2 {
      QtySelectorsAreFirstSpan();
    } else {
      assert Canonical(s) == s;
    }
  }

  /** For each distinct selector text, the text of every node it matches,
      in document order; a selector that is not a key matches nothing. */
  datatype Document = Document(matches: map<Selector, seq<string>>)

  /** `$crawler->filter($selector)`, seen through the texts of its nodes. */
  function Filter(doc: Document, selector: Selector): seq<string> {
    var key := Canonical(selector);
    if key in doc.matches then doc.matches[key] else []
  }

  /** `$crawler->filter($selector)->count()`. */
  function Count(doc: Document, selector: Selector): nat {
    |Filter(doc, selector)|
  }

  /** Whether `filter($selector)` matches at least one node. */
  predicate HasNode(doc: Document, selector: Selector) {
    Filter(doc, selector) != []
  }

  /** The text of the first matched node. */
  function First(doc: Document, selector: Selector): string
    requires HasNode(doc, selector)
  {
    Filter(doc, selector)[0]
  }

  /** The ways the extraction of one page can end abnormally.
      EmptyNodeList: `text()` on an empty node list throws
      InvalidArgumentException, a LogicException.
      DifferentHtml: getPrice throws a LogicException for a price with `/`.
      NullPrice: getPrice, declared to return string, returns null; PHP
      raises a TypeError, which is an Error and not a LogicException. */
  datatype Failure = EmptyNodeList | DifferentHtml | NullPrice

  /** Whether `catch (LogicException $e)` catches the failure. */
  predicate IsLogicException(f: Failure) {
    f != NullPrice
  }

  /** A value, or the failure that was thrown instead. */
  datatype Outcome<T> = Ok(value: T) | Throw(failure: Failure)

  /** `$crawler->filter($selector)->text()`: the first node's text, or
      InvalidArgumentException when nothing matches. */
  function Text(doc: Document, selector: Selector): Outcome<string> {
    if HasNode(doc, selector) then Ok(First(doc, selector)) else Throw(EmptyNodeList)
  }
}
