/** The extraction part of processLinksChunk: each fetched body becomes at
    most one record, pages of an unknown layout are rejected without
    stopping the chunk, and the one failure the `catch` does not handle
    (the TypeError of getPrice) ends the chunk. */
module Extraction {
  import opened Strings
  import opened Dom
  import opened Fields

  /** One scraped product, as the array literal at parser.php:137-143 builds it. */
  datatype Record = Record(price: string, name: string, sku: string, upc: string, qty: string)

  /** What the inner try/catch reports for a rejected page: a product of a
      different layout (its name still readable) or a captcha page. */
  datatype Diagnostic = DifferentHtmlProduct(name: string) | CaptchaPage

  /** The fate of one non-empty body. */
  datatype Classified = Extracted(record: Record) | Rejected(diagnostic: Diagnostic) | Fatal

  /** One fetched body together with its parse by the Crawler. */
  datatype Page = Page(body: string, doc: Document)

  /** The `catch (LogicException $e)` block: a LogicException rejects the page,
      reporting its name when the name is readable; anything else escapes. */
  function Catch(doc: Document, f: Failure): Classified {
    if !IsLogicException(f) then Fatal
    else match Text(doc, Name)
      case Ok(name) => Rejected(DifferentHtmlProduct(name))
      case Throw(_) => Rejected(CaptchaPage)
  }

  /** The page carries every element the record needs and an acceptable price. */
  predicate Extractable(doc: Document) {
    HasNode(doc, Name) && HasNode(doc, Sku) && HasNode(doc, PriceV1) &&
    if Count(doc, PricingSpans) == 2 then '/' !in First(doc, PriceV1)
    else HasNode(doc, PriceV2) && PriceToken(First(doc, PriceV2)).Some?
  }

  /** The page makes getPrice return null. */
  predicate Crashing(doc: Document) {
    HasNode(doc, Name) && Count(doc, PricingSpans) != 2 &&
    HasNode(doc, PriceV2) && PriceToken(First(doc, PriceV2)).None?
  }

  /** The try block at parser.php:133-143, in PHP's order of evaluation: the
      span count, the name, then the array elements price, sku, upc, qty. */
  function Extract(doc: Document): Classified
  {
    var pricingSpansCount := Count(doc, PricingSpans);
    match Text(doc, Name)
    case Throw(f) => Catch(doc, f)
    case Ok(productName) =>
      match GetPrice(doc, pricingSpansCount)
      case Throw(f) => Catch(doc, f)
      case Ok(price) =>
        match Text(doc, Sku)
        case Throw(f) => Catch(doc, f)
        case Ok(sku) =>
          var upc := if CheckUpcAvailable(doc) then Text(doc, Upc).value else "-";
          match GetQty(doc, pricingSpansCount, productName)
          case Throw(f) => Catch(doc, f)
          case Ok(qty) => Extracted(Record(price, productName, sku, upc, qty))
  }

  /** What extraction decides for a page: a record exactly when every
      required element is present and the price is acceptable, a crash
      exactly when the paragraph price has no number, a rejection otherwise;
      and what each field of the record is. */
  lemma ExtractSpec(doc: Document, c: Classified)
    requires c == Extract(doc)
    ensures c.Extracted? <==> Extractable(doc)
    ensures c.Fatal? <==> Crashing(doc)
    ensures c.Rejected? ==> (c.diagnostic == CaptchaPage <==> !HasNode(doc, Name))
    ensures c.Rejected? && HasNode(doc, Name) ==> c.diagnostic.name == First(doc, Name)
    ensures c.Extracted? ==>
      c.record.name == First(doc, Name) && c.record.sku == First(doc, Sku)
    ensures c.Extracted? ==> '/' !in c.record.price && IsNumeral(c.record.qty)
    ensures c.Extracted? && Count(doc, PricingSpans) == 2 ==>
      c.record.price == First(doc, PriceV1)
    ensures c.Extracted? && Count(doc, PricingSpans) != 2 ==>
      Some(c.record.price) == PriceToken(First(doc, PriceV2))
    ensures c.Extracted? ==>
      c.record.upc == if HasNode(doc, Upc) then First(doc, Upc) else "-"
    ensures c.Extracted? ==>
      c.record.qty == if First(doc, PriceV1) == "/Each" then "1" else QtyFromName(c.record.name)
  {
  }

  /** The records one body contributes: none for an empty body, a rejected
      page or a crash, one for an extracted page. */
  function Yield(p: Page): (r: seq<Record>)
    ensures |r| <= 1
    ensures p.body == "" ==> r == []
    ensures r != [] <==> p.body != "" && Extract(p.doc).Extracted?
    ensures r != [] ==> r[0] == Extract(p.doc).record
  {
    if p.body == "" then []
    else match Extract(p.doc)
      case Extracted(rec) => [rec]
      case _ => []
  }

  /** A non-empty body whose extraction escapes the catch. */
  predicate FatalPage(p: Page) {
    p.body != "" && Extract(p.doc).Fatal?
  }

  /** The records of a chunk's bodies, in body order. */
  function Records(pages: seq<Page>): seq<Record>
    decreases |pages|
  {
    if pages == [] then []
    else Records(pages[..|pages| - 1]) + Yield(pages[|pages| - 1])
  }

  /** What processLinksChunk delivers: the records, or nothing at all when
      some body raised the uncaught TypeError, which fails the promise. */
  datatype Harvested = Harvested(records: seq<Record>) | Crashed

  /** Some body of the chunk raises the uncaught error. */
  predicate Crashes(pages: seq<Page>)
    decreases |pages|
  {
    pages != [] && (Crashes(pages[..|pages| - 1]) || FatalPage(pages[|pages| - 1]))
  }

  function Harvest(pages: seq<Page>): Harvested {
    if Crashes(pages) then Crashed else Harvested(Records(pages))
  }

  /** A fatal body makes its chunk crash. */
  lemma {:induction false} FatalBodyCrashes(pages: seq<Page>, k: nat)
    requires k < |pages| && FatalPage(pages[k])
    ensures Crashes(pages)
    decreases |pages|
  {
    var n := |pages| - 1;
    if k < n {
      assert pages[..n][k] == pages[k];
      FatalBodyCrashes(pages[..n], k);
    }
  }

  /** A crashing chunk has a fatal body. */
  lemma {:induction false} CrashHasFatalBody(pages: seq<Page>)
    requires Crashes(pages)
    ensures exists k :: 0 <= k < |pages| && FatalPage(pages[k])
    decreases |pages|
  {
    var n := |pages| - 1;
    if !FatalPage(pages[n]) {
      CrashHasFatalBody(pages[..n]);
      var k :| 0 <= k < n && FatalPage(pages[..n][k]);
      assert pages[k] == pages[..n][k];
    }
  }

  /** A chunk crashes exactly when one of its bodies is fatal. */
  lemma CrashesIffFatalBody(pages: seq<Page>)
    ensures Crashes(pages) <==> exists k :: 0 <= k < |pages| && FatalPage(pages[k])
  {
    if Crashes(pages) {
      CrashHasFatalBody(pages);
    }
    forall k | 0 <= k < |pages| && FatalPage(pages[k])
      ensures Crashes(pages)
    {
      FatalBodyCrashes(pages, k);
    }
  }

  lemma PrefixStep(pages: seq<Page>, i: nat)
    requires i < |pages|
    ensures Records(pages[..i + 1]) == Records(pages[..i]) + Yield(pages[i])
    ensures Crashes(pages[..i + 1]) == (Crashes(pages[..i]) || FatalPage(pages[i]))
  {
    assert pages[..i + 1][..i] == pages[..i];
  }

  lemma YieldOfNonEmpty(p: Page, c: Classified)
    requires p.body != "" && c == Extract(p.doc)
    ensures Yield(p) == if c.Extracted? then [c.record] else []
    ensures FatalPage(p) <==> c.Fatal?
  {
  }

  /** The bodies of a chunk are independent: the records of two stretches of
      bodies are the records of the first followed by those of the second. */
  lemma {:induction false} RecordsAppend(a: seq<Page>, b: seq<Page>)
    ensures Records(a + b) == Records(a) + Records(b)
    decreases |b|
  {
    if b == [] {
      assert a + b == a;
    } else {
      var b' := b[..|b| - 1];
      assert (a + b)[..|a + b| - 1] == a + b';
      assert (a + b)[|a + b| - 1] == b[|b| - 1];
      RecordsAppend(a, b');
    }
  }

  /** An empty or rejected body contributes nothing and does not stop the
      bodies after it. */
  lemma SkippedBodyContributesNothing(a: seq<Page>, p: Page, b: seq<Page>)
    requires p.body == "" || Extract(p.doc).Rejected?
    ensures Records(a + [p] + b) == Records(a) + Records(b)
  {
    var q := a + [p];
    assert q[..|q| - 1] == a && q[|q| - 1] == p;
    assert Yield(p) == [];
    RecordsAppend(q, b);
  }

  /** At most one record per body. */
  lemma {:induction false} RecordsBound(pages: seq<Page>)
    ensures |Records(pages)| <= |pages|
    decreases |pages|
  {
    if pages != [] {
      RecordsBound(pages[..|pages| - 1]);
    }
  }

  /** Every delivered record is the extraction of some non-empty body, so it
      has a price without `/` and a numeral quantity. */
  lemma {:induction false} RecordsComeFromBodies(pages: seq<Page>, r: Record)
    requires r in Records(pages)
    ensures exists k :: 0 <= k < |pages| && pages[k].body != "" && Extract(pages[k].doc) == Extracted(r)
    ensures '/' !in r.price && IsNumeral(r.qty)
    decreases |pages|
  {
    var n := |pages| - 1;
    if r in Records(pages[..n]) {
      RecordsComeFromBodies(pages[..n], r);
      var k :| 0 <= k < n && pages[..n][k].body != "" && Extract(pages[..n][k].doc) == Extracted(r);
      assert pages[k] == pages[..n][k];
    } else {
      assert r in Yield(pages[n]);
      ExtractSpec(pages[n].doc, Extract(pages[n].doc));
    }
  }

  /** Every non-empty, extractable body yields its record. */
  lemma {:induction false} ExtractedBodyDelivered(pages: seq<Page>, k: nat)
    requires k < |pages| && pages[k].body != "" && Extract(pages[k].doc).Extracted?
    ensures Extract(pages[k].doc).record in Records(pages)
  {
    assert pages == pages[..k] + [pages[k]] + pages[k + 1..];
    RecordsAppend(pages[..k] + [pages[k]], pages[k + 1..]);
    RecordsAppend(pages[..k], [pages[k]]);
    assert Records([pages[k]]) == Records([]) + Yield(pages[k]);
  }

  /** The extraction loop of processLinksChunk (parser.php:125-155). */
  method ProcessBodies(pages: seq<Page>) returns (h: Harvested)
    ensures h == Harvest(pages)
  {
    var result: seq<Record> := [];
    var i := 0;
    while i < |pages|
      invariant 0 <= i <= |pages|
      invariant !Crashes(pages[..i])
      invariant result == Records(pages[..i])
    {
      PrefixStep(pages, i);
      if pages[i].body != "" {
        var c := Extract(pages[i].doc);
        YieldOfNonEmpty(pages[i], c);
        match c
        case Fatal =>
          CrashesIffFatalBody(pages);
          return Crashed;
        case Extracted(rec) =>
          result := result + [rec];
        case Rejected(_) =>
      }
      i := i + 1;
    }
    assert pages[..i] == pages;
    return Harvested(result);
  }
}
