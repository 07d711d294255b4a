/** The top-level script (parser.php:24-93): read the link file line by line,
    keep the lines the URL validator accepts, hand every ten of them to
    processLinksChunk, write the chunk's records where the row cursor points
    and advance the cursor, and after the input ends process the links left
    over.

    The URL validator (`filter_var(..., FILTER_VALIDATE_URL)`) is the
    parameter `isValid`. The network is the parameter `fetch`: `fetch(k,
    links)` is the sequence of bodies that the k-th call of processLinksChunk
    managed to download and read for `links`, in whatever order the requests
    settled. */
module Driver {
  import opened Strings
  import opened Extraction
  import opened Sheets

  /** A chunk is processed when the buffer holds exactly this many links. */
  const ChunkSize: nat := 10

  /** The row cursor's initial value; row 1 holds the header. */
  const FirstDataRow: int := 2

  // ---------------------------------------------------------------------
  // Reading and filtering the input
  // ---------------------------------------------------------------------

  /** Each line with its newline characters removed. */
  function Stripped(lines: seq<string>): (links: seq<string>)
    ensures |links| == |lines|
    ensures forall k :: 0 <= k < |lines| ==> links[k] == StripNewlines(lines[k])
    decreases |lines|
  {
    if lines == [] then []
    else Stripped(lines[..|lines| - 1]) + [StripNewlines(lines[|lines| - 1])]
  }

  /** Every link is accepted by the validator and holds no newline. */
  predicate AllValid(links: seq<string>, isValid: string -> bool) {
    forall j :: 0 <= j < |links| ==> isValid(links[j]) && '\n' !in links[j]
  }

  /** The links the loop buffers: each line without newlines, kept when the
      validator accepts it, in input order. */
  function ValidLinks(lines: seq<string>, isValid: string -> bool): (links: seq<string>)
    ensures AllValid(links, isValid)
    ensures |links| <= |lines|
    decreases |lines|
  {
    if lines == [] then []
    else
      var link := StripNewlines(lines[|lines| - 1]);
      StripNewlinesSpec(lines[|lines| - 1]);
      ValidLinks(lines[..|lines| - 1], isValid) + (if isValid(link) then [link] else [])
  }

  lemma ValidLinksStep(lines: seq<string>, isValid: string -> bool, i: nat)
    requires i < |lines|
    ensures ValidLinks(lines[..i + 1], isValid) ==
      ValidLinks(lines[..i], isValid) +
      (if isValid(StripNewlines(lines[i])) then [StripNewlines(lines[i])] else [])
  {
    assert lines[..i + 1][..i] == lines[..i];
  }

  /** What has been kept after reading some of the lines is a prefix of what
      is kept after reading all of them. */
  lemma {:induction false} ValidLinksPrefix(lines: seq<string>, isValid: string -> bool, i: nat)
    requires i <= |lines|
    ensures ValidLinks(lines[..i], isValid) <= ValidLinks(lines, isValid)
    decreases |lines|
  {
    if i == |lines| {
      assert lines[..i] == lines;
    } else {
      var n := |lines| - 1;
      ValidLinksPrefix(lines[..n], isValid, i);
      assert lines[..n][..i] == lines[..i];
    }
  }

  /** Filtering keeps every occurrence: a link is kept as many times as it
      occurs among the stripped lines when it is valid, and never otherwise,
      so duplicates survive and invalid lines vanish. */
  lemma {:induction false} ValidLinksMultiplicity(lines: seq<string>, isValid: string -> bool, x: string)
    ensures multiset(ValidLinks(lines, isValid))[x] ==
      if isValid(x) then multiset(Stripped(lines))[x] else 0
    decreases |lines|
  {
    if lines != [] {
      ValidLinksMultiplicity(lines[..|lines| - 1], isValid, x);
    }
  }

  /** A link is kept exactly when it is valid and some line strips to it. */
  lemma ValidLinksMembership(lines: seq<string>, isValid: string -> bool, x: string)
    ensures x in ValidLinks(lines, isValid) <==>
      isValid(x) && exists i :: 0 <= i < |lines| && StripNewlines(lines[i]) == x
  {
    ValidLinksMultiplicity(lines, isValid, x);
    var s := Stripped(lines);
    assert x in s <==> exists i :: 0 <= i < |lines| && s[i] == x;
  }

  // ---------------------------------------------------------------------
  // Chunks
  // ---------------------------------------------------------------------

  /** The reference partition: consecutive chunks of ten links, as many as fit. */
  function FullChunks(links: seq<string>): (chunks: seq<seq<string>>)
    ensures forall k :: 0 <= k < |chunks| ==> |chunks[k]| == ChunkSize
    decreases |links|
  {
    if |links| < ChunkSize then [] else [links[..ChunkSize]] + FullChunks(links[ChunkSize..])
  }

  /** The links that do not fill a last chunk of ten. */
  function Remainder(links: seq<string>): (rest: seq<string>)
    ensures |rest| < ChunkSize
    decreases |links|
  {
    if |links| < ChunkSize then links else Remainder(links[ChunkSize..])
  }

  function Flatten(chunks: seq<seq<string>>): seq<string>
    decreases |chunks|
  {
    if chunks == [] then [] else chunks[0] + Flatten(chunks[1..])
  }

  /** The full chunks followed by the remainder give back the links. */
  lemma {:induction false} SplitRecombines(links: seq<string>)
    ensures Flatten(FullChunks(links)) + Remainder(links) == links
    decreases |links|
  {
    if |links| >= ChunkSize {
      SplitRecombines(links[ChunkSize..]);
      assert links == links[..ChunkSize] + links[ChunkSize..];
    }
  }

  /** Chunks of exactly ten followed by fewer than ten leftover links can only
      be the reference partition. */
  lemma {:induction false} SplitUnique(chunks: seq<seq<string>>, rest: seq<string>, links: seq<string>)
    requires forall k :: 0 <= k < |chunks| ==> |chunks[k]| == ChunkSize
    requires |rest| < ChunkSize
    requires Flatten(chunks) + rest == links
    ensures chunks == FullChunks(links) && rest == Remainder(links)
    decreases |chunks|
  {
    if chunks != [] {
      var tail := Flatten(chunks[1..]) + rest;
      assert links == chunks[0] + tail;
      assert links[..ChunkSize] == chunks[0];
      assert links[ChunkSize..] == tail;
      SplitUnique(chunks[1..], rest, tail);
      assert chunks == [chunks[0]] + chunks[1..];
    }
  }

  /** There are n / 10 full chunks and n % 10 links left over, so
      ceil(n / 10) chunks in all once a non-empty remainder is counted. */
  lemma {:induction false} ChunkCount(links: seq<string>)
    ensures |FullChunks(links)| == |links| / ChunkSize
    ensures |Remainder(links)| == |links| % ChunkSize
    ensures |FullChunks(links)| + (if Remainder(links) == [] then 0 else 1) ==
      (|links| + ChunkSize - 1) / ChunkSize
    decreases |links|
  {
    if |links| >= ChunkSize {
      ChunkCount(links[ChunkSize..]);
    }
  }

  /** Reading one more valid link either completes the buffer, which then
      becomes the next full chunk and is emptied, or just extends it. */
  lemma {:induction false} SplitSnoc(links: seq<string>, x: string)
    ensures |Remainder(links)| + 1 == ChunkSize ==>
      FullChunks(links + [x]) == FullChunks(links) + [Remainder(links) + [x]] &&
      Remainder(links + [x]) == []
    ensures |Remainder(links)| + 1 < ChunkSize ==>
      FullChunks(links + [x]) == FullChunks(links) &&
      Remainder(links + [x]) == Remainder(links) + [x]
    decreases |links|
  {
    var v := links + [x];
    if |links| < ChunkSize {
      if |links| + 1 == ChunkSize {
        assert v[..ChunkSize] == v && v[ChunkSize..] == [];
      }
    } else {
      assert v[..ChunkSize] == links[..ChunkSize];
      assert v[ChunkSize..] == links[ChunkSize..] + [x];
      SplitSnoc(links[ChunkSize..], x);
    }
  }

  /** More links never undo a full chunk: the full chunks of a prefix are a
      prefix of the full chunks. */
  lemma {:induction false} FullChunksPrefix(a: seq<string>, b: seq<string>)
    requires a <= b
    ensures FullChunks(a) <= FullChunks(b)
    decreases |a|
  {
    if |a| >= ChunkSize {
      assert a[..ChunkSize] == b[..ChunkSize];
      assert a[ChunkSize..] <= b[ChunkSize..];
      FullChunksPrefix(a[ChunkSize..], b[ChunkSize..]);
    }
  }

  /** The chunks of valid links hold only valid links. */
  lemma {:induction false} ChunksOfValidLinks(links: seq<string>, isValid: string -> bool)
    requires AllValid(links, isValid)
    ensures forall k :: 0 <= k < |FullChunks(links)| ==> AllValid(FullChunks(links)[k], isValid)
    ensures AllValid(Remainder(links), isValid)
    decreases |links|
  {
    if |links| >= ChunkSize {
      ChunksOfValidLinks(links[ChunkSize..], isValid);
      assert AllValid(links[..ChunkSize], isValid);
      assert AllValid(links[ChunkSize..], isValid);
    }
  }

  // ---------------------------------------------------------------------
  // The reading loop, step by step
  // ---------------------------------------------------------------------

  /** The loop's link state: the chunks handed over so far and the buffer. */
  datatype Buffer = Buffer(chunks: seq<seq<string>>, links: seq<string>)

  /** One iteration's read of `line` (parser.php:44-50, 64): the stripped
      line joins the buffer when it is valid, and a buffer of ten is handed
      over as the next chunk and emptied. */
  function Push(b: Buffer, line: string, isValid: string -> bool): Buffer {
    var link := StripNewlines(line);
    var links := if isValid(link) then b.links + [link] else b.links;
    if |links| == ChunkSize then Buffer(b.chunks + [links], []) else Buffer(b.chunks, links)
  }

  /** The link state after the first `n` lines. */
  function Read(lines: seq<string>, isValid: string -> bool, n: nat): Buffer
    requires n <= |lines|
  {
    if n == 0 then Buffer([], []) else Push(Read(lines, isValid, n - 1), lines[n - 1], isValid)
  }

  /** Reading line by line hands over exactly the reference partition of the
      valid links read so far and buffers its remainder. */
  lemma {:induction false} ReadIsPartition(lines: seq<string>, isValid: string -> bool, n: nat)
    requires n <= |lines|
    ensures Read(lines, isValid, n) ==
      Buffer(FullChunks(ValidLinks(lines[..n], isValid)), Remainder(ValidLinks(lines[..n], isValid)))
  {
    if n == 0 {
      assert lines[..0] == [];
    } else {
      var i := n - 1;
      ReadIsPartition(lines, isValid, i);
      ValidLinksStep(lines, isValid, i);
      var v := ValidLinks(lines[..i], isValid);
      var link := StripNewlines(lines[i]);
      if isValid(link) {
        SplitSnoc(v, link);
      } else {
        assert ValidLinks(lines[..n], isValid) == v;
      }
    }
  }

  // ---------------------------------------------------------------------
  // Records across chunks
  // ---------------------------------------------------------------------

  /** The chunks processLinksChunk is called on, in call order, once every
      line has been read: the full chunks, then the leftover links if any. */
  function Calls(links: seq<string>): (calls: seq<seq<string>>)
    ensures FullChunks(links) <= calls
  {
    FullChunks(links) + (if Remainder(links) == [] then [] else [Remainder(links)])
  }

  /** The calls inside the loop receive exactly ten links each and the one
      after it between one and nine; together they receive every valid link
      once, in input order. */
  lemma CallsPartition(links: seq<string>)
    ensures forall k :: 0 <= k < |FullChunks(links)| ==> |Calls(links)[k]| == ChunkSize
    ensures |Calls(links)| > |FullChunks(links)| ==>
      |Calls(links)| == |FullChunks(links)| + 1 && 0 < |Calls(links)[|FullChunks(links)|]| < ChunkSize
    ensures Flatten(Calls(links)) == links
  {
    var full := FullChunks(links);
    SplitRecombines(links);
    if Remainder(links) != [] {
      FlattenSnoc(full, Remainder(links));
    } else {
      assert Calls(links) == full;
    }
  }

  /** No chunk receives a link the validator rejects, nor one that no input
      line strips to. */
  lemma CallsHoldInputLinks(lines: seq<string>, isValid: string -> bool, k: nat, x: string)
    requires k < |Calls(ValidLinks(lines, isValid))| && x in Calls(ValidLinks(lines, isValid))[k]
    ensures isValid(x) && exists i :: 0 <= i < |lines| && StripNewlines(lines[i]) == x
  {
    var v := ValidLinks(lines, isValid);
    CallsPartition(v);
    InFlatten(Calls(v), k, x);
    ValidLinksMembership(lines, isValid, x);
  }

  lemma {:induction false} InFlatten(chunks: seq<seq<string>>, k: nat, x: string)
    requires k < |chunks| && x in chunks[k]
    ensures x in Flatten(chunks)
    decreases |chunks|
  {
    if k > 0 {
      InFlatten(chunks[1..], k - 1, x);
    }
  }

  lemma {:induction false} FlattenSnoc(chunks: seq<seq<string>>, c: seq<string>)
    ensures Flatten(chunks + [c]) == Flatten(chunks) + c
    decreases |chunks|
  {
    if chunks == [] {
      assert [c][1..] == [];
    } else {
      assert (chunks + [c])[1..] == chunks[1..] + [c];
      FlattenSnoc(chunks[1..], c);
    }
  }

  /** The records a resolved promise hands to writeToSheet; a crashed chunk
      resolves to none, since its promise rejects. */
  function RecordsOf(h: Harvested): seq<Record> {
    if h.Crashed? then [] else h.records
  }

  /** The k-th call of processLinksChunk, on `chunks[k]` with the bodies
      `fetch(k, chunks[k])`, resolved to `results[k]`. */
  predicate Resolved(fetch: (nat, seq<string>) -> seq<Page>, chunks: seq<seq<string>>,
                     results: seq<Harvested>) {
    |results| == |chunks| &&
    forall k {:trigger Harvest(fetch(k, chunks[k]))} ::
      0 <= k < |chunks| ==> results[k] == Harvest(fetch(k, chunks[k]))
  }

  lemma ResolvedSnoc(fetch: (nat, seq<string>) -> seq<Page>, chunks: seq<seq<string>>,
                     results: seq<Harvested>, c: seq<string>, h: Harvested)
    requires Resolved(fetch, chunks, results) && h == Harvest(fetch(|chunks|, c))
    ensures Resolved(fetch, chunks + [c], results + [h])
  {
    forall k | 0 <= k < |chunks| + 1
      ensures (results + [h])[k] == Harvest(fetch(k, (chunks + [c])[k]))
    {
      if k < |chunks| {
        assert (chunks + [c])[k] == chunks[k] && (results + [h])[k] == results[k];
      }
    }
  }

  /** The records of successive results, in call order. */
  function Delivered(results: seq<Harvested>): seq<Record>
    decreases |results|
  {
    if results == [] then []
    else Delivered(results[..|results| - 1]) + RecordsOf(results[|results| - 1])
  }

  lemma DeliveredStep(results: seq<Harvested>, h: Harvested)
    ensures Delivered(results + [h]) == Delivered(results) + RecordsOf(h)
  {
    assert (results + [h])[..|results|] == results;
  }

  /** Every record that reaches the sheet was extracted from a non-empty
      body of some chunk, so its price has no `/` and its quantity is a
      numeral. */
  lemma {:induction false} DeliveredComesFromBodies(fetch: (nat, seq<string>) -> seq<Page>,
                                                    chunks: seq<seq<string>>, results: seq<Harvested>, r: Record)
    requires Resolved(fetch, chunks, results)
    requires r in Delivered(results)
    ensures exists k :: 0 <= k < |chunks| && !results[k].Crashed? && r in Records(fetch(k, chunks[k]))
    ensures '/' !in r.price && IsNumeral(r.qty)
    decreases |results|
  {
    var n := |results| - 1;
    if r in Delivered(results[..n]) {
      assert Resolved(fetch, chunks[..n], results[..n]) by {
        assert forall k :: 0 <= k < n ==> chunks[..n][k] == chunks[k] && results[..n][k] == results[k];
      }
      DeliveredComesFromBodies(fetch, chunks[..n], results[..n], r);
      var k :| 0 <= k < n && !results[..n][k].Crashed? && r in Records(fetch(k, chunks[..n][k]));
      assert results[..n][k] == results[k] && chunks[..n][k] == chunks[k];
    } else {
      assert r in RecordsOf(results[n]) && results[n] == Harvest(fetch(n, chunks[n]));
      RecordsComeFromBodies(fetch(n, chunks[n]), r);
    }
  }

  /** No call so far crashed. */
  predicate NoneCrash(results: seq<Harvested>) {
    forall k :: 0 <= k < |results| ==> !results[k].Crashed?
  }

  /** The last call crashed and none before it did: the script ended there. */
  predicate EndedByCrash(results: seq<Harvested>) {
    results != [] && results[|results| - 1].Crashed? && NoneCrash(results[..|results| - 1])
  }

  lemma NoneCrashSnoc(results: seq<Harvested>, h: Harvested)
    ensures NoneCrash(results + [h]) <==> NoneCrash(results) && !h.Crashed?
  {
    assert (results + [h])[|results|] == h;
    assert forall k :: 0 <= k < |results| ==> (results + [h])[k] == results[k];
  }

  /** When no chunk crashed, the sheet receives the records of every chunk,
      chunk after chunk. */
  lemma {:induction false} DeliveredWithoutCrash(fetch: (nat, seq<string>) -> seq<Page>,
                                                 chunks: seq<seq<string>>, results: seq<Harvested>, k: nat)
    requires Resolved(fetch, chunks, results) && NoneCrash(results) && k < |chunks|
    ensures Delivered(results[..k + 1]) == Delivered(results[..k]) + Records(fetch(k, chunks[k]))
  {
    assert results[..k + 1] == results[..k] + [results[k]];
    assert results[k] == Harvest(fetch(k, chunks[k]));
    DeliveredStep(results[..k], results[k]);
  }

  /** processLinksChunk: fetch the bodies, then run the extraction loop. */
  method ProcessLinksChunk(links: seq<string>, fetch: (nat, seq<string>) -> seq<Page>, k: nat)
    returns (h: Harvested)
    ensures h == Harvest(fetch(k, links))
  {
    var bodies := fetch(k, links);
    h := ProcessBodies(bodies);
  }

  // ---------------------------------------------------------------------
  // The script
  // ---------------------------------------------------------------------

  /** `wait(processLinksChunk($links))` followed by writeToSheet at the row
      cursor. When the chunk crashes, `wait` rethrows and nothing is written. */
  method ProcessAndWrite(sheet: Spreadsheet, rowIndex: int, links: seq<string>,
                         fetch: (nat, seq<string>) -> seq<Page>, k: nat, ghost delivered: seq<Record>)
    returns (h: Harvested)
    requires sheet.cells == Written(HeaderRow(), FirstDataRow, delivered)
    requires rowIndex == FirstDataRow + |delivered|
    modifies sheet
    ensures h == Harvest(fetch(k, links))
    ensures sheet.cells == Written(HeaderRow(), FirstDataRow, delivered + RecordsOf(h))
  {
    h := ProcessLinksChunk(links, fetch, k);
    if h.Crashed? {
      assert delivered + RecordsOf(h) == delivered;
      return;
    }
    WrittenConcat(HeaderRow(), FirstDataRow, delivered, h.records);
    sheet.WriteToSheet(rowIndex, h.records);
  }

  /** One pass of the loop body (parser.php:44-70) on the line `line`: the
      link joins the buffer when it is valid, and a full buffer is processed,
      written at the cursor and emptied, the cursor moving past its records.
      A crash of the chunk ends the pass before anything is written. */
  method ReadLine(sheet: Spreadsheet, line: string, isValid: string -> bool,
                  fetch: (nat, seq<string>) -> seq<Page>, rowIndex: int, links: seq<string>,
                  ghost chunks: seq<seq<string>>, ghost results: seq<Harvested>, full: nat)
    returns (rowIndex': int, links': seq<string>, crashed: bool,
             ghost chunks': seq<seq<string>>, ghost results': seq<Harvested>, full': nat)
    requires full == |chunks|
    requires Resolved(fetch, chunks, results) && NoneCrash(results)
    requires rowIndex == FirstDataRow + |Delivered(results)|
    requires sheet.cells == Written(HeaderRow(), FirstDataRow, Delivered(results))
    modifies sheet
    ensures !crashed ==> Buffer(chunks', links') == Push(Buffer(chunks, links), line, isValid)
    ensures crashed ==> chunks' == Push(Buffer(chunks, links), line, isValid).chunks
    ensures full' == |chunks'|
    ensures Resolved(fetch, chunks', results')
    ensures crashed ==> results' == results + [Crashed]
    ensures !crashed ==> NoneCrash(results')
    ensures sheet.cells == Written(HeaderRow(), FirstDataRow, Delivered(results'))
    ensures rowIndex' == FirstDataRow + |Delivered(results')|
  {
    var link := StripNewlines(line);
    rowIndex', links', crashed := rowIndex, links, false;
    chunks', results', full' := chunks, results, full;
    if isValid(link) {
      links' := links + [link];
    }
    ghost var next := if |links'| == ChunkSize then Buffer(chunks + [links'], []) else Buffer(chunks, links');
    assert Push(Buffer(chunks, links), line, isValid) == next;
    if |links'| == ChunkSize {
      var result := ProcessAndWrite(sheet, rowIndex, links', fetch, full, Delivered(results));
      ResolvedSnoc(fetch, chunks, results, links', result);
      DeliveredStep(results, result);
      chunks', results', full' := chunks + [links'], results + [result], full + 1;
      if result.Crashed? {
        crashed := true;
        return;
      }
      NoneCrashSnoc(results, result);
      rowIndex' := rowIndex + |result.records|;
      links' := [];
    }
  }

  /** The `while (!feof($file))` loop (parser.php:43-71), one line per pass.
      A crashing chunk ends it, since `wait` rethrows. `read` is the number of
      lines read; after a crash the buffer still holds the crashed chunk. */
  method ReadAndProcess(sheet: Spreadsheet, lines: seq<string>, isValid: string -> bool,
                        fetch: (nat, seq<string>) -> seq<Page>)
    returns (rowIndex: int, crashed: bool, links: seq<string>,
             ghost chunks: seq<seq<string>>, ghost results: seq<Harvested>, full: nat, ghost read: nat)
    requires sheet.cells == HeaderRow()
    modifies sheet
    ensures full == |chunks|
    ensures read <= |lines|
    ensures Resolved(fetch, chunks, results)
    ensures !crashed ==>
      read == |lines| && Buffer(chunks, links) == Read(lines, isValid, |lines|) && NoneCrash(results)
    ensures crashed ==>
      chunks == Read(lines, isValid, read).chunks &&
      EndedByCrash(results)
    ensures sheet.cells == Written(HeaderRow(), FirstDataRow, Delivered(results))
    ensures rowIndex == FirstDataRow + |Delivered(results)|
  {
    rowIndex, crashed, links := FirstDataRow, false, [];
    chunks, results, full := [], [], 0;
    var i := 0;
    while i < |lines|
      invariant 0 <= i <= |lines|
      invariant full == |chunks|
      invariant Buffer(chunks, links) == Read(lines, isValid, i)
      invariant Resolved(fetch, chunks, results) && NoneCrash(results)
      invariant rowIndex == FirstDataRow + |Delivered(results)|
      invariant sheet.cells == Written(HeaderRow(), FirstDataRow, Delivered(results))
    {
      ghost var before := results;
      assert Read(lines, isValid, i + 1) == Push(Read(lines, isValid, i), lines[i], isValid);
      rowIndex, links, crashed, chunks, results, full :=
        ReadLine(sheet, lines[i], isValid, fetch, rowIndex, links, chunks, results, full);
      if crashed {
        read := i + 1;
        assert results[..|results| - 1] == before;
        return;
      }
      i := i + 1;
    }
    read := i;
  }

  /** What the loop leaves behind, in terms of the partition of all valid
      links: the chunks it handed over come first among the calls, they are
      all the full chunks when it ran to the end, and then the buffer is the
      remainder. */
  lemma LoopPartition(lines: seq<string>, isValid: string -> bool, read: nat, crashed: bool,
                      chunks: seq<seq<string>>, links: seq<string>)
    requires read <= |lines|
    requires !crashed ==> read == |lines| && Buffer(chunks, links) == Read(lines, isValid, |lines|)
    requires crashed ==> chunks == Read(lines, isValid, read).chunks
    ensures chunks <= Calls(ValidLinks(lines, isValid))
    ensures !crashed ==>
      chunks == FullChunks(ValidLinks(lines, isValid)) && links == Remainder(ValidLinks(lines, isValid))
  {
    var v := ValidLinks(lines, isValid);
    ReadIsPartition(lines, isValid, read);
    if crashed {
      ValidLinksPrefix(lines, isValid, read);
      FullChunksPrefix(ValidLinks(lines[..read], isValid), v);
    } else {
      assert lines[..read] == lines;
    }
    assert FullChunks(v) <= Calls(v);
  }

  /** What follows the loop when it ran to the end (parser.php:74-93): the
      links left over, if any, are processed as one more chunk and written
      at the cursor, unless that chunk crashes. */
  method ProcessLeftover(sheet: Spreadsheet, rowIndex: int, links: seq<string>,
                         fetch: (nat, seq<string>) -> seq<Page>,
                         ghost chunks: seq<seq<string>>, ghost results: seq<Harvested>, full: nat)
    returns (completed: bool, ghost chunks': seq<seq<string>>, ghost results': seq<Harvested>)
    requires full == |chunks|
    requires Resolved(fetch, chunks, results) && NoneCrash(results)
    requires rowIndex == FirstDataRow + |Delivered(results)|
    requires sheet.cells == Written(HeaderRow(), FirstDataRow, Delivered(results))
    modifies sheet
    ensures chunks' == chunks + (if links == [] then [] else [links])
    ensures Resolved(fetch, chunks', results')
    ensures results'[..full] == results
    ensures completed <==> NoneCrash(results')
    ensures !completed ==>
      EndedByCrash(results')
    ensures sheet.cells == Written(HeaderRow(), FirstDataRow, Delivered(results'))
  {
    completed, chunks', results' := true, chunks, results;
    assert results[..full] == results;
    if links != [] {
      var result := ProcessAndWrite(sheet, rowIndex, links, fetch, full, Delivered(results));
      ResolvedSnoc(fetch, chunks, results, links, result);
      DeliveredStep(results, result);
      NoneCrashSnoc(results, result);
      chunks', results' := chunks + [links], results + [result];
      completed := !result.Crashed?;
      assert results'[..full] == results;
    }
  }

  /** The whole script after the header: the loop, then the leftover links
      processed and written at the cursor, which is not advanced afterwards
      (parser.php:43-93). `chunks` are the link lists handed to
      processLinksChunk, in call order, and `results` what each call
      resolved to; `completed` is false when a chunk failed with the
      uncaught TypeError, which ends the script at that chunk. */
  method Run(lines: seq<string>, isValid: string -> bool, fetch: (nat, seq<string>) -> seq<Page>)
    returns (sheet: Spreadsheet, rowIndex: int, completed: bool,
             ghost chunks: seq<seq<string>>, ghost results: seq<Harvested>)
    ensures fresh(sheet)
    ensures chunks <= Calls(ValidLinks(lines, isValid))
    ensures completed ==> chunks == Calls(ValidLinks(lines, isValid))
    ensures Resolved(fetch, chunks, results)
    ensures completed <==> NoneCrash(results)
    ensures !completed ==>
      EndedByCrash(results)
    ensures sheet.cells == Written(HeaderRow(), FirstDataRow, Delivered(results))
    ensures completed ==>
      rowIndex == FirstDataRow + |Delivered(results[..|FullChunks(ValidLinks(lines, isValid))|])|
  {
    sheet := new Spreadsheet();
    var crashed, links, full;
    ghost var read;
    rowIndex, crashed, links, chunks, results, full, read := ReadAndProcess(sheet, lines, isValid, fetch);
    LoopPartition(lines, isValid, read, crashed, chunks, links);
    if crashed {
      completed := false;
      assert !NoneCrash(results) by {
        assert results[|results| - 1].Crashed?;
      }
      return;
    }
    ghost var v := ValidLinks(lines, isValid);
    ghost var loopResults := results;
    assert full == |FullChunks(v)|;
    completed, chunks, results := ProcessLeftover(sheet, rowIndex, links, fetch, chunks, results, full);
    assert chunks == Calls(v);
    assert results[..|FullChunks(v)|] == loopResults;
  }
}
