// The paged search loop: one SearchRequest per page, however the page's
// results are split across reads.

module Search {
  import opened Bytes

  // A message of a search response: a record, or the searchResDone with its
  // verdict and whether _handleControls says no page is left.
  datatype Message = Record(result: bytes) | Done(success: bool, last: bool)

  // The transport as search uses it: requests go out under consecutive message
  // IDs, and each recv() takes one batch; none left means a closed connection.
  class SearchTransport {
    var nextMessageId: nat
    var requestIds: seq<nat>
    var batches: seq<seq<Message>>

    constructor (batches: seq<seq<Message>>)
      ensures this.batches == batches && nextMessageId == 1 && requestIds == []
    {
      this.batches, nextMessageId, requestIds := batches, 1, [];
    }

    method SendRequest()
      modifies this`nextMessageId, this`requestIds
      ensures requestIds == old(requestIds) + [old(nextMessageId)]
      ensures nextMessageId == old(nextMessageId) + 1
    {
      requestIds := requestIds + [nextMessageId];
      nextMessageId := nextMessageId + 1;
    }

    method Recv() returns (batch: seq<Message>)
      modifies this`batches
      ensures old(batches) == [] ==> batch == [] && batches == []
      ensures old(batches) != [] ==> [batch] + batches == old(batches)
    {
      if batches == [] {
        batch := [];
      } else {
        batch, batches := batches[0], batches[1..];
      }
    }
  }

  // ---- what the loop computes ----

  datatype Progress = Progress(records: seq<bytes>, pageDone: bool, done: bool, failed: bool)

  // One batch, message by message; an unsuccessful searchResDone raises.
  function ReadMessages(batch: seq<Message>, p: Progress): Progress {
    if batch == [] || p.failed then p
    else match batch[0]
      case Record(x) => ReadMessages(batch[1..], p.(records := p.records + [x]))
      case Done(success, last) =>
        if !success then p.(pageDone := true, failed := true)
        else ReadMessages(batch[1..], p.(pageDone := true, done := last))
  }

  datatype Outcome = Found | ClosedEarly | SearchError

  datatype Searched = Searched(outcome: Outcome, records: seq<bytes>, requests: nat, rest: seq<seq<Message>>)

  // From inside a page.
  function SearchOn(batches: seq<seq<Message>>, records: seq<bytes>, requests: nat): Searched
    decreases |batches|
  {
    if batches == [] then Searched(ClosedEarly, records, requests, [])
    else if batches[0] == [] then Searched(ClosedEarly, records, requests, batches[1..])
    else
      var p := ReadMessages(batches[0], Progress(records, false, false, false));
      if p.failed then Searched(SearchError, p.records, requests, batches[1..])
      else if p.pageDone && p.done then Searched(Found, p.records, requests, batches[1..])
      else SearchOn(batches[1..], p.records, if p.pageDone then requests + 1 else requests)
  }

  // The connection holds these pages next, and then whatever comes after them.
  predicate Holds(batches: seq<seq<Message>>, pages: seq<Page>, rest: seq<seq<Message>>) {
    && pages != [] && (forall k :: 0 <= k < |pages| ==> pages[k].Valid())
    && batches == AllBatches(pages) + rest
  }

  lemma PagesAreFound(batches: seq<seq<Message>>)
    ensures forall pages, rest :: Holds(batches, pages, rest) ==>
              SearchOn(batches, [], 1) == Searched(Found, AllRecords(pages), |pages|, rest)
  {
    forall pages, rest | Holds(batches, pages, rest)
      ensures SearchOn(batches, [], 1) == Searched(Found, AllRecords(pages), |pages|, rest)
    {
      PagedSearchAccounts(pages, rest, [], 1);
    }
  }

  // n IDs from first on.
  function Consecutive(first: nat, n: nat): seq<nat> {
    seq(n, i requires 0 <= i < n => first + i)
  }

  // LDAPTransport.search. Records go to the answers, or with a callback to it,
  // in the order they arrive: from a server that pages, all of them, for one
  // request a page.
  method SearchAll(t: SearchTransport, perRecordCallback: bool)
    returns (outcome: Outcome, answers: seq<bytes>, calledBack: seq<bytes>)
    modifies t
    ensures var s := SearchOn(old(t.batches), [], 1);
            && outcome == s.outcome && t.batches == s.rest
            && (if perRecordCallback then answers == [] && calledBack == s.records
                else answers == s.records && calledBack == [])
            && t.requestIds == old(t.requestIds) + Consecutive(old(t.nextMessageId), s.requests)
            && t.nextMessageId == old(t.nextMessageId) + s.requests
    ensures forall pages, rest :: Holds(old(t.batches), pages, rest) ==>
              && outcome == Found && t.batches == rest
              && (if perRecordCallback then calledBack else answers) == AllRecords(pages)
              && t.requestIds == old(t.requestIds) + Consecutive(old(t.nextMessageId), |pages|)
  {
    PagesAreFound(t.batches);
    hide Holds;
    answers, calledBack := [], [];
    ghost var records: seq<bytes> := [];
    ghost var result := SearchOn(t.batches, [], 1);
    ghost var requests := 0;
    var done := false;
    while !done
      invariant done ==> result == Searched(Found, records, requests, t.batches)
      invariant !done ==> result == SearchOn(t.batches, records, requests + 1)
      invariant if perRecordCallback then answers == [] && calledBack == records
                else answers == records && calledBack == []
      invariant t.requestIds == old(t.requestIds) + Consecutive(old(t.nextMessageId), requests)
      invariant t.nextMessageId == old(t.nextMessageId) + requests
      decreases |t.batches|, !done
    {
      ghost var ahead := |t.batches|;
      t.SendRequest();
      requests := requests + 1;
      var pageDone := false;
      while !pageDone
        invariant !pageDone ==> !done && result == SearchOn(t.batches, records, requests)
        invariant pageDone && done ==> result == Searched(Found, records, requests, t.batches)
        invariant pageDone && !done ==> result == SearchOn(t.batches, records, requests + 1)
        invariant if perRecordCallback then answers == [] && calledBack == records
                  else answers == records && calledBack == []
        invariant t.requestIds == old(t.requestIds) + Consecutive(old(t.nextMessageId), requests)
        invariant t.nextMessageId == old(t.nextMessageId) + requests
        invariant |t.batches| <= ahead && (pageDone ==> |t.batches| < ahead)
        decreases |t.batches|, !pageDone
      {
        var messages := t.Recv();
        if messages == [] {
          return ClosedEarly, answers, calledBack;
        }
        ghost var after := ReadMessages(messages, Progress(records, false, false, false));
        var i := 0;
        while i < |messages|
          invariant 0 <= i <= |messages| && (!pageDone ==> !done)
          invariant ReadMessages(messages[i..], Progress(records, pageDone, done, false)) == after
          invariant if perRecordCallback then answers == [] && calledBack == records
                    else answers == records && calledBack == []
          decreases |messages| - i
        {
          match messages[i] {
            case Record(x) =>
              if perRecordCallback {
                calledBack := calledBack + [x];
              } else {
                answers := answers + [x];
              }
              records := records + [x];
            case Done(success, last) =>
              pageDone := true;
              if !success {
                return SearchError, answers, calledBack;
              }
              done := last;
          }
          i := i + 1;
        }
      }
    }
    outcome := Found;
  }

  // ---- servers that page ----

  // A page: full batches of records, then a last batch whose searchResDone
  // comes at its end.
  datatype Page = Page(full: seq<seq<bytes>>, final: seq<bytes>) {
    predicate Valid() { forall k :: 0 <= k < |full| ==> full[k] != [] }
  }

  function Records(results: seq<bytes>): seq<Message> {
    seq(|results|, i requires 0 <= i < |results| => Record(results[i]))
  }

  function Flat(batches: seq<seq<bytes>>): seq<bytes> {
    if batches == [] then [] else batches[0] + Flat(batches[1..])
  }

  function PageBatches(p: Page, last: bool): seq<seq<Message>>
    decreases |p.full|
  {
    if p.full == [] then [Records(p.final) + [Done(true, last)]]
    else [Records(p.full[0])] + PageBatches(Page(p.full[1..], p.final), last)
  }

  function AllBatches(pages: seq<Page>): seq<seq<Message>> {
    if pages == [] then [] else PageBatches(pages[0], |pages| == 1) + AllBatches(pages[1..])
  }

  function AllRecords(pages: seq<Page>): seq<bytes> {
    if pages == [] then [] else Flat(pages[0].full) + pages[0].final + AllRecords(pages[1..])
  }

  lemma {:induction false} ReadRecords(results: seq<bytes>, tail: seq<Message>, p: Progress)
    requires !p.failed
    ensures ReadMessages(Records(results) + tail, p) == ReadMessages(tail, p.(records := p.records + results))
    decreases |results|
  {
    if results == [] {
      assert Records(results) + tail == tail && p.records + results == p.records;
    } else {
      var batch := Records(results) + tail;
      assert batch[1..] == Records(results[1..]) + tail;
      ReadRecords(results[1..], tail, p.(records := p.records + [results[0]]));
      assert p.records + [results[0]] + results[1..] == p.records + results;
    }
  }

  // A page is read to its end, and only its end ends it.
  lemma {:induction false} ReadPage(p: Page, last: bool, rest: seq<seq<Message>>, records: seq<bytes>, requests: nat)
    requires p.Valid()
    ensures SearchOn(PageBatches(p, last) + rest, records, requests)
            == (if last then Searched(Found, records + Flat(p.full) + p.final, requests, rest)
                else SearchOn(rest, records + Flat(p.full) + p.final, requests + 1))
    decreases |p.full|
  {
    var batches := PageBatches(p, last) + rest;
    var start := Progress(records, false, false, false);
    if p.full == [] {
      assert batches[1..] == rest;
      ReadRecords(p.final, [Done(true, last)], start);
      assert records + Flat(p.full) + p.final == records + p.final;
    } else {
      var next := Page(p.full[1..], p.final);
      assert batches[1..] == PageBatches(next, last) + rest;
      assert Records(p.full[0]) + [] == Records(p.full[0]);
      ReadRecords(p.full[0], [], start);
      ReadPage(next, last, rest, records + p.full[0], requests);
      assert records + p.full[0] + Flat(next.full) + p.final == records + Flat(p.full) + p.final;
    }
  }

  // However the pages are cut into reads: one request per page, and all the
  // records in order, whatever is left on the connection left there.
  lemma {:induction false} PagedSearchAccounts(pages: seq<Page>, rest: seq<seq<Message>>,
                                               records: seq<bytes>, requests: nat)
    requires pages != [] && forall k :: 0 <= k < |pages| ==> pages[k].Valid()
    ensures SearchOn(AllBatches(pages) + rest, records, requests)
            == Searched(Found, records + AllRecords(pages), requests + |pages| - 1, rest)
    decreases |pages|
  {
    hide SearchOn, PageBatches, Flat, Page.Valid;
    var more := AllBatches(pages[1..]) + rest;
    assert AllBatches(pages) + rest == PageBatches(pages[0], |pages| == 1) + more;
    ReadPage(pages[0], |pages| == 1, more, records, requests);
    var soFar := records + Flat(pages[0].full) + pages[0].final;
    if |pages| == 1 {
      assert more == rest && soFar == records + AllRecords(pages);
    } else {
      PagedSearchAccounts(pages[1..], rest, soFar, requests + 1);
      assert soFar + AllRecords(pages[1..]) == records + AllRecords(pages);
    }
  }

  // ---- servers that do not ----

  // Every page but the last of a search that goes on.
  function OpenBatches(pages: seq<Page>): seq<seq<Message>> {
    if pages == [] then [] else PageBatches(pages[0], false) + OpenBatches(pages[1..])
  }

  lemma {:induction false} OpenPagesAccount(pages: seq<Page>, rest: seq<seq<Message>>,
                                            records: seq<bytes>, requests: nat)
    requires forall k :: 0 <= k < |pages| ==> pages[k].Valid()
    ensures SearchOn(OpenBatches(pages) + rest, records, requests)
         == SearchOn(rest, records + AllRecords(pages), requests + |pages|)
    decreases |pages|
  {
    hide SearchOn, PageBatches, Flat, Page.Valid;
    if pages == [] {
      assert OpenBatches(pages) + rest == rest && records + AllRecords(pages) == records;
    } else {
      var more := OpenBatches(pages[1..]) + rest;
      assert OpenBatches(pages) + rest == PageBatches(pages[0], false) + more;
      ReadPage(pages[0], false, more, records, requests);
      var soFar := records + Flat(pages[0].full) + pages[0].final;
      OpenPagesAccount(pages[1..], rest, soFar, requests + 1);
      assert soFar + AllRecords(pages[1..]) == records + AllRecords(pages);
    }
  }

  // After any whole pages and any full batches of the next, a searchResDone
  // that is not a success ends the search at once: what comes behind it, in its
  // batch or later, is not looked at, and the records so far are reported.
  lemma FailureEndsTheSearch(pages: seq<Page>, next: Page, ignored: seq<Message>, rest: seq<seq<Message>>, last: bool)
    requires next.Valid() && forall k :: 0 <= k < |pages| ==> pages[k].Valid()
    ensures var failing := Records(next.final) + ([Done(false, last)] + ignored);
            var batches := OpenBatches(pages) + (FullBatches(next.full) + ([failing] + rest));
            SearchOn(batches, [], 1)
            == Searched(SearchError, AllRecords(pages) + Flat(next.full) + next.final, |pages| + 1, rest)
  {
    var failing := Records(next.final) + ([Done(false, last)] + ignored);
    var tail := [failing] + rest;
    hide SearchOn, Records, Flat, AllRecords, OpenBatches, FullBatches, Page.Valid;
    OpenPagesAccount(pages, FullBatches(next.full) + tail, [], 1);
    assert [] + AllRecords(pages) == AllRecords(pages);
    FullPart(next, tail, AllRecords(pages), |pages| + 1);
    FailingBatch(next.final, ignored, rest, AllRecords(pages) + Flat(next.full), |pages| + 1, last);
  }

  lemma FullPart(page: Page, rest: seq<seq<Message>>, records: seq<bytes>, requests: nat)
    requires page.Valid()
    ensures SearchOn(FullBatches(page.full) + rest, records, requests)
         == SearchOn(rest, records + Flat(page.full), requests)
  {
    hide SearchOn, FullBatches, Flat;
    FullBatchesAccount(page.full, rest, records, requests);
  }

  lemma FailingBatch(final: seq<bytes>, ignored: seq<Message>, rest: seq<seq<Message>>,
                     records: seq<bytes>, requests: nat, last: bool)
    ensures SearchOn([Records(final) + ([Done(false, last)] + ignored)] + rest, records, requests)
         == Searched(SearchError, records + final, requests, rest)
  {
    var batches := [Records(final) + ([Done(false, last)] + ignored)] + rest;
    assert batches[1..] == rest;
    ReadRecords(final, [Done(false, last)] + ignored, Progress(records, false, false, false));
    hide Records;
  }

  // What stands behind a successful searchResDone in its batch is still read.
  lemma BatchIsReadToItsEnd(before: seq<bytes>, after: seq<bytes>, last: bool, p: Progress)
    requires !p.failed
    ensures ReadMessages(Records(before) + ([Done(true, last)] + Records(after)), p)
         == Progress(p.records + before + after, true, last, false)
  {
    var q := p.(records := p.records + before, pageDone := true, done := last);
    var tail := [Done(true, last)] + Records(after);
    ReadRecords(before, tail, p);
    assert tail[1..] == Records(after);
    ReadRecords(after, [], q);
    assert Records(after) + [] == Records(after);
    hide Records;
  }

  function FullBatches(full: seq<seq<bytes>>): seq<seq<Message>> {
    if full == [] then [] else [Records(full[0])] + FullBatches(full[1..])
  }

  lemma {:induction false} FullBatchesAccount(full: seq<seq<bytes>>, rest: seq<seq<Message>>,
                                              records: seq<bytes>, requests: nat)
    requires forall k :: 0 <= k < |full| ==> full[k] != []
    ensures SearchOn(FullBatches(full) + rest, records, requests) == SearchOn(rest, records + Flat(full), requests)
    decreases |full|
  {
    if full == [] {
      assert FullBatches(full) + rest == rest && records + Flat(full) == records;
    } else {
      var batches := FullBatches(full) + rest;
      assert batches[0] == Records(full[0]) && batches[1..] == FullBatches(full[1..]) + rest;
      assert Records(full[0]) + [] == Records(full[0]);
      ReadRecords(full[0], [], Progress(records, false, false, false));
      FullBatchesAccount(full[1..], rest, records + full[0], requests);
      assert records + full[0] + Flat(full[1..]) == records + Flat(full);
    }
  }

  // A connection that closes inside a page is an error, with everything asked
  // for and nothing more.
  lemma CloseEndsTheSearch(pages: seq<Page>, full: seq<seq<bytes>>)
    requires (forall k :: 0 <= k < |full| ==> full[k] != []) && forall k :: 0 <= k < |pages| ==> pages[k].Valid()
    ensures SearchOn(OpenBatches(pages) + (FullBatches(full) + []), [], 1)
         == Searched(ClosedEarly, AllRecords(pages) + Flat(full), |pages| + 1, [])
  {
    OpenPagesAccount(pages, FullBatches(full) + [], [], 1);
    assert [] + AllRecords(pages) == AllRecords(pages);
    FullBatchesAccount(full, [], AllRecords(pages), |pages| + 1);
  }
}
