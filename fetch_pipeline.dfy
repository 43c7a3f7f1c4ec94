/** The whole fetch (`fetchAllMessages`,
    `formatBatchResponsesAsGmailMessages`): page the queries, send one batch
    per page, decode every response, and merge the per-response results. */
module FetchPipeline {
  import opened Wrappers
  import opened Seqs
  import opened MessagingTypes
  import opened BatchRequests
  import opened BatchResponses
  import opened GmailMessages

  /** The first failed outcome whose rejection is (`early`) or is not
      (`!early`) a JSON failure. */
  function FirstFailure(outcomes: seq<Result<Batch, Rejection>>, early: bool): (r: Option<Rejection>)
    ensures r.None? <==> forall k :: 0 <= k < |outcomes| ==> outcomes[k].Success? || outcomes[k].error.MalformedJson? != early
    ensures r.Some? ==> exists k :: FirstFailureAt(outcomes, early, r.value, k)
  {
    if |outcomes| == 0 then None
    else if outcomes[0].Failure? && outcomes[0].error.MalformedJson? == early then
      assert FirstFailureAt(outcomes, early, outcomes[0].error, 0);
      Some(outcomes[0].error)
    else
      var r := FirstFailure(outcomes[1..], early);
      assert forall k :: 1 <= k < |outcomes| ==> outcomes[k] == outcomes[1..][k - 1];
      assert r.Some? ==> exists k :: FirstFailureAt(outcomes, early, r.value, k) by {
        if r.Some? {
          var k :| FirstFailureAt(outcomes[1..], early, r.value, k);
          assert FirstFailureAt(outcomes, early, r.value, k + 1);
        }
      }
      r
  }

  /** `outcomes[k]` fails with `e`, of the kind asked for, and no earlier
      outcome fails with that kind. */
  predicate FirstFailureAt(outcomes: seq<Result<Batch, Rejection>>, early: bool, e: Rejection, k: int)
  {
    0 <= k < |outcomes| && outcomes[k] == Failure(e) && e.MalformedJson? == early
    && forall i :: 0 <= i < k ==> outcomes[i].Success? || outcomes[i].error.MalformedJson? != early
  }

  /** The rejection `Promise.all` reports over the pages: a response whose
      JSON does not parse rejects before any `await`, so the first such page
      wins; otherwise the first page with an undecodable body. */
  function FirstRejection(outcomes: seq<Result<Batch, Rejection>>): (r: Option<Rejection>)
    ensures r.None? <==> forall k :: 0 <= k < |outcomes| ==> outcomes[k].Success?
    ensures r.Some? ==> Failure(r.value) in outcomes
    ensures r.Some? && !r.value.MalformedJson? ==>
      forall k :: 0 <= k < |outcomes| && outcomes[k].Failure? ==> !outcomes[k].error.MalformedJson?
  {
    match FirstFailure(outcomes, true)
    case Some(e) => Some(e)
    case None => FirstFailure(outcomes, false)
  }

  /** The messages of each page, all pages having succeeded. */
  function PageMessages(outcomes: seq<Result<Batch, Rejection>>): seq<seq<GmailMessage>>
    requires forall k :: 0 <= k < |outcomes| ==> outcomes[k].Success?
  {
    seq(|outcomes|, k requires 0 <= k < |outcomes| => outcomes[k].value.messages)
  }

  /** The errors of each page, all pages having succeeded. */
  function PageErrors(outcomes: seq<Result<Batch, Rejection>>): seq<seq<ItemError>>
    requires forall k :: 0 <= k < |outcomes| ==> outcomes[k].Success?
  {
    seq(|outcomes|, k requires 0 <= k < |outcomes| => outcomes[k].value.errors)
  }

  /** Merging the page results: the reported rejection, or the messages and
      the errors of all pages, page after page. */
  function CombinePages(outcomes: seq<Result<Batch, Rejection>>): (r: Result<Batch, Rejection>)
    ensures r.Success? <==> forall k :: 0 <= k < |outcomes| ==> outcomes[k].Success?
    ensures r.Failure? ==> Failure(r.error) in outcomes
  {
    match FirstRejection(outcomes)
    case Some(e) => Failure(e)
    case None => Success(Batch(Flat(PageMessages(outcomes)), Flat(PageErrors(outcomes))))
  }

  /** The result of each response's decoding. */
  function PageOutcomes(responses: seq<RawResponse>, ext: Externals): (r: seq<Result<Batch, Rejection>>)
    ensures |r| == |responses|
    ensures forall k :: 0 <= k < |r| ==> r[k] == FormattedPage(responses[k], ext)
  {
    seq(|responses|, k requires 0 <= k < |responses| => FormattedPage(responses[k], ext))
  }

  /** The items of each response, all responses having parsed. */
  function PageItems(responses: seq<RawResponse>, ext: Externals): seq<seq<ParsedItem>>
    requires forall k :: 0 <= k < |responses| ==> ParsedItems(responses[k], ext.jsonParse).Success?
  {
    seq(|responses|, k requires 0 <= k < |responses| => ParsedItems(responses[k], ext.jsonParse).value)
  }

  /** `formatBatchResponsesAsGmailMessages`: decode every response, then merge. */
  method FormatBatchResponsesAsGmailMessages(responses: seq<RawResponse>, ext: Externals)
    returns (r: Result<Batch, Rejection>)
    ensures r == CombinePages(PageOutcomes(responses, ext))
  {
    ghost var outcomes := PageOutcomes(responses, ext);
    var messagesAndErrors: seq<Result<Batch, Rejection>> := [];
    for i := 0 to |responses|
      invariant messagesAndErrors == outcomes[..i]
    {
      var page := FormatBatchResponseAsGmailMessage(responses[i], ext);
      assert page == outcomes[i];
      PrefixSnoc(outcomes, i);
      messagesAndErrors := messagesAndErrors + [page];
    }
    assert messagesAndErrors == outcomes;
    r := CombinePages(messagesAndErrors);
  }

  /** When every page's messages and errors together number its items, the
      merged messages and errors number all the items. */
  lemma MergedCounts(outcomes: seq<Result<Batch, Rejection>>, items: seq<seq<ParsedItem>>)
    requires |outcomes| == |items|
    requires forall k :: 0 <= k < |outcomes| ==> outcomes[k].Success?
    requires forall k :: 0 <= k < |outcomes| ==> |outcomes[k].value.messages| + |outcomes[k].value.errors| == |items[k]|
    ensures CombinePages(outcomes).Success?
    ensures |CombinePages(outcomes).value.messages| + |CombinePages(outcomes).value.errors| == |Flat(items)|
  {
    FlatLengthsAdd(PageMessages(outcomes), PageErrors(outcomes), items);
  }

  /** Every decoded response accounts for each of its items once. */
  lemma PagesAccountForItems(responses: seq<RawResponse>, ext: Externals)
    requires forall k :: 0 <= k < |responses| ==> PageOutcomes(responses, ext)[k].Success?
    ensures forall k :: 0 <= k < |responses| ==> ParsedItems(responses[k], ext.jsonParse).Success?
    ensures forall k :: 0 <= k < |responses| ==>
      |PageOutcomes(responses, ext)[k].value.messages| + |PageOutcomes(responses, ext)[k].value.errors|
      == |PageItems(responses, ext)[k]|
  {
    forall k | 0 <= k < |responses|
      ensures ParsedItems(responses[k], ext.jsonParse).Success?
    {
      assert PageOutcomes(responses, ext)[k] == FormattedPage(responses[k], ext);
      FormattedPageShape(responses[k], ext);
    }
    forall k | 0 <= k < |responses|
      ensures |PageOutcomes(responses, ext)[k].value.messages| + |PageOutcomes(responses, ext)[k].value.errors|
           == |PageItems(responses, ext)[k]|
    {
      FormattedPageShape(responses[k], ext);
    }
  }

  /** When the merge succeeds, every item of every response is one message
      or one error of the result. */
  lemma CombinedCounts(responses: seq<RawResponse>, ext: Externals)
    requires CombinePages(PageOutcomes(responses, ext)).Success?
    ensures forall k :: 0 <= k < |responses| ==> ParsedItems(responses[k], ext.jsonParse).Success?
    ensures |CombinePages(PageOutcomes(responses, ext)).value.messages|
          + |CombinePages(PageOutcomes(responses, ext)).value.errors|
         == |Flat(PageItems(responses, ext))|
  {
    PagesAccountForItems(responses, ext);
    MergedCounts(PageOutcomes(responses, ext), PageItems(responses, ext));
  }

  /** A JSON failure anywhere is what the merge reports, ahead of any
      undecodable body. */
  lemma JsonFailureFirst(outcomes: seq<Result<Batch, Rejection>>, k: nat)
    requires k < |outcomes| && outcomes[k].Failure? && outcomes[k].error.MalformedJson?
    ensures CombinePages(outcomes).Failure? && CombinePages(outcomes).error.MalformedJson?
  {
  }

  /** Merging the results of two runs of pages that all succeed gives the
      messages of the first run, then those of the second. */
  lemma CombineAppend(a: seq<Result<Batch, Rejection>>, b: seq<Result<Batch, Rejection>>)
    requires forall k :: 0 <= k < |a| ==> a[k].Success?
    requires forall k :: 0 <= k < |b| ==> b[k].Success?
    ensures CombinePages(a + b).Success?
    ensures CombinePages(a + b).value.messages == CombinePages(a).value.messages + CombinePages(b).value.messages
    ensures CombinePages(a + b).value.errors == CombinePages(a).value.errors + CombinePages(b).value.errors
  {
    assert PageMessages(a + b) == PageMessages(a) + PageMessages(b);
    assert PageErrors(a + b) == PageErrors(a) + PageErrors(b);
    FlatAppend(PageMessages(a), PageMessages(b));
    FlatAppend(PageErrors(a), PageErrors(b));
  }

  /** What `fetchAllMessages` yields: the transport failure of a page, or
      the merge of the decoded responses. */
  function FetchedMessages(
    queries: seq<MessageQuery>, accessToken: string,
    post: BatchRequest -> Option<RawResponse>, ext: Externals)
    : Result<Batch, Rejection>
  {
    match FetchedResponses(queries, accessToken, GmailBoundary, post)
    case Failure(e) => Failure(e)
    case Success(responses) => CombinePages(PageOutcomes(responses, ext))
  }

  /** `fetchAllMessages`: fetch every page with the boundary
      `batch_gmail_messages`, then decode and merge the responses. */
  method FetchAllMessages(
    queries: seq<MessageQuery>, accessToken: string,
    post: BatchRequest -> Option<RawResponse>, ext: Externals)
    returns (r: Result<Batch, Rejection>)
    ensures r == FetchedMessages(queries, accessToken, post, ext)
  {
    var batchResponses := FetchAllByBatches(queries, accessToken, GmailBoundary, post);
    if batchResponses.Failure? {
      return Failure(batchResponses.error);
    }
    r := FormatBatchResponsesAsGmailMessages(batchResponses.value, ext);
  }

  /** No queries: no request is sent and the result is empty. */
  lemma NoQueriesNoMessages(accessToken: string, post: BatchRequest -> Option<RawResponse>, ext: Externals)
    ensures FetchedMessages([], accessToken, post, ext) == Success(Batch([], []))
  {
    assert PageOutcomes([], ext) == [];
    assert PageMessages([]) == [] && PageErrors([]) == [];
  }

  /** The merge only reports rejections the pages report. */
  lemma MergeNeverTransport(outcomes: seq<Result<Batch, Rejection>>)
    requires forall k :: 0 <= k < |outcomes| && outcomes[k].Failure? ==> outcomes[k].error != TransportFailure
    ensures CombinePages(outcomes) != Failure(TransportFailure)
  {
    if FirstRejection(outcomes).Some? {
      var k :| 0 <= k < |outcomes| && outcomes[k] == Failure(FirstRejection(outcomes).value);
    }
  }

  /** A fetch fails with a transport failure exactly when one of the page
      requests fails: decoding never reports one. */
  lemma FetchFailsOnTransport(
    queries: seq<MessageQuery>, accessToken: string,
    post: BatchRequest -> Option<RawResponse>, ext: Externals)
    ensures FetchedMessages(queries, accessToken, post, ext) == Failure(TransportFailure)
        <==> exists k :: 0 <= k < |Pages(queries)| && post(PageRequest(Pages(queries)[k], accessToken, GmailBoundary)).None?
  {
    var fetched := FetchedResponses(queries, accessToken, GmailBoundary, post);
    if fetched.Success? {
      var outcomes := PageOutcomes(fetched.value, ext);
      assert forall k :: 0 <= k < |outcomes| && outcomes[k].Failure? ==> outcomes[k].error != TransportFailure by {
        forall k | 0 <= k < |outcomes| && outcomes[k].Failure? ensures outcomes[k].error != TransportFailure {
          FormattedPageShape(fetched.value[k], ext);
        }
      }
      MergeNeverTransport(outcomes);
    }
  }

  /** A successful fetch accounts for every item of every response once,
      as a message or as an error. */
  lemma FetchAccountsForItems(
    queries: seq<MessageQuery>, accessToken: string,
    post: BatchRequest -> Option<RawResponse>, ext: Externals)
    requires FetchedMessages(queries, accessToken, post, ext).Success?
    ensures FetchedResponses(queries, accessToken, GmailBoundary, post).Success?
    ensures
      var responses := FetchedResponses(queries, accessToken, GmailBoundary, post).value;
      var result := FetchedMessages(queries, accessToken, post, ext).value;
      (forall k :: 0 <= k < |responses| ==> ParsedItems(responses[k], ext.jsonParse).Success?)
      && |result.messages| + |result.errors| == |Flat(PageItems(responses, ext))|
  {
    CombinedCounts(FetchedResponses(queries, accessToken, GmailBoundary, post).value, ext);
  }
}
