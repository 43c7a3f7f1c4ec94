/** Building and sending the multipart batch requests
    (`createBatchBody`, `fetchBatch`, `fetchAllByBatches`). */
module BatchRequests {
  import opened Wrappers
  import opened Seqs
  import opened JsStrings
  import opened MessagingTypes

  /** Queries per batch request. */
  const BatchLimit: nat := 50

  /** The boundary the client puts between the parts of its requests. */
  const GmailBoundary: string := "batch_gmail_messages"

  /** What follows the `--<boundary>` delimiter of the part for one query:
      the part's own header and the embedded GET request line. */
  function SectionPart(q: MessageQuery): string
  {
    "\r\n" + "Content-Type: application/http" + "\r\n\r\n" + "GET" + " " + q.uri + "\r\n\r\n"
  }

  /** The part for one query, delimiter included. */
  function Section(boundary: string, q: MessageQuery): string
  {
    "--" + boundary + SectionPart(q)
  }

  /** The parts of the queries, in input order. */
  function Sections(queries: seq<MessageQuery>, boundary: string): string
  {
    if |queries| == 0 then "" else Section(boundary, queries[0]) + Sections(queries[1..], boundary)
  }

  /** The request body: the part of each query, in input order, then the
      closing delimiter `--<boundary>--`. */
  function BatchBody(queries: seq<MessageQuery>, boundary: string): string
  {
    Sections(queries, boundary) + "--" + boundary + "--"
  }

  /** Adding a query at the end adds its part at the end. */
  lemma {:induction false} SectionsSnoc(queries: seq<MessageQuery>, q: MessageQuery, boundary: string)
    ensures Sections(queries + [q], boundary) == Sections(queries, boundary) + Section(boundary, q)
  {
    if |queries| > 0 {
      assert (queries + [q])[1..] == queries[1..] + [q];
      SectionsSnoc(queries[1..], q, boundary);
    }
  }

  /** Joining a list with '' is prepending its head to the join of its tail. */
  lemma FlatCons(x: string, rest: seq<string>)
    ensures Flat([x] + rest) == x + Flat(rest)
  {
    assert ([x] + rest)[1..] == rest;
  }

  /** Joining nine strings with '' concatenates them. */
  lemma FlatNine(a: string, b: string, c: string, d: string, e: string, f: string, g: string, h: string, i: string)
    ensures Flat([a, b, c, d, e, f, g, h, i]) == a + b + c + d + e + f + g + h + i
  {
    FlatCons(i, []);
    FlatCons(h, [i]);
    FlatCons(g, [h, i]);
    FlatCons(f, [g, h, i]);
    FlatCons(e, [f, g, h, i]);
    FlatCons(d, [e, f, g, h, i]);
    FlatCons(c, [d, e, f, g, h, i]);
    FlatCons(b, [c, d, e, f, g, h, i]);
    FlatCons(a, [b, c, d, e, f, g, h, i]);
  }

  /** The nine strings `createBatchBody` appends for one query join into its part. */
  lemma SectionStrings(boundary: string, q: MessageQuery)
    ensures Flat(["--", boundary, "\r\n", "Content-Type: application/http", "\r\n\r\n", "GET", " ", q.uri, "\r\n\r\n"])
         == Section(boundary, q)
  {
    FlatNine("--", boundary, "\r\n", "Content-Type: application/http", "\r\n\r\n", "GET", " ", q.uri, "\r\n\r\n");
  }

  /** `createBatchBody`: appends the strings of each query's part to a list,
      then the closing delimiter, and joins the list with ''. The body is one
      part per query in input order followed by `--<boundary>--`; an empty
      list gives the closing delimiter alone. */
  method CreateBatchBody(queries: seq<MessageQuery>, boundary: string) returns (body: string)
    ensures body == BatchBody(queries, boundary)
    ensures queries == [] ==> body == "--" + boundary + "--"
  {
    var batchBody: seq<string> := [];
    for i := 0 to |queries|
      invariant Flat(batchBody) == Sections(queries[..i], boundary)
    {
      var parts := ["--", boundary, "\r\n", "Content-Type: application/http", "\r\n\r\n", "GET", " ", queries[i].uri, "\r\n\r\n"];
      FlatAppend(batchBody, parts);
      SectionStrings(boundary, queries[i]);
      assert queries[..i + 1] == queries[..i] + [queries[i]];
      SectionsSnoc(queries[..i], queries[i], boundary);
      batchBody := batchBody + parts;
    }
    var closing := ["--", boundary, "--"];
    FlatAppend(batchBody, closing);
    assert Flat(closing) == "--" + boundary + "--" by {
      FlatCons("--", []);
      FlatCons(boundary, ["--"]);
      FlatCons("--", [boundary, "--"]);
    }
    assert queries[..|queries|] == queries;
    body := Flat(batchBody + closing);
  }

  /** No two consecutive dashes. */
  predicate NoDoubleDash(s: string)
  {
    forall j :: 0 <= j < |s| - 1 ==> !(s[j] == '-' && s[j + 1] == '-')
  }

  lemma NoDoubleDashConcat(a: string, b: string)
    requires NoDoubleDash(a) && NoDoubleDash(b)
    requires a == [] || b == [] || a[|a| - 1] != '-' || b[0] != '-'
    ensures NoDoubleDash(a + b)
  {
    var s := a + b;
    forall j | 0 <= j < |s| - 1 ensures !(s[j] == '-' && s[j + 1] == '-') {
      if j + 1 < |a| {
        assert s[j] == a[j] && s[j + 1] == a[j + 1];
      } else if j >= |a| {
        assert s[j] == b[j - |a|] && s[j + 1] == b[j + 1 - |a|];
      }
    }
  }

  /** The part text of a query whose URI has no `--` holds no `--` and ends in a line feed. */
  lemma SectionPartShape(q: MessageQuery)
    requires NoDoubleDash(q.uri)
    ensures NoDoubleDash(SectionPart(q))
    ensures |SectionPart(q)| > 0 && SectionPart(q)[|SectionPart(q)| - 1] == '\n'
  {
    var ct := "Content-Type: application/http";
    ContentTypeLineNoDoubleDash();
    NoDoubleDashConcat("\r\n", ct);
    NoDoubleDashConcat("\r\n" + ct, "\r\n\r\n");
    NoDoubleDashConcat("\r\n" + ct + "\r\n\r\n", "GET");
    NoDoubleDashConcat("\r\n" + ct + "\r\n\r\n" + "GET", " ");
    NoDoubleDashConcat("\r\n" + ct + "\r\n\r\n" + "GET" + " ", q.uri);
    NoDoubleDashConcat("\r\n" + ct + "\r\n\r\n" + "GET" + " " + q.uri, "\r\n\r\n");
  }

  lemma ContentTypeLineNoDoubleDash()
    ensures NoDoubleDash("Content-Type: application/http")
  {
    var ct := "Content-Type: application/http";
    forall j | 0 <= j < |ct| - 1 ensures !(ct[j] == '-' && ct[j + 1] == '-') {
      assert ct[j] == '-' ==> j == 7;
    }
  }

  /** In a text without `--` that does not end in a dash, the first occurrence
      of a delimiter starting with `--` appended to it is the appended one. */
  lemma FirstDelimiterAfter(t: string, sep: string)
    requires NoDoubleDash(t) && (t == [] || t[|t| - 1] != '-')
    requires |sep| >= 2 && sep[0] == '-' && sep[1] == '-'
    ensures IndexOf(t + sep, sep) == |t|
  {
    var s := t + sep;
    assert OccursAt(s, sep, |t|);
    forall j | 0 <= j < |t| ensures !OccursAt(s, sep, j) {
      OccursAtChars(s, sep, j);
      if j + 1 < |t| {
        assert s[j] == t[j] && s[j + 1] == t[j + 1];
      } else {
        assert s[j] == t[|t| - 1];
      }
    }
  }

  /** The part text of a query whose URI has no `--` is followed, at the first
      occurrence of `--<boundary>`, by the next delimiter. */
  lemma SectionPartFollowedByDelimiter(q: MessageQuery, boundary: string)
    requires NoDoubleDash(q.uri)
    ensures IndexOf(SectionPart(q) + ("--" + boundary), "--" + boundary) == |SectionPart(q)|
  {
    SectionPartShape(q);
    FirstDelimiterAfter(SectionPart(q), "--" + boundary);
  }

  /** Splitting a request body on `--<boundary>`, as the response splitter
      does, gives back the query parts in input order, between the empty text
      before the first delimiter and the `--` after the last one, provided the
      boundary is not empty and no URI contains `--`. */
  lemma {:induction false} BatchBodySplit(queries: seq<MessageQuery>, boundary: string)
    requires boundary != ""
    requires forall k :: 0 <= k < |queries| ==> NoDoubleDash(queries[k].uri)
    ensures Split(BatchBody(queries, boundary), "--" + boundary) == [""] + SectionParts(queries) + ["--"]
  {
    var sep := "--" + boundary;
    var parts := [""] + SectionParts(queries) + ["--"];
    BatchBodyIsJoin(queries, boundary);
    forall k | 0 <= k < |parts| - 1 ensures IndexOf(parts[k] + sep, sep) == |parts[k]| {
      if k == 0 {
        assert OccursAt(parts[k] + sep, sep, 0);
      } else {
        SectionPartFollowedByDelimiter(queries[k - 1], boundary);
      }
    }
    assert IndexOf(parts[|parts| - 1], sep) == -1;
    SplitJoin(parts, sep);
  }

  /** Joining a list of at least two pieces puts the separator after the first. */
  lemma JoinCons(x: string, rest: seq<string>, sep: string)
    requires |rest| >= 1
    ensures Join([x] + rest, sep) == x + sep + Join(rest, sep)
  {
    assert ([x] + rest)[1..] == rest;
  }

  /** The part texts of the queries, in input order. */
  function SectionParts(queries: seq<MessageQuery>): (r: seq<string>)
    ensures |r| == |queries|
    ensures forall k :: 0 <= k < |queries| ==> r[k] == SectionPart(queries[k])
  {
    if |queries| == 0 then [] else [SectionPart(queries[0])] + SectionParts(queries[1..])
  }

  /** Each text preceded by the separator, concatenated. */
  function Delimited(texts: seq<string>, sep: string): string
  {
    if |texts| == 0 then "" else sep + texts[0] + Delimited(texts[1..], sep)
  }

  /** The query parts of a body are its part texts, each after a delimiter. */
  lemma {:induction false} SectionsDelimited(queries: seq<MessageQuery>, boundary: string)
    ensures Sections(queries, boundary) == Delimited(SectionParts(queries), "--" + boundary)
  {
    if |queries| > 0 {
      assert SectionParts(queries)[1..] == SectionParts(queries[1..]);
      SectionsDelimited(queries[1..], boundary);
    }
  }

  /** Joining a first text, some texts and a last text on a separator puts
      the separator before each of the texts and before the last one. */
  lemma {:induction false} JoinFramed(first: string, texts: seq<string>, last: string, sep: string)
    ensures Join([first] + texts + [last], sep) == first + Delimited(texts, sep) + sep + last
    decreases |texts|
  {
    if |texts| == 0 {
      assert [first] + texts + [last] == [first] + [last];
      JoinCons(first, [last], sep);
    } else {
      var rest := texts[1..];
      assert [first] + texts + [last] == [first] + ([texts[0]] + rest + [last]);
      JoinCons(first, [texts[0]] + rest + [last], sep);
      JoinFramed(texts[0], rest, last, sep);
      var d := Delimited(rest, sep);
      assert Delimited(texts, sep) == sep + texts[0] + d;
      assert first + sep + (texts[0] + d + sep + last) == first + (sep + texts[0] + d) + sep + last;
    }
  }

  /** A request body is the join, on `--<boundary>`, of the empty text, the
      query parts and `--`. */
  lemma BatchBodyIsJoin(queries: seq<MessageQuery>, boundary: string)
    ensures Join([""] + SectionParts(queries) + ["--"], "--" + boundary) == BatchBody(queries, boundary)
  {
    SectionsDelimited(queries, boundary);
    JoinFramed("", SectionParts(queries), "--", "--" + boundary);
    assert "" + Delimited(SectionParts(queries), "--" + boundary) == Delimited(SectionParts(queries), "--" + boundary);
  }

  /** `queries.slice(start, end)`: the bounds are clamped to the list. */
  function Slice(queries: seq<MessageQuery>, start: nat, end: nat): seq<MessageQuery>
  {
    var a := if start > |queries| then |queries| else start;
    var b := if end > |queries| then |queries| else if end < a then a else end;
    queries[a..b]
  }

  /** The number of batches for `n` queries: n / BatchLimit rounded up. */
  function PageCount(n: nat): nat
  {
    (n + BatchLimit - 1) / BatchLimit
  }

  /** The pages the pager sends: the slices at offsets 0, 50, 100, ... */
  function Pages(queries: seq<MessageQuery>): seq<seq<MessageQuery>>
  {
    seq(PageCount(|queries|), k requires 0 <= k => Slice(queries, k * BatchLimit, k * BatchLimit + BatchLimit))
  }

  /** A list longer than a page needs one page more than its tail past the first page. */
  lemma PageCountStep(n: nat)
    ensures 0 < n <= BatchLimit ==> PageCount(n) == 1
    ensures n > BatchLimit ==> PageCount(n) == PageCount(n - BatchLimit) + 1
  {
  }

  /** Past the first page, the pages are the pages of the tail. */
  lemma PagesShift(queries: seq<MessageQuery>)
    requires |queries| > BatchLimit
    ensures Pages(queries) == [queries[..BatchLimit]] + Pages(queries[BatchLimit..])
  {
    var rest := queries[BatchLimit..];
    PageCountStep(|queries|);
    forall k | 0 <= k < |Pages(rest)| ensures Pages(queries)[k + 1] == Pages(rest)[k] {
      assert (k + 1) * BatchLimit == k * BatchLimit + BatchLimit;
    }
  }

  /** The pages partition the query list: each holds between 1 and 50
      queries, and concatenated in order they give back the list. */
  lemma {:induction false} PagesPartition(queries: seq<MessageQuery>)
    ensures |Pages(queries)| == PageCount(|queries|)
    ensures forall k :: 0 <= k < |Pages(queries)| ==> 1 <= |Pages(queries)[k]| <= BatchLimit
    ensures Flat(Pages(queries)) == queries
    decreases |queries|
  {
    var pages := Pages(queries);
    if |queries| == 0 {
      assert pages == [];
    } else if |queries| <= BatchLimit {
      PageCountStep(|queries|);
      assert pages[0] == Slice(queries, 0, BatchLimit) == queries;
      assert pages == [queries];
      assert Flat(pages) == queries + Flat(pages[1..]);
    } else {
      var rest := queries[BatchLimit..];
      PagesPartition(rest);
      PagesShift(queries);
      assert pages[1..] == Pages(rest);
      assert Flat(pages) == queries[..BatchLimit] + Flat(Pages(rest));
      assert queries == queries[..BatchLimit] + rest;
    }
  }

  /** The `Content-Type` of a batch request: the media type and the
      boundary parameter, separated by `; `. */
  function MultipartContentType(boundary: string): string
  {
    "multipart/mixed" + "; " + ("boundary=" + boundary)
  }

  /** The request the client sends for one page of queries. */
  function PageRequest(page: seq<MessageQuery>, accessToken: string, boundary: string): BatchRequest
  {
    BatchRequest(MultipartContentType(boundary), "Bearer " + accessToken, BatchBody(page, boundary))
  }

  /** `fetchBatch`: sends the slice of `batchLimit` queries at `batchOffset`
      as one multipart request. The HTTP call is the parameter `post`, which
      yields None when the request fails. */
  method FetchBatch(
    queries: seq<MessageQuery>, accessToken: string, batchOffset: nat, batchLimit: nat, boundary: string,
    post: BatchRequest -> Option<RawResponse>)
    returns (response: Option<RawResponse>)
    ensures response == post(PageRequest(Slice(queries, batchOffset, batchOffset + batchLimit), accessToken, boundary))
  {
    var limitedQueries := Slice(queries, batchOffset, batchOffset + batchLimit);
    var body := CreateBatchBody(limitedQueries, boundary);
    response := post(BatchRequest(MultipartContentType(boundary), "Bearer " + accessToken, body));
  }

  /** What the pager yields: the response to each page in page order, or a
      transport failure if any page's request fails. */
  function FetchedResponses(
    queries: seq<MessageQuery>, accessToken: string, boundary: string,
    post: BatchRequest -> Option<RawResponse>)
    : (r: Result<seq<RawResponse>, Rejection>)
    ensures r.Success? <==> forall k :: 0 <= k < |Pages(queries)| ==> post(PageRequest(Pages(queries)[k], accessToken, boundary)).Some?
    ensures r.Success? ==> |r.value| == PageCount(|queries|)
    ensures r.Success? ==> forall k :: 0 <= k < |r.value| ==> Some(r.value[k]) == post(PageRequest(Pages(queries)[k], accessToken, boundary))
    ensures r.Failure? ==> r.error == TransportFailure
    ensures queries == [] ==> r == Success([])
  {
    var pages := Pages(queries);
    if forall k :: 0 <= k < |pages| ==> post(PageRequest(pages[k], accessToken, boundary)).Some? then
      Success(seq(|pages|, k requires 0 <= k < |pages| => post(PageRequest(pages[k], accessToken, boundary)).value))
    else
      Failure(TransportFailure)
  }

  /** `fetchAllByBatches`: requests the pages at offsets 0, 50, 100, ... one
      after the other while the offset is below the number of queries, and
      collects the responses in page order; the first failed request aborts. */
  method FetchAllByBatches(
    queries: seq<MessageQuery>, accessToken: string, boundary: string,
    post: BatchRequest -> Option<RawResponse>)
    returns (r: Result<seq<RawResponse>, Rejection>)
    ensures r == FetchedResponses(queries, accessToken, boundary, post)
  {
    var batchLimit := BatchLimit;
    var batchOffset: nat := 0;
    var batchResponses: seq<RawResponse> := [];
    ghost var pages := Pages(queries);
    while batchOffset < |queries|
      invariant batchOffset == |batchResponses| * BatchLimit
      invariant |batchResponses| <= |pages|
      invariant batchOffset < |queries| <==> |batchResponses| < |pages|
      invariant forall k :: 0 <= k < |batchResponses| ==>
        Some(batchResponses[k]) == post(PageRequest(pages[k], accessToken, boundary))
    {
      var batchResponse := FetchBatch(queries, accessToken, batchOffset, batchLimit, boundary, post);
      assert pages[|batchResponses|] == Slice(queries, batchOffset, batchOffset + batchLimit);
      if batchResponse.None? {
        assert !post(PageRequest(pages[|batchResponses|], accessToken, boundary)).Some?;
        return Failure(TransportFailure);
      }
      batchResponses := batchResponses + [batchResponse.value];
      batchOffset := batchOffset + batchLimit;
    }
    assert |batchResponses| == |pages|;
    assert forall k :: 0 <= k < |pages| ==> post(PageRequest(pages[k], accessToken, boundary)).Some?;
    assert batchResponses == FetchedResponses(queries, accessToken, boundary, post).value;
    r := Success(batchResponses);
  }
}
