/** Cutting a multipart batch response into JSON items
    (`getBatchSeparator`, `parseBatch`). The splitter of `parseBatch` is a
    heuristic, not an RFC 2046 body parser: it cuts the body on every
    `--<boundary>` and keeps, from each piece, the text from its first `{`
    to its last `}`. */
module BatchResponses {
  import opened Wrappers
  import opened JsStrings
  import opened MessagingTypes
  import opened Seqs
  import opened BatchRequests

  /** The position of the first component starting with `boundary=`, or -1. */
  function FindBoundaryIndex(components: seq<string>): (r: int)
    ensures -1 <= r < |components|
    ensures r == -1 <==> forall k :: 0 <= k < |components| ==> !StartsWith(components[k], "boundary=")
    ensures r >= 0 ==> StartsWith(components[r], "boundary=")
    ensures forall k :: 0 <= k < r ==> !StartsWith(components[k], "boundary=")
  {
    if |components| == 0 then -1
    else if StartsWith(components[0], "boundary=") then 0
    else
      var k := FindBoundaryIndex(components[1..]);
      if k < 0 then -1 else k + 1
  }

  /** `getBatchSeparator`: the boundary named in the `content-type` header.
      It is '' when the header is missing or empty or when no `; `-separated
      component starts with `boundary=`; otherwise it is the rest of the first
      such component, trimmed. */
  function GetBatchSeparator(response: RawResponse): (r: string)
    ensures Trimmed(r)
    ensures response.contentType.None? || response.contentType == Some("") ==> r == ""
    ensures response.contentType.Some? && response.contentType.value != "" ==>
      var components := Split(response.contentType.value, "; ");
      var k := FindBoundaryIndex(components);
      r == if k < 0 then "" else Trim(components[k][|"boundary="|..])
  {
    match response.contentType
    case None => ""
    case Some(contentType) =>
      if contentType == "" then ""
      else
        var components := Split(contentType, "; ");
        var k := FindBoundaryIndex(components);
        if k < 0 then ""
        else
          assert "" + components[k][|"boundary="|..] == components[k][|"boundary="|..];
          Trim(ReplaceFirst(components[k], "boundary=", ""))
  }

  /** A pattern whose first character is absent from `a` first occurs in
      `a + p` right after `a`. */
  lemma FirstOccurrenceAfter(a: string, p: string)
    requires |p| > 0 && p[0] !in a
    ensures IndexOf(a + p, p) == |a|
  {
    var s := a + p;
    assert OccursAt(s, p, |a|);
    forall j | 0 <= j < |a| && OccursAt(s, p, j) ensures false {
      OccursAtChars(s, p, j);
    }
  }

  /** A pattern absent from `b` whose first character is absent from `a`
      is absent from `a + b`. */
  lemma AbsentAfterPrefix(a: string, b: string, p: string)
    requires |p| > 0 && p[0] !in a && IndexOf(b, p) == -1
    ensures IndexOf(a + b, p) == -1
  {
    var s := a + b;
    forall j | OccursAt(s, p, j) ensures false {
      OccursAtChars(s, p, j);
      if j >= |a| {
        OccursInConcat(a, b, p, j - |a|);
      }
    }
  }

  /** Neither the media type nor the parameter name contains `;`. */
  lemma HeaderWordsLackSemicolon()
    ensures ';' !in "multipart/mixed" && ';' !in "boundary="
  {
    var m, b := "multipart/mixed", "boundary=";
    forall i | 0 <= i < |m| ensures m[i] != ';' {}
    forall i | 0 <= i < |b| ensures b[i] != ';' {}
  }

  /** Text without the separator's first character, the separator, and
      text without the separator split back into the two texts. */
  lemma SplitPair(a: string, b: string, sep: string)
    requires |sep| > 0 && sep[0] !in a && IndexOf(b, sep) == -1
    ensures Split(a + sep + b, sep) == [a, b]
  {
    var parts := [a, b];
    assert IndexOf(parts[0] + sep, sep) == |parts[0]| by {
      FirstOccurrenceAfter(a, sep);
    }
    assert parts[1..] == [b];
    SplitJoin(parts, sep);
  }

  /** The header the client itself sends splits into its media type and
      its boundary parameter. */
  lemma ContentTypeComponents(boundary: string)
    requires IndexOf(boundary, "; ") == -1
    ensures Split(MultipartContentType(boundary), "; ") == ["multipart/mixed", "boundary=" + boundary]
  {
    HeaderWordsLackSemicolon();
    assert IndexOf("boundary=" + boundary, "; ") == -1 by {
      AbsentAfterPrefix("boundary=", boundary, "; ");
    }
    SplitPair("multipart/mixed", "boundary=" + boundary, "; ");
  }

  /** The media type is not a `boundary=` parameter. */
  lemma MediaTypeIsNoParameter()
    ensures !StartsWith("multipart/mixed", "boundary=")
  {
    assert "multipart/mixed"[0] != "boundary="[0];
  }

  /** That header yields the boundary back, for any boundary without
      surrounding whitespace and without `; `. */
  lemma BoundaryRoundTrip(boundary: string, data: string)
    requires Trimmed(boundary)
    requires IndexOf(boundary, "; ") == -1
    ensures GetBatchSeparator(RawResponse(Some(MultipartContentType(boundary)), data)) == boundary
  {
    var segment := "boundary=" + boundary;
    var parts := ["multipart/mixed", segment];
    assert Split(MultipartContentType(boundary), "; ") == parts by {
      ContentTypeComponents(boundary);
    }
    assert FindBoundaryIndex(parts) == 1 by {
      MediaTypeIsNoParameter();
      StartsWithPrefix("boundary=", boundary);
      assert parts[1..] == [segment];
    }
    assert segment[|"boundary="|..] == boundary;
  }

  /** The header sent with the boundary `batch_gmail_messages` gives that
      boundary back. */
  lemma GmailBoundaryRoundTrip(data: string)
    ensures GetBatchSeparator(RawResponse(Some(MultipartContentType(GmailBoundary)), data)) == GmailBoundary
  {
    var b := GmailBoundary;
    assert ';' !in b by {
      forall i | 0 <= i < |b| ensures b[i] != ';' {}
    }
    assert IndexOf(b, "; ") == -1 by {
      AbsentAfterPrefix(b, "", "; ");
      assert b + "" == b;
    }
    BoundaryRoundTrip(b, data);
  }

  /** `chunk[i..j]` runs from the first `{` of the chunk to its last `}`. */
  predicate IsJsonSpan(chunk: string, i: int, j: int)
  {
    0 <= i < j <= |chunk| && chunk[i] == '{' && chunk[j - 1] == '}' && '{' !in chunk[..i] && '}' !in chunk[j..]
  }

  /** The last `}` of the chunk is at `b` and its first `{` at `a`, after it. */
  predicate IsReversedSpan(chunk: string, b: int, a: int)
  {
    0 <= b < a < |chunk| && chunk[b] == '}' && chunk[a] == '{' && '}' !in chunk[b + 1..] && '{' !in chunk[..a]
  }

  /** The text one piece of the response contributes in `parseBatch`: none
      when it lacks a `{` or a `}`, otherwise the `substring` between the
      first `{` and one past the last `}`. */
  function ChunkJson(chunk: string): Option<string>
  {
    var startJson := IndexOf(chunk, "{");
    var endJson := LastIndexOf(chunk, "}");
    if startJson < 0 || endJson < 0 then None
    else Some(Substring(chunk, startJson, endJson + 1))
  }

  /** A piece contributes a text exactly when it holds both a `{` and a `}`. */
  lemma ChunkJsonPresent(chunk: string)
    ensures ChunkJson(chunk).Some? <==> '{' in chunk && '}' in chunk
  {
    IndexOfChar(chunk, '{');
    LastIndexOfChar(chunk, '}');
    assert "{" == ['{'] && "}" == ['}'];
  }

  /** When the first `{` comes before the last `}`, the text is the span
      from the one through the other. */
  lemma ChunkJsonSpan(chunk: string, i: int, j: int)
    requires IsJsonSpan(chunk, i, j)
    ensures ChunkJson(chunk) == Some(chunk[i..j])
  {
    var startJson := IndexOf(chunk, "{");
    var endJson := LastIndexOf(chunk, "}");
    IndexOfChar(chunk, '{');
    LastIndexOfChar(chunk, '}');
    assert "{" == ['{'] && "}" == ['}'];
    assert startJson == i;
    assert endJson == j - 1;
  }

  /** When the last `}` comes before the first `{`, `substring` swaps its
      bounds and the text is what lies strictly between them. */
  lemma ChunkJsonReversed(chunk: string, b: int, a: int)
    requires IsReversedSpan(chunk, b, a)
    ensures ChunkJson(chunk) == Some(chunk[b + 1..a])
  {
    var startJson := IndexOf(chunk, "{");
    var endJson := LastIndexOf(chunk, "}");
    IndexOfChar(chunk, '{');
    LastIndexOfChar(chunk, '}');
    assert "{" == ['{'] && "}" == ['}'];
    assert startJson == a;
    assert endJson == b;
  }

  /** What one piece contributes: its text, if it has one. */
  function ChunkTexts(chunk: string): seq<string>
  {
    match ChunkJson(chunk)
    case None => []
    case Some(text) => [text]
  }

  /** The texts the pieces contribute, in piece order, at most one per piece. */
  function BracedTexts(chunks: seq<string>): seq<string>
  {
    Gather(chunks, ChunkTexts)
  }

  /** Each piece gives at most one text, and every text is the braced span
      of some piece. */
  lemma BracedTextsFromChunks(chunks: seq<string>)
    ensures |BracedTexts(chunks)| <= |chunks|
    ensures forall t :: t in BracedTexts(chunks) ==> exists k :: 0 <= k < |chunks| && ChunkJson(chunks[k]) == Some(t)
  {
    GatherAtMostOne(chunks, ChunkTexts);
    forall t | t in BracedTexts(chunks)
      ensures exists k :: 0 <= k < |chunks| && ChunkJson(chunks[k]) == Some(t)
    {
      var k :| 0 <= k < |chunks| && ChunkTexts(chunks[k]) == [t];
      assert ChunkJson(chunks[k]) == Some(t);
    }
  }

  /** `JSON.parse` of each text in order; the first text that does not parse aborts. */
  function ParseTexts(texts: seq<string>, jsonParse: string -> Option<ParsedItem>): (r: Result<seq<ParsedItem>, Rejection>)
    ensures r.Success? <==> forall k :: 0 <= k < |texts| ==> jsonParse(texts[k]).Some?
    ensures r.Success? ==> |r.value| == |texts| && forall k :: 0 <= k < |texts| ==> Some(r.value[k]) == jsonParse(texts[k])
    ensures r.Failure? ==> r.error.MalformedJson? && r.error.text in texts && jsonParse(r.error.text).None?
  {
    if |texts| == 0 then Success([])
    else
      var init := texts[..|texts| - 1];
      var last := texts[|texts| - 1];
      assert forall k :: 0 <= k < |init| ==> init[k] == texts[k];
      match ParseTexts(init, jsonParse)
      case Failure(e) => Failure(e)
      case Success(items) =>
        match jsonParse(last)
        case None => Failure(MalformedJson(last))
        case Some(item) => Success(items + [item])
  }

  /** The pieces of a response: its body cut on `--<boundary>`. */
  function ResponseChunks(response: RawResponse): seq<string>
  {
    Split(response.data, "--" + GetBatchSeparator(response))
  }

  /** The items of one response, or the rejection of a text that is not JSON. */
  function ParsedItems(response: RawResponse, jsonParse: string -> Option<ParsedItem>): Result<seq<ParsedItem>, Rejection>
  {
    ParseTexts(BracedTexts(ResponseChunks(response)), jsonParse)
  }

  /** Once a prefix of the texts fails to parse, the whole list fails the same way. */
  lemma {:induction false} ParseTextsFailurePersists(texts: seq<string>, n: nat, jsonParse: string -> Option<ParsedItem>)
    requires n <= |texts|
    requires ParseTexts(texts[..n], jsonParse).Failure?
    ensures ParseTexts(texts, jsonParse) == ParseTexts(texts[..n], jsonParse)
    decreases |texts| - n
  {
    if n < |texts| {
      ParseTextsFailurePersists(texts, n + 1, jsonParse);
      assert texts[..n + 1][..n] == texts[..n];
    } else {
      assert texts[..n] == texts;
    }
  }

  /** Parsing one more text extends the items, or fails on that text. */
  lemma ParseTextsSnoc(texts: seq<string>, text: string, jsonParse: string -> Option<ParsedItem>, items: seq<ParsedItem>)
    requires ParseTexts(texts, jsonParse) == Success(items)
    ensures ParseTexts(texts + [text], jsonParse)
      == if jsonParse(text).Some? then Success(items + [jsonParse(text).value]) else Failure(MalformedJson(text))
  {
    assert (texts + [text])[..|texts|] == texts;
  }

  /** One more piece, whatever gives each piece its at most one text: a
      piece without a text changes nothing, and a text that parses adds its
      item. */
  lemma ParseStep<T>(
    chunks: seq<T>, i: nat, f: T -> seq<string>, jsonParse: string -> Option<ParsedItem>, items: seq<ParsedItem>)
    requires i < |chunks| && |f(chunks[i])| <= 1
    requires ParseTexts(Gather(chunks[..i], f), jsonParse) == Success(items)
    ensures f(chunks[i]) == [] ==> ParseTexts(Gather(chunks[..i + 1], f), jsonParse) == Success(items)
    ensures |f(chunks[i])| == 1 && jsonParse(f(chunks[i])[0]).Some? ==>
      ParseTexts(Gather(chunks[..i + 1], f), jsonParse) == Success(items + [jsonParse(f(chunks[i])[0]).value])
  {
    GatherSnoc(chunks, i, f);
    if |f(chunks[i])| == 1 {
      assert f(chunks[i]) == [f(chunks[i])[0]];
      ParseTextsSnoc(Gather(chunks[..i], f), f(chunks[i])[0], jsonParse, items);
    } else {
      assert Gather(chunks[..i], f) + f(chunks[i]) == Gather(chunks[..i], f);
    }
  }

  /** A text that does not parse, after texts that all do, decides the
      result of the whole run of pieces. */
  lemma ParseAborts<T>(
    chunks: seq<T>, i: nat, f: T -> seq<string>, jsonParse: string -> Option<ParsedItem>, items: seq<ParsedItem>)
    requires i < |chunks| && |f(chunks[i])| == 1 && jsonParse(f(chunks[i])[0]).None?
    requires ParseTexts(Gather(chunks[..i], f), jsonParse) == Success(items)
    ensures ParseTexts(Gather(chunks, f), jsonParse) == Failure(MalformedJson(f(chunks[i])[0]))
  {
    var text := f(chunks[i])[0];
    assert f(chunks[i]) == [text];
    GatherSnoc(chunks, i, f);
    ParseTextsSnoc(Gather(chunks[..i], f), text, jsonParse, items);
    var prefix := Gather(chunks[..i + 1], f);
    var rest := chunks[i + 1..];
    assert chunks == chunks[..i + 1] + rest;
    GatherAppend(chunks[..i + 1], rest, f);
    var texts := prefix + Gather(rest, f);
    assert texts[..|prefix|] == prefix;
    ParseTextsFailurePersists(texts, |prefix|, jsonParse);
  }

  /** `parseBatch`: cuts the body on `--<boundary>` and, piece by piece,
      skips a piece without `{` or `}` and otherwise parses its text as JSON
      and appends the item; a text that is not JSON throws. */
  method ParseBatch(response: RawResponse, jsonParse: string -> Option<ParsedItem>)
    returns (r: Result<seq<ParsedItem>, Rejection>)
    ensures r == ParsedItems(response, jsonParse)
  {
    var responseItems: seq<ParsedItem> := [];
    var boundary := GetBatchSeparator(response);
    var responseLines := Split(response.data, "--" + boundary);
    for i := 0 to |responseLines|
      invariant ParseTexts(BracedTexts(responseLines[..i]), jsonParse) == Success(responseItems)
    {
      ParseStep(responseLines, i, ChunkTexts, jsonParse, responseItems);
      var responseJson := ChunkJson(responseLines[i]);
      if responseJson.None? {
        continue;
      }
      var item := jsonParse(responseJson.value);
      if item.None? {
        ParseAborts(responseLines, i, ChunkTexts, jsonParse, responseItems);
        return Failure(MalformedJson(responseJson.value));
      }
      responseItems := responseItems + [item.value];
    }
    assert responseLines[..|responseLines|] == responseLines;
    r := Success(responseItems);
  }
}
