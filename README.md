# Gmail batch fetching and spreadsheet-import validation, in Dafny

This project models two pieces of the CRM's code and proves properties of them.

**The Gmail batch pipeline of `FetchMessagesByBatchesService`.**
- **Request.** The query list is paged by 50. Each page becomes one `multipart/mixed` batch body: a `--<boundary>` part per query, holding the part header and a `GET <uri>` line, and then `--<boundary>--`.
- **Transport.** Each page is posted, one after the other.
- **Response.** The boundary is read back from each response's `content-type` header. The body is cut on `--<boundary>`. From every piece the text between its first `{` and its last `}` is parsed as one item.
- **Messages.** The items become Gmail messages, and per-item errors are kept beside them.
- **Merge.** The messages and errors of all pages are concatenated, page after page.

**`addErrorsAndRunHooks` of the spreadsheet import.**
- The table hook and the row hook run first. Both can record errors through `addHookError`.
- Every field's validations (`required`, `unique`, `regex`, `function`) then write into a row-by-field error dictionary.
- Finally each row gets an `__index` and its `__errors`.

The modules follow the code:
- `BatchRequests`: `createBatchBody`, `fetchBatch`, `fetchAllByBatches`.
- `BatchResponses`: `getBatchSeparator`, `parseBatch`.
- `GmailMessages`: the address helpers and `formatBatchResponseAsGmailMessage`.
- `FetchPipeline`: `formatBatchResponsesAsGmailMessages`, `fetchAllMessages`.
- `ImportErrors`: the error dictionary and the `addHookError` merge.
- `DataMutations`: the rules, the hooks and the final map.
- `JsStrings`, `Seqs` and `Wrappers` model the JavaScript string and array built-ins the code relies on (`indexOf`, `lastIndexOf`, `split`, `join`, `replace`, `trim`, `substring`, `toLowerCase`, `flat`).

Functions of the code whose behaviour lives elsewhere are parameters of the model:
- the HTTP `post`, which returns a response or fails;
- `JSON.parse`, `atob`, `simpleParser` and `planer.extractFrom`, gathered in `Externals`;
- `new RegExp` and the compiled matcher, as a `RegexCompiler`;
- `validation.isValid`, the two hooks, and `uuid`'s `v4`.

Where the code keeps state in loops, the model is a method with that loop. Each method is proved equal to a specification function, and the properties are proved about those functions:
- `createBatchBody`, `fetchAllByBatches` and `parseBatch`;
- the two phases of the per-item callbacks;
- the taken/duplicates scan, the rule loops and the hooks.

Two behaviours of the code worth noting:
- **No `content-type` header.** The separator is `''`, so the body is cut on the plain `--`. It is not kept as one part.
- **Braces reversed.** When a piece's last `}` comes before its first `{`, `substring` swaps its bounds. The parsed text is then what lies strictly between them (`ChunkJsonReversed`).

## Model

| member | source | states |
|---|---|---|
| BatchRequests.SectionStrings | packages/twenty-server/src/workspace/messaging/services/fetch-messages-by-batches.service.ts:116-131 | The nine pieces pushed for one query join to exactly `--<b>\r\nContent-Type: application/http\r\n\r\nGET <uri>\r\n\r\n`. |
| BatchRequests.SectionsSnoc | packages/twenty-server/src/workspace/messaging/services/fetch-messages-by-batches.service.ts:116-132 | One more query appends exactly its own section after those of the earlier queries. |
| BatchRequests.CreateBatchBody | packages/twenty-server/src/workspace/messaging/services/fetch-messages-by-batches.service.ts:113-135 | The loop returns one section per query, in input order, then `--<b>--`; an empty list gives just `--<b>--`. |
| BatchRequests.BatchBodyIsJoin | packages/twenty-server/src/workspace/messaging/services/fetch-messages-by-batches.service.ts:134 | The body is `""`, the query parts and `--` joined with `--<b>` between them. |
| BatchRequests.BatchBodySplit | packages/twenty-server/src/workspace/messaging/services/fetch-messages-by-batches.service.ts:113-135 | Cutting a body on `--<b>` (the response splitter's cut) gives `""`, each query's part in order, then `--`; this holds for a non-empty boundary and URIs without `--`. |
| BatchRequests.PagesShift | packages/twenty-server/src/workspace/messaging/services/fetch-messages-by-batches.service.ts:73-85 | After the first 50 queries, the pages are those of the remaining queries. |
| BatchRequests.PagesPartition | packages/twenty-server/src/workspace/messaging/services/fetch-messages-by-batches.service.ts:67-87 | There are ceil(N/50) pages. Each holds 1 to 50 queries, and together, in order, they are the query list. |
| BatchRequests.FetchBatch | packages/twenty-server/src/workspace/messaging/services/fetch-messages-by-batches.service.ts:90-111 | Posts exactly the batch for `queries.slice(offset, offset + limit)`, with the `multipart/mixed; boundary=<b>` type and the bearer token. |
| BatchRequests.FetchedResponses | packages/twenty-server/src/workspace/messaging/services/fetch-messages-by-batches.service.ts:62-88 | Succeeds iff every page's post answers. On success it has one response per page, ceil(N/50) of them, in page order. On failure the failure is the transport's. No queries give `[]`. |
| BatchRequests.FetchAllByBatches | packages/twenty-server/src/workspace/messaging/services/fetch-messages-by-batches.service.ts:62-88 | The offset loop returns `FetchedResponses`. |
| BatchResponses.FindBoundaryIndex | packages/twenty-server/src/workspace/messaging/services/fetch-messages-by-batches.service.ts:173 | The index of the first segment starting with `boundary=`, and -1 iff there is none. |
| BatchResponses.GetBatchSeparator | packages/twenty-server/src/workspace/messaging/services/fetch-messages-by-batches.service.ts:164-176 | `''` for a missing or empty header. Otherwise the first `boundary=` segment of the `; ` split, prefix removed and trimmed, or `''` when no segment has it. The result is always trimmed. |
| BatchResponses.ContentTypeComponents | packages/twenty-server/src/workspace/messaging/services/fetch-messages-by-batches.service.ts:171 | The request's content type splits on `; ` into the media type and `boundary=<b>`. |
| BatchResponses.BoundaryRoundTrip | packages/twenty-server/src/workspace/messaging/services/fetch-messages-by-batches.service.ts:164-176 | Reading the boundary back from `multipart/mixed; boundary=<b>` gives `b`, for any trimmed `b` without `; `. |
| BatchResponses.GmailBoundaryRoundTrip | packages/twenty-server/src/workspace/messaging/services/fetch-messages-by-batches.service.ts:33-37 | The boundary `batch_gmail_messages` is read back unchanged from the content type it is sent with. |
| BatchResponses.ChunkJsonPresent | packages/twenty-server/src/workspace/messaging/services/fetch-messages-by-batches.service.ts:149-152 | A piece contributes a text iff it contains both `{` and `}`. |
| BatchResponses.ChunkJson | packages/twenty-server/src/workspace/messaging/services/fetch-messages-by-batches.service.ts:149-154 | Definition: nothing when `indexOf('{')` or `lastIndexOf('}')` is -1, else `substring(first, last + 1)`; its meaning is stated by `ChunkJsonPresent`, `ChunkJsonSpan` and `ChunkJsonReversed`. |
| BatchResponses.ChunkJsonSpan | packages/twenty-server/src/workspace/messaging/services/fetch-messages-by-batches.service.ts:149-154 | The text runs from the first `{` through the last `}`. |
| BatchResponses.ChunkJsonReversed | packages/twenty-server/src/workspace/messaging/services/fetch-messages-by-batches.service.ts:154 | When the last `}` precedes the first `{`, the text is what lies strictly between them. |
| BatchResponses.BracedTextsFromChunks | packages/twenty-server/src/workspace/messaging/services/fetch-messages-by-batches.service.ts:148-159 | At most one text per piece, and every text is the braced span of some piece. |
| BatchResponses.ParseTexts | packages/twenty-server/src/workspace/messaging/services/fetch-messages-by-batches.service.ts:156-158 | Succeeds iff every text parses, with the items in text order. A failure names a text that does not parse. |
| BatchResponses.ParseTextsFailurePersists | packages/twenty-server/src/workspace/messaging/services/fetch-messages-by-batches.service.ts:156 | Once a text has failed to parse, later texts change nothing: the throw aborts the page. |
| BatchResponses.ParseTextsSnoc | packages/twenty-server/src/workspace/messaging/services/fetch-messages-by-batches.service.ts:156-158 | One more text pushes its item, or fails with that text. |
| BatchResponses.ParseBatch | packages/twenty-server/src/workspace/messaging/services/fetch-messages-by-batches.service.ts:137-162 | The loop returns the parsed braced texts of the pieces cut on `--<separator>`, or the first text that does not parse. |
| GmailMessages.FormatAddressObjectAsArray | packages/twenty-server/src/workspace/messaging/services/fetch-messages-by-batches.service.ts:264-268 | An array is kept, and a single object becomes a one-element list. |
| GmailMessages.Handle | packages/twenty-server/src/workspace/messaging/services/fetch-messages-by-batches.service.ts:285 | `''` without an address. Otherwise the address with each ASCII capital replaced by its lower-case letter and every other character kept, so no capital is left. |
| GmailMessages.MailboxParticipants | packages/twenty-server/src/workspace/messaging/services/fetch-messages-by-batches.service.ts:280-288 | One participant per address of an object, in order. |
| GmailMessages.ObjectsAsParticipants | packages/twenty-server/src/workspace/messaging/services/fetch-messages-by-batches.service.ts:277-291 | One participant per address across all the objects, in order. |
| GmailMessages.FormatAddressObjectAsParticipants | packages/twenty-server/src/workspace/messaging/services/fetch-messages-by-batches.service.ts:270-292 | `[]` for `undefined`; otherwise one participant per address, in order, with the role, the lower-cased address or `''`, and the name or `''`. |
| GmailMessages.SingleAsList | packages/twenty-server/src/workspace/messaging/services/fetch-messages-by-batches.service.ts:267-275 | A single object gives the participants of the one-element list, one per address it holds. |
| GmailMessages.StripReplyQuotations | packages/twenty-server/src/workspace/messaging/services/fetch-messages-by-batches.service.ts:219-232 | `''` for no or empty text, the `planer` output when it succeeds, and the unstripped text when it throws. |
| GmailMessages.DecodeMessage | packages/twenty-server/src/workspace/messaging/services/fetch-messages-by-batches.service.ts:199-253 | A parser failure, a missing `from` or an empty `from` list becomes that error. Otherwise the message carries the item's ids and dates, `''` defaults, and the first `from` address and name as written. Its participants are those of from, to, cc and bcc, in that order, with those roles (`MailParticipants`). It also carries the stripped text and the attachments. |
| GmailMessages.AtobArgument | packages/twenty-server/src/workspace/messaging/services/fetch-messages-by-batches.service.ts:197 | A missing `raw` becomes `"undefined"`. Otherwise it has the same length: each `-` becomes `+`, each `_` becomes `/`, and every other character is kept, so no `-` or `_` is left. |
| GmailMessages.AtobArgumentRoundTrip | packages/twenty-server/src/workspace/messaging/services/fetch-messages-by-batches.service.ts:197 | Mapping `+` and `/` back to `-` and `_` recovers the URL-safe text. |
| GmailMessages.FirstUndecodableSpec | packages/twenty-server/src/workspace/messaging/services/fetch-messages-by-batches.service.ts:187-197 | None iff no non-error item has a body `atob` refuses. Otherwise it is the argument of the first such item. |
| GmailMessages.PageBatch | packages/twenty-server/src/workspace/messaging/services/fetch-messages-by-batches.service.ts:187-261 | Definition: the first undecodable body rejects the page, else the messages and the API errors followed by the decode errors; `PageRejection` states its meaning. |
| GmailMessages.FormattedPage | packages/twenty-server/src/workspace/messaging/services/fetch-messages-by-batches.service.ts:178-262 | Definition: the JSON failure of `parseBatch`, else `PageBatch` of the parsed items; `FormattedPageShape` states its meaning. |
| GmailMessages.EveryItemAccounted | packages/twenty-server/src/workspace/messaging/services/fetch-messages-by-batches.service.ts:189-253 | When no body is refused, messages, API errors and decode errors together number the items. |
| GmailMessages.PageRejection | packages/twenty-server/src/workspace/messaging/services/fetch-messages-by-batches.service.ts:187-261 | A page is rejected iff some body is refused (the decode sits outside the `try`); otherwise messages plus errors equal the items. |
| GmailMessages.FormattedPageShape | packages/twenty-server/src/workspace/messaging/services/fetch-messages-by-batches.service.ts:178-262 | A decoded response accounts for each parsed item once; a response is rejected only for bad JSON or an undecodable body. |
| GmailMessages.StartCallbacks | packages/twenty-server/src/workspace/messaging/services/fetch-messages-by-batches.service.ts:188-197 | The synchronous part of the callbacks pushes the API errors in item order, decodes each body, and finds the first undecodable one. |
| GmailMessages.FinishCallbacks | packages/twenty-server/src/workspace/messaging/services/fetch-messages-by-batches.service.ts:199-259 | The part after `await` yields the built messages, and the decode errors after the API errors. |
| GmailMessages.FormatBatchResponseAsGmailMessage | packages/twenty-server/src/workspace/messaging/services/fetch-messages-by-batches.service.ts:178-262 | Returns the page's batch or rejection as `FormattedPage` defines it. |
| FetchPipeline.FirstFailure | packages/twenty-server/src/workspace/messaging/services/fetch-messages-by-batches.service.ts:297-301 | None iff no page fails with the requested kind. Otherwise the failure of a page of that kind before which no page fails with that kind. |
| FetchPipeline.FirstRejection | packages/twenty-server/src/workspace/messaging/services/fetch-messages-by-batches.service.ts:297-301 | None iff every page succeeds. Otherwise one of the pages' rejections, and a JSON failure whenever any page has one. |
| FetchPipeline.CombinePages | packages/twenty-server/src/workspace/messaging/services/fetch-messages-by-batches.service.ts:297-307 | Succeeds iff every page succeeds, and a failure is one of the pages' failures. On success, the pages' messages and errors are concatenated in page order (`CombineAppend`, `MergedCounts`). |
| FetchPipeline.PageOutcomes | packages/twenty-server/src/workspace/messaging/services/fetch-messages-by-batches.service.ts:297-301 | One formatted result per response, in order. |
| FetchPipeline.FormatBatchResponsesAsGmailMessages | packages/twenty-server/src/workspace/messaging/services/fetch-messages-by-batches.service.ts:294-308 | The loop returns the merge of the pages' results. |
| FetchPipeline.MergedCounts | packages/twenty-server/src/workspace/messaging/services/fetch-messages-by-batches.service.ts:303-305 | When each page's messages plus errors number its items, the merged ones number all items. |
| FetchPipeline.PagesAccountForItems | packages/twenty-server/src/workspace/messaging/services/fetch-messages-by-batches.service.ts:297-301 | Every successfully formatted response parsed, and its results number its items. |
| FetchPipeline.CombinedCounts | packages/twenty-server/src/workspace/messaging/services/fetch-messages-by-batches.service.ts:294-308 | A successful merge has exactly one message or error per item of every response. |
| FetchPipeline.JsonFailureFirst | packages/twenty-server/src/workspace/messaging/services/fetch-messages-by-batches.service.ts:297 | A JSON failure on any page is what the merge reports. |
| FetchPipeline.CombineAppend | packages/twenty-server/src/workspace/messaging/services/fetch-messages-by-batches.service.ts:303-305 | Merging two runs of pages gives the first run's messages (and errors), then the second's. |
| FetchPipeline.FetchAllMessages | packages/twenty-server/src/workspace/messaging/services/fetch-messages-by-batches.service.ts:25-60 | Returns the transport failure, or the merge of the formatted responses. |
| FetchPipeline.FetchedMessages | packages/twenty-server/src/workspace/messaging/services/fetch-messages-by-batches.service.ts:25-60 | Definition: the transport failure, else the merge of the formatted responses; `FetchFailsOnTransport` and `FetchAccountsForItems` state its meaning. |
| FetchPipeline.NoQueriesNoMessages | packages/twenty-server/src/workspace/messaging/services/fetch-messages-by-batches.service.ts:73 | No queries: no request, no messages and no errors. |
| FetchPipeline.MergeNeverTransport | packages/twenty-server/src/workspace/messaging/services/fetch-messages-by-batches.service.ts:297-307 | The merge reports only rejections its pages report. |
| FetchPipeline.FetchFailsOnTransport | packages/twenty-server/src/workspace/messaging/services/fetch-messages-by-batches.service.ts:33-49 | The fetch fails with a transport failure iff some page's post fails. |
| FetchPipeline.FetchAccountsForItems | packages/twenty-server/src/workspace/messaging/services/fetch-messages-by-batches.service.ts:25-60 | A successful fetch accounts for every parsed item of every response once. |
| ImportErrors.SetFieldError | packages/twenty-front/src/modules/spreadsheet-import/utils/dataMutations.ts:26-31 | The entry for (row, key) becomes the new error; every other entry, the row's other keys included, is kept. |
| ImportErrors.LastCall | packages/twenty-front/src/modules/spreadsheet-import/utils/dataMutations.ts:26-31 | None iff no call names (row, key). Otherwise the error of a call naming them after which no call names them. |
| ImportErrors.HookErrorsLookup | packages/twenty-front/src/modules/spreadsheet-import/utils/dataMutations.ts:26-35 | After a series of `addHookError` calls, each entry holds its last call's error, or its old value. |
| ImportErrors.HookErrorsAppend | packages/twenty-front/src/modules/spreadsheet-import/utils/dataMutations.ts:26-41 | Two series of calls compose. |
| ImportErrors.RowCalls | packages/twenty-front/src/modules/spreadsheet-import/utils/dataMutations.ts:39 | A row hook's `addError(key, info)` is `addHookError` with the hook's own row index. |
| ImportErrors.MarkedLookup | packages/twenty-front/src/modules/spreadsheet-import/utils/dataMutations.ts:68-78 | A rule's writes replace the key's entry for each flagged row, hook errors included, and keep everything else. |
| DataMutations.Values | packages/twenty-front/src/modules/spreadsheet-import/utils/dataMutations.ts:47 | The field's value of each row, in order. |
| DataMutations.RuleInfo | packages/twenty-front/src/modules/spreadsheet-import/utils/dataMutations.ts:73-74 | The level is the validation's, defaulting to `error`. The message is a non-empty `errorMessage` when there is one, else the default. |
| DataMutations.DefaultMessage | packages/twenty-front/src/modules/spreadsheet-import/utils/dataMutations.ts:70-129 | Definition: `Field is required`, `Field must be unique`, `Field did not match the regex /<pattern>/<flags> ` (missing flags print as `undefined`) and `Field is invalid`. |
| DataMutations.Violates | packages/twenty-front/src/modules/spreadsheet-import/utils/dataMutations.ts:46-133 | Definition of the flagged rows: `required` a `null`, `undefined` or `''` value; `unique` a counted value seen twice (`UniqueFlagsRepeats`); `regex` and `function` a non-empty text they refuse (`TextRulesSkipMissing`). |
| DataMutations.ValidationApplied | packages/twenty-front/src/modules/spreadsheet-import/utils/dataMutations.ts:45-134 | Fails iff the validation is a regex that does not compile, with that pattern and those flags; `RuleWrites` and `RuleRows` state what a success writes. |
| DataMutations.RuleWrites | packages/twenty-front/src/modules/spreadsheet-import/utils/dataMutations.ts:46-133 | A validation writes, under its key, its error for exactly the rows violating its rule, and keeps every other entry. |
| DataMutations.RuleRows | packages/twenty-front/src/modules/spreadsheet-import/utils/dataMutations.ts:46-133 | A row has errors after a validation iff it had some or violates the rule. |
| DataMutations.UniqueFlagsRepeats | packages/twenty-front/src/modules/spreadsheet-import/utils/dataMutations.ts:46-79 | `unique` flags a row iff its value is counted (not falsy under `allowEmpty`) and another row holds the same value. |
| DataMutations.TextRulesSkipMissing | packages/twenty-front/src/modules/spreadsheet-import/utils/dataMutations.ts:99-133 | `regex` and `function` flag only non-empty texts, never a missing or empty value. |
| DataMutations.ValidationsFailurePersists | packages/twenty-front/src/modules/spreadsheet-import/utils/dataMutations.ts:100 | Once a regex has thrown, the field's later validations change nothing. |
| DataMutations.FieldsFailurePersists | packages/twenty-front/src/modules/spreadsheet-import/utils/dataMutations.ts:43-44 | Once a field's validations have thrown, later fields change nothing. |
| DataMutations.ValidationsThrowOnBadRegex | packages/twenty-front/src/modules/spreadsheet-import/utils/dataMutations.ts:99-100 | A field's validations throw iff one of them is a regex that does not compile, even for an empty table. |
| DataMutations.FieldsThrowOnBadRegex | packages/twenty-front/src/modules/spreadsheet-import/utils/dataMutations.ts:43-136 | The validation step throws iff some field has a regex that does not compile. |
| DataMutations.ValidationsKeepOtherKeys | packages/twenty-front/src/modules/spreadsheet-import/utils/dataMutations.ts:44-135 | A field's validations leave the entries of every other key alone. |
| DataMutations.FieldsKeepUndeclaredKeys | packages/twenty-front/src/modules/spreadsheet-import/utils/dataMutations.ts:43-136 | Keys no field declares keep their (hook) errors. |
| DataMutations.RowHookErrorsOwnRow | packages/twenty-front/src/modules/spreadsheet-import/utils/dataMutations.ts:37-41 | Every error the row hook records lands on the row the hook was called for. |
| DataMutations.FinalRows | packages/twenty-front/src/modules/spreadsheet-import/utils/dataMutations.ts:138-152 | Same length and cells. Every row has an `__index`: an existing one is kept, and a missing one gets a fresh id. `__errors` is the row's errors iff it has some. A row without errors but with earlier `__errors` gets `null`. Any other row is unchanged apart from its added `__index`. |
| DataMutations.HookErrorsReachRows | packages/twenty-front/src/modules/spreadsheet-import/utils/dataMutations.ts:26-152 | A hook error under a key no field validates reaches its row's `__errors`. |
| DataMutations.Validated | packages/twenty-front/src/modules/spreadsheet-import/utils/dataMutations.ts:18-153 | Definition: hooks, then every field's validations, then `FinalRows`; `HookErrorsReachRows` and `FieldsThrowOnBadRegex` state its meaning. |
| DataMutations.AddHookErrors | packages/twenty-front/src/modules/spreadsheet-import/utils/dataMutations.ts:26-35 | The calls applied one by one give `WithHookErrors`. |
| DataMutations.RunRowHook | packages/twenty-front/src/modules/spreadsheet-import/utils/dataMutations.ts:37-41 | The `map` returns each row's hooked row and records its errors on its own index. |
| DataMutations.ScanDuplicates | packages/twenty-front/src/modules/spreadsheet-import/utils/dataMutations.ts:49-66 | `taken` is the set of counted values, and `duplicates` those counted at least twice. |
| DataMutations.MarkRows | packages/twenty-front/src/modules/spreadsheet-import/utils/dataMutations.ts:68-78 | The loop over the flagged rows writes the rule's error for each. |
| DataMutations.ApplyValidation | packages/twenty-front/src/modules/spreadsheet-import/utils/dataMutations.ts:45-134 | One validation's `switch` gives `ValidationApplied`. |
| DataMutations.ValidateField | packages/twenty-front/src/modules/spreadsheet-import/utils/dataMutations.ts:44-135 | A field's validations in order, stopping at a throw. |
| DataMutations.ValidateFields | packages/twenty-front/src/modules/spreadsheet-import/utils/dataMutations.ts:43-136 | All fields in order, stopping at a throw. |
| DataMutations.AddErrorsAndRunHooks | packages/twenty-front/src/modules/spreadsheet-import/utils/dataMutations.ts:18-153 | Hooks, validations and final map give `Validated`: the annotated rows, or the invalid regex thrown. |

## Left out

- Logging, `Date.now`, `console.log` and the `jobName`/`workspaceId`/`connectedAccountId` arguments only feed log lines; they are not modelled.
- The axios instance, base URL and HTTP errors are the `post` parameter: a page request either yields a response or fails. The kind of failure is not modelled.
- `JSON.parse`, `atob`, `simpleParser` and `planer.extractFrom` are parameters that may fail. MIME parsing, base64 and reply stripping themselves are not modelled.
- `simpleParser`'s group addresses (address objects nested in groups) are not modelled; an address object is a list of name/address pairs.
- `toLowerCase` is modelled for ASCII letters only; other scripts' case mappings are not.
- GmailMessages.FormatBatchResponseAsGmailMessage: places the decode errors after all API errors, in item order. The code pushes them as each `simpleParser` call settles after its `await`, so their relative order depends on completion order.
- FetchPipeline.FirstRejection: assumes the rejection `Promise.all` reports across pages is the first page with malformed JSON (thrown before any `await`), else the first page with an undecodable body (thrown after one `await`); the actual timing of the event loop is not modelled.
- Concurrency of the `Promise.all` fan-out is not modelled: pages and items are processed one after the other.
- `uuid`'s `v4` is the parameter `freshId`, taken at the row's index. Uniqueness of the ids is not modelled.
- A regex compiled with the sticky flag `y` keeps `lastIndex` from one row's `match` to the next, so its verdict depends on earlier rows. The matcher is modelled as a stateless `string -> bool`, so that state is not modelled.
- The hooks, `isValid` and the compiled regex are total parameters. Exceptions thrown by them, and a hook's mutation of the rows it is given, are not modelled; only an invalid pattern (`new RegExp` throwing) is.
- Cells hold `undefined`, `null`, strings and booleans; numbers and other objects are not modelled.
- `__index` present with the value `undefined` counts as present (the `in` test), which the `Option` field represents; its value type is not modelled beyond a string.
- Rows are values: the code writes `__index` into the input objects in place. That aliasing, which callers holding the input rows would observe, is not modelled.
- Table-hook row indices are unbounded integers; an error recorded for an index that is no row is kept in the dictionary and never reaches a row, as in the code.
