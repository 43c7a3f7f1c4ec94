/** Turning the items of one batch response into Gmail messages and errors
    (`formatAddressObjectAsArray`, `formatAddressObjectAsParticipants`,
    `formatBatchResponseAsGmailMessage`). */
module GmailMessages {
  import opened Wrappers
  import opened JsStrings
  import opened MessagingTypes
  import opened BatchResponses

  /** `formatAddressObjectAsArray`: one address object becomes a one-element list. */
  function FormatAddressObjectAsArray(field: AddressField): (r: seq<AddressObject>)
    ensures field.Single? ==> r == [field.obj]
    ensures field.Many? ==> r == field.objs
  {
    match field
    case Single(obj) => [obj]
    case Many(objs) => objs
  }

  /** The mailboxes of a list of address objects, object after object. */
  function AddressesOf(objs: seq<AddressObject>): seq<EmailAddress>
  {
    if |objs| == 0 then [] else objs[0].value + AddressesOf(objs[1..])
  }

  /** The mailboxes of an address header, none when the header is absent. */
  function FieldAddresses(field: Option<AddressField>): seq<EmailAddress>
  {
    match field
    case None => []
    case Some(f) => AddressesOf(FormatAddressObjectAsArray(f))
  }

  /** The handle of a mailbox: its address in lower case, or '' when it has none. */
  function Handle(mailbox: EmailAddress): (r: string)
    ensures mailbox.address.None? ==> r == ""
    ensures mailbox.address.Some? ==> |r| == |mailbox.address.value|
    ensures mailbox.address.Some? ==> forall k :: 0 <= k < |r| ==>
      var c := mailbox.address.value[k];
      r[k] == if 'A' <= c <= 'Z' then (c as int + 32) as char else c
    ensures forall k :: 0 <= k < |r| ==> !('A' <= r[k] <= 'Z')
  {
    match mailbox.address
    case None => ""
    case Some(address) => ToLower(address)
  }

  /** The participant one mailbox of a header gives. */
  function AsParticipant(mailbox: EmailAddress, role: Role): Participant
  {
    Participant(role, Handle(mailbox), mailbox.name.GetOr(""))
  }

  /** The participants of one address object's mailboxes, in order. */
  function MailboxParticipants(mailboxes: seq<EmailAddress>, role: Role): (r: seq<Participant>)
    ensures |r| == |mailboxes|
    ensures forall k :: 0 <= k < |r| ==> r[k] == AsParticipant(mailboxes[k], role)
  {
    seq(|mailboxes|, k requires 0 <= k < |mailboxes| => AsParticipant(mailboxes[k], role))
  }

  /** The per-object participant lists, flattened. */
  function ObjectsAsParticipants(objs: seq<AddressObject>, role: Role): (r: seq<Participant>)
    ensures |r| == |AddressesOf(objs)|
    ensures forall k :: 0 <= k < |r| ==> r[k] == AsParticipant(AddressesOf(objs)[k], role)
  {
    if |objs| == 0 then []
    else
      var head := MailboxParticipants(objs[0].value, role);
      var tail := ObjectsAsParticipants(objs[1..], role);
      assert AddressesOf(objs) == objs[0].value + AddressesOf(objs[1..]);
      head + tail
  }

  /** `formatAddressObjectAsParticipants`: one participant per mailbox of the
      header, in header order, each with the given role, the lower-cased
      address (or '') as handle and the name (or '') as display name; none
      when the header is absent. */
  function FormatAddressObjectAsParticipants(field: Option<AddressField>, role: Role): (r: seq<Participant>)
    ensures |r| == |FieldAddresses(field)|
    ensures forall k :: 0 <= k < |r| ==>
      r[k].role == role && r[k].handle == Handle(FieldAddresses(field)[k])
      && r[k].displayName == FieldAddresses(field)[k].name.GetOr("")
  {
    match field
    case None => []
    case Some(f) => ObjectsAsParticipants(FormatAddressObjectAsArray(f), role)
  }

  /** A header holding one address object gives the participants of a
      header holding the list of just that object. */
  lemma SingleAsList(obj: AddressObject, role: Role)
    ensures FormatAddressObjectAsParticipants(Some(Single(obj)), role)
         == FormatAddressObjectAsParticipants(Some(Many([obj])), role)
    ensures |FormatAddressObjectAsParticipants(Some(Single(obj)), role)| == |obj.value|
  {
    assert AddressesOf([obj]) == obj.value + AddressesOf([]);
  }

  /** The text kept for a message: '' when the mail has no text; otherwise
      `planer.extractFrom` of the text, and the text itself when that throws. */
  function StripReplyQuotations(text: Option<string>, planer: string -> Option<string>): (r: string)
    ensures text.None? || text == Some("") ==> r == ""
    ensures text.Some? && text.value != "" && planer(text.value).None? ==> r == text.value
    ensures text.Some? && text.value != "" && planer(text.value).Some? ==> r == planer(text.value).value
  {
    match text
    case None => ""
    case Some(t) =>
      if t == "" then ""
      else planer(t).GetOr(t)
  }

  /** The participants of a parsed mail: senders, then To, Cc and Bcc recipients. */
  function MailParticipants(from: AddressObject, mail: ParsedMail): seq<Participant>
  {
    FormatAddressObjectAsParticipants(Some(Single(from)), From)
    + FormatAddressObjectAsParticipants(mail.to, To)
    + FormatAddressObjectAsParticipants(mail.cc, Cc)
    + FormatAddressObjectAsParticipants(mail.bcc, Bcc)
  }

  /** The `try` block of one item in `formatBatchResponseAsGmailMessage`: parse the decoded body
      and build the message. A parser failure, a missing `from` header, and
      a `from` header without mailboxes (whose first entry is then read)
      are the item's error. */
  function DecodeMessage(item: ParsedItem, body: string, ext: Externals): (r: Result<GmailMessage, ItemError>)
    ensures ext.simpleParser(body).Failure? ==> r == Failure(ParserFailure(ext.simpleParser(body).error))
    ensures ext.simpleParser(body).Success? && ext.simpleParser(body).value.from.None? ==> r == Failure(FromMissing)
    ensures ext.simpleParser(body).Success? && ext.simpleParser(body).value.from.Some? ==>
      (r.Failure? <==> ext.simpleParser(body).value.from.value.value == [])
    ensures r.Failure? && ext.simpleParser(body).Success? && ext.simpleParser(body).value.from.Some? ==> r.error == EmptyFromList
    ensures r.Success? ==>
      var mail := ext.simpleParser(body).value;
      var m := r.value;
      && mail.from.Some?
      && m.historyId == item.historyId && m.externalId == item.id
      && m.messageThreadExternalId == item.threadId && m.internalDate == item.internalDate
      && m.headerMessageId == mail.messageId.GetOr("") && m.subject == mail.subject.GetOr("")
      && m.fromHandle == mail.from.value.value[0].address.GetOr("")
      && m.fromDisplayName == mail.from.value.value[0].name.GetOr("")
      && m.participants == MailParticipants(mail.from.value, mail)
      && |m.participants| == |mail.from.value.value| + |FieldAddresses(mail.to)| + |FieldAddresses(mail.cc)| + |FieldAddresses(mail.bcc)|
      && m.participants[0] == Participant(From, ToLower(m.fromHandle), m.fromDisplayName)
      && m.text == StripReplyQuotations(mail.text, ext.planer)
      && m.attachments == mail.attachments
  {
    match ext.simpleParser(body)
    case Failure(reason) => Failure(ParserFailure(reason))
    case Success(mail) =>
      match mail.from
      case None => Failure(FromMissing)
      case Some(from) =>
        var participants := MailParticipants(from, mail);
        var text := StripReplyQuotations(mail.text, ext.planer);
        if |from.value| == 0 then Failure(EmptyFromList)
        else
          SingleAsList(from, From);
          var sender := from.value[0];
          assert FieldAddresses(Some(Single(from))) == AddressesOf([from]);
          assert AddressesOf([from]) == from.value + AddressesOf([]);
          assert participants[0] == AsParticipant(sender, From);
          assert Handle(sender) == ToLower(sender.address.GetOr(""));
          Success(GmailMessage(
            item.historyId, item.id, mail.messageId.GetOr(""), mail.subject.GetOr(""), item.threadId,
            item.internalDate, sender.address.GetOr(""), sender.name.GetOr(""), participants, text,
            mail.attachments))
  }

  /** The argument `atob` receives for an item's `raw` field: URL-safe base64
      turned into the standard alphabet, `-` to `+` and `_` to `/`. A missing
      field hands `atob` the text "undefined". */
  function AtobArgument(raw: Option<string>): (r: string)
    ensures raw.None? ==> r == "undefined"
    ensures raw.Some? ==> |r| == |raw.value| && '-' !in r && '_' !in r
    ensures raw.Some? ==> forall k :: 0 <= k < |r| && raw.value[k] != '-' && raw.value[k] != '_' ==> r[k] == raw.value[k]
    ensures raw.Some? ==> forall k :: 0 <= k < |r| ==>
      r[k] == (if raw.value[k] == '-' then '+' else if raw.value[k] == '_' then '/' else raw.value[k])
  {
    match raw
    case None => "undefined"
    case Some(encoded) =>
      var plus := ReplaceAllChar(encoded, '-', '+');
      var r := ReplaceAllChar(plus, '_', '/');
      assert forall k :: 0 <= k < |r| ==> r[k] != '-' by {
        forall k | 0 <= k < |r| ensures r[k] != '-' {
          assert plus[k] != '-';
        }
      }
      r
  }

  /** Standard base64 back to the URL-safe alphabet. */
  function ToUrlSafe(s: string): string
  {
    ReplaceAllChar(ReplaceAllChar(s, '+', '-'), '/', '_')
  }

  /** The conversion loses nothing on URL-safe input: text without `+` and
      `/` comes back unchanged. */
  lemma AtobArgumentRoundTrip(encoded: string)
    requires '+' !in encoded && '/' !in encoded
    ensures ToUrlSafe(AtobArgument(Some(encoded))) == encoded
  {
    var a := AtobArgument(Some(encoded));
    var b := ToUrlSafe(a);
    forall k | 0 <= k < |encoded| ensures b[k] == encoded[k] {
      assert encoded[k] in encoded;
      var plus := ReplaceAllChar(encoded, '-', '+');
      assert a == ReplaceAllChar(plus, '_', '/');
    }
  }

  /** What one item's callback comes to. */
  datatype ItemOutcome =
    | Skipped(apiError: ApiErrorBody)
    | Undecodable(encoded: string)
    | Decoded(result: Result<GmailMessage, ItemError>)

  /** The body `atob` yields for an item, before any `await`: none for an
      API error item. */
  function DecodedBody(item: ParsedItem, ext: Externals): Option<string>
  {
    if item.error.Some? then None else ext.atob(AtobArgument(item.raw))
  }

  /** The outcome of one item: an API error is pushed as is; a `raw` that
      `atob` rejects throws outside the `try`; otherwise the `try` block
      decides. */
  function Outcome(item: ParsedItem, ext: Externals): ItemOutcome
  {
    if item.error.Some? then Skipped(item.error.value)
    else
      match ext.atob(AtobArgument(item.raw))
      case None => Undecodable(AtobArgument(item.raw))
      case Some(body) => Decoded(DecodeMessage(item, body, ext))
  }

  /** An item whose `raw` `atob` rejects. */
  predicate BodyRejected(item: ParsedItem, ext: Externals)
  {
    item.error.None? && ext.atob(AtobArgument(item.raw)).None?
  }

  /** The `atob` argument of the first item whose body cannot be decoded. */
  function FirstUndecodable(items: seq<ParsedItem>, ext: Externals): Option<string>
  {
    if |items| == 0 then None
    else
      var last := items[|items| - 1];
      match FirstUndecodable(items[..|items| - 1], ext)
      case Some(e) => Some(e)
      case None => if BodyRejected(last, ext) then Some(AtobArgument(last.raw)) else None
  }

  /** There is no undecodable item exactly when no `atob` fails; otherwise
      the one reported is the first whose `atob` fails. */
  lemma {:induction false} FirstUndecodableSpec(items: seq<ParsedItem>, ext: Externals)
    ensures FirstUndecodable(items, ext).None? <==> forall k :: 0 <= k < |items| ==> !BodyRejected(items[k], ext)
    ensures FirstUndecodable(items, ext).Some? ==>
      exists k :: (0 <= k < |items| && BodyRejected(items[k], ext)
                   && FirstUndecodable(items, ext).value == AtobArgument(items[k].raw)
                   && forall j :: 0 <= j < k ==> !BodyRejected(items[j], ext))
  {
    if |items| > 0 {
      var init := items[..|items| - 1];
      FirstUndecodableSpec(init, ext);
      assert forall k :: 0 <= k < |init| ==> init[k] == items[k];
    }
  }

  /** The API errors of the items, in item order. */
  function ApiErrors(items: seq<ParsedItem>): seq<ItemError>
  {
    if |items| == 0 then []
    else
      var last := items[|items| - 1];
      ApiErrors(items[..|items| - 1]) + if last.error.Some? then [ApiError(last.error.value)] else []
  }

  /** The messages the decodable items give, in item order. */
  function Messages(items: seq<ParsedItem>, ext: Externals): seq<GmailMessage>
  {
    if |items| == 0 then []
    else
      Messages(items[..|items| - 1], ext) +
      match Outcome(items[|items| - 1], ext)
      case Decoded(Success(m)) => [m]
      case _ => []
  }

  /** The errors the `try` blocks of the items catch, in item order. */
  function DecodeErrors(items: seq<ParsedItem>, ext: Externals): seq<ItemError>
  {
    if |items| == 0 then []
    else
      DecodeErrors(items[..|items| - 1], ext) +
      match Outcome(items[|items| - 1], ext)
      case Decoded(Failure(e)) => [e]
      case _ => []
  }

  /** The batch the items of one response give: rejected with the first
      undecodable body if there is one, otherwise the messages in item order
      and the errors, API errors first. */
  function PageBatch(items: seq<ParsedItem>, ext: Externals): Result<Batch, Rejection>
  {
    match FirstUndecodable(items, ext)
    case Some(encoded) => Failure(UndecodableBody(encoded))
    case None => Success(Batch(Messages(items, ext), ApiErrors(items) + DecodeErrors(items, ext)))
  }

  /** What `formatBatchResponseAsGmailMessage` yields for one response. */
  function FormattedPage(response: RawResponse, ext: Externals): Result<Batch, Rejection>
  {
    match ParsedItems(response, ext.jsonParse)
    case Failure(e) => Failure(e)
    case Success(items) => PageBatch(items, ext)
  }

  /** When nothing rejects, every item ends up as exactly one message or one error. */
  lemma {:induction false} EveryItemAccounted(items: seq<ParsedItem>, ext: Externals)
    requires forall k :: 0 <= k < |items| ==> !BodyRejected(items[k], ext)
    ensures |Messages(items, ext)| + |ApiErrors(items)| + |DecodeErrors(items, ext)| == |items|
  {
    if |items| > 0 {
      var init := items[..|items| - 1];
      assert forall k :: 0 <= k < |init| ==> init[k] == items[k];
      EveryItemAccounted(init, ext);
    }
  }

  /** A page with an undecodable body is rejected with the first one, and a
      page without is not. */
  lemma PageRejection(items: seq<ParsedItem>, ext: Externals)
    ensures PageBatch(items, ext).Failure? <==> exists k :: 0 <= k < |items| && BodyRejected(items[k], ext)
    ensures PageBatch(items, ext).Success? ==>
      |PageBatch(items, ext).value.messages| + |PageBatch(items, ext).value.errors| == |items|
  {
    FirstUndecodableSpec(items, ext);
    if FirstUndecodable(items, ext).None? {
      EveryItemAccounted(items, ext);
    }
  }

  /** A decoded response accounts for each of its items once, and a
      response is only ever rejected for its JSON or for a body. */
  lemma FormattedPageShape(response: RawResponse, ext: Externals)
    ensures FormattedPage(response, ext).Success? ==>
      ParsedItems(response, ext.jsonParse).Success?
      && |FormattedPage(response, ext).value.messages| + |FormattedPage(response, ext).value.errors|
         == |ParsedItems(response, ext.jsonParse).value|
    ensures FormattedPage(response, ext).Failure? ==>
      FormattedPage(response, ext).error.MalformedJson? || FormattedPage(response, ext).error.UndecodableBody?
  {
    var parsed := ParsedItems(response, ext.jsonParse);
    if parsed.Success? {
      PageRejection(parsed.value, ext);
    }
  }

  /** One more item adds its API error, if it is one, and may be the first undecodable one. */
  lemma StartSnoc(items: seq<ParsedItem>, i: nat, ext: Externals)
    requires i < |items|
    ensures ApiErrors(items[..i + 1]) == ApiErrors(items[..i]) + if items[i].error.Some? then [ApiError(items[i].error.value)] else []
    ensures FirstUndecodable(items[..i + 1], ext)
      == if FirstUndecodable(items[..i], ext).Some? then FirstUndecodable(items[..i], ext)
         else if BodyRejected(items[i], ext) then Some(AtobArgument(items[i].raw)) else None
  {
    assert items[..i + 1][..i] == items[..i];
  }

  /** One more item adds its message or its caught error, if any. */
  lemma FinishSnoc(items: seq<ParsedItem>, i: nat, ext: Externals)
    requires i < |items|
    ensures Messages(items[..i + 1], ext) == Messages(items[..i], ext) + match Outcome(items[i], ext) case Decoded(Success(m)) => [m] case _ => []
    ensures DecodeErrors(items[..i + 1], ext) == DecodeErrors(items[..i], ext) + match Outcome(items[i], ext) case Decoded(Failure(e)) => [e] case _ => []
  {
    assert items[..i + 1][..i] == items[..i];
  }

  /** The synchronous part of every callback, item by item: an API error
      is pushed, any other item's `raw` goes through `atob`, and the first
      body `atob` rejects is remembered. */
  method StartCallbacks(parsedResponses: seq<ParsedItem>, ext: Externals)
    returns (errors: seq<ItemError>, bodies: seq<Option<string>>, rejection: Option<string>)
    ensures errors == ApiErrors(parsedResponses)
    ensures rejection == FirstUndecodable(parsedResponses, ext)
    ensures |bodies| == |parsedResponses|
    ensures forall k :: 0 <= k < |bodies| ==> bodies[k] == DecodedBody(parsedResponses[k], ext)
  {
    errors, bodies, rejection := [], [], None;
    for i := 0 to |parsedResponses|
      invariant |bodies| == i
      invariant errors == ApiErrors(parsedResponses[..i])
      invariant rejection == FirstUndecodable(parsedResponses[..i], ext)
      invariant forall k :: 0 <= k < i ==> bodies[k] == DecodedBody(parsedResponses[k], ext)
    {
      StartSnoc(parsedResponses, i, ext);
      var message := parsedResponses[i];
      if message.error.Some? {
        errors := errors + [ApiError(message.error.value)];
        bodies := bodies + [None];
      } else {
        var encoded := AtobArgument(message.raw);
        var body := ext.atob(encoded);
        if body.None? && rejection.None? {
          rejection := Some(encoded);
        }
        bodies := bodies + [body];
      }
    }
    assert parsedResponses[..|parsedResponses|] == parsedResponses;
  }

  /** What each callback does after its `await`, in item order: a decoded
      message is kept, or the error its `try` block catches is pushed. */
  method FinishCallbacks(parsedResponses: seq<ParsedItem>, ext: Externals, bodies: seq<Option<string>>, apiErrors: seq<ItemError>)
    returns (messages: seq<GmailMessage>, errors: seq<ItemError>)
    requires forall k :: 0 <= k < |parsedResponses| ==> !BodyRejected(parsedResponses[k], ext)
    requires |bodies| == |parsedResponses|
    requires forall k :: 0 <= k < |bodies| ==> bodies[k] == DecodedBody(parsedResponses[k], ext)
    ensures messages == Messages(parsedResponses, ext)
    ensures errors == apiErrors + DecodeErrors(parsedResponses, ext)
  {
    messages, errors := [], apiErrors;
    for i := 0 to |parsedResponses|
      invariant messages == Messages(parsedResponses[..i], ext)
      invariant errors == apiErrors + DecodeErrors(parsedResponses[..i], ext)
    {
      FinishSnoc(parsedResponses, i, ext);
      if bodies[i].Some? {
        var decoded := DecodeMessage(parsedResponses[i], bodies[i].value, ext);
        match decoded
        case Success(m) =>
          messages := messages + [m];
        case Failure(e) =>
          errors := errors + [e];
      }
    }
    assert parsedResponses[..|parsedResponses|] == parsedResponses;
  }

  /** `formatBatchResponseAsGmailMessage`: parse the response, run the
      callbacks, and reject with the first undecodable body or return the
      messages and the errors. */
  method FormatBatchResponseAsGmailMessage(response: RawResponse, ext: Externals)
    returns (r: Result<Batch, Rejection>)
    ensures r == FormattedPage(response, ext)
  {
    var parsed := ParseBatch(response, ext.jsonParse);
    if parsed.Failure? {
      return Failure(parsed.error);
    }
    var errors, bodies, rejection := StartCallbacks(parsed.value, ext);
    if rejection.Some? {
      return Failure(UndecodableBody(rejection.value));
    }
    FirstUndecodableSpec(parsed.value, ext);
    var messages;
    messages, errors := FinishCallbacks(parsed.value, ext, bodies, errors);
    r := Success(Batch(messages, errors));
  }
}
