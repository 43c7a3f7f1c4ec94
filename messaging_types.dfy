/** The records the Gmail batch client exchanges: the queries it sends, the
    HTTP request and response around one batch, the items parsed from a
    response, the mail structure the MIME parser produces, and the messages
    and errors the client returns. */
module MessagingTypes {
  import opened Wrappers

  /** One remote resource to fetch, e.g. a message-get endpoint. */
  datatype MessageQuery = MessageQuery(uri: string)

  /** The batch POST: its `Content-Type` and `Authorization` headers and its body. */
  datatype BatchRequest = BatchRequest(contentType: string, authorization: string, body: string)

  /** The HTTP response to one batch: the `content-type` header, when present,
      and the raw multipart body. */
  datatype RawResponse = RawResponse(contentType: Option<string>, data: string)

  /** The `error` object the remote API returns for one failed query. */
  datatype ApiErrorBody = ApiErrorBody(code: int, message: string)

  /** One JSON object cut out of a multipart response: an API error, or a raw
      message whose `raw` field is the URL-safe base64 of an RFC 5322 message. */
  datatype ParsedItem = ParsedItem(
    error: Option<ApiErrorBody>,
    historyId: string,
    id: string,
    threadId: string,
    internalDate: string,
    raw: Option<string>)

  /** One mailbox of an address header: display name and address, each possibly absent. */
  datatype EmailAddress = EmailAddress(name: Option<string>, address: Option<string>)

  /** The MIME parser's address object: the list of mailboxes of one header. */
  datatype AddressObject = AddressObject(value: seq<EmailAddress>)

  /** An address header as the MIME parser hands it over: one object or a list of them. */
  datatype AddressField = Single(obj: AddressObject) | Many(objs: seq<AddressObject>)

  /** Attachment metadata, carried through unchanged. */
  datatype Attachment = Attachment(filename: Option<string>, contentType: string, size: nat)

  /** The fields of a parsed email the client reads. */
  datatype ParsedMail = ParsedMail(
    subject: Option<string>,
    messageId: Option<string>,
    from: Option<AddressObject>,
    to: Option<AddressField>,
    cc: Option<AddressField>,
    bcc: Option<AddressField>,
    text: Option<string>,
    attachments: seq<Attachment>)

  datatype Role = From | To | Cc | Bcc

  datatype Participant = Participant(role: Role, handle: string, displayName: string)

  datatype GmailMessage = GmailMessage(
    historyId: string,
    externalId: string,
    headerMessageId: string,
    subject: string,
    messageThreadExternalId: string,
    internalDate: string,
    fromHandle: string,
    fromDisplayName: string,
    participants: seq<Participant>,
    text: string,
    attachments: seq<Attachment>)

  /** What lands in the `errors` list: the API's own error object, a MIME
      parser failure, the "From value is missing" error, or the type error
      raised when the `from` header holds no mailbox. */
  datatype ItemError =
    | ApiError(body: ApiErrorBody)
    | ParserFailure(reason: string)
    | FromMissing
    | EmptyFromList

  /** What aborts a whole call instead of being collected: a failed HTTP
      request, a chunk that is not valid JSON, or a `raw` field that base64
      decoding rejects. */
  datatype Rejection =
    | TransportFailure
    | MalformedJson(text: string)
    | UndecodableBody(encoded: string)

  /** The `{ messages, errors }` result of one batch response or of the whole fetch. */
  datatype Batch = Batch(messages: seq<GmailMessage>, errors: seq<ItemError>)

  /** The libraries the client calls, as functions: `JSON.parse` (None when it
      throws), `atob` (None when it throws), mailparser's `simpleParser`
      (Failure when its promise rejects) and `planer.extractFrom` (None when
      it throws). */
  datatype Externals = Externals(
    jsonParse: string -> Option<ParsedItem>,
    atob: string -> Option<string>,
    simpleParser: string -> Result<ParsedMail, string>,
    planer: string -> Option<string>)
}
