/** The message entity of internal/domain/entity/message.go: creation with
    trimming, validation and truncation, and the transition to "sent".
    Instants are integers; `ZeroTime` stands for Go's zero `time.Time`. */
module Entity {
  import opened Wrappers
  import opened Bytes

  const ZeroTime: int := 0

  datatype Message = Message(
    id: nat,
    to: Bytes,
    content: Bytes,
    sent: bool,
    sentAt: Option<int>,
    webhookMsgId: Bytes,
    createdAt: int,
    updatedAt: int)

  /** The single error `NewMessage` reports: "to and content required". */
  datatype ValidationError = ToAndContentRequired

  /** A message as `NewMessage` builds it: nothing assigned by the store
      yet and not sent. */
  predicate IsFresh(m: Message) {
    && m.id == 0
    && !m.sent
    && m.sentAt == None
    && m.webhookMsgId == []
    && m.createdAt == ZeroTime
    && m.updatedAt == ZeroTime
  }

  /** `NewMessage(to, content, limit)`: both fields are trimmed; an empty
      trimmed field is an error; otherwise the trimmed content is cut to
      at most `limit` bytes. Trimming comes first, so the kept prefix may
      end in white space. */
  function NewMessage(to: Bytes, content: Bytes, limit: int): (r: Result<Message, ValidationError>)
    requires limit >= 0
    ensures r.Failure? <==> AllSpace(to) || AllSpace(content)
    ensures r.Success? ==> IsFresh(r.value)
    ensures r.Success? ==> r.value.to == TrimSpace(to) && |r.value.to| > 0
    ensures r.Success? ==> HasPrefix(TrimSpace(content), r.value.content)
    ensures r.Success? ==> 0 < |r.value.content| <= limit || (limit == 0 && r.value.content == [])
    ensures r.Success? && |TrimSpace(content)| <= limit ==> r.value.content == TrimSpace(content)
    ensures r.Success? && |TrimSpace(content)| > limit ==> |r.value.content| == limit
  {
    var to := TrimSpace(to);
    var content := TrimSpace(content);
    if to == [] || content == [] then
      Failure(ToAndContentRequired)
    else
      Success(Message(0, to, Truncate(content, limit), false, None, [], ZeroTime, ZeroTime))
  }

  /** `Message.MarkSent(webhookId)`: sets the sent flag, the sent time and
      the delivery identifier; every other field keeps its value. */
  function MarkSent(m: Message, webhookId: Bytes, now: int): (r: Message)
    ensures r.sent && r.sentAt == Some(now) && r.webhookMsgId == webhookId
    ensures r.id == m.id && r.to == m.to && r.content == m.content
    ensures r.createdAt == m.createdAt && r.updatedAt == m.updatedAt
  {
    m.(sent := true, sentAt := Some(now), webhookMsgId := webhookId)
  }

  /** A destination and a content that neither start nor end with white
      space are kept as given, the content cut to the limit. */
  lemma NewMessageOfFramed(to: Bytes, content: Bytes, limit: int)
    requires limit >= 0
    requires |to| > 0 && !IsSpace(to[0]) && !IsSpace(to[|to| - 1])
    requires |content| > 0 && !IsSpace(content[0]) && !IsSpace(content[|content| - 1])
    ensures NewMessage(to, content, limit).Success?
    ensures NewMessage(to, content, limit).value.to == to
    ensures NewMessage(to, content, limit).value.content == Truncate(content, limit)
  {
  }

  // The byte strings of the two examples below: "+90" and "hello world".
  const ExampleTo: Bytes := [0x2B, 0x39, 0x30]
  const HelloWorld: Bytes := [0x68, 0x65, 0x6C, 0x6C, 0x6F, 0x20, 0x77, 0x6F, 0x72, 0x6C, 0x64]

  /** Creating with limit 5 from "hello world" keeps "hello". */
  lemma NewMessageTruncatesExample()
    ensures NewMessage(ExampleTo, HelloWorld, 5).Success?
    ensures NewMessage(ExampleTo, HelloWorld, 5).value.content == [0x68, 0x65, 0x6C, 0x6C, 0x6F]
  {
  }

  /** Trimming happens before truncation: limit 6 on "hello world" keeps
      "hello " with its trailing space. */
  lemma TrimBeforeTruncateExample()
    ensures NewMessage(ExampleTo, HelloWorld, 6).Success?
    ensures NewMessage(ExampleTo, HelloWorld, 6).value.content == [0x68, 0x65, 0x6C, 0x6C, 0x6F, 0x20]
  {
  }

  /** A destination made only of white space (the empty one included) is
      rejected whatever the content. */
  lemma BlankToRejected(to: Bytes, content: Bytes, limit: int)
    requires limit >= 0 && AllSpace(to)
    ensures NewMessage(to, content, limit).Failure?
  {
  }
}
