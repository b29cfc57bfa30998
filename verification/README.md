# insider-messaging, modelled in Dafny

insider-messaging is a small Go service. It stores text messages for phone numbers in MySQL. A scheduler fetches a bounded batch of unsent messages on every tick and posts each one to a webhook. A message whose delivery succeeds is marked sent, together with the identifier the webhook returned. An HTTP API creates messages, lists sent ones and starts or stops the scheduler. All of it sits behind an API-key middleware.

This project models that pipeline's decision logic and proves properties of it:

- `Bytes`: Go strings as byte sequences. Covers `strings.TrimSpace` over ASCII white space, `HasPrefix`, and content truncation.
- `Config`: the configuration fields the core reads, plus Go's 64-bit wrap-around for `int` and `time.Duration`.
- `Entity`: the message record, `NewMessage` and `Message.MarkSent`.
- `MessageStore`: the MySQL repository, given by the meaning of its SQL clauses over a sequence of rows in insertion order. Covers `Create`, `GetUnsent`, `MarkSent` and `ListSent`.
- `Webhook`: the sender.
  - The client timeout.
  - The request headers and payload.
  - The 2xx check.
  - The message-identifier fallback.
  - `generateUUID`: a version-4 UUID laid out per RFC 4122 (sections 4.1.1, 4.1.3 and 4.4), with the proof that its hex digits decode back to the random bytes.
- `Batch`: `SendBatchUseCase.Execute`, one tick of delivery, and what the next tick fetches after a failed or a delivered send.
- `Scheduling`:
  - The scheduler as a state machine with a count of live loop goroutines.
  - The tick period and tick deadline.
  - A sequential `Scheduler` class with that count as ghost state.
- `Handlers`:
  - The phone-number pattern, matched by a one-pass automaton.
  - The `/auto` dispatch.
  - The validation order of `POST /messages`.
  - `GET /sent`.
- `Middleware`: the API-key allow/deny decision.

The following inputs are parameters, never computed:

- the outside world's answers: database failures, the webhook's reply, the random bytes and the clock;
- configuration values: any `int64`, since loading from the environment is not modelled.

Instants are integers. Durations are `int64` nanoseconds, and they wrap like Go's. For example, a `ScheduleSec` too large to fit in nanoseconds gives the wrapped product as the tick period when that product is positive, and 120 seconds when it is not. Likewise, a positive `WebhookTimeoutSeconds` too large to fit gives the wrapped product as the client timeout, whatever its sign. The contracts of `Webhook.ClientTimeout`, `Scheduling.TickInterval` and `Scheduling.TickTimeout` therefore state the configured durations and defaults only for the range where that product does not wrap.

The repository's tests at tests/infrastructure/mysql_repo_test.go:54-65, :91-97 and :118-128 disagree with the code, and the model follows the code. Those tests expect `Create` to write the generated identifier back into the caller's message and to keep the message's `Sent` flag. The last one marks messages by that identifier, which the code leaves at 0. The code does neither: it always inserts an unsent row and leaves the caller's message untouched. `Handlers.CreateMessage` accordingly answers 201 with the message as built, whose identifier is 0.

## Model

| member | source | states |
|---|---|---|
| Bytes.TrimSpace | internal/domain/entity/message.go:24-25 | The result is the part of the input between the first and the last non-space byte; every byte cut off is white space; the result neither starts nor ends with white space; it is empty exactly when the input is all white space |
| Bytes.Truncate | internal/domain/entity/message.go:29-31 | The result is a prefix of the input of at most `limit` bytes: the whole input when it fits, exactly `limit` bytes when it does not |
| Bytes.TruncateIdempotent | internal/domain/entity/message.go:29-31 | Truncating an already truncated string to the same limit changes nothing |
| Bytes.TruncateTwice | internal/application/send_batch.go:42-44 | Truncating to one limit and then to another is truncating to the smaller limit, so re-truncating at send time only shortens content when the limit has gone down |
| Config.Seconds | internal/infrastructure/sender/webhook_sender.go:26 | `time.Duration(n) * time.Second` equals n·10⁹ nanoseconds whenever that fits in 64 bits, and is not positive for a non-positive n in that range |
| Entity.NewMessage | internal/domain/entity/message.go:23-33 | Fails exactly when the trimmed destination or the trimmed content is empty. On success it gives a message with identifier 0, unsent, without sent time or webhook id. Its destination is the trimmed destination. Its content is a prefix of the trimmed content of length min(trimmed length, limit) |
| Entity.MarkSent | internal/domain/entity/message.go:36-41 | Sets the sent flag, the sent time and the webhook id, and keeps every other field |
| Entity.NewMessageOfFramed | internal/domain/entity/message.go:24-31 | Input that neither starts nor ends with white space is kept as given, with the content cut to the limit |
| Entity.NewMessageTruncatesExample | internal/domain/entity/message.go:29-31 | "hello world" with limit 5 becomes "hello" |
| Entity.TrimBeforeTruncateExample | internal/domain/entity/message.go:25-31 | Trimming happens before truncation: "hello world" with limit 6 becomes "hello ", which ends in a space |
| Entity.BlankToRejected | internal/domain/entity/message.go:24-28 | A destination made only of white space, the empty one included, is rejected whatever the content and limit |
| MessageStore.Create | internal/infrastructure/db/mysql_repository.go:21-24 | Appends exactly one row and keeps the existing rows. The new row has the next identifier, the input's destination and content, is unsent with no sent time or webhook id, and was created and updated now |
| MessageStore.CreateIgnoresStatus | internal/infrastructure/db/mysql_repository.go:22 | The stored row depends only on the input's destination and content: its sent flag, identifier and other fields are ignored |
| MessageStore.CreatePreservesValid | internal/infrastructure/db/mysql_repository.go:21-24 | Creating at a time later than every existing row keeps identifiers and creation times strictly increasing |
| MessageStore.Unsent | internal/infrastructure/db/mysql_repository.go:29 | `WHERE sent = false`: exactly the unsent rows, each drawn from the table |
| MessageStore.GetUnsent | internal/infrastructure/db/mysql_repository.go:27-41 | Returns only unsent rows of the table, min(limit, number of unsent rows) of them, taken from the front of the unsent rows |
| MessageStore.UnsentAscending | internal/infrastructure/db/mysql_repository.go:29 | Filtering keeps creation times ascending |
| MessageStore.GetUnsentOldestFirst | internal/infrastructure/db/mysql_repository.go:29 | The batch is ordered oldest first, and every unsent row it leaves out is newer than every row it returns |
| MessageStore.MarkSent | internal/infrastructure/db/mysql_repository.go:44-48 | Rows with the given identifier become sent, with the webhook id and the current time as sent and update time; their other fields and every other row are unchanged; no row is added or removed |
| MessageStore.MarkSentPreservesValid | internal/infrastructure/db/mysql_repository.go:44-48 | Marking keeps the table's invariant |
| MessageStore.MarkSentUnknownId | internal/infrastructure/db/mysql_repository.go:45 | Marking an identifier that no row has leaves the table as it was, and is not an error |
| MessageStore.SentRows | internal/infrastructure/db/mysql_repository.go:53 | `WHERE sent = true`: exactly the sent rows, each drawn from the table |
| MessageStore.InsertBySentAt | internal/infrastructure/db/mysql_repository.go:53 | Inserting into a list sorted by sent time, latest first, keeps it sorted and adds exactly that one element |
| MessageStore.SortBySentAt | internal/infrastructure/db/mysql_repository.go:53 | `ORDER BY sent_at DESC`: a permutation of the input, sorted latest first |
| MessageStore.ListSent | internal/infrastructure/db/mysql_repository.go:51-65 | Contains exactly the sent rows, each as often as in the table, latest sent first |
| MessageStore.UnsentAppend | internal/infrastructure/db/mysql_repository.go:29 | Filtering two consecutive stretches of the table is filtering each and joining the results |
| MessageStore.UnsentAt | internal/infrastructure/db/mysql_repository.go:29 | An unsent row comes in the filtered rows right after the unsent rows before it |
| MessageStore.UnsentFewer | internal/infrastructure/db/mysql_repository.go:29 | A table unsent only where another is unsent has no more unsent rows |
| MessageStore.StillFetched | internal/infrastructure/db/mysql_repository.go:27-48 | When rows only become sent, an unsent row left as it was is fetched again, no later in the batch than before |
| MessageStore.SentNotFetched | internal/infrastructure/db/mysql_repository.go:27-65 | A sent row of a valid table is in no `GetUnsent` batch, not even by identifier, and is listed by `ListSent` |
| MessageStore.MarkSentThenListed | internal/infrastructure/db/mysql_repository.go:44-53 | After marking an existing row, it is in no `GetUnsent` batch of any size and is listed by `ListSent` with the given webhook id and a sent time |
| Webhook.ClientTimeout | internal/infrastructure/sender/webhook_sender.go:23-32 | `WebhookTimeoutSeconds` seconds when that is positive and fits in a Duration, 10 seconds when it is not positive |
| Webhook.BuildRequest | internal/infrastructure/sender/webhook_sender.go:46-58 | The payload is the message's destination and content. The request carries the JSON content type. The `x-ins-auth-key` header is present exactly when an auth key is configured, and then carries that key |
| Webhook.Send | internal/infrastructure/sender/webhook_sender.go:45-98 | Succeeds exactly on a 2xx reply with a decodable body whose identifier is usable, or is a placeholder while random bytes are available. A status outside [200, 300) is a `BadStatus` error. A success is never empty. A real identifier is returned verbatim. An empty or "{{uuid}}" identifier is replaced by a well-formed version-4 UUID made from the random bytes |
| Webhook.HexEncode | internal/infrastructure/sender/webhook_sender.go:110-117 | Two lower-case hex digits per byte |
| Webhook.SetVersion | internal/infrastructure/sender/webhook_sender.go:107 | The high nibble becomes 4 (RFC 4122 section 4.1.3); the low nibble is kept |
| Webhook.SetVariant | internal/infrastructure/sender/webhook_sender.go:108 | The two top bits become 10 (RFC 4122 section 4.1.1); the other six are kept |
| Webhook.StampVersion | internal/infrastructure/sender/webhook_sender.go:107-108 | Only bytes 6 and 8 change, and only in their version and variant bits |
| Webhook.Uuid | internal/infrastructure/sender/webhook_sender.go:101-120 | The formatted identifier is a version-4 UUID in the sense of `IsUuidV4` |
| Webhook.UuidLayout | internal/infrastructure/sender/webhook_sender.go:107-117 | 36 characters with hyphens at 8, 13, 18 and 23 and lower-case hex elsewhere; index 14 is '4'; index 19 is one of '8', '9', 'a', 'b' |
| Webhook.HexRoundTrip | internal/infrastructure/sender/webhook_sender.go:110-117 | Decoding the hex encoding of any bytes gives them back |
| Webhook.HexEncodeAppend | internal/infrastructure/sender/webhook_sender.go:110-117 | Hex-encoding a concatenation is concatenating the encodings, so the five groups together encode all 16 bytes |
| Webhook.UuidRoundTrip | internal/infrastructure/sender/webhook_sender.go:101-120 | The UUID's 32 hex digits decode to the 16 random bytes with only bytes 6 and 8 masked: every other byte is returned unchanged, as are the low nibble of byte 6 and the low six bits of byte 8 |
| Batch.Execute | internal/application/send_batch.go:35-66 | Its outcome satisfies `ExecuteOutcome`: a failed fetch is returned as the only error, with no send, no mark and the table unchanged. Otherwise the result is nil. Exactly the fetched batch (at most `MsgPerTick` messages) is attempted, once each and in fetch order. Each message sent is the stored row with its content cut to `MsgCharLimit`. Only a successful send is followed by `MarkSent` with the row's identifier and the returned id, and a mark failure is swallowed. The table keeps its rows, identifiers and full content and stays valid. A row changes only through a persisted mark, which stamps it. A row whose send failed stays unchanged and unsent |
| Batch.SendAll | internal/application/send_batch.go:41-64 | The loop: one attempt per fetched message, in order. Each attempt hands the truncated copy to the sender, and the table afterwards is the persisted marks applied in order |
| Batch.ApplyMarksKeeps | internal/application/send_batch.go:52-54 | Any sequence of marks keeps the table valid and keeps every row's identifier, destination, content and creation time |
| Batch.ApplyMarksRows | internal/application/send_batch.go:41-64 | When no two marks name the same row, a row no persisted mark names is untouched, and a named row is stamped with that mark's webhook id and time |
| Batch.FailedStaysUnmarked | internal/application/send_batch.go:46-50 | A message whose send failed is named by no persisted mark, and its row is unsent |
| Batch.ExecuteOnlyMarks | internal/application/send_batch.go:41-64 | A run changes a row only by marking it sent |
| Batch.UnpersistedFetchedNext | internal/application/send_batch.go:46-54 | A message not marked sent, because its send failed or because `MarkSent` failed, is fetched again by the next run, the row as it was, at a position no later than before: it is resent |
| Batch.SentRowsSettled | internal/application/send_batch.go:41-64 | A run leaves every row already sent exactly as it was. If every sent row carries a non-empty delivery identifier before a run, every sent row does after it |
| Batch.DeliveredThenListed | internal/application/send_batch.go:46-54 | A message whose send and mark both succeeded is in no later `GetUnsent` batch of any size, and `ListSent` returns it with the webhook's non-empty identifier and the time of the update |
| Scheduling.TickInterval | internal/infrastructure/scheduler/scheduler.go:39-42 | Always positive; `ScheduleSec` seconds when that is positive and fits in a Duration, 120 seconds when it is not positive and fits in a Duration |
| Scheduling.TickTimeout | internal/infrastructure/scheduler/scheduler.go:57-60 | Always positive; `WebhookTimeoutSeconds + 10` seconds when that is positive, 30 seconds when it is not positive (within the Duration range) |
| Scheduling.OnStart | internal/infrastructure/scheduler/scheduler.go:32-48 | Changes nothing while running; otherwise it runs with the configured tick period and one more live loop |
| Scheduling.OnStop | internal/infrastructure/scheduler/scheduler.go:73-83 | Changes nothing while idle; otherwise it is no longer running and no loop is live when it returns |
| Scheduling.IdleInv | internal/infrastructure/scheduler/scheduler.go:27-29 | A new scheduler is idle and satisfies the invariant |
| Scheduling.StartPreservesInv | internal/infrastructure/scheduler/scheduler.go:44-48 | From any state where running holds exactly when one loop is live, `Start` leaves it running with exactly one live loop |
| Scheduling.StopPreservesInv | internal/infrastructure/scheduler/scheduler.go:79-82 | `Stop` keeps the invariant and leaves it idle with zero live loops |
| Scheduling.StartIdempotent | internal/infrastructure/scheduler/scheduler.go:35-37 | A second `Start` changes nothing, whatever the configuration |
| Scheduling.StopIdempotent | internal/infrastructure/scheduler/scheduler.go:76-78 | A second `Stop` changes nothing |
| Scheduling.Run | internal/infrastructure/scheduler/scheduler.go:52-70 | Over any sequence of commands and ticks, `Execute` runs at most once per tick received. With ticks only, the state is unchanged and `Execute` runs on every tick when a loop is live and on none otherwise |
| Scheduling.RunPreservesInv | internal/infrastructure/scheduler/scheduler.go:32-83 | The invariant holds after every sequence of `Start`, `Stop` and ticks, and a tick runs `Execute` exactly when the scheduler is running |
| Scheduling.NoStartNoExecute | internal/infrastructure/scheduler/scheduler.go:52-70 | Without a `Start`, an idle scheduler stays idle and never runs `Execute` |
| Scheduling.Tick | internal/infrastructure/scheduler/scheduler.go:56-65 | A tick runs `Execute` once with the tick deadline, and its outcome (error, table, attempts) is the whole of `ExecuteOutcome`. The error is only logged, and the scheduler stays running |
| Scheduling.Scheduler.constructor | internal/infrastructure/scheduler/scheduler.go:27-29 | A new scheduler keeps the configuration, is idle and satisfies the invariant |
| Scheduling.Scheduler.Start | internal/infrastructure/scheduler/scheduler.go:32-48 | The object's state moves as `OnStart` says, and the invariant is kept |
| Scheduling.Scheduler.Stop | internal/infrastructure/scheduler/scheduler.go:73-83 | The object's state moves as `OnStop` says, and the invariant is kept |
| Scheduling.Scheduler.IsRunning | internal/infrastructure/scheduler/scheduler.go:86-90 | Reports the running flag, which is set exactly when one loop is live |
| Handlers.MatchPhone | internal/presentation/api/handlers.go:15 | The one-pass matcher accepts exactly '+', a digit 1 to 9, then 1 to 14 ASCII digits (3 to 16 bytes) |
| Handlers.PhoneIsTrimmed | internal/presentation/api/handlers.go:15 | A phone number contains no white space, so trimming keeps it whole and it is never blank |
| Handlers.StartStop | internal/presentation/api/handlers.go:62-92 | "start" calls only `Start` and "stop" only `Stop`, both answering 200 "started"/"stopped"; any other or missing action answers 400 `INVALID_ACTION` and calls nothing |
| Handlers.StartStopControls | internal/presentation/api/handlers.go:62-92 | After `/auto`, the scheduler invariant holds. On 200 the scheduler runs exactly when the action was "start". On 400 its state is unchanged |
| Handlers.CreateMessage | internal/presentation/api/handlers.go:133-191 | Each 400 code holds exactly when its check is the first to fail: `INVALID_PAYLOAD` for an undecodable body, then `INVALID_PHONE_NUMBER`, then `EMPTY_CONTENT`. `VALIDATION_ERROR` holds exactly for non-empty content made only of white space. `INVALID_ACTION` never appears. The table changes only on 201. For a request that passes every check, the answer is 201 exactly when the store succeeds and 500 exactly when it fails. 201 returns a message with identifier 0, the given destination and the trimmed, truncated content, created in the table |
| Handlers.CreateMessageStores | internal/presentation/api/handlers.go:180-190 | A request with a valid phone number and content that is not blank is answered 201 when the store succeeds. The created message adds one unsent row for the given destination, which the next `GetUnsent` can fetch, and keeps the table valid |
| Handlers.ListSentEndpoint | internal/presentation/api/handlers.go:105-118 | A store failure answers 500. Otherwise it answers 200 with exactly the sent rows, latest sent first |
| Middleware.PresentedKey | internal/presentation/api/middleware.go:25-31 | A non-empty `X-API-Key` is the presented key. Otherwise `Authorization` is used with one leading "Bearer " removed, or raw when it has no such prefix |
| Middleware.Authorize | internal/presentation/api/middleware.go:12-45 | "/health", any "/swagger/" path and an unconfigured key always pass; a rejection is always 401 |
| Middleware.AuthorizeIff | internal/presentation/api/middleware.go:15-42 | A request passes exactly when the path is exempt, or no key is configured, or a non-empty `X-API-Key` equals the key. Without `X-API-Key`, it also passes when `Authorization` is "Bearer " followed by the key, or is the bare key while the key does not itself start with "Bearer " |
| Middleware.NoHeadersRejected | internal/presentation/api/middleware.go:25-33 | With a key configured, a guarded request carrying neither header is rejected with 401 |
| Middleware.WrongXApiKeyRejected | internal/presentation/api/middleware.go:25-33 | With a key configured, a wrong non-empty `X-API-Key` is rejected whatever `Authorization` holds |

## Left out

- Goroutines, `sync.Mutex`, `sync.WaitGroup`, `time.Ticker` timing and `context` deadlines. The scheduler is sequential and counts its loop, and a tick is an explicit event. A deadline that expires while sending is one of the webhook's replies (a transport failure).
- HTTP transport and JSON encoding and decoding. A request arrives decoded (or as "not decodable"), and the webhook's reply arrives as a status with an optional decoded body.
- The failure branches for encoding a response at handlers.go:70-72, :78-80, :114-117 and :187-190: encoding a status object or a list of messages into a live connection is not modelled.
- Error texts. The webhook sender's error string, with its 200-byte excerpt of the reply body at webhook_sender.go:68-87, is reduced to the kind of error.
- The marshalling failure at webhook_sender.go:47-50, which cannot happen for a payload of two strings.
- `crypto/rand`: the 16 random bytes, or the failure to read them, are an input.
- The Redis `HSet` after each successful send (send_batch.go:56-63) and the Redis client.
- The database itself: connection retries, `AutoMigrate` and column sizes (`to` has 32 characters, `webhook_msg_id` has 128). A value too long for its column is not modelled.
- MessageStore.GetUnsent: requires a limit of at least 1. gorm's treatment of a non-positive `Limit` is not modelled, so Batch.Execute requires `MsgPerTick >= 1` too.
- Entity.NewMessage: requires a limit of at least 0, because a negative limit makes the slice panic. Batch.Execute and Handlers.CreateMessage require `MsgCharLimit >= 0` for the same reason.
- MessageStore.Valid: assumes strictly increasing creation times, so `ORDER BY created_at` is insertion order. The order MySQL gives rows with equal `sent_at` is left open. `ListSent` picks one order, and its contract states only the sort and the contents.
- Time is an integer parameter (`now`, the batch clock) rather than `time.Now()` or SQL `NOW()`.
- Bytes.TrimSpace: trims only the ASCII white space of `unicode.IsSpace`. Multi-byte Unicode spaces such as U+00A0 or U+0085 are not trimmed.
- Loading the configuration from the environment (config.go): the fields are parameters with any `int64` value.
- URL parsing of the webhook address: an invalid address is the `RequestInvalid` reply.
- Router, swagger and process wiring.
