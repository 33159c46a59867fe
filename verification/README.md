# E2B cloud server, modelled in Dafny

The cloud server is a small message pipe. A generator writes
synthetic events into an SQLite `event` table keyed by `msg_offset`. Most
events are small; a few hundred are medium (about 512 KB) or big (about 1 MB).
Brokers poll `GET /pipe/poll?offset=N`. The repository answers each poll with
the next eligible rows after the cursor as `MessageRecord`s. This project
models that core as pure functions over the table as a value, and proves:

- what the queries select;
- what one generator run does to the table;
- that the two sides meet.

## Files

| file | module | models |
|---|---|---|
| `java_lang.dfy` | `JavaLang` | null (`Option`), exceptions (`Result`), 32-bit `int` wrap-around, `String.length()` in UTF-16 units, `String.hashCode()`, UTF-8 byte length |
| `decimal.dfy` | `Decimal` | decimal text of a `long` (string concatenation, `%d`), with its inverse and length bound |
| `event_type.dfy` | `EventTypes` | the `EventType` enum and its one-character codes |
| `message_record.dfy` | `MessageRecords` | the `MessageRecord` bean: constructors, setters, `equals`, `hashCode`, `toString` |
| `event_table.dfy` | `EventTable` | the `event` table: rows in ascending offset order; filters and counts as queries |
| `topics.dfy` | `Topics` | the 24 topic names that three classes each declare |
| `event_repository.dfy` | `EventRepository` | `fetchEvents`, `getMessages`/`getReadEvent`, `appendFilterByTypes`, `generateQuestionMarks` |
| `scheduler.dfy` | `DataInjectionScheduler` | `generate`, `chooseTier`, `createRecord`, `randomAscii`, `randomTopic`, `queryNextOffset` |
| `controller.dfy` | `CloudServerController` | `pollMessages`, `generateDummyRecord`, `generateJsonPayload`, `estimateRecordSize` |
| `message_service.dfy` | `MessageService` | `getMessages`, `getTotalMessages`, `getRecentMessages`, `getDataMode` |
| `pipeline.dfy` | `Pipeline` | properties linking the generator, the reader and the service |

### Modelling choices

**The table.** It is a sequence of rows with strictly ascending offsets
(`EventTable.Table`). `msg_offset` is the primary key, so this listing is
unique, and `ORDER BY msg_offset ASC` is the identity. Each query is then a
filter, prefix or limit over that sequence. `AscendingUnique` shows that an
ascending result is fully determined by which rows it contains.

**Oracles.** `Random`, `UUID.randomUUID()`, `System.currentTimeMillis()` and
`Instant.now()` become values supplied by the caller:

- `RecordDraws`, one per loop iteration of the generator;
- `keys(i)`, the UUID of the i-th polled record;
- `parse`, standing for `Instant.parse`;
- `now`, the clock value.

**Errors.** SQLite failures are a `failure` argument. Java exceptions are
`Result.Err`.

### Where the code and its description differ

The model follows the code in each case.

- **Empty poll.** The poll endpoint answers 200 even when the list is empty
  (`CloudServerController.PollEmptyIsOk`); a 204 is never sent.
- **No byte budget on the live path.** The poll passes 1048576 as `maxBytes`,
  but `fetchEvents` never reads it. The query is `LIMIT 300` over rows of at
  most 19990 bytes. The running-sum window exists only in `getReadEvent`,
  which only `getMessages` uses, and nothing in these files calls that.
  `Pipeline.SamplePoll` shows a poll returning 100, 101 and 103 where a
  budgeted reader would stop earlier.
- **Errors are swallowed.** A storage error inside `fetchEvents` is logged;
  the records built so far are returned and nothing propagates
  (`EventRepository.FailureKeepsGatheredPrefix`).
- **Cursor.** The cursor a client passes back is the last offset it received,
  and the next poll is strictly after it (`EventRepository.DrainEnumeratesEligible`).
- **Fresh keys.** Each polled record gets a fresh random UUID as `msgKey`. The
  stored `msg_key` is never selected, so two polls of the same row may differ
  in key, and then in `equals`.
- **The shrink branch of `createRecord`.** It cuts 1024 characters from the
  payload of an oversize record, but it can only be entered when the payload
  is empty. It then calls `substring(0, -1024)` and throws
  (`DataInjectionScheduler.OversizeOnlyWithEmptyPayload`). With the configured
  topics it is never entered (`CreateRecordHitsTarget`).
- **`appendFilterByTypes` with a negative count.** It has already appended
  `" AND type IN ("` when `generateQuestionMarks` throws.
- **Nothing runs the generator.** `generate()`
  (DataInjectionScheduler.java:113) carries no `@Scheduled` annotation; only
  its import is there. The class has no bean annotation, and nothing in these
  files calls `generate()`. The model takes one call of `generate()` as one
  run and says nothing about when, or whether, such calls happen.
- **Result order of `getReadEvent`.** Its outer SELECT has no `ORDER BY`, so
  `getMessages` is modelled as returning a set of rows.

## Model

| member | source | states |
|---|---|---|
| `EventTypes.Code` | src/main/java/com/messaging/cloudserver/model/EventType.java:10-25 | each constant's code is 'M' or 'D' |
| `EventTypes.FindByCode` | src/main/java/com/messaging/cloudserver/model/EventType.java:28-33 | the scan over `values()` returns a constant with the given code, and fails with IllegalArgumentException only when no constant has it |
| `EventTypes.FromCode` | src/main/java/com/messaging/cloudserver/model/EventType.java:27-34 | a decoded constant has the given code; failure is IllegalArgumentException and happens only when no constant has that code |
| `EventTypes.CodeInjective` | src/main/java/com/messaging/cloudserver/model/EventType.java:10-15 | different constants have different codes |
| `EventTypes.CodeRoundTrip` | src/main/java/com/messaging/cloudserver/model/EventType.java:23-32 | `fromCode(getCode(t)) == t` for every constant |
| `EventTypes.FromCodeDomain` | src/main/java/com/messaging/cloudserver/model/EventType.java:27-34 | `fromCode` succeeds exactly on 'M' (MESSAGE) and 'D' (DELETE) |
| `MessageRecords.Blank` | src/main/java/com/messaging/cloudserver/model/MessageRecord.java:20-21 | the no-argument constructor leaves numbers at 0 and references null |
| `MessageRecords.Create` | src/main/java/com/messaging/cloudserver/model/MessageRecord.java:23-31 | each argument lands in its own field; crc32 stays 0 |
| `MessageRecords.SetOffset` | src/main/java/com/messaging/cloudserver/model/MessageRecord.java:38-40 | sets offset, every other field unchanged |
| `MessageRecords.SetTopic` | src/main/java/com/messaging/cloudserver/model/MessageRecord.java:46-48 | sets topic, every other field unchanged |
| `MessageRecords.SetPartition` | src/main/java/com/messaging/cloudserver/model/MessageRecord.java:54-56 | sets partition, every other field unchanged |
| `MessageRecords.SetMsgKey` | src/main/java/com/messaging/cloudserver/model/MessageRecord.java:62-64 | sets msgKey, every other field unchanged |
| `MessageRecords.SetEventType` | src/main/java/com/messaging/cloudserver/model/MessageRecord.java:70-72 | sets eventType, every other field unchanged |
| `MessageRecords.SetData` | src/main/java/com/messaging/cloudserver/model/MessageRecord.java:78-80 | sets data, every other field unchanged |
| `MessageRecords.SetCreatedAt` | src/main/java/com/messaging/cloudserver/model/MessageRecord.java:86-88 | sets createdAt, every other field unchanged |
| `MessageRecords.SetCrc32` | src/main/java/com/messaging/cloudserver/model/MessageRecord.java:94-96 | sets crc32, every other field unchanged |
| `MessageRecords.SettersMatchConstructor` | src/main/java/com/messaging/cloudserver/model/MessageRecord.java:20-96 | seven setters on a blank record, in either order, build what the seven-argument constructor builds |
| `MessageRecords.Equals` | src/main/java/com/messaging/cloudserver/model/MessageRecord.java:98-107 | only a MessageRecord can be equal; a record equals itself |
| `MessageRecords.EqualsIffSameKey` | src/main/java/com/messaging/cloudserver/model/MessageRecord.java:101-106 | equal exactly when offset, topic, partition and msgKey agree (null-safe) |
| `MessageRecords.EqualsIgnoresPayload` | src/main/java/com/messaging/cloudserver/model/MessageRecord.java:103-106 | eventType, data, createdAt and crc32 play no part in equality |
| `MessageRecords.EqualsReflexive` | src/main/java/com/messaging/cloudserver/model/MessageRecord.java:100 | every record equals itself |
| `MessageRecords.EqualsSymmetric` | src/main/java/com/messaging/cloudserver/model/MessageRecord.java:103-106 | equality is symmetric |
| `MessageRecords.EqualsTransitive` | src/main/java/com/messaging/cloudserver/model/MessageRecord.java:103-106 | equality is transitive |
| `MessageRecords.EqualsNullOrOtherClass` | src/main/java/com/messaging/cloudserver/model/MessageRecord.java:101 | a record never equals null or an object of another class |
| `MessageRecords.HashConsistentWithEquals` | src/main/java/com/messaging/cloudserver/model/MessageRecord.java:98-112 | equal records have equal `Objects.hash(offset, topic, partition, msgKey)` |
| `MessageRecords.ToString` | src/main/java/com/messaging/cloudserver/model/MessageRecord.java:115-124 | the text starts with `MessageRecord{offset=` and ends with `}` |
| `MessageRecords.ToStringShowsTopicAndPartition` | src/main/java/com/messaging/cloudserver/model/MessageRecord.java:117-119 | right after the offset's digits the text holds `, topic='`, the topic (or `null`), `'`, `, partition=` and the partition's digits |
| `MessageRecords.ToStringRevealsPartition` | src/main/java/com/messaging/cloudserver/model/MessageRecord.java:118-120 | records with the same text and the same topic have the same partition |
| `MessageRecords.HashCode` | src/main/java/com/messaging/cloudserver/model/MessageRecord.java:110-112 | `Objects.hash` of the four key fields is a 32-bit `int` |
| `MessageRecords.ToStringIgnoresDataAndCrc` | src/main/java/com/messaging/cloudserver/model/MessageRecord.java:115-123 | data and crc32 do not appear in the text |
| `MessageRecords.ToStringRevealsOffset` | src/main/java/com/messaging/cloudserver/model/MessageRecord.java:116-117 | records with the same text have the same offset |
| `EventTable.MaxOffset` | src/main/java/com/messaging/cloudserver/scheduler/DataInjectionScheduler.java:282 | `MAX(msg_offset)` is null exactly for an empty table, otherwise an offset present in the table and no smaller than any other |
| `Decimal.LongToStringRoundTrip` | src/main/java/com/messaging/cloudserver/scheduler/DataInjectionScheduler.java:230-232 | reading the printed `long` back gives the same number |
| `Decimal.LongToStringInjective` | src/main/java/com/messaging/cloudserver/controller/CloudServerController.java:98 | distinct numbers print differently |
| `Decimal.LongToStringChars` | src/main/java/com/messaging/cloudserver/controller/CloudServerController.java:109 | the text is digits after a minus sign exactly when the number is negative, so it is ASCII |
| `Decimal.LongToStringLength` | src/main/java/com/messaging/cloudserver/scheduler/DataInjectionScheduler.java:230-232 | a `long` prints in at most 20 characters |
| `Topics.Topic` | src/main/java/com/messaging/cloudserver/scheduler/DataInjectionScheduler.java:266-268 | a drawn topic has 1 to 40 characters |
| `Topics.TopicsAreConfigured` | src/main/java/com/messaging/cloudserver/scheduler/DataInjectionScheduler.java:36-47 | every draw names one of the 24 configured topics, and every configured topic can be drawn |
| `EventRepository.EligibleRows` | src/main/java/com/messaging/cloudserver/repository/EventRepository.java:51 | exactly the rows with offset > cursor and size <= 19990, in ascending offset order |
| `EventRepository.FetchRows` | src/main/java/com/messaging/cloudserver/repository/EventRepository.java:51-52 | at most 300 eligible rows in ascending order; all eligible rows when fewer than 300 come back; no eligible row skipped up to the last one returned |
| `EventRepository.ToRecord` | src/main/java/com/messaging/cloudserver/repository/EventRepository.java:64-80 | a polled record carries the row's offset, type as topic, data and parsed created_at, partition 0, MESSAGE, the drawn key and crc32 0 |
| `EventRepository.FetchEvents` | src/main/java/com/messaging/cloudserver/repository/EventRepository.java:45-98 | one record per fetched row, in order, cut short where a database error strikes |
| `EventRepository.FetchEventsOrdered` | src/main/java/com/messaging/cloudserver/repository/EventRepository.java:51-52 | at most 300 records, offsets strictly increasing and all beyond the cursor |
| `EventRepository.FetchEmptyIff` | src/main/java/com/messaging/cloudserver/repository/EventRepository.java:51-52 | the poll is empty exactly when no eligible row lies beyond the cursor |
| `EventRepository.FetchEventsDifferOnlyInKeys` | src/main/java/com/messaging/cloudserver/repository/EventRepository.java:45-80 | two polls with the same cursor, whatever their `maxBytes`, agree on every field but msgKey |
| `EventRepository.FailureKeepsGatheredPrefix` | src/main/java/com/messaging/cloudserver/repository/EventRepository.java:92-97 | a database error yields a prefix of the error-free result, empty if it strikes before the first row |
| `EventRepository.ResumeAfterBatch` | src/main/java/com/messaging/cloudserver/repository/EventRepository.java:51-52 | the eligible rows are the batch followed by what the poll after the batch's last offset can see |
| `EventRepository.DrainEnumeratesEligible` | src/main/java/com/messaging/cloudserver/repository/EventRepository.java:51-52 | polling with the last returned offset until empty yields every eligible row exactly once, in order |
| `EventRepository.RunningWindow` | src/main/java/com/messaging/cloudserver/repository/EventRepository.java:128-136 | the running-size filter keeps a subsequence of its input and preserves order |
| `EventRepository.GetReadEvent` | src/main/java/com/messaging/cloudserver/repository/EventRepository.java:118-138 | the query has one parameter, the 19990 size bound and the 1048576 ceiling, whatever the arguments |
| `EventRepository.Select` | src/main/java/com/messaging/cloudserver/repository/EventRepository.java:132-133 | the inner query returns only table rows admitted by its WHERE clause |
| `EventRepository.Window` | src/main/java/com/messaging/cloudserver/repository/EventRepository.java:120-136 | the running window over the eligible rows, taken in offset order: every row it keeps is eligible, and it never drops the first eligible row |
| `EventRepository.ReadEventAdmitsEligible` | src/main/java/com/messaging/cloudserver/repository/EventRepository.java:133 | the inner WHERE of `getReadEvent` selects the same rows as the poll query's filter |
| `EventRepository.GetMessages` | src/main/java/com/messaging/cloudserver/repository/EventRepository.java:103-116 | errors propagate; every returned row is eligible; the first eligible row is always returned |
| `EventRepository.GetMessagesIgnoresTypes` | src/main/java/com/messaging/cloudserver/repository/EventRepository.java:105-108 | the types list and includeHash make no difference to the result |
| `EventRepository.WindowClosed` | src/main/java/com/messaging/cloudserver/repository/EventRepository.java:128-136 | once the running size reaches the ceiling, no later row (sizes non-negative) passes |
| `EventRepository.WindowIsPrefix` | src/main/java/com/messaging/cloudserver/repository/EventRepository.java:128-136 | with non-negative sizes the window is the longest prefix whose running size stays below the ceiling |
| `EventRepository.GetMessagesIsSizeBoundedPrefix` | src/main/java/com/messaging/cloudserver/repository/EventRepository.java:103-136 | `getMessages` returns an initial run of the eligible rows under 1048576 bytes, never empty when an eligible row exists |
| `EventRepository.GenerateQuestionMarks` | src/main/java/com/messaging/cloudserver/repository/EventRepository.java:146-148 | `?` and `,` alternate, 2n-1 characters for n > 0; a negative count throws IllegalArgumentException |
| `EventRepository.QuestionMarksCount` | src/main/java/com/messaging/cloudserver/repository/EventRepository.java:146-148 | the text holds exactly n placeholders |
| `EventRepository.AppendFilterByTypes` | src/main/java/com/messaging/cloudserver/repository/EventRepository.java:140-144 | count 0 leaves the builder alone; a positive count appends exactly ` AND type IN (`, that many `?` separated by `,`, and `)`; a negative count leaves the opening text and throws |
| `DataInjectionScheduler.TargetBytes` | src/main/java/com/messaging/cloudserver/scheduler/DataInjectionScheduler.java:222-226 | every tier's target lies below MAX_RECORD_BYTES |
| `DataInjectionScheduler.ChooseTier` | src/main/java/com/messaging/cloudserver/scheduler/DataInjectionScheduler.java:183-200 | BIG iff big quota open and r < 0.001; MEDIUM iff medium quota open, r < 0.002 and not BIG; SMALL once both quotas are met |
| `DataInjectionScheduler.TierSizeClassified` | src/main/java/com/messaging/cloudserver/scheduler/DataInjectionScheduler.java:127-131 | a record sized target - 10 is counted as big exactly for BIG, as medium exactly for MEDIUM |
| `DataInjectionScheduler.AlphaChar` | src/main/java/com/messaging/cloudserver/scheduler/DataInjectionScheduler.java:258 | each of the 62 draws gives an ASCII letter or digit |
| `DataInjectionScheduler.AlphaCharInjective` | src/main/java/com/messaging/cloudserver/scheduler/DataInjectionScheduler.java:258 | the 62 characters are distinct |
| `DataInjectionScheduler.RandomAscii` | src/main/java/com/messaging/cloudserver/scheduler/DataInjectionScheduler.java:256-264 | exactly max(0, len) characters; empty when len <= 0 |
| `DataInjectionScheduler.RandomAsciiContents` | src/main/java/com/messaging/cloudserver/scheduler/DataInjectionScheduler.java:258-263 | the i-th character is the i-th draw's, so the text is alphanumeric ASCII |
| `DataInjectionScheduler.EnvelopeSize` | src/main/java/com/messaging/cloudserver/scheduler/DataInjectionScheduler.java:230-243 | an ASCII payload adds exactly its length to the envelope's UTF-8 size |
| `DataInjectionScheduler.EnvelopeLayout` | src/main/java/com/messaging/cloudserver/scheduler/DataInjectionScheduler.java:234-236 | the record's JSON opens with `{"topic":"` and the topic, holds the payload unescaped after the head, and closes with `"}` and a newline |
| `DataInjectionScheduler.EnvelopePayloadInjective` | src/main/java/com/messaging/cloudserver/scheduler/DataInjectionScheduler.java:234-236 | for one topic, timestamp and tier, different payloads give different JSON, so the payload can be read back |
| `DataInjectionScheduler.EnvelopeBaseBound` | src/main/java/com/messaging/cloudserver/scheduler/DataInjectionScheduler.java:230-234 | with a short topic and a `long` timestamp the empty envelope is at most 436 bytes |
| `DataInjectionScheduler.PayloadSize` | src/main/java/com/messaging/cloudserver/scheduler/DataInjectionScheduler.java:234-235 | never negative; zero exactly when the empty envelope plus 10 bytes already reaches the target; otherwise it fills the envelope to target - 10 bytes |
| `DataInjectionScheduler.CreateRecord` | src/main/java/com/messaging/cloudserver/scheduler/DataInjectionScheduler.java:220-254 | fails, with StringIndexOutOfBounds, exactly when the empty envelope exceeds 1,000,000 bytes; otherwise the size is the JSON's UTF-8 length, equals max(target - 10, envelope), stays within 1,000,000, and the JSON wraps an alphanumeric payload |
| `DataInjectionScheduler.Shrink` | src/main/java/com/messaging/cloudserver/scheduler/DataInjectionScheduler.java:245-251 | cutting 1024 characters throws exactly when the payload is shorter than that |
| `DataInjectionScheduler.OversizeOnlyWithEmptyPayload` | src/main/java/com/messaging/cloudserver/scheduler/DataInjectionScheduler.java:234-251 | the JSON can exceed 1,000,000 bytes only when the payload is empty |
| `DataInjectionScheduler.CreateRecordHitsTarget` | src/main/java/com/messaging/cloudserver/scheduler/DataInjectionScheduler.java:220-254 | for the configured topics every record is created at exactly target - 10 bytes (979990, 511990, 19990) |
| `DataInjectionScheduler.NextOffset` | src/main/java/com/messaging/cloudserver/scheduler/DataInjectionScheduler.java:281-289 | above every stored offset; 1,000,000 for an empty table, otherwise one past a stored offset |
| `DataInjectionScheduler.GeneratedRow` | src/main/java/com/messaging/cloudserver/scheduler/DataInjectionScheduler.java:145-155 | the inserted row has the given offset, the drawn key, the topic as type and the drawn timestamp; its size is its tier's target - 10, so it counts as big exactly for BIG and as medium exactly for MEDIUM |
| `DataInjectionScheduler.GeneratedRowData` | src/main/java/com/messaging/cloudserver/scheduler/DataInjectionScheduler.java:147-152 | the stored data is the record's JSON: the envelope around the drawn alphanumeric payload, whose length is target - 10 minus the empty envelope's UTF-8 size |
| `DataInjectionScheduler.GeneratedRowSizeIsDataLength` | src/main/java/com/messaging/cloudserver/scheduler/DataInjectionScheduler.java:243-253 | the stored size is the UTF-8 length of the stored JSON |
| `DataInjectionScheduler.NumberedStep` | src/main/java/com/messaging/cloudserver/scheduler/DataInjectionScheduler.java:149-155 | a row made from the next offset, draw and tier extends a numbered batch by one |
| `DataInjectionScheduler.ChoiceStep` | src/main/java/com/messaging/cloudserver/scheduler/DataInjectionScheduler.java:145-160 | an iteration whose tier is `chooseTier` of the current big and medium counts and its own draw keeps every pending tier the rule's choice |
| `DataInjectionScheduler.RuleKeepsQuota` | src/main/java/com/messaging/cloudserver/scheduler/DataInjectionScheduler.java:183-200 | tiers chosen by `chooseTier` are BIG only while fewer than 250 big rows exist, and MEDIUM only while fewer than 250 medium rows exist |
| `DataInjectionScheduler.CountsAfterAppend` | src/main/java/com/messaging/cloudserver/scheduler/DataInjectionScheduler.java:157-160 | the local big/medium counters track the count queries over the table plus the pending rows |
| `DataInjectionScheduler.AppendKeepsAscending` | src/main/java/com/messaging/cloudserver/scheduler/DataInjectionScheduler.java:133-149 | rows numbered on from the next offset keep the table in strictly ascending offset order |
| `DataInjectionScheduler.FillBatch` | src/main/java/com/messaging/cloudserver/scheduler/DataInjectionScheduler.java:143-161 | the loop builds min(500, 250000 - count) rows, the k-th being the generated row for offset next + k, the k-th draws and the k-th tier; each tier is `chooseTier` of the big and medium counts over the table and the rows before it, with that iteration's draw, so no tier passes its quota of 250 |
| `DataInjectionScheduler.Generate` | src/main/java/com/messaging/cloudserver/scheduler/DataInjectionScheduler.java:113-177 | at 250,000 rows or more it reports the target and changes nothing; below it, without a failure, it commits; a failed batch leaves the table unchanged; a committed one appends exactly min(500, 250000 - count) generated rows with consecutive offsets, each tier being `chooseTier` of the counts in the table before that row, and pushes neither tier count past 250 |
| `CloudServerController.PollMessages` | src/main/java/com/messaging/cloudserver/controller/CloudServerController.java:67-76 | status 200 with the repository's poll from the given offset (0 by default); a null repository throws NullPointerException |
| `CloudServerController.PollEmptyIsOk` | src/main/java/com/messaging/cloudserver/controller/CloudServerController.java:73-75 | an empty poll still answers 200, and is empty exactly when nothing eligible lies beyond the cursor |
| `CloudServerController.PollDefaultsToStart` | src/main/java/com/messaging/cloudserver/controller/CloudServerController.java:69-73 | without the parameter the poll is the poll from 0, and every offset it returns is positive |
| `CloudServerController.RepeatX` | src/main/java/com/messaging/cloudserver/controller/CloudServerController.java:116 | n copies of 'X' |
| `CloudServerController.GenerateJsonPayload` | src/main/java/com/messaging/cloudserver/controller/CloudServerController.java:108-119 | header, then only 'X', then `"}`; length max(sizeBytes, header + 2) in UTF-16 units when the subtraction does not overflow |
| `CloudServerController.PayloadLength` | src/main/java/com/messaging/cloudserver/controller/CloudServerController.java:111-118 | the UTF-16 length of header, padding and footer adds up |
| `CloudServerController.PayloadHeaderBound` | src/main/java/com/messaging/cloudserver/controller/CloudServerController.java:109 | the header for a configured topic is at most 180 UTF-16 units |
| `CloudServerController.GenerateDummyRecord` | src/main/java/com/messaging/cloudserver/controller/CloudServerController.java:80-105 | the given offset, a configured topic, partition 0, MESSAGE, key topic-offset, data of length in [5000, 30720), crc32 the data's String hash |
| `CloudServerController.DummyKeysIdentifyOffsets` | src/main/java/com/messaging/cloudserver/controller/CloudServerController.java:98 | same-topic dummy records share a key exactly when they share an offset, and are then `equals` |
| `CloudServerController.EstimateRecordSize` | src/main/java/com/messaging/cloudserver/controller/CloudServerController.java:122-125 | null data throws NullPointerException; otherwise the data's length plus 200, wrapped to `int` |
| `CloudServerController.DummyEstimate` | src/main/java/com/messaging/cloudserver/controller/CloudServerController.java:80-125 | a dummy record's estimate is its payload size plus 200 |
| `MessageService.NewService` | src/main/java/com/messaging/cloudserver/service/MessageService.java:40-52 | the queue starts empty; the data mode is the property, or "TEST" |
| `MessageService.GetMessagesIgnoresLimit` | src/main/java/com/messaging/cloudserver/service/MessageService.java:83-86 | the limit makes no difference, and at most 300 records come back |
| `MessageService.GetMessages` | src/main/java/com/messaging/cloudserver/service/MessageService.java:83-86 | at most 300 records, offsets strictly increasing and beyond the cursor; without a storage error, empty exactly when no eligible row lies beyond the cursor |
| `MessageService.GetTotalMessages` | src/main/java/com/messaging/cloudserver/service/MessageService.java:91-93 | the queue's size, capped at Integer.MAX_VALUE |
| `MessageService.DataModeRoundTrip` | src/main/java/com/messaging/cloudserver/service/MessageService.java:113-115 | `getDataMode` returns the configured mode, "TEST" by default |
| `MessageService.EntriesFrom` | src/main/java/com/messaging/cloudserver/service/MessageService.java:103-108 | one entry per position from the start index, carrying that index and that message's key |
| `MessageService.RecentMessagesAsWritten` | src/main/java/com/messaging/cloudserver/service/MessageService.java:98-111 | the entries from max(0, n - count), computed with `int` wrap-around |
| `MessageService.RecentMessages` | src/main/java/com/messaging/cloudserver/service/MessageService.java:98-111 | max(0, min(count, n)) entries: the last messages, in order, each with its index and key |
| `MessageService.RecentMessagesAgree` | src/main/java/com/messaging/cloudserver/service/MessageService.java:102 | the two agree whenever n - count fits in an `int` |
| `MessageService.RecentMessagesMinValueReturnsAll` | src/main/java/com/messaging/cloudserver/service/MessageService.java:102 | with one message, count Integer.MIN_VALUE returns one entry instead of none |
| `MessageService.FreshServiceIsEmpty` | src/main/java/com/messaging/cloudserver/service/MessageService.java:40-111 | nothing fills the queue: total 0 and an empty recent list for every count |
| `Pipeline.SmallTargetIsOversizeLimit` | src/main/java/com/messaging/cloudserver/scheduler/DataInjectionScheduler.java:59-61 | SMALL records are made exactly at the reader's 19990 limit; MEDIUM and BIG above it |
| `Pipeline.GeneratedRowVisibleIffSmall` | src/main/java/com/messaging/cloudserver/repository/EventRepository.java:51 | a generated row is eligible exactly when it is SMALL and beyond the cursor |
| `Pipeline.ReaderSeesOnlySmall` | src/main/java/com/messaging/cloudserver/repository/EventRepository.java:51-52 | over a generated table both queries return only 19990-byte rows, never a big or medium one |
| `Pipeline.BatchKeepsGeneratorSized` | src/main/java/com/messaging/cloudserver/scheduler/DataInjectionScheduler.java:143-161 | a committed batch keeps every row at one of the three generated sizes |
| `Pipeline.BatchVisibility` | src/main/java/com/messaging/cloudserver/repository/EventRepository.java:51 | the k-th row of a batch is pollable exactly when it is SMALL and beyond the cursor |
| `Pipeline.ServiceMatchesPoll` | src/main/java/com/messaging/cloudserver/service/MessageService.java:83-86 | the service's `getMessages` returns what the poll endpoint returns for that cursor |
| `Pipeline.SamplePoll` | src/main/java/com/messaging/cloudserver/repository/EventRepository.java:51-52 | on rows 100, 101, 102 (oversize) and 103, the poll after 99 returns 100, 101 and 103, and the poll after 103 is empty |

## Left out

- JDBC and SQLite plumbing is not modelled: connections, `createSchema`, `queryLong` and parameter binding. Each query is modelled by what it selects, over the table as a value.
- `mapRetrievedMessageFromResultSet` and its commented-out twin are left out; `GetMessages` returns the selected rows.
- EventRepository.GetMessages: returns a set of rows rather than a list of records, because the outer SELECT has no ORDER BY and the row-to-record mapping is left out.
- EventRepository.FetchEvents: `Instant.parse` is an arbitrary total function `parse`. In the code, a malformed `created_at` throws DateTimeParseException, which is not a SQLException and would escape the method.
- Failures of the count and offset queries at the start of `generate` are not modelled; like batch failures, they leave the table unchanged and are only logged. `failure` stands for a failure of `executeBatch` or `commit`.
- The random generator, the UUID generator and the clocks become caller-supplied values. The order in which one shared `Random` is drawn from is not modelled.
- DataInjectionScheduler.ChooseTier: `r` is a real in [0, 1) compared with 0.001 and 0.002 exactly. The double comparison and the double product `(int)(250000 * 0.001)` are not modelled; the quotas are the integer 250.
- `%d` is modelled as plain decimal digits with a leading minus sign. Locale-specific digits are not modelled.
- Offsets are unbounded integers: the `long` overflow of `MAX(msg_offset) + 1` and `nextOffset++` near Long.MAX_VALUE is not modelled.
- CloudServerController.GenerateJsonPayload: the length promise holds only when `sizeBytes - header.length() - 2` does not overflow. For a very negative `sizeBytes` the code asks `repeat` for about 2^31 characters, and the resulting OutOfMemoryError is not modelled.
- MessageService.RecentMessagesAsWritten: a queue of more than Integer.MAX_VALUE messages is not modelled, since no `ArrayList` can hold its copy.
- Micronaut wiring (`@Property` injection), the health, status and topology endpoints, JSON serialisation, logging and `Application` are left out. They are framework code without logic of their own.
- Concurrency is left out: `ConcurrentLinkedQueue` thread safety, and overlapping calls of `generate`.
- `generateDummyRecord` is private and never called. It is modelled for its contract; `Instant.now()` becomes the `now` argument.
- `data.hashCode()` as the dummy record's crc32 is modelled as Java's String hash (`JavaLang.StringHash`); CRC32 itself plays no part.
- MessageRecords.ToString: the model prints msgKey, eventType and createdAt after the partition, as the code does, but no lemma reads them back. `Instant.toString()` is the arbitrary function `instantText`, so createdAt could not be read back in any case.
- `Message` and `Event` are plain data holders; `Message` appears only as the queue's element type.

## Findings

| source | as written | input that shows it | evidently intended | confidence | as-written member | corrected member |
|---|---|---|---|---|---|---|
| src/main/java/com/messaging/cloudserver/service/MessageService.java:102 | `allMessages.size() - count` is `int` arithmetic and wraps for very negative counts | a queue of 1 message, count = Integer.MIN_VALUE: 1 - MIN_VALUE wraps to MIN_VALUE + 1, so start = 0 and 1 entry is returned | max(0, min(count, n)) entries, none for a negative count | low, not executed; the queue is never filled and the only caller passes 100 | `MessageService.RecentMessagesAsWritten`, `MessageService.RecentMessagesMinValueReturnsAll` | `MessageService.RecentMessages` |
