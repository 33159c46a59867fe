/** The HTTP-facing pieces of the cloud server that carry logic: the poll
    endpoint, which hands the cursor to the repository, and the dummy-record
    helpers (JSON padding, size estimate). */
module CloudServerController {
  import opened JavaLang
  import opened Decimal
  import opened EventTypes
  import opened MessageRecords
  import opened EventTable
  import opened EventRepository
  import opened Topics

  /** `30 * 1024`: the exclusive upper bound of a dummy payload size. */
  const MaxRecordSize: int := 30720
  /** `1024 * 1024`: the byte budget the poll endpoint passes along. */
  const TargetBatchSize: int := 1048576
  const MinPayloadSize: int := 5000

  /** An HTTP response: status code and body. */
  datatype Response<T> = Response(status: int, body: T)

  const HttpOk: int := 200

  /* ---------------- GET /pipe/poll ---------------- */

  /** `pollMessages(offset)`. `repo` is the injected repository, which may be
      null; `offset` is the query parameter, absent meaning its default 0. The
      list comes back with status 200 whatever it holds. */
  function PollMessages(repo: Option<Table>, offset: Option<int>, keys: nat -> string,
                        parse: string -> Instant, failure: Option<nat>): (r: Result<Response<seq<MessageRecord>>>)
    ensures r.Err? <==> repo.None?
    ensures r.Err? ==> r.error == NullPointer
    ensures r.Ok? ==> r.value.status == HttpOk
    ensures r.Ok? ==> var cursor := if offset.Some? then offset.value else 0;
      r.value.body == FetchEvents(repo.value, cursor, TargetBatchSize, keys, parse, failure)
  {
    match repo
    case None => Err(NullPointer)
    case Some(t) =>
      var cursor := if offset.Some? then offset.value else 0;
      Ok(Response(HttpOk, FetchEvents(t, cursor, TargetBatchSize, keys, parse, failure)))
  }

  /** An empty poll is still a 200: the body is empty exactly when no eligible
      row lies beyond the cursor, and the status does not depend on it. */
  lemma PollEmptyIsOk(t: Table, offset: int, keys: nat -> string, parse: string -> Instant)
    ensures var r := PollMessages(Some(t), Some(offset), keys, parse, None);
      && r.Ok? && r.value.status == HttpOk
      && (r.value.body == [] <==> forall row :: row in t ==> !Eligible(row, offset))
  {
    FetchEmptyIff(t, offset, TargetBatchSize, keys, parse);
  }

  /** Without the parameter the poll starts from the beginning: it returns the
      first eligible rows of the table, each with a positive offset. */
  lemma PollDefaultsToStart(t: Table, keys: nat -> string, parse: string -> Instant)
    ensures PollMessages(Some(t), None, keys, parse, None) == PollMessages(Some(t), Some(0), keys, parse, None)
    ensures var body := PollMessages(Some(t), None, keys, parse, None).value.body;
      forall i :: 0 <= i < |body| ==> body[i].offset > 0
  {
    FetchEventsOrdered(t, 0, TargetBatchSize, keys, parse, None);
  }

  /* ---------------- dummy records ---------------- */

  /** The JSON text before the padding. */
  function PayloadHeader(topic: string, offset: int): string
  {
    "{\"topic\":\"" + topic + "\",\"offset\":" + LongToString(offset) + ",\"data\":\""
  }

  const PayloadFooter: string := "\"}"

  /** `"X".repeat(n)`. */
  function RepeatX(n: nat): (s: string)
    ensures |s| == n && IsAscii(s)
    ensures forall i :: 0 <= i < n ==> s[i] == 'X'
  {
    seq(n, _ => 'X')
  }

  /** `generateJsonPayload(topic, offset, sizeBytes)`: the header, padding and
      footer, the padding making the text `sizeBytes` long in UTF-16 units when
      it can. The subtraction is `int` arithmetic. */
  function GenerateJsonPayload(topic: string, offset: int, sizeBytes: int): (s: string)
    requires IsInt(sizeBytes)
    ensures var header := PayloadHeader(topic, offset);
      && |s| >= |header| + 2
      && s[..|header|] == header
      && s[|s| - 2..] == PayloadFooter
      && (forall i :: |header| <= i < |s| - 2 ==> s[i] == 'X')
      && (IsInt(sizeBytes - JavaLength(header) - 2) ==> JavaLength(s) == Max(sizeBytes, JavaLength(header) + 2))
  {
    var header := PayloadHeader(topic, offset);
    var remaining := Wrap32(sizeBytes - JavaLength(header) - 2);
    var body := RepeatX(if remaining < 0 then 0 else remaining);
    PayloadLength(header, body);
    header + body + PayloadFooter
  }

  /** The UTF-16 length of header, padding and footer adds up. */
  lemma PayloadLength(header: string, body: string)
    requires IsAscii(body)
    ensures JavaLength(header + body + PayloadFooter) == JavaLength(header) + |body| + 2
  {
    Utf16Append(header + body, PayloadFooter);
    Utf16Append(header, body);
    AsciiJavaLength(body);
    AsciiJavaLength(PayloadFooter);
  }

  /** For a topic of at most 40 characters and a `long` offset the header is at
      most 180 UTF-16 units, far below the smallest dummy payload size. */
  lemma PayloadHeaderBound(topic: string, offset: int)
    requires |topic| <= 40 && IsLong(offset)
    ensures JavaLength(PayloadHeader(topic, offset)) <= 180
  {
    LongToStringLength(offset);
    JavaLengthBound(PayloadHeader(topic, offset));
  }

  /** A draw of `RANDOM.nextInt(MAX_RECORD_SIZE - 5000)`. */
  type SizeDraw = k: int | 0 <= k < 25720

  /** `generateDummyRecord(offset)`: topic draw `i`, size draw `k`, clock `now`. */
  function GenerateDummyRecord(offset: int, i: TopicIndex, k: SizeDraw, now: Instant): (r: MessageRecord)
    requires IsLong(offset)
    ensures r.offset == offset && r.partition == 0 && r.eventType == Some(MESSAGE)
    ensures r.topic == Some(Topic(i))
    ensures r.msgKey == Some(r.topic.value + "-" + LongToString(offset))
    ensures r.data.Some? && MinPayloadSize <= JavaLength(r.data.value) < MaxRecordSize
    ensures r.data.Some? && r.crc32 == StringHash(r.data.value)
    ensures r.createdAt == Some(now)
  {
    var topic := Topic(i);
    var payloadSize := MinPayloadSize + k;
    var data := GenerateJsonPayload(topic, offset, payloadSize);
    PayloadHeaderBound(topic, offset);
    var r := Blank();
    var r := SetOffset(r, offset);
    var r := SetTopic(r, Some(topic));
    var r := SetPartition(r, 0);
    var r := SetMsgKey(r, Some(topic + "-" + LongToString(offset)));
    var r := SetEventType(r, Some(MESSAGE));
    var r := SetData(r, Some(data));
    var r := SetCreatedAt(r, Some(now));
    SetCrc32(r, StringHash(data))
  }

  /** Dummy keys name their record: two dummy records of the same topic share a
      key only if they share an offset, and then they are `equals`. */
  lemma DummyKeysIdentifyOffsets(o1: int, o2: int, i: TopicIndex, k1: SizeDraw, k2: SizeDraw, n1: Instant, n2: Instant)
    requires IsLong(o1) && IsLong(o2)
    ensures var a := GenerateDummyRecord(o1, i, k1, n1);
            var b := GenerateDummyRecord(o2, i, k2, n2);
      (a.msgKey == b.msgKey <==> o1 == o2) && (o1 == o2 ==> Equals(a, Record(b)))
  {
    var a := GenerateDummyRecord(o1, i, k1, n1);
    var b := GenerateDummyRecord(o2, i, k2, n2);
    var topic := Topic(i);
    if a.msgKey == b.msgKey {
      assert topic + "-" + LongToString(o1) == topic + "-" + LongToString(o2);
      assert (topic + "-" + LongToString(o1))[|topic| + 1..] == LongToString(o1);
      assert (topic + "-" + LongToString(o2))[|topic| + 1..] == LongToString(o2);
      LongToStringInjective(o1, o2);
    }
    if o1 == o2 {
      EqualsIffSameKey(a, b);
    }
  }

  /** `estimateRecordSize(record)`: the data's length plus 200, in `int`
      arithmetic; null data throws. */
  function EstimateRecordSize(r: MessageRecord): (n: Result<int>)
    ensures n.Err? <==> r.data.None?
    ensures n.Err? ==> n.error == NullPointer
    ensures n.Ok? ==> IsInt(n.value)
    ensures n.Ok? && JavaLength(r.data.value) <= IntMax - 200 ==> n.value == JavaLength(r.data.value) + 200
  {
    match r.data
    case None => Err(NullPointer)
    case Some(d) => Ok(Wrap32(JavaLength(d) + 200))
  }

  /** A dummy record's estimate is its payload size plus 200. */
  lemma DummyEstimate(offset: int, i: TopicIndex, k: SizeDraw, now: Instant)
    requires IsLong(offset)
    ensures EstimateRecordSize(GenerateDummyRecord(offset, i, k, now)) == Ok(MinPayloadSize + k + 200)
  {
    PayloadHeaderBound(Topic(i), offset);
  }
}
