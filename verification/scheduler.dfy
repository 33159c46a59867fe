/** The write side of the log: `generate()`, which appends batches of
    synthetic events to the `event` table until it holds 250,000 rows, mostly
    small, with at most 250 big (about 1 MB) and 250 medium (about 512 KB) ones.

    The random source, the clock and the UUID generator are replaced by the
    draws a caller supplies (`RecordDraws`); the table is a value and a
    committed batch is the old table followed by the new rows. */
module DataInjectionScheduler {
  import opened JavaLang
  import opened Decimal
  import opened EventTable
  import opened Topics

  const StartOffset: int := 1_000_000
  const TargetRecordCount: nat := 250_000
  /** `(int) (TARGET_RECORD_COUNT * 0.001)`, for both the big and the medium tier. */
  const BigTargetCount: nat := 250
  const MedTargetCount: nat := 250
  const MaxRecordBytes: int := 1_000_000
  const BigTargetBytes: int := 980_000
  const MedTargetBytes: int := 512_000
  const SmallTargetBytes: int := 20_000
  const BatchSize: nat := 500
  /** The size bounds of the two count queries: big is `event_size >= 900000`,
      medium is `event_size >= 450000 AND event_size < 900000`. */
  const BigThreshold: int := 900_000
  const MedThreshold: int := 450_000

  /* ---------------- tiers ---------------- */

  datatype Tier = BIG | MEDIUM | SMALL

  /** The enum constant's name, as `%s` formats it. */
  function TierName(tier: Tier): (s: string)
    ensures 3 <= |s| <= 6
  {
    match tier
    case BIG => "BIG"
    case MEDIUM => "MEDIUM"
    case SMALL => "SMALL"
  }

  /** The byte size the generator aims a record of each tier at. */
  function TargetBytes(tier: Tier): (n: int)
    ensures SmallTargetBytes <= n < MaxRecordBytes
  {
    match tier
    case BIG => BigTargetBytes
    case MEDIUM => MedTargetBytes
    case SMALL => SmallTargetBytes
  }

  /** A value of `random.nextDouble()`. */
  type UnitReal = r: real | 0.0 <= r < 1.0 witness 0.0

  /** `chooseTier(bigCount, medCount)`: SMALL once both quotas are met without
      drawing; otherwise BIG with probability 0.001 while big rows are below
      quota, else MEDIUM for draws below 0.002 while medium rows are below quota,
      else SMALL. */
  function ChooseTier(bigCount: int, medCount: int, r: UnitReal): (tier: Tier)
    ensures tier == BIG <==> bigCount < BigTargetCount && r < 0.001
    ensures tier == MEDIUM <==> medCount < MedTargetCount && r < 0.002 && !(bigCount < BigTargetCount && r < 0.001)
    ensures bigCount >= BigTargetCount && medCount >= MedTargetCount ==> tier == SMALL
  {
    if bigCount >= BigTargetCount && medCount >= MedTargetCount then SMALL
    else if bigCount < BigTargetCount && r < 0.001 then BIG
    else if medCount < MedTargetCount && r < 0.002 then MEDIUM
    else SMALL
  }

  /** Row classification by the two count queries. */
  predicate IsBig(row: Row) { row.size >= BigThreshold }
  predicate IsMedium(row: Row) { MedThreshold <= row.size < BigThreshold }

  function BigCount(s: seq<Row>): nat { Count(s, IsBig) }
  function MedCount(s: seq<Row>): nat { Count(s, IsMedium) }

  /** A record aimed at its tier's target size, 10 bytes short, is counted in
      that tier by the count queries: BIG rows as big, MEDIUM rows as medium,
      SMALL rows as neither. */
  lemma TierSizeClassified(tier: Tier, row: Row)
    requires row.size == TargetBytes(tier) - 10
    ensures IsBig(row) <==> tier == BIG
    ensures IsMedium(row) <==> tier == MEDIUM
  {
  }

  /* ---------------- random payloads ---------------- */

  /** A value of `random.nextInt(62)`. */
  type AlphaIndex = k: int | 0 <= k < 62

  /** `chars.charAt(k)` for chars = "A".."Z" + "a".."z" + "0".."9". */
  function AlphaChar(k: AlphaIndex): (c: char)
    ensures ('A' <= c <= 'Z') || ('a' <= c <= 'z') || ('0' <= c <= '9')
    ensures c as int < 0x80
  {
    if k < 26 then ('A' as int + k) as char
    else if k < 52 then ('a' as int + (k - 26)) as char
    else ('0' as int + (k - 52)) as char
  }

  /** The 62 characters are distinct, so every draw yields its own character. */
  lemma AlphaCharInjective(a: AlphaIndex, b: AlphaIndex)
    requires AlphaChar(a) == AlphaChar(b)
    ensures a == b
  {
  }

  predicate IsAlphanumeric(s: string)
  {
    forall i :: 0 <= i < |s| ==> ('A' <= s[i] <= 'Z') || ('a' <= s[i] <= 'z') || ('0' <= s[i] <= '9')
  }

  /** `randomAscii(len)`: empty for a non-positive length, otherwise `len`
      characters, the i-th chosen by the i-th draw `pick(i)`. */
  function RandomAscii(len: int, pick: nat -> AlphaIndex): (s: string)
    ensures |s| == Max(0, len)
  {
    if len <= 0 then ""
    else seq(len, (i: int) requires 0 <= i < len => AlphaChar(pick(i)))
  }

  /** The i-th character is the i-th draw's, so the text is alphanumeric ASCII. */
  lemma RandomAsciiContents(len: int, pick: nat -> AlphaIndex)
    ensures var s := RandomAscii(len, pick);
      && (forall i :: 0 <= i < |s| ==> s[i] == AlphaChar(pick(i)))
      && IsAlphanumeric(s) && IsAscii(s)
  {
  }

  /* ---------------- the JSON envelope ---------------- */

  /** The text block before the payload, with topic, timestamp and tier filled in. */
  function EnvelopeHead(topic: string, now: int, tier: Tier): string
  {
    "{\"topic\":\"" + topic + "\",\"ts\":" + LongToString(now) + ",\"tier\":\"" + TierName(tier) + "\",\"payload\":\""
  }

  /** The text block after the payload; it ends with the block's final newline. */
  const EnvelopeTail: string := "\"}\n"

  /** `{"topic":"%s","ts":%d,"tier":"%s","payload":"%s"}` plus newline, formatted.
      Neither topic nor payload is escaped. */
  function Envelope(topic: string, now: int, tier: Tier, payload: string): string
  {
    EnvelopeHead(topic, now, tier) + payload + EnvelopeTail
  }

  /** The envelope opens with the topic field, holds the head, then the payload
      unescaped, then the closing text. */
  lemma EnvelopeLayout(topic: string, now: int, tier: Tier, payload: string)
    ensures var e := Envelope(topic, now, tier, payload);
            var h := EnvelopeHead(topic, now, tier);
      && |e| == |h| + |payload| + |EnvelopeTail|
      && e[..|h|] == h && e[|h|..|h| + |payload|] == payload && e[|h| + |payload|..] == EnvelopeTail
      && h[..10 + |topic|] == "{\"topic\":\"" + topic
  {
    var h := EnvelopeHead(topic, now, tier);
    var e := Envelope(topic, now, tier, payload);
    assert e == h + payload + EnvelopeTail;
    assert e[|h|..|h| + |payload|] == payload;
  }

  /** The payload can be read back: for a fixed topic, timestamp and tier, distinct
      payloads give distinct envelopes. */
  lemma EnvelopePayloadInjective(topic: string, now: int, tier: Tier, p1: string, p2: string)
    requires Envelope(topic, now, tier, p1) == Envelope(topic, now, tier, p2)
    ensures p1 == p2
  {
    EnvelopeLayout(topic, now, tier, p1);
    EnvelopeLayout(topic, now, tier, p2);
  }

  /** An ASCII payload adds exactly its length to the envelope's UTF-8 size. */
  lemma EnvelopeSize(topic: string, now: int, tier: Tier, payload: string)
    requires IsAscii(payload)
    ensures Utf8Length(Envelope(topic, now, tier, payload))
            == Utf8Length(Envelope(topic, now, tier, "")) + |payload|
  {
    var head := EnvelopeHead(topic, now, tier);
    Utf8Append(head + payload, EnvelopeTail);
    Utf8Append(head, payload);
    Utf8Append(head, EnvelopeTail);
    AsciiUtf8Length(payload);
    assert head + "" + EnvelopeTail == head + EnvelopeTail;
  }

  /** With a topic of at most 40 characters and a `long` timestamp the empty
      envelope is at most 436 bytes. */
  lemma EnvelopeBaseBound(topic: string, now: int, tier: Tier)
    requires |topic| <= 40 && IsLong(now)
    ensures Utf8Length(Envelope(topic, now, tier, "")) <= 436
  {
    LongToStringLength(now);
    Utf8LengthBound(Envelope(topic, now, tier, ""));
  }

  /** `DummyRecord(topic, json, sizeBytes)`. */
  datatype DummyRecord = DummyRecord(topic: string, json: string, sizeBytes: int)

  /** The payload length `createRecord` asks for: the target minus the empty
      envelope's size minus 10, never negative. */
  function PayloadSize(topic: string, now: int, tier: Tier): (n: int)
    ensures n >= 0
    ensures n > 0 ==> n == TargetBytes(tier) - Utf8Length(Envelope(topic, now, tier, "")) - 10
    ensures n == 0 <==> Utf8Length(Envelope(topic, now, tier, "")) + 10 >= TargetBytes(tier)
  {
    Max(0, TargetBytes(tier) - Utf8Length(Envelope(topic, now, tier, "")) - 10)
  }

  /** `createRecord(topic, tier)` at time `now` with payload draws `pick`. When
      the JSON exceeds MAX_RECORD_BYTES the code cuts 1024 characters off the
      payload; a payload shorter than that makes `substring` throw. */
  function CreateRecord(topic: string, tier: Tier, now: int, pick: nat -> AlphaIndex): (r: Result<DummyRecord>)
    ensures var baseSize := Utf8Length(Envelope(topic, now, tier, ""));
      && (r.Err? <==> baseSize > MaxRecordBytes)
      && (r.Err? ==> r.error == StringIndexOutOfBounds)
      && (r.Ok? ==> r.value.topic == topic
                    && r.value.sizeBytes == Utf8Length(r.value.json)
                    && r.value.sizeBytes == Max(TargetBytes(tier) - 10, baseSize)
                    && r.value.sizeBytes <= MaxRecordBytes
                    && exists payload :: IsAlphanumeric(payload) && r.value.json == Envelope(topic, now, tier, payload))
  {
    var payload := RandomAscii(PayloadSize(topic, now, tier), pick);
    RandomAsciiContents(PayloadSize(topic, now, tier), pick);
    var json := Envelope(topic, now, tier, payload);
    EnvelopeSize(topic, now, tier, payload);
    var size := Utf8Length(json);
    if size > MaxRecordBytes then Shrink(topic, now, tier, payload)
    else
      Ok(DummyRecord(topic, json, size))
  }

  /** The shrink branch of `createRecord`: `payload.substring(0, payload.length() - 1024)`
      (the payload is ASCII, so its length in UTF-16 units is its length), then
      the JSON is formatted and measured again. A negative end index throws. */
  function Shrink(topic: string, now: int, tier: Tier, payload: string): (r: Result<DummyRecord>)
    ensures r.Err? <==> |payload| < 1024
    ensures r.Err? ==> r.error == StringIndexOutOfBounds
    ensures r.Ok? ==> r.value.topic == topic && r.value.sizeBytes == Utf8Length(r.value.json)
    ensures r.Ok? ==> r.value.json == Envelope(topic, now, tier, payload[..|payload| - 1024])
  {
    if |payload| < 1024 then Err(StringIndexOutOfBounds)
    else
      var json := Envelope(topic, now, tier, payload[..|payload| - 1024]);
      Ok(DummyRecord(topic, json, Utf8Length(json)))
  }

  /** The shrink branch never shrinks anything: the JSON can only exceed
      MAX_RECORD_BYTES when the payload is empty, and then `substring(0, -1024)`
      throws. */
  lemma OversizeOnlyWithEmptyPayload(topic: string, now: int, tier: Tier, pick: nat -> AlphaIndex)
    ensures var payload := RandomAscii(PayloadSize(topic, now, tier), pick);
      Utf8Length(Envelope(topic, now, tier, payload)) > MaxRecordBytes ==> payload == []
  {
    var payload := RandomAscii(PayloadSize(topic, now, tier), pick);
    RandomAsciiContents(PayloadSize(topic, now, tier), pick);
    EnvelopeSize(topic, now, tier, payload);
  }

  /** For the configured topics and a `long` clock, every tier's record is
      created and hits its target size minus 10 bytes exactly. */
  lemma CreateRecordHitsTarget(i: TopicIndex, tier: Tier, now: int, pick: nat -> AlphaIndex)
    requires IsLong(now)
    ensures var r := CreateRecord(Topic(i), tier, now, pick);
      r.Ok? && r.value.sizeBytes == TargetBytes(tier) - 10
  {
    EnvelopeBaseBound(Topic(i), now, tier);
  }

  /* ---------------- generate(): one call ---------------- */

  /** A `System.currentTimeMillis()` value. */
  type Millis = n: int | LongMin <= n <= LongMax

  /** What the i-th loop iteration draws: `nextDouble` for the tier, the topic
      index, the clock, the payload characters, the UUID and `Instant.now()`'s
      text. */
  datatype RecordDraws = RecordDraws(r: UnitReal, topic: TopicIndex, now: Millis, pick: nat -> AlphaIndex,
                                     key: string, createdAt: string)

  /** `COALESCE(MAX(msg_offset) + 1, START_OFFSET)`: above every stored offset. */
  function NextOffset(t: Table): (n: int)
    ensures forall row :: row in t ==> row.offset < n
    ensures t == [] ==> n == StartOffset
    ensures t != [] ==> n - 1 in set row | row in t :: row.offset
  {
    match MaxOffset(t)
    case None => StartOffset
    case Some(m) => m + 1
  }

  /** The row one iteration inserts: a fresh offset, the drawn UUID, the topic as
      `type`, the JSON as data, its UTF-8 size and the creation instant. */
  function GeneratedRow(offset: int, d: RecordDraws, tier: Tier): (row: Row)
    ensures row.offset == offset && row.key == d.key && row.typ == Topic(d.topic) && row.createdAt == d.createdAt
    ensures row.size == TargetBytes(tier) - 10
    ensures IsBig(row) <==> tier == BIG
    ensures IsMedium(row) <==> tier == MEDIUM
  {
    CreateRecordHitsTarget(d.topic, tier, d.now, d.pick);
    var rec := CreateRecord(Topic(d.topic), tier, d.now, d.pick).value;
    var row := Row(offset, d.key, rec.topic, rec.json, rec.sizeBytes, d.createdAt);
    TierSizeClassified(tier, row);
    row
  }

  /** The data stored with a generated row is the envelope around the drawn
      payload, which is alphanumeric and just long enough to bring the record to
      its target size minus 10 bytes. */
  lemma GeneratedRowData(offset: int, d: RecordDraws, tier: Tier)
    ensures var topic := Topic(d.topic);
            var p := RandomAscii(PayloadSize(topic, d.now, tier), d.pick);
      && GeneratedRow(offset, d, tier).data == Envelope(topic, d.now, tier, p)
      && IsAlphanumeric(p)
      && |p| == TargetBytes(tier) - 10 - Utf8Length(Envelope(topic, d.now, tier, ""))
  {
    var topic := Topic(d.topic);
    var n := PayloadSize(topic, d.now, tier);
    var p := RandomAscii(n, d.pick);
    EnvelopeBaseBound(topic, d.now, tier);
    RandomAsciiContents(n, d.pick);
    EnvelopeSize(topic, d.now, tier, p);
    assert Utf8Length(Envelope(topic, d.now, tier, p)) <= MaxRecordBytes;
    assert CreateRecord(topic, tier, d.now, d.pick) == Ok(DummyRecord(topic, Envelope(topic, d.now, tier, p), Utf8Length(Envelope(topic, d.now, tier, p))));
  }

  /** The size stored with a generated row is its data's UTF-8 length. */
  lemma GeneratedRowSizeIsDataLength(offset: int, d: RecordDraws, tier: Tier)
    ensures var row := GeneratedRow(offset, d, tier); row.size == Utf8Length(row.data)
  {
    CreateRecordHitsTarget(d.topic, tier, d.now, d.pick);
  }

  /** Appending one generated row of a tier moves each count query's result by
      one exactly when the row belongs to that tier, and leaves the counts of
      every earlier prefix alone. */
  lemma CountsAfterAppend(t: seq<Row>, added: seq<Row>, row: Row, tier: Tier)
    requires row.size == TargetBytes(tier) - 10
    ensures BigCount(t + (added + [row])) == BigCount(t + added) + (if tier == BIG then 1 else 0)
    ensures MedCount(t + (added + [row])) == MedCount(t + added) + (if tier == MEDIUM then 1 else 0)
  {
    TierSizeClassified(tier, row);
    CountAppend(t + added, [row], IsBig);
    CountAppend(t + added, [row], IsMedium);
    CountSingle(row, IsBig);
    CountSingle(row, IsMedium);
    assert (t + added) + [row] == t + (added + [row]);
  }

  /** Rows numbered on from `NextOffset(t)` extend the table in offset order. */
  lemma AppendKeepsAscending(t: Table, added: seq<Row>)
    requires forall k :: 0 <= k < |added| ==> added[k].offset == NextOffset(t) + k
    ensures Ascending(t + added)
  {
    forall a, b | 0 <= a < b < |t + added| ensures (t + added)[a].offset < (t + added)[b].offset {
      if b >= |t| && a < |t| {
        assert (t + added)[a] in t;
      }
    }
  }

  /** How a run ends: nothing to do, a committed batch, or a rolled-back one. */
  datatype GenerateOutcome = TargetReached | Inserted(count: nat) | RolledBack(error: Exception)

  /** The quota rule of `chooseTier`, row by row: a BIG row was only chosen
      while fewer than 250 big rows were stored or pending, and likewise for
      MEDIUM. */
  predicate WithinQuota(t: seq<Row>, added: seq<Row>, tiers: seq<Tier>)
    requires |added| == |tiers|
  {
    forall k :: 0 <= k < |tiers| ==>
      && (tiers[k] == BIG ==> BigCount(t + added[..k]) < BigTargetCount)
      && (tiers[k] == MEDIUM ==> MedCount(t + added[..k]) < MedTargetCount)
  }

  /** Each tier is what `chooseTier` returns for the counts of the rows stored
      and pending before it and that iteration's draw. */
  predicate ChosenByRule(t: seq<Row>, added: seq<Row>, tiers: seq<Tier>, draws: nat -> RecordDraws)
    requires |added| == |tiers|
  {
    forall k :: 0 <= k < |tiers| ==>
      tiers[k] == ChooseTier(BigCount(t + added[..k]), MedCount(t + added[..k]), draws(k).r)
  }

  /** `rows` holds, in order, what `gen` makes of the offsets numbered on from
      `start`, the draws and the chosen tiers: its k-th row is
      `gen(start + k, draws(k), tiers[k])`. The insert loop's rows are
      numbered this way with `gen` being `GeneratedRow`. */
  predicate Numbered(rows: seq<Row>, start: int, draws: nat -> RecordDraws, tiers: seq<Tier>,
                     gen: (int, RecordDraws, Tier) -> Row)
  {
    && |rows| == |tiers|
    && forall k :: 0 <= k < |rows| ==> rows[k] == gen(start + k, draws(k), tiers[k])
  }

  /** One iteration of the insert loop: the new row extends the numbering, the
      local counters follow the count queries, and the quota rule and the
      quota bounds are kept. */
  lemma FillStep(t: Table, draws: nat -> RecordDraws, added: seq<Row>, tiers: seq<Tier>,
                 bigCount: int, medCount: int, tier: Tier, row: Row)
    requires Numbered(added, NextOffset(t), draws, tiers, GeneratedRow) && ChosenByRule(t, added, tiers, draws)
    requires bigCount == BigCount(t + added) && medCount == MedCount(t + added)
    requires bigCount <= Max(BigCount(t), BigTargetCount) && medCount <= Max(MedCount(t), MedTargetCount)
    requires tier == ChooseTier(bigCount, medCount, draws(|added|).r)
    requires row == GeneratedRow(NextOffset(t) + |added|, draws(|added|), tier)
    ensures Numbered(added + [row], NextOffset(t), draws, tiers + [tier], GeneratedRow)
    ensures ChosenByRule(t, added + [row], tiers + [tier], draws)
    ensures BigCount(t + (added + [row])) == bigCount + (if tier == BIG then 1 else 0)
    ensures MedCount(t + (added + [row])) == medCount + (if tier == MEDIUM then 1 else 0)
    ensures bigCount + (if tier == BIG then 1 else 0) <= Max(BigCount(t), BigTargetCount)
    ensures medCount + (if tier == MEDIUM then 1 else 0) <= Max(MedCount(t), MedTargetCount)
  {
    CountsAfterAppend(t, added, row, tier);
    NumberedStep(added, NextOffset(t), draws, tiers, GeneratedRow, tier, row);
    ChoiceStep(t, added, tiers, draws, tier, row);
  }

  /** A row made from the next offset, draw and tier extends the numbering. */
  lemma NumberedStep(rows: seq<Row>, start: int, draws: nat -> RecordDraws, tiers: seq<Tier>,
                     gen: (int, RecordDraws, Tier) -> Row, tier: Tier, row: Row)
    requires Numbered(rows, start, draws, tiers, gen)
    requires row == gen(start + |rows|, draws(|rows|), tier)
    ensures Numbered(rows + [row], start, draws, tiers + [tier], gen)
  {
    var rows', tiers' := rows + [row], tiers + [tier];
    forall k | 0 <= k < |rows'| ensures rows'[k] == gen(start + k, draws(k), tiers'[k]) {
      if k < |rows| {
        assert rows'[k] == rows[k] && tiers'[k] == tiers[k];
      }
    }
  }

  /** Generated rows carry their numbers as offsets. */
  lemma GeneratedOffsets(rows: seq<Row>, start: int, draws: nat -> RecordDraws, tiers: seq<Tier>)
    requires Numbered(rows, start, draws, tiers, GeneratedRow)
    ensures forall k :: 0 <= k < |rows| ==> rows[k].offset == start + k
  {
  }

  /** One more iteration keeps every tier the rule's choice, provided the new
      tier was chosen from the current counts and the iteration's draw. */
  lemma ChoiceStep(t: seq<Row>, added: seq<Row>, tiers: seq<Tier>, draws: nat -> RecordDraws, tier: Tier, row: Row)
    requires |added| == |tiers| && ChosenByRule(t, added, tiers, draws)
    requires tier == ChooseTier(BigCount(t + added), MedCount(t + added), draws(|added|).r)
    ensures ChosenByRule(t, added + [row], tiers + [tier], draws)
  {
    var i := |added|;
    var added', tiers' := added + [row], tiers + [tier];
    forall k | 0 <= k < i + 1
      ensures tiers'[k] == ChooseTier(BigCount(t + added'[..k]), MedCount(t + added'[..k]), draws(k).r)
    {
      if k < i {
        assert tiers'[k] == tiers[k];
        assert added'[..k] == added[..k];
      } else {
        assert added'[..k] == added;
      }
    }
  }

  /** Tiers chosen by the rule respect the quotas: BIG only while fewer than
      250 big rows are stored or pending, and likewise for MEDIUM. */
  lemma RuleKeepsQuota(t: seq<Row>, added: seq<Row>, tiers: seq<Tier>, draws: nat -> RecordDraws)
    requires |added| == |tiers| && ChosenByRule(t, added, tiers, draws)
    ensures WithinQuota(t, added, tiers)
  {
    forall k | 0 <= k < |tiers|
      ensures tiers[k] == BIG ==> BigCount(t + added[..k]) < BigTargetCount
      ensures tiers[k] == MEDIUM ==> MedCount(t + added[..k]) < MedTargetCount
    {
      var b, m := BigCount(t + added[..k]), MedCount(t + added[..k]);
      assert tiers[k] == ChooseTier(b, m, draws(k).r);
    }
  }

  /** Committing the pending rows turns the per-iteration facts, stated over
      the pending prefix, into facts over prefixes of the new table. */
  lemma CommitPrefixes(t: seq<Row>, added: seq<Row>, tiers: seq<Tier>, draws: nat -> RecordDraws)
    requires |added| == |tiers| && WithinQuota(t, added, tiers) && ChosenByRule(t, added, tiers, draws)
    ensures var t' := t + added;
      && (forall k :: 0 <= k < |tiers| && tiers[k] == BIG ==> BigCount(t'[..|t| + k]) < BigTargetCount)
      && (forall k :: 0 <= k < |tiers| && tiers[k] == MEDIUM ==> MedCount(t'[..|t| + k]) < MedTargetCount)
      && (forall k :: 0 <= k < |tiers| ==>
            tiers[k] == ChooseTier(BigCount(t'[..|t| + k]), MedCount(t'[..|t| + k]), draws(k).r))
  {
    var t' := t + added;
    forall k | 0 <= k < |tiers| ensures t'[..|t| + k] == t + added[..k] {
      assert t'[..|t| + k] == t + added[..k];
    }
  }

  /** The insert loop of `generate()` run against a table of |t| rows: it builds
      one row per iteration until 500 rows are pending or the table would reach
      250,000, numbering them on from `NextOffset(t)`. */
  method FillBatch(t: Table, draws: nat -> RecordDraws) returns (added: seq<Row>, tiers: seq<Tier>)
    ensures |added| == |tiers| == Max(0, Min(BatchSize, TargetRecordCount - |t|))
    ensures Numbered(added, NextOffset(t), draws, tiers, GeneratedRow)
    ensures WithinQuota(t, added, tiers)
    ensures ChosenByRule(t, added, tiers, draws)
    ensures BigCount(t + added) <= Max(BigCount(t), BigTargetCount)
    ensures MedCount(t + added) <= Max(MedCount(t), MedTargetCount)
  {
    var totalCount := |t|;
    var bigCount := BigCount(t);
    var medCount := MedCount(t);
    var nextOffset := NextOffset(t);
    added, tiers := [], [];
    var i := 0;
    assert t + added == t;
    while i < BatchSize && totalCount < TargetRecordCount
      invariant 0 <= i <= BatchSize
      invariant totalCount == |t| + i
      invariant i > 0 ==> totalCount <= TargetRecordCount
      invariant |added| == |tiers| == i
      invariant nextOffset == NextOffset(t) + i
      invariant Numbered(added, NextOffset(t), draws, tiers, GeneratedRow)
      invariant bigCount == BigCount(t + added) && medCount == MedCount(t + added)
      invariant bigCount <= Max(BigCount(t), BigTargetCount)
      invariant medCount <= Max(MedCount(t), MedTargetCount)
      invariant ChosenByRule(t, added, tiers, draws)
    {
      var d := draws(i);
      var tier := ChooseTier(bigCount, medCount, d.r);
      var row := GeneratedRow(nextOffset, d, tier);
      FillStep(t, draws, added, tiers, bigCount, medCount, tier, row);
      added, tiers := added + [row], tiers + [tier];
      nextOffset := nextOffset + 1;
      totalCount := totalCount + 1;
      if tier == BIG { bigCount := bigCount + 1; }
      if tier == MEDIUM { medCount := medCount + 1; }
      i := i + 1;
    }
    RuleKeepsQuota(t, added, tiers, draws);
  }

  /** `generate()`. `draws(i)` supplies the i-th iteration's random values and
      `failure` is a SQLException from `executeBatch` or `commit`; it rolls the
      batch back and is logged. */
  method Generate(t: Table, draws: nat -> RecordDraws, failure: bool)
    returns (t': Table, tiers: seq<Tier>, outcome: GenerateOutcome)
    ensures |t| >= TargetRecordCount ==> outcome == TargetReached && t' == t && tiers == []
    ensures |t| < TargetRecordCount ==> (outcome.RolledBack? <==> failure)
    ensures |t| < TargetRecordCount && !failure ==> outcome.Inserted?
    ensures outcome.TargetReached? ==> |t| >= TargetRecordCount && t' == t && tiers == []
    ensures outcome.RolledBack? ==> t' == t && outcome.error == SqlError
    ensures outcome.Inserted? ==>
      && outcome.count == |tiers| == Min(BatchSize, TargetRecordCount - |t|)
      && |t'| == |t| + outcome.count && t'[..|t|] == t
      && Numbered(t'[|t|..], NextOffset(t), draws, tiers, GeneratedRow)
    ensures outcome.Inserted? ==> BigCount(t') <= Max(BigCount(t), BigTargetCount)
    ensures outcome.Inserted? ==> MedCount(t') <= Max(MedCount(t), MedTargetCount)
    ensures outcome.Inserted? ==> forall k :: 0 <= k < |tiers| && tiers[k] == BIG ==> BigCount(t'[..|t| + k]) < BigTargetCount
    ensures outcome.Inserted? ==> forall k :: 0 <= k < |tiers| && tiers[k] == MEDIUM ==> MedCount(t'[..|t| + k]) < MedTargetCount
    ensures outcome.Inserted? ==> forall k :: 0 <= k < |tiers| ==>
      tiers[k] == ChooseTier(BigCount(t'[..|t| + k]), MedCount(t'[..|t| + k]), draws(k).r)
  {
    if |t| >= TargetRecordCount {
      return t, [], TargetReached;
    }
    var added;
    added, tiers := FillBatch(t, draws);
    if failure {
      return t, tiers, RolledBack(SqlError);
    }
    GeneratedOffsets(added, NextOffset(t), draws, tiers);
    AppendKeepsAscending(t, added);
    t' := t + added;
    assert t'[..|t|] == t && t'[|t|..] == added;
    CommitPrefixes(t, added, tiers, draws);
    outcome := Inserted(|added|);
  }
}
