/** The record a poll returns: a mutable Java bean, modelled as an immutable
    value whose setters return an updated copy. Identity (`equals` and
    `hashCode`) rests on four of its eight fields. */
module MessageRecords {
  import opened JavaLang
  import opened Decimal
  import opened EventTypes

  /** A `java.time.Instant`: seconds since the epoch and a nanosecond adjustment. */
  datatype Instant = Instant(epochSecond: int, nano: int)

  datatype MessageRecord = MessageRecord(
    offset: int,                    // Java long
    topic: Option<string>,
    partition: int,                 // Java int
    msgKey: Option<string>,         // business key used for compaction
    eventType: Option<EventType>,
    data: Option<string>,           // JSON payload
    createdAt: Option<Instant>,
    crc32: int)                     // Java int

  /** The eight fields, to say which one an update touches. */
  datatype Field = OffsetField | TopicField | PartitionField | MsgKeyField
                 | EventTypeField | DataField | CreatedAtField | Crc32Field

  /** `a` and `b` agree on every field except possibly `f`. */
  predicate SameExcept(a: MessageRecord, b: MessageRecord, f: Field)
  {
    && (f == OffsetField || a.offset == b.offset)
    && (f == TopicField || a.topic == b.topic)
    && (f == PartitionField || a.partition == b.partition)
    && (f == MsgKeyField || a.msgKey == b.msgKey)
    && (f == EventTypeField || a.eventType == b.eventType)
    && (f == DataField || a.data == b.data)
    && (f == CreatedAtField || a.createdAt == b.createdAt)
    && (f == Crc32Field || a.crc32 == b.crc32)
  }

  /* ---------------- construction ---------------- */

  /** `new MessageRecord()`: Java's default field values. */
  function Blank(): (r: MessageRecord)
    ensures r.offset == 0 && r.partition == 0 && r.crc32 == 0
    ensures r.topic.None? && r.msgKey.None? && r.eventType.None?
    ensures r.data.None? && r.createdAt.None?
  {
    MessageRecord(0, None, 0, None, None, None, None, 0)
  }

  /** The seven-argument constructor: every argument lands in its own field; crc32 stays 0. */
  function Create(offset: int, topic: Option<string>, partition: int, msgKey: Option<string>,
                  eventType: Option<EventType>, data: Option<string>, createdAt: Option<Instant>): (r: MessageRecord)
    ensures r.offset == offset && r.topic == topic && r.partition == partition
    ensures r.msgKey == msgKey && r.eventType == eventType && r.data == data
    ensures r.createdAt == createdAt && r.crc32 == 0
  {
    MessageRecord(offset, topic, partition, msgKey, eventType, data, createdAt, 0)
  }

  /* ---------------- setters: each changes its own field only ---------------- */

  function SetOffset(r: MessageRecord, v: int): (r': MessageRecord)
    ensures r'.offset == v && SameExcept(r, r', OffsetField)
  {
    r.(offset := v)
  }

  function SetTopic(r: MessageRecord, v: Option<string>): (r': MessageRecord)
    ensures r'.topic == v && SameExcept(r, r', TopicField)
  {
    r.(topic := v)
  }

  function SetPartition(r: MessageRecord, v: int): (r': MessageRecord)
    ensures r'.partition == v && SameExcept(r, r', PartitionField)
  {
    r.(partition := v)
  }

  function SetMsgKey(r: MessageRecord, v: Option<string>): (r': MessageRecord)
    ensures r'.msgKey == v && SameExcept(r, r', MsgKeyField)
  {
    r.(msgKey := v)
  }

  function SetEventType(r: MessageRecord, v: Option<EventType>): (r': MessageRecord)
    ensures r'.eventType == v && SameExcept(r, r', EventTypeField)
  {
    r.(eventType := v)
  }

  function SetData(r: MessageRecord, v: Option<string>): (r': MessageRecord)
    ensures r'.data == v && SameExcept(r, r', DataField)
  {
    r.(data := v)
  }

  function SetCreatedAt(r: MessageRecord, v: Option<Instant>): (r': MessageRecord)
    ensures r'.createdAt == v && SameExcept(r, r', CreatedAtField)
  {
    r.(createdAt := v)
  }

  function SetCrc32(r: MessageRecord, v: int): (r': MessageRecord)
    ensures r'.crc32 == v && SameExcept(r, r', Crc32Field)
  {
    r.(crc32 := v)
  }

  /** Filling a blank record through the seven setters builds the same record as
      the seven-argument constructor, whatever order the setters run in. */
  lemma SettersMatchConstructor(offset: int, topic: Option<string>, partition: int, msgKey: Option<string>,
                                eventType: Option<EventType>, data: Option<string>, createdAt: Option<Instant>)
    ensures SetCreatedAt(SetData(SetEventType(SetMsgKey(SetPartition(SetTopic(SetOffset(
              Blank(), offset), topic), partition), msgKey), eventType), data), createdAt)
            == Create(offset, topic, partition, msgKey, eventType, data, createdAt)
    ensures SetOffset(SetTopic(SetPartition(SetMsgKey(SetEventType(SetData(SetCreatedAt(
              Blank(), createdAt), data), eventType), msgKey), partition), topic), offset)
            == Create(offset, topic, partition, msgKey, eventType, data, createdAt)
  {
  }

  /* ---------------- equals ---------------- */

  /** The argument of `equals(Object)`: null, a MessageRecord, or an object of another class. */
  datatype JavaObject = Null | Record(rec: MessageRecord) | OtherClass

  /** The four fields `equals` and `hashCode` look at. */
  function IdentityKey(r: MessageRecord): (int, Option<string>, int, Option<string>)
  {
    (r.offset, r.topic, r.partition, r.msgKey)
  }

  /** `equals(o)`: same class, then offset and partition by value and topic and
      msgKey with `Objects.equals` (two nulls are equal). The `this == o` shortcut
      needs no case of its own: an object always matches its own fields. */
  function Equals(self: MessageRecord, o: JavaObject): (b: bool)
    ensures b ==> o.Record?
    ensures o == Record(self) ==> b
  {
    match o
    case Null => false
    case OtherClass => false
    case Record(that) =>
      self.offset == that.offset
      && self.partition == that.partition
      && self.topic == that.topic
      && self.msgKey == that.msgKey
  }

  /** Two records are equal exactly when their identity keys are. */
  lemma EqualsIffSameKey(a: MessageRecord, b: MessageRecord)
    ensures Equals(a, Record(b)) <==> IdentityKey(a) == IdentityKey(b)
  {
  }

  /** eventType, data, createdAt and crc32 do not take part in equality. */
  lemma EqualsIgnoresPayload(a: MessageRecord, eventType: Option<EventType>, data: Option<string>,
                             createdAt: Option<Instant>, crc32: int)
    ensures Equals(a, Record(a.(eventType := eventType, data := data, createdAt := createdAt, crc32 := crc32)))
  {
  }

  lemma EqualsReflexive(a: MessageRecord)
    ensures Equals(a, Record(a))
  {
  }

  lemma EqualsSymmetric(a: MessageRecord, b: MessageRecord)
    ensures Equals(a, Record(b)) <==> Equals(b, Record(a))
  {
  }

  lemma EqualsTransitive(a: MessageRecord, b: MessageRecord, c: MessageRecord)
    requires Equals(a, Record(b)) && Equals(b, Record(c))
    ensures Equals(a, Record(c))
  {
  }

  lemma EqualsNullOrOtherClass(a: MessageRecord)
    ensures !Equals(a, Null) && !Equals(a, OtherClass)
  {
  }

  /* ---------------- hashCode ---------------- */

  /** `Long.hashCode(v)`: `(int)(v ^ (v >>> 32))`, the XOR of the two 32-bit halves
      of the two's-complement value. */
  function LongHash(v: int): (h: int)
    ensures IsInt(h)
  {
    var lo := v % TwoTo32;
    var hi := (v / TwoTo32) % TwoTo32;
    Wrap32(((lo as bv32) ^ (hi as bv32)) as int)
  }

  /** The hash `Arrays.hashCode` takes for a possibly-null String element. */
  function NullableStringHash(s: Option<string>): (h: int)
    ensures IsInt(h)
  {
    match s
    case None => 0
    case Some(x) => StringHash(x)
  }

  /** `Arrays.hashCode`: start at 1, then h = 31 * h + element hash, in `int` arithmetic. */
  function ArraysHash(hs: seq<int>): (h: int)
    ensures IsInt(h)
    decreases |hs|
  {
    if hs == [] then 1 else Wrap32(31 * ArraysHash(hs[..|hs| - 1]) + hs[|hs| - 1])
  }

  /** `hashCode()`: `Objects.hash(offset, topic, partition, msgKey)`. */
  function HashCode(r: MessageRecord): (h: int)
    ensures IsInt(h)
  {
    ArraysHash([LongHash(r.offset), NullableStringHash(r.topic), Wrap32(r.partition), NullableStringHash(r.msgKey)])
  }

  /** Equal records have equal hash codes. */
  lemma HashConsistentWithEquals(a: MessageRecord, b: MessageRecord)
    requires Equals(a, Record(b))
    ensures HashCode(a) == HashCode(b)
  {
  }

  /* ---------------- toString ---------------- */

  /** How string concatenation prints a possibly-null String. */
  function NullText(s: Option<string>): string
  {
    match s
    case None => "null"
    case Some(x) => x
  }

  /** `toString()`. `instantText` stands for `Instant.toString()` (ISO-8601). */
  function ToString(r: MessageRecord, instantText: Instant -> string): (s: string)
    ensures |s| > |ToStringHead| && s[|s| - 1] == '}'
    ensures s[..|ToStringHead|] == ToStringHead
  {
    ToStringHead + LongToString(r.offset) + ToStringTail(r, instantText)
  }

  const ToStringHead: string := "MessageRecord{offset="

  /** Everything `toString()` prints after the offset. */
  function ToStringTail(r: MessageRecord, instantText: Instant -> string): (s: string)
    ensures |s| > 0 && s[0] == ',' && s[|s| - 1] == '}'
  {
    TopicText(r) + LongToString(r.partition) + AfterPartition(r, instantText)
  }

  /** The topic field and the partition's label. */
  function TopicText(r: MessageRecord): string
  {
    ", topic='" + NullText(r.topic) + "'" + ", partition="
  }

  /** The fields printed after the partition. */
  function AfterPartition(r: MessageRecord, instantText: Instant -> string): (s: string)
    ensures |s| > 0 && s[0] == ',' && s[|s| - 1] == '}'
  {
    ", msgKey='" + NullText(r.msgKey) + "'"
    + ", eventType=" + (match r.eventType case None => "null" case Some(t) => Name(t))
    + ", createdAt=" + (match r.createdAt case None => "null" case Some(i) => instantText(i))
    + "}"
  }

  /** data and crc32 never show in `toString()`. */
  lemma ToStringIgnoresDataAndCrc(r: MessageRecord, data: Option<string>, crc32: int, instantText: Instant -> string)
    ensures ToString(r.(data := data, crc32 := crc32), instantText) == ToString(r, instantText)
  {
  }

  /** The offset can be read back from the front of `toString()`: records with
      different offsets print differently. */
  lemma ToStringRevealsOffset(a: MessageRecord, b: MessageRecord, instantText: Instant -> string)
    requires ToString(a, instantText) == ToString(b, instantText)
    ensures a.offset == b.offset
  {
    var rest := ToString(a, instantText)[|ToStringHead|..];
    var da := OffsetTextAt(a, instantText);
    var db := OffsetTextAt(b, instantText);
    assert da == rest[..FirstComma(rest)] == db;
    LongToStringInjective(a.offset, b.offset);
  }

  /** After the head, `toString()` holds the offset's digits up to the first comma. */
  lemma OffsetTextAt(r: MessageRecord, instantText: Instant -> string) returns (d: string)
    ensures d == LongToString(r.offset)
    ensures var rest := ToString(r, instantText)[|ToStringHead|..];
            FirstComma(rest) == |d| && rest[..|d|] == d
  {
    d := LongToString(r.offset);
    var t := ToStringTail(r, instantText);
    DropHead(ToStringHead, d, t);
    DigitsHaveNoComma(r.offset);
    FirstCommaAfter(d, t);
  }

  /** Right after the offset, `toString()` prints the topic (or `null`) in quotes
      and then the partition's digits. */
  lemma ToStringShowsTopicAndPartition(r: MessageRecord, instantText: Instant -> string)
    ensures var s := ToString(r, instantText);
            var k := |ToStringHead| + |LongToString(r.offset)|;
            var f := ", topic='" + NullText(r.topic) + "'" + ", partition=" + LongToString(r.partition);
      k + |f| < |s| && s[k..k + |f|] == f
  {
    var p, d, rest := PartitionSplit(r, instantText);
    var h := ToStringHead + LongToString(r.offset);
    var f := TopicText(r) + d;
    assert p + d == h + f;
    assert ToString(r, instantText)[|h|..|h| + |f|] == f;
  }

  /** Records that print the same text and name the same topic have the same
      partition: the partition's digits end at the first comma after the topic. */
  lemma ToStringRevealsPartition(a: MessageRecord, b: MessageRecord, instantText: Instant -> string)
    requires ToString(a, instantText) == ToString(b, instantText)
    requires NullText(a.topic) == NullText(b.topic)
    ensures a.partition == b.partition
  {
    ToStringRevealsOffset(a, b, instantText);
    var pa, da, ra := PartitionSplit(a, instantText);
    var pb, db, rb := PartitionSplit(b, instantText);
    assert pa == pb;
    var s := ToString(a, instantText);
    DropHead(pa, da, ra);
    DropHead(pb, db, rb);
    PartitionTextAt(a, pa, da, ra);
    PartitionTextAt(b, pb, db, rb);
    assert da == s[|pa|..][..FirstComma(s[|pa|..])] == db;
    LongToStringInjective(a.partition, b.partition);
  }

  /** `toString()` split around the partition's digits. */
  lemma PartitionSplit(r: MessageRecord, instantText: Instant -> string) returns (p: string, d: string, rest: string)
    ensures p == ToStringHead + LongToString(r.offset) + TopicText(r)
    ensures d == LongToString(r.partition)
    ensures rest == AfterPartition(r, instantText)
    ensures ToString(r, instantText) == p + d + rest
  {
    var h := ToStringHead + LongToString(r.offset);
    p, d, rest := h + TopicText(r), LongToString(r.partition), AfterPartition(r, instantText);
    Regroup(h, TopicText(r), d, rest);
  }

  lemma Regroup(h: string, x: string, d: string, y: string)
    ensures h + (x + d + y) == (h + x) + d + y
  {
  }

  lemma PartitionTextAt(r: MessageRecord, p: string, d: string, rest: string)
    requires d == LongToString(r.partition)
    requires |rest| > 0 && rest[0] == ','
    ensures FirstComma(d + rest) == |d| && (d + rest)[..|d|] == d
  {
    DigitsHaveNoComma(r.partition);
    FirstCommaAfter(d, rest);
  }

  lemma DropHead(h: string, d: string, t: string)
    ensures (h + d + t)[|h|..] == d + t
  {
  }

  /** The index of the first ',' in `s`, or `|s|` when there is none. */
  function FirstComma(s: string): (i: nat)
    ensures i <= |s|
  {
    if s == [] || s[0] == ',' then 0 else 1 + FirstComma(s[1..])
  }

  lemma {:induction false} FirstCommaAfter(x: string, t: string)
    requires forall i :: 0 <= i < |x| ==> x[i] != ','
    requires |t| > 0 && t[0] == ','
    ensures FirstComma(x + t) == |x|
    decreases |x|
  {
    if x != [] {
      assert (x + t)[1..] == x[1..] + t;
      FirstCommaAfter(x[1..], t);
    }
  }

  lemma DigitsHaveNoComma(n: int)
    ensures forall i :: 0 <= i < |LongToString(n)| ==> LongToString(n)[i] != ','
  {
    LongToStringChars(n);
  }
}
