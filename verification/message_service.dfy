/** The message service: a thin pass-through to the repository, an in-memory
    queue of messages that nothing ever fills, and the "recent messages" view
    over that queue. */
module MessageService {
  import opened JavaLang
  import opened MessageRecords
  import opened EventTable
  import opened EventRepository

  /** `Message`: a plain data holder; every field is a nullable string. */
  datatype Message = Message(msgKey: Option<string>, eventType: Option<string>, topic: Option<string>,
                             data: Option<string>, createdAt: Option<string>)

  /** The service's state: the queue's contents in order, the repository's
      table and the configured data mode. */
  datatype Service = Service(messages: seq<Message>, repo: Table, dataMode: string)

  const DefaultDataMode: string := "TEST"

  /** The constructor: an empty queue, and the `data.mode` property or "TEST". */
  function NewService(repo: Table, dataMode: Option<string>): (s: Service)
    ensures s.messages == [] && s.repo == repo
    ensures dataMode.Some? ==> s.dataMode == dataMode.value
    ensures dataMode.None? ==> s.dataMode == DefaultDataMode
  {
    Service([], repo, if dataMode.Some? then dataMode.value else DefaultDataMode)
  }

  /** `getMessages(offset, limit)`: the repository's poll with `limit` as its
      (unused) byte budget: at most 300 records, in offset order, all beyond
      `offset`; without a failure it is empty exactly when no eligible row lies
      beyond `offset`. */
  function GetMessages(s: Service, offset: int, limit: int, keys: nat -> string,
                       parse: string -> Instant, failure: Option<nat>): (r: seq<MessageRecord>)
    ensures |r| <= FetchLimit
    ensures forall i :: 0 <= i < |r| ==> r[i].offset > offset
    ensures forall i, j :: 0 <= i < j < |r| ==> r[i].offset < r[j].offset
    ensures failure.None? ==> (r == [] <==> forall row :: row in s.repo ==> !Eligible(row, offset))
  {
    FetchEventsOrdered(s.repo, offset, limit, keys, parse, failure);
    FetchEmptyIff(s.repo, offset, limit, keys, parse);
    FetchEvents(s.repo, offset, limit, keys, parse, failure)
  }

  /** The limit makes no difference: two calls that differ only in it agree. */
  lemma GetMessagesIgnoresLimit(s: Service, offset: int, limit1: int, limit2: int, keys: nat -> string,
                                parse: string -> Instant, failure: Option<nat>)
    ensures GetMessages(s, offset, limit1, keys, parse, failure) == GetMessages(s, offset, limit2, keys, parse, failure)
    ensures |GetMessages(s, offset, limit1, keys, parse, failure)| <= FetchLimit
  {
  }

  /** `getTotalMessages()`: the queue's size, which a ConcurrentLinkedQueue caps
      at Integer.MAX_VALUE. */
  function GetTotalMessages(s: Service): (n: int)
    ensures 0 <= n <= IntMax
    ensures n == |s.messages| || (n == IntMax && |s.messages| > IntMax)
  {
    Min(|s.messages|, IntMax)
  }

  /** `getDataMode()`. */
  function GetDataMode(s: Service): string
  {
    s.dataMode
  }

  /** The configured mode comes back unchanged; without configuration it is "TEST". */
  lemma DataModeRoundTrip(repo: Table, mode: Option<string>)
    ensures GetDataMode(NewService(repo, mode)) == if mode.Some? then mode.value else "TEST"
  {
  }

  /* ---------------- getRecentMessages ---------------- */

  /** One entry of the recent list: the map {"offset": i, "key": msgKey}. */
  datatype RecentEntry = RecentEntry(offset: int, key: Option<string>)

  /** The entries for queue positions `start` to the end, in order. */
  function EntriesFrom(ms: seq<Message>, start: nat): (r: seq<RecentEntry>)
    ensures |r| == Max(0, |ms| - start)
    ensures forall j :: 0 <= j < |r| ==> r[j] == RecentEntry(start + j, ms[start + j].msgKey)
  {
    if start >= |ms| then []
    else seq(|ms| - start, (j: int) requires 0 <= j < |ms| - start => RecentEntry(start + j, ms[start + j].msgKey))
  }

  /** `getRecentMessages(count)` as written: `allMessages.size() - count` is
      `int` arithmetic, so a very negative count wraps around. */
  function RecentMessagesAsWritten(s: Service, count: int): (r: seq<RecentEntry>)
    requires IsInt(count)
    ensures var n := |s.messages|;
            var start := Max(0, Wrap32(n - count));
      && |r| == Max(0, n - start)
      && forall j :: 0 <= j < |r| ==> r[j] == RecentEntry(start + j, s.messages[start + j].msgKey)
  {
    var start := Max(0, Wrap32(|s.messages| - count));
    EntriesFrom(s.messages, start)
  }

  /** `getRecentMessages(count)` with the start index computed without
      overflow: the last `count` messages, or all of them when there are fewer. */
  function RecentMessages(s: Service, count: int): (r: seq<RecentEntry>)
    ensures |r| == Max(0, Min(count, |s.messages|))
    ensures forall j :: 0 <= j < |r| ==>
      var i := |s.messages| - |r| + j;
      r[j] == RecentEntry(i, s.messages[i].msgKey)
  {
    EntriesFrom(s.messages, Max(0, |s.messages| - count))
  }

  /** The two agree whenever `n - count` fits in an `int`: every count except
      the most negative ones, and every count once the queue is empty. */
  lemma RecentMessagesAgree(s: Service, count: int)
    requires IsInt(count) && IsInt(|s.messages| - count)
    ensures RecentMessagesAsWritten(s, count) == RecentMessages(s, count)
  {
  }

  /** As written, `getRecentMessages(Integer.MIN_VALUE)` on a queue holding one
      message returns that message, although no entries were asked for: 1 -
      MIN_VALUE wraps to MIN_VALUE + 1, which is negative, so the start is 0. */
  lemma RecentMessagesMinValueReturnsAll(m: Message, repo: Table, mode: string)
    ensures var s := Service([m], repo, mode);
      && |RecentMessagesAsWritten(s, IntMin)| == 1
      && |RecentMessages(s, IntMin)| == 0
  {
    var s := Service([m], repo, mode);
    assert Wrap32(1 - IntMin) == IntMin + 1;
  }

  /** Nothing adds to the queue, so a service as constructed reports no
      messages and an empty recent list for every count. */
  lemma FreshServiceIsEmpty(repo: Table, mode: Option<string>, count: int)
    requires IsInt(count)
    ensures GetTotalMessages(NewService(repo, mode)) == 0
    ensures RecentMessagesAsWritten(NewService(repo, mode), count) == []
    ensures RecentMessages(NewService(repo, mode), count) == []
  {
  }
}
