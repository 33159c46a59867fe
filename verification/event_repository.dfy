/** The read side of the log: the poll query behind `fetchEvents`, the
    running-size window behind `getMessages`, and the SQL placeholder helpers.
    Each query is modelled by what it selects, over the table as a value. */
module EventRepository {
  import opened JavaLang
  import opened EventTypes
  import opened MessageRecords
  import opened EventTable

  /** Rows whose `event_size` exceeds this are never returned by either query. */
  const OversizeLimit: int := 19990
  /** `LIMIT 300` of the poll query. */
  const FetchLimit: nat := 300
  /** The windowed query keeps rows whose running size is strictly below this. */
  const RunningSizeCeiling: int := 1048576
  /** The batch size `getMessages` hands to `getReadEvent`, which ignores it. */
  const GetMessagesBatchSize: int := 4000000

  /** `msg_offset > ? AND event_size <= 19990`: the filter both queries share. */
  predicate Eligible(row: Row, lastOffset: int)
  {
    row.offset > lastOffset && row.size <= OversizeLimit
  }

  /** Every eligible row after the cursor, in ascending offset order. */
  function EligibleRows(t: Table, lastOffset: int): (e: seq<Row>)
    ensures Ascending(e)
    ensures forall row :: row in e <==> row in t && Eligible(row, lastOffset)
  {
    Filter(t, row => Eligible(row, lastOffset))
  }

  /* ---------------- fetchEvents: the live poll query ---------------- */

  /** The rows of `... WHERE msg_offset > ? AND event_size <= 19990 ORDER BY
      msg_offset ASC LIMIT 300`: eligible, ascending, at most 300, and nothing
      eligible is skipped up to the last row returned. */
  function FetchRows(t: Table, lastOffset: int): (rows: seq<Row>)
    ensures |rows| <= FetchLimit
    ensures Ascending(rows)
    ensures forall row :: row in rows ==> row in t && Eligible(row, lastOffset)
    ensures |rows| < FetchLimit ==> forall row :: row in t && Eligible(row, lastOffset) ==> row in rows
    ensures rows != [] ==>
      forall row :: row in t && Eligible(row, lastOffset) && row.offset <= rows[|rows| - 1].offset ==> row in rows
  {
    var e := EligibleRows(t, lastOffset);
    var k := Min(|e|, FetchLimit);
    PrefixOfAscending(e, k);
    e[..k]
  }

  lemma PrefixOfAscending(e: seq<Row>, k: nat)
    requires Ascending(e) && k <= |e|
    ensures Ascending(e[..k])
    ensures forall x :: x in e[..k] ==> x in e
    ensures k == |e| ==> e[..k] == e
    ensures 0 < k ==> forall x :: x in e && x.offset <= e[k - 1].offset ==> x in e[..k]
  {
    if 0 < k {
      forall x | x in e && x.offset <= e[k - 1].offset ensures x in e[..k] {
        AscendingPrefix(e, k - 1, x);
      }
    }
  }

  /** The record the poll loop builds from a row: the row's offset, its `type`
      as topic, partition 0, a freshly drawn key, MESSAGE, the row's data and
      its parsed `created_at`; crc32 stays 0. */
  function ToRecord(row: Row, key: string, parse: string -> Instant): (m: MessageRecord)
    ensures m.offset == row.offset && m.topic == Some(row.typ) && m.partition == 0
    ensures m.msgKey == Some(key) && m.eventType == Some(MESSAGE)
    ensures m.data == Some(row.data) && m.createdAt == Some(parse(row.createdAt)) && m.crc32 == 0
  {
    Create(row.offset, Some(row.typ), 0, Some(key), Some(MESSAGE), Some(row.data), Some(parse(row.createdAt)))
  }

  /** `fetchEvents(lastOffset, maxBytes)`. `keys(i)` is the UUID drawn for the
      i-th record, `parse` stands for `Instant.parse`, and `failure` is `Some(k)`
      when a SQLException is raised once k records have been built (k = 0: the
      connection, the statement or the first read fails). The exception is
      logged and swallowed; the records built so far are returned. `maxBytes` is
      not used. */
  function FetchEvents(t: Table, lastOffset: int, maxBytes: int, keys: nat -> string,
                       parse: string -> Instant, failure: Option<nat>): (r: seq<MessageRecord>)
    ensures var rows := FetchRows(t, lastOffset);
      && |r| == (if failure.Some? then Min(failure.value, |rows|) else |rows|)
      && forall i :: 0 <= i < |r| ==> r[i] == ToRecord(rows[i], keys(i), parse)
  {
    var rows := FetchRows(t, lastOffset);
    var n := if failure.Some? then Min(failure.value, |rows|) else |rows|;
    seq(n, i requires 0 <= i < n => ToRecord(rows[i], keys(i), parse))
  }

  /** Without a failure the records come out in ascending offset order, each
      one eligible, at most 300 of them. */
  lemma FetchEventsOrdered(t: Table, lastOffset: int, maxBytes: int, keys: nat -> string,
                           parse: string -> Instant, failure: Option<nat>)
    ensures var r := FetchEvents(t, lastOffset, maxBytes, keys, parse, failure);
      && |r| <= FetchLimit
      && (forall i, j :: 0 <= i < j < |r| ==> r[i].offset < r[j].offset)
      && (forall i :: 0 <= i < |r| ==> r[i].offset > lastOffset)
  {
    var rows := FetchRows(t, lastOffset);
    assert forall i :: 0 <= i < |rows| ==> rows[i] in rows;
  }

  /** The poll finds nothing exactly when no eligible row lies beyond the cursor. */
  lemma FetchEmptyIff(t: Table, lastOffset: int, maxBytes: int, keys: nat -> string, parse: string -> Instant)
    ensures FetchEvents(t, lastOffset, maxBytes, keys, parse, None) == []
            <==> forall row :: row in t ==> !Eligible(row, lastOffset)
  {
    var e := EligibleRows(t, lastOffset);
    assert FetchRows(t, lastOffset) == e[..Min(|e|, FetchLimit)];
    FilterEmpty(t, row => Eligible(row, lastOffset));
  }

  /** Two polls with the same cursor on the same table agree on everything but
      the freshly drawn keys, whatever `maxBytes` each passes. */
  lemma FetchEventsDifferOnlyInKeys(t: Table, lastOffset: int, maxBytes1: int, maxBytes2: int,
                                    keys1: nat -> string, keys2: nat -> string, parse: string -> Instant)
    ensures var r1 := FetchEvents(t, lastOffset, maxBytes1, keys1, parse, None);
            var r2 := FetchEvents(t, lastOffset, maxBytes2, keys2, parse, None);
      && |r1| == |r2|
      && forall i :: 0 <= i < |r1| ==> SameExcept(r1[i], r2[i], MsgKeyField)
  {
  }

  /** A database error returns what was gathered before it: a prefix of the
      error-free result, empty when the error strikes before the first row. */
  lemma FailureKeepsGatheredPrefix(t: Table, lastOffset: int, maxBytes: int, keys: nat -> string,
                                   parse: string -> Instant, k: nat)
    ensures var full := FetchEvents(t, lastOffset, maxBytes, keys, parse, None);
            var cut := FetchEvents(t, lastOffset, maxBytes, keys, parse, Some(k));
      && cut == full[..Min(k, |full|)]
      && (k == 0 ==> cut == [])
  {
  }

  /* ---------------- cursor chaining ---------------- */

  /** After a non-empty poll, the eligible rows are the batch followed by what
      a poll resuming after the batch's last offset can see. */
  lemma ResumeAfterBatch(t: Table, cursor: int)
    requires FetchRows(t, cursor) != []
    ensures var batch := FetchRows(t, cursor);
      EligibleRows(t, cursor) == batch + EligibleRows(t, batch[|batch| - 1].offset)
  {
    var e := EligibleRows(t, cursor);
    var batch := FetchRows(t, cursor);
    var k := |batch|;
    assert batch == e[..k];
    assert batch[k - 1] == e[k - 1] && e[k - 1] in e;
    var f := EligibleRows(t, batch[k - 1].offset);
    forall x ensures x in f <==> x in e && x.offset > e[k - 1].offset {
    }
    AscendingSplit(e, k, f);
  }

  /** The rows a client collects by polling from `cursor` until a poll comes back
      empty, each time passing the last offset it received. */
  function Drain(t: Table, cursor: int): seq<Row>
    decreases |EligibleRows(t, cursor)|
  {
    var batch := FetchRows(t, cursor);
    if batch == [] then []
    else
      ResumeAfterBatch(t, cursor);
      batch + Drain(t, batch[|batch| - 1].offset)
  }

  /** Cursor chaining: the polls together return every eligible row after the
      cursor exactly once, in offset order (no duplicates, no gaps). */
  lemma {:induction false} DrainEnumeratesEligible(t: Table, cursor: int)
    ensures Drain(t, cursor) == EligibleRows(t, cursor)
    ensures Ascending(Drain(t, cursor))
    ensures forall row :: row in Drain(t, cursor) <==> row in t && Eligible(row, cursor)
    decreases |EligibleRows(t, cursor)|
  {
    var batch := FetchRows(t, cursor);
    var e := EligibleRows(t, cursor);
    if batch == [] {
      assert batch == e[..Min(|e|, FetchLimit)];
    } else {
      ResumeAfterBatch(t, cursor);
      DrainEnumeratesEligible(t, batch[|batch| - 1].offset);
    }
  }

  /* ---------------- getReadEvent / getMessages: the running-size window ---------------- */

  /** Sum of `event_size` over `s`. */
  function SizeSum(s: seq<Row>): int
    decreases |s|
  {
    if s == [] then 0 else s[0].size + SizeSum(s[1..])
  }

  /** The rows of `s` kept by `WHERE running_size < ceiling`, where each row's
      running size is `acc` plus the sizes of the rows up to and including it.
      Every row is tested on its own, so a later row may pass after an earlier
      one failed. */
  function RunningWindow(s: seq<Row>, acc: int, ceiling: int): (w: seq<Row>)
    ensures |w| <= |s|
    ensures forall x :: x in w ==> x in s
    ensures Ascending(s) ==> Ascending(w)
    decreases |s|
  {
    if s == [] then []
    else
      var sum := acc + s[0].size;
      var rest := RunningWindow(s[1..], sum, ceiling);
      if sum < ceiling then
        AscendingConsTail(s, rest);
        [s[0]] + rest
      else rest
  }

  /** The query `getReadEvent` builds, by meaning rather than text: eligible rows
      (`msg_offset > ?`, `event_size <= oversizeLimit`) whose running size in
      offset order stays below `ceiling`, with `placeholders` parameters. */
  datatype WindowQuery = WindowQuery(oversizeLimit: int, ceiling: int, placeholders: nat)

  /** `getReadEvent(typesCount, maxBatchSize)`: neither argument reaches the query. */
  function GetReadEvent(typesCount: int, maxBatchSize: int): (q: WindowQuery)
    ensures q.placeholders == 1
    ensures q.oversizeLimit == OversizeLimit && q.ceiling == RunningSizeCeiling
  {
    WindowQuery(19990, 1048576, 1)
  }

  /** The inner WHERE of a window query. */
  predicate Admits(q: WindowQuery, row: Row, offset: int)
  {
    row.offset > offset && row.size <= q.oversizeLimit
  }

  /** The rows a window query selects after `offset`. The outer SELECT has no
      ORDER BY, so the result is a set. */
  function Select(q: WindowQuery, t: Table, offset: int): (r: set<Row>)
    ensures forall row :: row in r ==> row in t && Admits(q, row, offset)
  {
    var e := Filter(t, row => Admits(q, row, offset));
    set x | x in RunningWindow(e, 0, q.ceiling)
  }

  /** The query `getReadEvent` builds selects from exactly the poll query's eligible rows. */
  lemma ReadEventAdmitsEligible(t: Table, typesCount: int, maxBatchSize: int, offset: int)
    ensures var q := GetReadEvent(typesCount, maxBatchSize);
      Filter(t, row => Admits(q, row, offset)) == EligibleRows(t, offset)
  {
    var q := GetReadEvent(typesCount, maxBatchSize);
    FilterSamePredicate(t, row => Admits(q, row, offset), row => Eligible(row, offset));
  }

  /** `getMessages(types, offset, includeHash)`: runs `getReadEvent`'s query with
      only the offset bound. `failure` is a SQLException from the statement,
      which propagates. The row-to-record mapping is not part of this model. */
  function GetMessages(t: Table, types: Option<seq<string>>, offset: int, includeHash: bool,
                       failure: bool): (r: Result<set<Row>>)
    ensures r.Err? <==> failure
    ensures r.Ok? ==> forall row :: row in r.value ==> row in t && Eligible(row, offset)
    ensures r.Ok? && EligibleRows(t, offset) != [] ==> EligibleRows(t, offset)[0] in r.value
  {
    var typesCount := if types.None? then 0 else |types.value|;
    var q := GetReadEvent(typesCount, GetMessagesBatchSize);
    if failure then Err(SqlError)
    else
      ReadEventAdmitsEligible(t, typesCount, GetMessagesBatchSize, offset);
      var e := EligibleRows(t, offset);
      assert e != [] ==> e[0] in e && e[0].size <= OversizeLimit;
      assert e != [] ==> e[0] in RunningWindow(e, 0, RunningSizeCeiling);
      Ok(Select(q, t, offset))
  }

  /** The window over a table: the eligible rows the running-size filter keeps. */
  function Window(t: Table, offset: int): (w: seq<Row>)
    ensures Ascending(w)
    ensures forall row :: row in w ==> row in t && Eligible(row, offset)
    ensures EligibleRows(t, offset) != [] ==> w != [] && w[0] == EligibleRows(t, offset)[0]
  {
    var e := EligibleRows(t, offset);
    assert e != [] ==> e[0] in e && e[0].size <= OversizeLimit;
    RunningWindow(e, 0, RunningSizeCeiling)
  }

  /** The type list and `includeHash` make no difference to `getMessages`. */
  lemma GetMessagesIgnoresTypes(t: Table, types1: Option<seq<string>>, types2: Option<seq<string>>,
                                offset: int, hash1: bool, hash2: bool)
    ensures GetMessages(t, types1, offset, hash1, false) == GetMessages(t, types2, offset, hash2, false)
    ensures GetMessages(t, types1, offset, hash1, false) == Ok(set x | x in Window(t, offset))
  {
    ReadEventAdmitsEligible(t, 0, GetMessagesBatchSize, offset);
    if types1.Some? {
      ReadEventAdmitsEligible(t, |types1.value|, GetMessagesBatchSize, offset);
    }
    if types2.Some? {
      ReadEventAdmitsEligible(t, |types2.value|, GetMessagesBatchSize, offset);
    }
  }

  /** Once the running size has reached the ceiling, non-negative sizes never bring it back. */
  lemma {:induction false} WindowClosed(s: seq<Row>, acc: int, ceiling: int)
    requires acc >= ceiling
    requires forall x :: x in s ==> x.size >= 0
    ensures RunningWindow(s, acc, ceiling) == []
    decreases |s|
  {
    if s != [] {
      assert s[0] in s;
      WindowClosed(s[1..], acc + s[0].size, ceiling);
    }
  }

  /** The window is an initial run of its input. */
  lemma {:induction false} WindowPrefixOfInput(s: seq<Row>, acc: int, ceiling: int)
    requires forall x :: x in s ==> x.size >= 0
    ensures var w := RunningWindow(s, acc, ceiling); w == s[..|w|]
    decreases |s|
  {
    if s != [] {
      var sum := acc + s[0].size;
      assert s[0] in s;
      if sum < ceiling {
        WindowPrefixOfInput(s[1..], sum, ceiling);
        var w := [s[0]] + RunningWindow(s[1..], sum, ceiling);
        assert w == s[..|w|];
      } else {
        WindowClosed(s[1..], sum, ceiling);
      }
    }
  }

  /** The rows of the window together stay below the ceiling. */
  lemma {:induction false} WindowSumBelow(s: seq<Row>, acc: int, ceiling: int)
    requires forall x :: x in s ==> x.size >= 0
    ensures var w := RunningWindow(s, acc, ceiling); w != [] ==> acc + SizeSum(w) < ceiling
    decreases |s|
  {
    if s != [] {
      var sum := acc + s[0].size;
      var w := RunningWindow(s, acc, ceiling);
      var w' := RunningWindow(s[1..], sum, ceiling);
      assert s[0] in s;
      WindowSumBelow(s[1..], sum, ceiling);
      if sum < ceiling {
        assert w[1..] == w';
      } else {
        assert w == w';
      }
    }
  }

  /** One row beyond the window would reach the ceiling. */
  lemma {:induction false} WindowMaximal(s: seq<Row>, acc: int, ceiling: int)
    requires forall x :: x in s ==> x.size >= 0
    ensures var w := RunningWindow(s, acc, ceiling); |w| < |s| ==> acc + SizeSum(s[..|w| + 1]) >= ceiling
    decreases |s|
  {
    if s != [] {
      var sum := acc + s[0].size;
      var w := RunningWindow(s, acc, ceiling);
      assert s[0] in s;
      if sum < ceiling {
        var w' := RunningWindow(s[1..], sum, ceiling);
        assert |w| == |w'| + 1;
        WindowMaximal(s[1..], sum, ceiling);
        if |w| < |s| {
          SizeSumPrefixCons(s, |w'| + 1);
        }
      } else {
        WindowClosed(s[1..], sum, ceiling);
        SizeSumPrefixCons(s, 0);
      }
    }
  }

  /** The size of a non-empty prefix is its first row's size plus the rest. */
  lemma SizeSumPrefixCons(s: seq<Row>, n: nat)
    requires n < |s|
    ensures SizeSum(s[..n + 1]) == s[0].size + SizeSum(s[1..][..n])
  {
    assert s[..n + 1][1..] == s[1..][..n];
  }

  /** With non-negative sizes the window is the longest prefix whose running
      size stays below the ceiling. */
  lemma WindowIsPrefix(s: seq<Row>, acc: int, ceiling: int)
    requires forall x :: x in s ==> x.size >= 0
    ensures var w := RunningWindow(s, acc, ceiling);
      && w == s[..|w|]
      && (w != [] ==> acc + SizeSum(w) < ceiling)
      && (|w| < |s| ==> acc + SizeSum(s[..|w| + 1]) >= ceiling)
  {
    WindowPrefixOfInput(s, acc, ceiling);
    WindowSumBelow(s, acc, ceiling);
    WindowMaximal(s, acc, ceiling);
  }

  /** `getMessages` returns an initial run of the eligible rows: every row up to
      some offset, with total size below 1048576, and one row more would reach
      it (sizes assumed non-negative; the first eligible row is always in). */
  lemma GetMessagesIsSizeBoundedPrefix(t: Table, offset: int)
    requires forall x :: x in t ==> x.size >= 0
    ensures var e := EligibleRows(t, offset);
            var w := Window(t, offset);
      && w == e[..|w|]
      && GetMessages(t, None, offset, false, false) == Ok(set x | x in e[..|w|])
      && (w != [] ==> SizeSum(w) < RunningSizeCeiling)
      && (|w| < |e| ==> SizeSum(e[..|w| + 1]) >= RunningSizeCeiling)
      && (e != [] ==> |w| >= 1)
  {
    var e := EligibleRows(t, offset);
    WindowIsPrefix(e, 0, RunningSizeCeiling);
    GetMessagesIgnoresTypes(t, None, None, offset, false, false);
    if e != [] {
      assert e[0] in e;
      assert Window(t, offset) != [];
    }
  }

  /* ---------------- SQL placeholder helpers ---------------- */

  /** `Stream.generate(() -> s).limit(n)`. */
  function Repeat(s: string, n: nat): (r: seq<string>)
    ensures |r| == n && forall i :: 0 <= i < n ==> r[i] == s
  {
    seq(n, _ => s)
  }

  /** `Collectors.joining(sep)`. */
  function Join(parts: seq<string>, sep: string): string
    decreases |parts|
  {
    if parts == [] then ""
    else if |parts| == 1 then parts[0]
    else Join(parts[..|parts| - 1], sep) + sep + parts[|parts| - 1]
  }

  /** `generateQuestionMarks(n)`: n question marks joined by commas, so "?" and
      "," alternate, starting and ending with "?". A negative count makes
      `limit` throw IllegalArgumentException. */
  function GenerateQuestionMarks(n: int): (r: Result<string>)
    ensures r.Err? <==> n < 0
    ensures r.Err? ==> r.error == IllegalArgument
    ensures r.Ok? ==> |r.value| == (if n == 0 then 0 else 2 * n - 1)
    ensures r.Ok? ==> forall i :: 0 <= i < |r.value| ==> r.value[i] == (if i % 2 == 0 then '?' else ',')
  {
    if n < 0 then Err(IllegalArgument)
    else
      QuestionMarksShape(n);
      Ok(Join(Repeat("?", n), ","))
  }

  lemma {:induction false} QuestionMarksShape(n: nat)
    ensures var s := Join(Repeat("?", n), ",");
      && |s| == (if n == 0 then 0 else 2 * n - 1)
      && forall i :: 0 <= i < |s| ==> s[i] == (if i % 2 == 0 then '?' else ',')
  {
    if n > 1 {
      QuestionMarksShape(n - 1);
      assert Repeat("?", n)[..n - 1] == Repeat("?", n - 1);
    }
  }

  /** The number of occurrences of `c` in `s`. */
  function Occurrences(s: string, c: char): nat
    decreases |s|
  {
    if s == [] then 0 else (if s[0] == c then 1 else 0) + Occurrences(s[1..], c)
  }

  lemma {:induction false} OccurrencesAppend(a: string, b: string, c: char)
    ensures Occurrences(a + b, c) == Occurrences(a, c) + Occurrences(b, c)
    decreases |a|
  {
    if a != [] {
      assert (a + b)[1..] == a[1..] + b;
      OccurrencesAppend(a[1..], b, c);
    } else {
      assert a + b == b;
    }
  }

  /** `generateQuestionMarks(n)` holds exactly n placeholders. */
  lemma {:induction false} QuestionMarksCount(n: nat)
    ensures Occurrences(Join(Repeat("?", n), ","), '?') == n
  {
    if n > 1 {
      QuestionMarksCount(n - 1);
      assert Repeat("?", n)[..n - 1] == Repeat("?", n - 1);
      var s := Join(Repeat("?", n - 1), ",");
      OccurrencesAppend(s + ",", "?", '?');
      OccurrencesAppend(s, ",", '?');
    }
  }

  /** The state of the StringBuilder after `appendFilterByTypes`, and the
      exception it threw, if any. */
  datatype BuilderOutcome = BuilderOutcome(builder: string, thrown: Option<Exception>)

  const TypeFilterOpen: string := " AND type IN ("

  /** `appendFilterByTypes(builder, typesCount)`: no change for 0; otherwise
      " AND type IN (", the placeholders and ")". For a negative count the opening
      text is already appended when `generateQuestionMarks` throws. */
  function AppendFilterByTypes(builder: string, typesCount: int): (r: BuilderOutcome)
    ensures typesCount == 0 ==> r == BuilderOutcome(builder, None)
    ensures typesCount < 0 ==> r == BuilderOutcome(builder + TypeFilterOpen, Some(IllegalArgument))
    ensures typesCount > 0 ==> r.thrown.None? && |r.builder| > |builder| && r.builder[..|builder|] == builder
    ensures typesCount > 0 ==> r.builder == builder + TypeFilterOpen + Join(Repeat("?", typesCount), ",") + ")"
    ensures typesCount > 0 ==> Occurrences(r.builder[|builder|..], '?') == typesCount
  {
    if typesCount == 0 then BuilderOutcome(builder, None)
    else
      var started := builder + TypeFilterOpen;
      match GenerateQuestionMarks(typesCount)
      case Err(e) => BuilderOutcome(started, Some(e))
      case Ok(marks) =>
        TypeFilterPlaceholders(builder, typesCount);
        BuilderOutcome(started + marks + ")", None)
  }

  lemma TypeFilterPlaceholders(builder: string, n: nat)
    ensures var s := builder + TypeFilterOpen + Join(Repeat("?", n), ",") + ")";
      && |s| > |builder| && s[..|builder|] == builder
      && Occurrences(s[|builder|..], '?') == n
  {
    var marks := Join(Repeat("?", n), ",");
    var suffix := TypeFilterOpen + marks + ")";
    assert builder + TypeFilterOpen + marks + ")" == builder + suffix;
    assert (builder + suffix)[|builder|..] == suffix;
    SuffixPlaceholders(n);
  }

  lemma SuffixPlaceholders(n: nat)
    ensures Occurrences(TypeFilterOpen + Join(Repeat("?", n), ",") + ")", '?') == n
  {
    var marks := Join(Repeat("?", n), ",");
    QuestionMarksCount(n);
    OpenHasNoPlaceholder();
    OccurrencesAppend(TypeFilterOpen, marks, '?');
    OccurrencesAppend(TypeFilterOpen + marks, ")", '?');
    assert Occurrences(")", '?') == 0;
  }

  lemma OpenHasNoPlaceholder()
    ensures Occurrences(TypeFilterOpen, '?') == 0
  {
    assert '?' !in TypeFilterOpen;
    NoPlaceholder(TypeFilterOpen);
  }

  lemma {:induction false} NoPlaceholder(s: string)
    requires '?' !in s
    ensures Occurrences(s, '?') == 0
    decreases |s|
  {
    if s != [] {
      assert s[0] in s;
      assert forall c :: c in s[1..] ==> c in s;
      NoPlaceholder(s[1..]);
    }
  }
}
