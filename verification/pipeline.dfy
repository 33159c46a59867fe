/** Properties that span the writer and the reader: what the generator's size
    tiers mean for the poll query, how the service and the poll endpoint relate,
    and a worked poll over a small table. */
module Pipeline {
  import opened JavaLang
  import opened MessageRecords
  import opened EventTable
  import opened EventRepository
  import opened DataInjectionScheduler
  import opened CloudServerController
  import opened MessageService

  /** The generator aims SMALL records at exactly the reader's oversize limit:
      20000 - 10 = 19990. */
  lemma SmallTargetIsOversizeLimit()
    ensures TargetBytes(SMALL) - 10 == OversizeLimit
    ensures TargetBytes(MEDIUM) - 10 > OversizeLimit && TargetBytes(BIG) - 10 > OversizeLimit
  {
  }

  /** A generated row is visible to a poll exactly when it is SMALL and lies
      beyond the cursor. */
  lemma GeneratedRowVisibleIffSmall(offset: int, d: RecordDraws, tier: Tier, cursor: int)
    ensures Eligible(GeneratedRow(offset, d, tier), cursor) <==> tier == SMALL && offset > cursor
  {
    var row := GeneratedRow(offset, d, tier);
    assert row.size == TargetBytes(tier) - 10;
  }

  /** A row has one of the three sizes the generator produces. */
  predicate GeneratorSized(row: Row)
  {
    row.size == TargetBytes(BIG) - 10 || row.size == TargetBytes(MEDIUM) - 10 || row.size == TargetBytes(SMALL) - 10
  }

  /** Over a table the generator wrote, neither query ever returns a medium or a
      big row: every polled row is exactly 19990 bytes. */
  lemma ReaderSeesOnlySmall(t: Table, cursor: int)
    requires forall row :: row in t ==> GeneratorSized(row)
    ensures forall row :: row in FetchRows(t, cursor) ==> row.size == OversizeLimit && !IsBig(row) && !IsMedium(row)
    ensures forall row :: row in Window(t, cursor) ==> row.size == OversizeLimit
  {
    forall row | row in Window(t, cursor) ensures row.size == OversizeLimit {
      assert row in EligibleRows(t, cursor);
    }
  }

  /** Every generated row has one of the three generated sizes. */
  lemma GeneratedRowSized(offset: int, d: RecordDraws, tier: Tier)
    ensures GeneratorSized(GeneratedRow(offset, d, tier))
  {
  }

  /** So does every row of a batch the insert loop numbered. */
  lemma NumberedSized(rows: seq<Row>, start: int, draws: nat -> RecordDraws, tiers: seq<Tier>)
    requires Numbered(rows, start, draws, tiers, GeneratedRow)
    ensures forall row :: row in rows ==> GeneratorSized(row)
  {
    forall k | 0 <= k < |rows| ensures GeneratorSized(rows[k]) {
      GeneratedRowSized(start + k, draws(k), tiers[k]);
    }
  }

  /** A committed batch keeps the table generator-sized. */
  lemma BatchKeepsGeneratorSized(t: Table, t': seq<Row>, draws: nat -> RecordDraws, tiers: seq<Tier>)
    requires |t| <= |t'| && t'[..|t|] == t
    requires Numbered(t'[|t|..], NextOffset(t), draws, tiers, GeneratedRow)
    requires forall row :: row in t ==> GeneratorSized(row)
    ensures forall row :: row in t' ==> GeneratorSized(row)
  {
    var added := t'[|t|..];
    NumberedSized(added, NextOffset(t), draws, tiers);
    assert t' == t + added;
  }

  /** The k-th row of a numbered batch passes the poll's filter exactly when
      its tier is SMALL and its offset lies beyond the cursor. */
  lemma NumberedVisible(rows: seq<Row>, start: int, draws: nat -> RecordDraws, tiers: seq<Tier>, k: int, cursor: int)
    requires Numbered(rows, start, draws, tiers, GeneratedRow) && 0 <= k < |rows|
    ensures Eligible(rows[k], cursor) <==> tiers[k] == SMALL && start + k > cursor
  {
    GeneratedRowVisibleIffSmall(start + k, draws(k), tiers[k], cursor);
  }

  /** The poll sees the k-th row of a committed batch exactly when its tier is
      SMALL and its offset lies beyond the cursor. */
  lemma BatchVisibility(t: Table, t': Table, draws: nat -> RecordDraws, tiers: seq<Tier>, cursor: int)
    requires |t| <= |t'|
    requires Numbered(t'[|t|..], NextOffset(t), draws, tiers, GeneratedRow)
    ensures forall k :: 0 <= k < |tiers| ==>
      (t'[|t| + k] in EligibleRows(t', cursor) <==> tiers[k] == SMALL && NextOffset(t) + k > cursor)
  {
    var added := t'[|t|..];
    forall k | 0 <= k < |tiers|
      ensures t'[|t| + k] in EligibleRows(t', cursor) <==> tiers[k] == SMALL && NextOffset(t) + k > cursor
    {
      assert t'[|t| + k] in t' && t'[|t| + k] == added[k];
      NumberedVisible(added, NextOffset(t), draws, tiers, k, cursor);
    }
  }

  /** The service's `getMessages` and the poll endpoint return the same records
      for the same cursor, whatever limit the service passes. */
  lemma ServiceMatchesPoll(s: Service, offset: int, limit: int, keys: nat -> string,
                           parse: string -> Instant, failure: Option<nat>)
    ensures var p := PollMessages(Some(s.repo), Some(offset), keys, parse, failure);
      p.Ok? && p.value.body == MessageService.GetMessages(s, offset, limit, keys, parse, failure)
  {
  }

  /** A four-row table: 100 (500 bytes), 101 (2000), 102 (21000, over the
      limit), 103 (800). */
  function SampleTable(): (t: Table)
    ensures |t| == 4
  {
    [Row(100, "a", "prices-v1", "{}", 500, "c"), Row(101, "b", "prices-v1", "{}", 2000, "c"),
     Row(102, "c", "prices-v1", "{}", 21000, "c"), Row(103, "d", "prices-v1", "{}", 800, "c")]
  }

  /** Polling the sample table after 99 returns 100, 101 and 103: the oversize
      row is skipped and no byte budget cuts the batch short. The next poll,
      after 103, is empty. */
  lemma SamplePoll()
    ensures var rows := FetchRows(SampleTable(), 99);
      |rows| == 3 && rows[0].offset == 100 && rows[1].offset == 101 && rows[2].offset == 103
    ensures FetchRows(SampleTable(), 103) == []
  {
    var t := SampleTable();
    SampleEligible();
    assert FetchRows(t, 99) == EligibleRows(t, 99)[..3];
    SampleNothingAfterLast();
  }

  /** The eligible rows after 99 are rows 100, 101 and 103. */
  lemma SampleEligible()
    ensures var t := SampleTable(); EligibleRows(t, 99) == [t[0], t[1], t[3]]
  {
    var t := SampleTable();
    var expected := [t[0], t[1], t[3]];
    assert Ascending(expected);
    forall x ensures x in EligibleRows(t, 99) <==> x in expected {
    }
    AscendingUnique(EligibleRows(t, 99), expected);
  }

  /** No row lies beyond 103. */
  lemma SampleNothingAfterLast()
    ensures FetchRows(SampleTable(), 103) == []
  {
    var t := SampleTable();
    var e := EligibleRows(t, 103);
    FilterEmpty(t, row => Eligible(row, 103));
    assert e == [];
    assert FetchRows(t, 103) == e[..Min(|e|, FetchLimit)];
  }
}
