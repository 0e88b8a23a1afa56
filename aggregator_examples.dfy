/**
 * Worked instances of the record-assembly rule: the single-article run, a
 * failed enrichment call, and a date at the local epoch.
 */
module AggregatorExamples {
  import opened Wrappers
  import opened DatePattern
  import opened DateNormalizer
  import opened Aggregator
  import DateExamples

  /** The tags reply of the run: `{tags: ["saude"]}`. */
  function TagsPayload(): Json
  {
    JObject(map["tags" := JArray([JString("saude")])])
  }

  /** The summary reply of the run: `{resumo: "Resumo curto"}`. */
  function SummaryPayload(): Json
  {
    JObject(map["resumo" := JString("Resumo curto")])
  }

  /** Page 1301 as fetched: title "Teste", the given date text, body "Corpo de teste", no images. */
  function Page1301(date: string): FetchResult
  {
    FetchResult(1301, Some("Teste"), Some(date), Some("Corpo de teste"), Some([]), None)
  }

  /** Page 1301 with the two replies of the run. */
  function RunItem(date: string): Item
  {
    Item(Page1301(date), Parsed(TagsPayload()), Parsed(SummaryPayload()))
  }

  /** The record the run should produce for timestamp t. */
  function RunNoticia(t: int): Noticia
  {
    Noticia("Teste", Some(JString("Resumo curto")), "Corpo de teste", t, None, Some(TagsPayload()), Some([]))
  }

  /**
   * One article with both replies well formed yields exactly one record:
   * for a date "01/01/2024 às 10h00" (its groups are those of
   * DateExamples.NewYearFields) the timestamp of 2024-01-01 10:00 local time
   * (1704103200 - 60 tz, by DateExamples.NewYearSeconds), the summary's
   * `resumo`, and as `tags` the whole tags reply, `{tags: ["saude"]}`.
   */
  lemma SingleArticleRun(g: Groups, tz: int)
    requires DateExamples.Denotes(g, 2024, 1, 1, 10, 0)
    requires -1440 <= tz <= 1440
    ensures KeptRecords([RunItem(Spelled(g, " ", " "))], tz) == [RunNoticia(CivilSeconds(2024, 1, 1, 10, 0, tz))]
    ensures RunNoticia(CivilSeconds(2024, 1, 1, 10, 0, tz)).tags == Some(JObject(map["tags" := JArray([JString("saude")])]))
  {
    DateExamples.NewYearNotEpoch(tz);
    DateExamples.DenotedSeconds(g, 2024, 1, 1, 10, 0, tz);
    RunSingle(Spelled(g, " ", " "), tz, CivilSeconds(2024, 1, 1, 10, 0, tz));
  }

  /** Page 1301 whose date converts to a non-zero timestamp t yields the one record RunNoticia(t). */
  lemma RunSingle(date: string, tz: int, t: int)
    requires date != "" && t != 0
    requires TransformarData(date, tz) == Success(Epoch(t))
    ensures KeptRecords([RunItem(date)], tz) == [RunNoticia(t)]
  {
    RunKept(date, tz, t);
    RunRecord(date, tz, t);
    KeptRecordsSingle(RunItem(date), tz);
  }

  /** Page 1301 with a date passes every check before the date is converted. */
  lemma RunReachesDate(date: string)
    requires date != ""
    ensures ReachesDate(RunItem(date))
  {
    assert "erro" !in TagsPayload().props && "erro" !in SummaryPayload().props;
  }

  /** With its date converted to a non-zero timestamp, page 1301 is kept. */
  lemma RunKept(date: string, tz: int, t: int)
    requires date != "" && t != 0
    requires TransformarData(date, tz) == Success(Epoch(t))
    ensures Keeps(RunItem(date), tz)
  {
    RunReachesDate(date);
  }

  /** The record of page 1301 is filled from the page and the replies. */
  lemma RunRecord(date: string, tz: int, t: int)
    requires Keeps(RunItem(date), tz)
    requires TransformarData(date, tz) == Success(Epoch(t))
    ensures RecordOf(RunItem(date), tz) == RunNoticia(t)
  {
    assert Get(SummaryPayload(), "resumo") == Some(JString("Resumo curto"));
  }

  /** When the tags call fails, the article yields no record. */
  lemma FailedTagsCall(date: string, reason: string, tz: int)
    ensures KeptRecords([Item(Page1301(date), Failed(reason), Parsed(SummaryPayload()))], tz) == []
  {
    KeptRecordsSingle(Item(Page1301(date), Failed(reason), Parsed(SummaryPayload())), tz);
  }

  /** A result that reaches the date check is kept exactly when its timestamp is not 0. */
  lemma KeptUnlessZero(item: Item, tz: int, t: int)
    requires ReachesDate(item) && Stamp(item, tz) == Success(Epoch(t))
    ensures Keeps(item, tz) <==> t != 0
  {
  }

  /**
   * A date "01/01/1970 às 0h00" (groups as in DateExamples.EpochFields) is the
   * epoch in local time: timestamp -60 tz, which is 0 exactly on a UTC host.
   * There the timestamp is falsy: the callback throws "TimeStamp veio vazio"
   * instead of pushing a record.
   */
  lemma EpochTimestampIsEmpty(item: Item, g: Groups, tz: int)
    requires DateExamples.Denotes(g, 1970, 1, 1, 0, 0)
    requires -1440 <= tz <= 1440
    requires ReachesDate(item) && item.fetch.date == Some(Spelled(g, " ", " "))
    ensures Stamp(item, tz) == Success(Epoch(CivilSeconds(1970, 1, 1, 0, 0, tz)))
    ensures Keeps(item, tz) <==> tz != 0
  {
    DateExamples.DenotedSeconds(g, 1970, 1, 1, 0, 0, tz);
    KeptUnlessZero(item, tz, CivilSeconds(1970, 1, 1, 0, 0, tz));
    DateExamples.EpochSeconds(0, 0, tz);
  }
}
