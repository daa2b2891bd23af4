/** The statistics panel: how often each emotion of the table occurs in
    the journal, and the figures its bars are drawn from. Percentages and
    bar widths are exact rationals here. */
module Stats {
  import opened Types
  import opened Constants

  /** How many entries carry emotion `e`. */
  function Occurrences(entries: seq<JournalEntry>, e: Emotion): (n: nat)
    ensures n <= |entries|
  {
    if entries == [] then 0
    else Occurrences(entries[..|entries| - 1], e)
         + (if entries[|entries| - 1].emotion == e then 1 else 0)
  }

  /** How many entries carry one of the emotions `known`. */
  function KnownCount(entries: seq<JournalEntry>, known: seq<Emotion>): (n: nat)
    ensures n <= |entries|
  {
    if entries == [] then 0
    else KnownCount(entries[..|entries| - 1], known)
         + (if entries[|entries| - 1].emotion in known then 1 else 0)
  }

  /** The counts of the emotions `ems`, added up. */
  function SumCounts(ems: seq<Emotion>, entries: seq<JournalEntry>): nat {
    if ems == [] then 0 else Occurrences(entries, ems[0]) + SumCounts(ems[1..], entries)
  }

  lemma {:induction false} SumCountsStep(ems: seq<Emotion>, init: seq<JournalEntry>, x: JournalEntry)
    requires Distinct(ems)
    ensures SumCounts(ems, init + [x]) == SumCounts(ems, init) + (if x.emotion in ems then 1 else 0)
  {
    if ems != [] {
      assert (init + [x])[..|init + [x]| - 1] == init;
      SumCountsStep(ems[1..], init, x);
      assert x.emotion == ems[0] ==> x.emotion !in ems[1..];
    }
  }

  lemma {:induction false} SumCountsNone(ems: seq<Emotion>)
    ensures SumCounts(ems, []) == 0
  {
    if ems != [] {
      SumCountsNone(ems[1..]);
    }
  }

  /** Over a table without repeated emotions, the counts add up to the
      number of entries whose emotion is in the table, which is at most the
      number of entries. */
  lemma {:induction false} SumOfCounts(ems: seq<Emotion>, entries: seq<JournalEntry>)
    requires Distinct(ems)
    ensures SumCounts(ems, entries) == KnownCount(entries, ems) <= |entries|
  {
    if entries == [] {
      SumCountsNone(ems);
    } else {
      var init := entries[..|entries| - 1];
      SumOfCounts(ems, init);
      assert init + [entries[|entries| - 1]] == entries;
      SumCountsStep(ems, init, entries[|entries| - 1]);
    }
  }

  /** Every emotion is in the table, so every entry is counted. */
  lemma {:induction false} EveryEntryCounted(entries: seq<JournalEntry>)
    ensures KnownCount(entries, Emotions(EMOTIONS)) == |entries|
    ensures SumCounts(Emotions(EMOTIONS), entries) == |entries|
  {
    if entries != [] {
      EveryEntryCounted(entries[..|entries| - 1]);
      EmotionTableComplete(entries[|entries| - 1].emotion);
    }
    EmotionTableComplete(Slight);
    SumOfCounts(Emotions(EMOTIONS), entries);
  }

  /** Fills the count dictionary: every emotion of the table starts at 0,
      then each entry whose emotion has a count raises it by one; other
      emotions are skipped. */
  method TallyEmotions(table: seq<EmotionRow>, entries: seq<JournalEntry>)
    returns (counts: map<Emotion, nat>)
    ensures forall e :: e in counts <==> e in Emotions(table)
    ensures forall e :: e in counts ==> counts[e] == Occurrences(entries, e)
  {
    counts := map[];
    for i := 0 to |table|
      invariant forall e :: e in counts <==> e in Emotions(table)[..i]
      invariant forall e :: e in counts ==> counts[e] == 0
    {
      assert Emotions(table)[..i + 1] == Emotions(table)[..i] + [table[i].emotion];
      counts := counts[table[i].emotion := 0];
    }
    assert Emotions(table)[..|table|] == Emotions(table);
    for i := 0 to |entries|
      invariant forall e :: e in counts <==> e in Emotions(table)
      invariant forall e :: e in counts ==> counts[e] == Occurrences(entries[..i], e)
    {
      assert entries[..i + 1][..i] == entries[..i];
      var e := entries[i].emotion;
      if e in counts {
        counts := counts[e := counts[e] + 1];
      }
    }
    assert entries[..|entries|] == entries;
  }

  /** The largest of the values and 1: never below 1, never below a value,
      and either 1 or one of the values. */
  function MaxCount(values: seq<nat>): (m: nat)
    ensures m >= 1
    ensures forall i :: 0 <= i < |values| ==> values[i] <= m
    ensures m == 1 || m in values
  {
    if values == [] then 1
    else
      var rest := MaxCount(values[1..]);
      assert forall i :: 1 <= i < |values| ==> values[i] == values[1..][i - 1];
      if values[0] > rest then values[0] else rest
  }

  /** Share of all entries, in percent; 0 for an empty journal rather than
      a division by zero. */
  function Percentage(count: nat, total: nat): (p: real)
    ensures total == 0 ==> p == 0.0
    ensures count <= total ==> 0.0 <= p <= 100.0
    ensures total > 0 ==> p * (total as real) == (count as real) * 100.0
  {
    if total > 0 then (count as real) / (total as real) * 100.0 else 0.0
  }

  /** Width of a bar, in percent of the longest one. */
  function BarWidth(count: nat, maxCount: nat): (w: real)
    requires maxCount >= 1
    ensures count <= maxCount ==> 0.0 <= w <= 100.0
    ensures w * (maxCount as real) == (count as real) * 100.0
  {
    (count as real) / (maxCount as real) * 100.0
  }

  /** One line of the panel. */
  datatype StatRow = StatRow(emotion: Emotion, caption: string, count: nat, percentage: real, width: real)

  /** The panel's content. */
  datatype Summary = Summary(totalEntries: nat, maxCount: nat, rows: seq<StatRow>)

  /** Renders the panel: nothing when it is closed; otherwise one line per
      row of the emotion table, in table order, with that emotion's count,
      its share of all entries, and a bar no longer than the longest. */
  method Render(isOpen: bool, entries: seq<JournalEntry>) returns (r: Option<Summary>)
    ensures !isOpen ==> r == None
    ensures isOpen ==> r.Some? && r.value.totalEntries == |entries| && r.value.maxCount >= 1
    ensures isOpen ==> |r.value.rows| == |EMOTIONS|
    ensures isOpen ==> forall i :: 0 <= i < |EMOTIONS| ==>
              var row := r.value.rows[i];
              && row.emotion == EMOTIONS[i].emotion && row.caption == EMOTIONS[i].caption
              && row.count == Occurrences(entries, row.emotion) <= r.value.maxCount
              && row.percentage == Percentage(row.count, |entries|)
              && row.width == BarWidth(row.count, r.value.maxCount)
              && 0.0 <= row.width <= 100.0
    ensures isOpen ==> r.value.maxCount == 1
                       || exists i :: 0 <= i < |EMOTIONS| && r.value.maxCount == r.value.rows[i].count
  {
    if !isOpen {
      return None;
    }
    var counts := TallyEmotions(EMOTIONS, entries);
    var values := seq(|EMOTIONS|, i requires 0 <= i < |EMOTIONS| =>
                        if EMOTIONS[i].emotion in counts then counts[EMOTIONS[i].emotion] else 0);
    var totalEntries := |entries|;
    var maxCount := MaxCount(values);
    var rows := seq(|EMOTIONS|, i requires 0 <= i < |EMOTIONS| =>
                      StatRow(EMOTIONS[i].emotion, EMOTIONS[i].caption, values[i],
                              Percentage(values[i], totalEntries), BarWidth(values[i], maxCount)));
    return Some(Summary(totalEntries, maxCount, rows));
  }
}
