/** The emotion table shown by the editor and the statistics, and the
    storage slot name. */
module Constants {
  import opened Types

  /** One row of the emotion table: a symbol and its label (`caption`,
      since `label` is a Dafny keyword). */
  datatype EmotionRow = EmotionRow(emotion: Emotion, caption: string)

  /** The table, in display order. */
  const EMOTIONS: seq<EmotionRow> := [
    EmotionRow(Grinning, "Feliz"),
    EmotionRow(Smiling, "Contento"),
    EmotionRow(InLove, "Amado"),
    EmotionRow(Party, "Celebrando"),
    EmotionRow(Slight, "Normal"),
    EmotionRow(Thinking, "Pensativo"),
    EmotionRow(NeutralFace, "Neutral"),
    EmotionRow(Worried, "Preocupado"),
    EmotionRow(Crying, "Triste"),
    EmotionRow(Angry, "Enojado")
  ]

  /** The one storage slot holding the whole journal. */
  const LOCAL_STORAGE_KEY: string := "zenithJournalEntries"

  /** The emotions of a table, in row order. */
  function Emotions(table: seq<EmotionRow>): (es: seq<Emotion>)
    ensures |es| == |table|
    ensures forall i :: 0 <= i < |table| ==> es[i] == table[i].emotion
  {
    seq(|table|, i requires 0 <= i < |table| => table[i].emotion)
  }

  /** No emotion appears twice. */
  predicate Distinct(es: seq<Emotion>) {
    forall i, j :: 0 <= i < j < |es| ==> es[i] != es[j]
  }

  /** The label of the first row for `e`, if any. */
  function LabelOf(table: seq<EmotionRow>, e: Emotion): (r: Option<string>)
    ensures r.None? <==> e !in Emotions(table)
    ensures r.Some? ==> exists i :: 0 <= i < |table| && table[i] == EmotionRow(e, r.value)
  {
    if table == [] then None
    else if table[0].emotion == e then Some(table[0].caption)
    else
      var r := LabelOf(table[1..], e);
      assert Emotions(table) == [table[0].emotion] + Emotions(table[1..]);
      assert r.Some? ==> exists i :: 0 <= i < |table| && table[i] == EmotionRow(e, r.value) by {
        if r.Some? {
          var i :| 0 <= i < |table[1..]| && table[1..][i] == EmotionRow(e, r.value);
          assert table[i + 1] == EmotionRow(e, r.value);
        }
      }
      r
  }

  /** The row each emotion has in the table. */
  function RowIndex(e: Emotion): (k: nat)
    ensures k < 10
  {
    match e
    case Grinning => 0
    case Smiling => 1
    case InLove => 2
    case Party => 3
    case Slight => 4
    case Thinking => 5
    case NeutralFace => 6
    case Worried => 7
    case Crying => 8
    case Angry => 9
  }

  /** Row `k` of the table holds the emotion whose row index is `k`. */
  lemma {:induction false} RowsInOrder()
    ensures |EMOTIONS| == 10
    ensures forall k :: 0 <= k < 10 ==> RowIndex(EMOTIONS[k].emotion) == k
  {
    assert RowIndex(EMOTIONS[0].emotion) == 0;
    assert RowIndex(EMOTIONS[1].emotion) == 1;
    assert RowIndex(EMOTIONS[2].emotion) == 2;
    assert RowIndex(EMOTIONS[3].emotion) == 3;
    assert RowIndex(EMOTIONS[4].emotion) == 4;
    assert RowIndex(EMOTIONS[5].emotion) == 5;
    assert RowIndex(EMOTIONS[6].emotion) == 6;
    assert RowIndex(EMOTIONS[7].emotion) == 7;
    assert RowIndex(EMOTIONS[8].emotion) == 8;
    assert RowIndex(EMOTIONS[9].emotion) == 9;
  }

  /** The table has exactly ten rows, no emotion twice, and every variant
      of the enumeration has a row and hence a label. */
  lemma {:induction false} EmotionTableComplete(e: Emotion)
    ensures |EMOTIONS| == 10
    ensures Distinct(Emotions(EMOTIONS))
    ensures e in Emotions(EMOTIONS)
    ensures LabelOf(EMOTIONS, e).Some?
  {
    RowsInOrder();
    var es := Emotions(EMOTIONS);
    forall i, j | 0 <= i < j < |es| ensures es[i] != es[j] {
      assert RowIndex(es[i]) == i && RowIndex(es[j]) == j;
    }
    var k := RowIndex(e);
    assert RowIndex(es[k]) == k;
    assert es[k] == e by {
      match e
      case Grinning => case Smiling => case InLove => case Party => case Slight =>
      case Thinking => case NeutralFace => case Worried => case Crying => case Angry =>
    }
  }

  /** The editor's default mood 🙂 is labelled Normal. */
  lemma {:induction false} DefaultEmotionLabel()
    ensures Symbol(Slight) == "🙂"
    ensures LabelOf(EMOTIONS, Slight) == Some("Normal")
  {
    assert EMOTIONS[4] == EmotionRow(Slight, "Normal");
    assert LabelOf(EMOTIONS[4..], Slight) == Some("Normal");
    assert EMOTIONS[3..][1..] == EMOTIONS[4..];
    assert EMOTIONS[2..][1..] == EMOTIONS[3..];
    assert EMOTIONS[1..][1..] == EMOTIONS[2..];
    assert EMOTIONS[0..][1..] == EMOTIONS[1..];
    assert LabelOf(EMOTIONS[3..], Slight) == Some("Normal");
    assert LabelOf(EMOTIONS[2..], Slight) == Some("Normal");
    assert LabelOf(EMOTIONS[1..], Slight) == Some("Normal");
    assert EMOTIONS[0..] == EMOTIONS;
  }
}
