/** How the journal builds a new entry list when an entry is saved or
    deleted: an upsert keyed by `id`, and a filter by `id`. */
module Collection {
  import opened Types
  import opened DateOrder

  /** Some entry of `s` has this id. */
  predicate HasId(s: seq<JournalEntry>, id: string) {
    exists i :: 0 <= i < |s| && s[i].id == id
  }

  /** How many entries of `s` have this id. */
  function IdCount(s: seq<JournalEntry>, id: string): nat {
    if s == [] then 0 else (if s[0].id == id then 1 else 0) + IdCount(s[1..], id)
  }

  /** No two entries share an id. */
  ghost predicate UniqueIds(s: seq<JournalEntry>) {
    forall id :: IdCount(s, id) <= 1
  }

  lemma {:induction false} HasIdIffCounted(s: seq<JournalEntry>, id: string)
    ensures HasId(s, id) <==> IdCount(s, id) > 0
  {
    if s != [] {
      HasIdIffCounted(s[1..], id);
      if HasId(s, id) && s[0].id != id {
        var i :| 0 <= i < |s| && s[i].id == id;
        assert s[1..][i - 1].id == id;
      }
      if HasId(s[1..], id) {
        var i :| 0 <= i < |s[1..]| && s[1..][i].id == id;
        assert s[i + 1].id == id;
      }
    }
  }

  lemma {:induction false} IdCountAppend(a: seq<JournalEntry>, b: seq<JournalEntry>, id: string)
    ensures IdCount(a + b, id) == IdCount(a, id) + IdCount(b, id)
  {
    if a != [] {
      assert (a + b)[0] == a[0] && (a + b)[1..] == a[1..] + b;
      IdCountAppend(a[1..], b, id);
    } else {
      assert a + b == b;
    }
  }

  /** Insertion adds one to the count of the inserted entry's id only. */
  lemma {:induction false} IdCountInsert(x: JournalEntry, s: seq<JournalEntry>, id: string)
    ensures IdCount(Insert(x, s), id) == IdCount(s, id) + (if x.id == id then 1 else 0)
  {
    if s != [] {
      var init, last := s[..|s| - 1], s[|s| - 1];
      assert s == init + [last];
      IdCountAppend(init, [last], id);
      if LexLess(last.date, x.date) {
        IdCountInsert(x, init, id);
        IdCountAppend(Insert(x, init), [last], id);
      } else {
        IdCountAppend(s, [x], id);
      }
    } else {
      assert [x][1..] == [];
    }
  }

  /** Sorting by date keeps the number of entries with each id. */
  lemma {:induction false} IdCountSortDesc(s: seq<JournalEntry>, id: string)
    ensures IdCount(SortDesc(s), id) == IdCount(s, id)
  {
    if s != [] {
      var init, last := s[..|s| - 1], s[|s| - 1];
      IdCountSortDesc(init, id);
      IdCountInsert(last, SortDesc(init), id);
      assert s == init + [last];
      IdCountAppend(init, [last], id);
      assert [last][1..] == [];
    }
  }

  /** Every entry with `e`'s id replaced by `e`, the others as they were,
      in the same order. */
  function Replaced(s: seq<JournalEntry>, e: JournalEntry): (r: seq<JournalEntry>)
    ensures |r| == |s|
    ensures forall i :: 0 <= i < |s| ==> r[i] == if s[i].id == e.id then e else s[i]
  {
    seq(|s|, i requires 0 <= i < |s| => if s[i].id == e.id then e else s[i])
  }

  /** Replacing keeps every id's count: entries with `e`'s id stay entries
      with `e`'s id, and the others are untouched. */
  lemma {:induction false} IdCountReplaced(s: seq<JournalEntry>, e: JournalEntry, id: string)
    ensures IdCount(Replaced(s, e), id) == IdCount(s, id)
  {
    if s != [] {
      assert Replaced(s, e)[1..] == Replaced(s[1..], e);
      IdCountReplaced(s[1..], e, id);
    }
  }

  /** The list before sorting in `handleSaveEntry`: a new id is put in
      front, a known id has its entries replaced in place. */
  function Upserted(s: seq<JournalEntry>, e: JournalEntry): (r: seq<JournalEntry>)
    ensures !HasId(s, e.id) ==> r == [e] + s
    ensures HasId(s, e.id) ==> r == Replaced(s, e)
    ensures e in r
    ensures |r| == if HasId(s, e.id) then |s| else |s| + 1
  {
    if !HasId(s, e.id) then [e] + s
    else
      var i :| 0 <= i < |s| && s[i].id == e.id;
      assert Replaced(s, e)[i] == e;
      Replaced(s, e)
  }

  /** After an upsert `e`'s id is present at least once and as often as
      before when it was already present; no other id changes count. In
      particular, ids unique before stay unique, with exactly one entry for
      `e`'s id: saving twice under one id never makes a second entry. */
  lemma {:induction false} UpsertIdCounts(s: seq<JournalEntry>, e: JournalEntry, id: string)
    ensures IdCount(Upserted(s, e), id) ==
              if id != e.id then IdCount(s, id)
              else if IdCount(s, id) == 0 then 1 else IdCount(s, id)
    ensures UniqueIds(s) ==> UniqueIds(Upserted(s, e)) && IdCount(Upserted(s, e), e.id) == 1
  {
    HasIdIffCounted(s, e.id);
    forall other
      ensures IdCount(Upserted(s, e), other) ==
                if other != e.id then IdCount(s, other)
                else if IdCount(s, other) == 0 then 1 else IdCount(s, other)
    {
      if HasId(s, e.id) {
        IdCountReplaced(s, e, other);
      } else {
        assert ([e] + s)[1..] == s;
      }
    }
    if UniqueIds(s) {
      assert IdCount(s, e.id) <= 1;
    }
  }

  /** `s` without the entries that have this id, the rest in order. */
  function WithoutId(s: seq<JournalEntry>, id: string): (r: seq<JournalEntry>)
    ensures |r| <= |s|
    ensures forall x :: x in r ==> x in s && x.id != id
  {
    if s == [] then []
    else if s[0].id == id then WithoutId(s[1..], id)
    else [s[0]] + WithoutId(s[1..], id)
  }

  /** Filtering a concatenation filters each part: the kept entries keep
      their relative order. */
  lemma {:induction false} WithoutIdAppend(a: seq<JournalEntry>, b: seq<JournalEntry>, id: string)
    ensures WithoutId(a + b, id) == WithoutId(a, id) + WithoutId(b, id)
  {
    if a != [] {
      assert (a + b)[1..] == a[1..] + b;
      WithoutIdAppend(a[1..], b, id);
    } else {
      assert a + b == b;
    }
  }

  /** Deleting removes every entry with the id and no other entry: other
      ids keep their count, and an absent id leaves the list as it was. */
  lemma {:induction false} WithoutIdCounts(s: seq<JournalEntry>, id: string, other: string)
    ensures IdCount(WithoutId(s, id), id) == 0
    ensures other != id ==> IdCount(WithoutId(s, id), other) == IdCount(s, other)
    ensures !HasId(s, id) ==> WithoutId(s, id) == s
  {
    HasIdIffCounted(s, id);
    if s != [] {
      WithoutIdCounts(s[1..], id, other);
      HasIdIffCounted(s[1..], id);
      assert ([s[0]] + WithoutId(s[1..], id))[1..] == WithoutId(s[1..], id);
    }
  }

  /** Deleting keeps every entry whose id differs. */
  lemma {:induction false} WithoutIdKeeps(s: seq<JournalEntry>, id: string, x: JournalEntry)
    requires x in s && x.id != id
    ensures x in WithoutId(s, id)
  {
    if s[0] != x {
      WithoutIdKeeps(s[1..], id, x);
    }
  }

  /** Deleting from a list ordered by descending date keeps it ordered, and
      keeps ids unique when they were. */
  lemma {:induction false} WithoutIdPreserves(s: seq<JournalEntry>, id: string)
    ensures SortedDesc(s) ==> SortedDesc(WithoutId(s, id))
    ensures UniqueIds(s) ==> UniqueIds(WithoutId(s, id))
  {
    if s != [] {
      WithoutIdPreserves(s[1..], id);
      if SortedDesc(s) {
        assert SortedDesc(s[1..]);
        var rest := WithoutId(s[1..], id);
        if s[0].id != id {
          forall i | 0 <= i < |rest| ensures !LexLess(s[0].date, rest[i].date) {
            assert rest[i] in s[1..];
            var k :| 0 <= k < |s[1..]| && s[1..][k] == rest[i];
            assert s[k + 1] == rest[i];
          }
        }
      }
    }
    if UniqueIds(s) {
      forall other ensures IdCount(WithoutId(s, id), other) <= 1 {
        WithoutIdCounts(s, id, other);
      }
    }
  }
}
