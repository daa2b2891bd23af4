/** The journal's controller: the entry list, the entry shown in the
    editor (`None` while drafting a new one) and which view is shown. Every
    change to the list is followed by writing the whole list to storage. */
module App {
  import opened Types
  import opened Constants
  import opened DateOrder
  import opened Collection
  import opened Storage
  import opened Editor
  import opened Text
  import Stats

  datatype View = Welcome | EditorView

  /** The state a delete leaves, from the remaining entries: the most
      recent one shown in the editor, or the welcome view with nothing
      shown when none remain. */
  function AfterDelete(remaining: seq<JournalEntry>): (r: (Option<JournalEntry>, View))
    ensures remaining != [] ==> r == (Some(remaining[0]), EditorView)
    ensures remaining == [] ==> r == (None, Welcome)
  {
    if |remaining| > 0 then (Some(remaining[0]), EditorView) else (None, Welcome)
  }

  /** The list a save leaves: ordered by descending date; holding exactly
      the upserted entries; one entry longer for a new id and as long as
      before for a known one; containing the saved entry; and, when ids were
      unique, still unique with exactly one entry under the saved id. */
  lemma {:induction false} SavedList(s: seq<JournalEntry>, e: JournalEntry)
    ensures SortedDesc(SortDesc(Upserted(s, e)))
    ensures multiset(SortDesc(Upserted(s, e))) == multiset(Upserted(s, e))
    ensures |SortDesc(Upserted(s, e))| == if HasId(s, e.id) then |s| else |s| + 1
    ensures e in SortDesc(Upserted(s, e))
    ensures UniqueIds(s) ==> UniqueIds(SortDesc(Upserted(s, e)))
                             && IdCount(SortDesc(Upserted(s, e)), e.id) == 1
  {
    var u := Upserted(s, e);
    SortDescSorted(u);
    SortDescPermutation(u);
    assert e in multiset(u);
    UpsertIdCounts(s, e, e.id);
    forall id ensures IdCount(SortDesc(u), id) == IdCount(u, id) {
      IdCountSortDesc(u, id);
    }
  }

  /** The list a delete leaves: ordered when the list was, without the
      deleted id, every other entry kept, and ids unique when they were. */
  lemma {:induction false} DeletedList(s: seq<JournalEntry>, id: string)
    ensures SortedDesc(s) ==> SortedDesc(WithoutId(s, id))
    ensures UniqueIds(s) ==> UniqueIds(WithoutId(s, id))
    ensures !HasId(WithoutId(s, id), id)
    ensures forall x :: x in s && x.id != id ==> x in WithoutId(s, id)
    ensures !HasId(s, id) ==> WithoutId(s, id) == s
  {
    WithoutIdPreserves(s, id);
    WithoutIdCounts(s, id, id);
    HasIdIffCounted(WithoutId(s, id), id);
    forall x | x in s && x.id != id ensures x in WithoutId(s, id) {
      WithoutIdKeeps(s, id, x);
    }
  }

  class Journal {
    var entries: seq<JournalEntry>
    var activeEntry: Option<JournalEntry>
    var view: View
    var isStatsOpen: bool
    const storage: LocalStorage

    /** The list is ordered by descending date, and the welcome view is
        only shown with an empty list and nothing active. */
    ghost predicate Valid()
      reads this
    {
      && SortedDesc(entries)
      && (view == Welcome ==> entries == [] && activeEntry == None)
    }

    /** Mounting: start empty, load the stored list, show its most recent
        entry or the welcome view. The persist effect runs on mount with
        the initial empty list and again once the loaded list is set, so the
        slot ends up holding the loaded, sorted list. */
    constructor (storage: LocalStorage)
      modifies storage`items
      ensures Valid() && this.storage == storage && !isStatsOpen
      ensures entries == Retrieved(old(storage.items), storage.canRead)
      ensures entries != [] ==> activeEntry == Some(entries[0]) && view == EditorView
      ensures entries == [] ==> activeEntry == None && view == Welcome
      ensures storage.items == if storage.canWrite
                               then old(storage.items)[LOCAL_STORAGE_KEY := Encoded(entries)]
                               else old(storage.items)
    {
      entries := [];
      activeEntry := None;
      view := Welcome;
      isStatsOpen := false;
      this.storage := storage;
      new;
      var loaded := storage.GetEntries();
      ghost var before := storage.items;
      storage.SaveEntries(entries);
      entries := loaded;
      if |loaded| > 0 {
        activeEntry := Some(loaded[0]);
        view := EditorView;
      } else {
        view := Welcome;
      }
      storage.SaveEntries(entries);
      assert before[LOCAL_STORAGE_KEY := Encoded([])][LOCAL_STORAGE_KEY := Encoded(loaded)]
             == before[LOCAL_STORAGE_KEY := Encoded(loaded)];
    }

    /** An entry picked from the list is shown in the editor. */
    method SelectEntry(e: JournalEntry)
      requires Valid()
      modifies this`activeEntry, this`view
      ensures Valid() && activeEntry == Some(e) && view == EditorView
    {
      activeEntry := Some(e);
      view := EditorView;
    }

    /** Starts drafting a new entry. */
    method NewEntry()
      requires Valid()
      modifies this`activeEntry, this`view
      ensures Valid() && activeEntry == None && view == EditorView
    {
      activeEntry := None;
      view := EditorView;
    }

    /** Leaves the editor: an abandoned draft falls back to the most recent
        entry, a shown entry stays shown; with no entries at all the welcome
        view comes back. */
    method CancelEdit()
      requires Valid()
      modifies this`activeEntry, this`view
      ensures Valid()
      ensures old(entries) != [] ==>
                (view == EditorView
                 && activeEntry == if old(activeEntry).None? then Some(entries[0]) else old(activeEntry))
      ensures old(entries) == [] ==> activeEntry == None && view == Welcome
    {
      if |entries| > 0 {
        if activeEntry.None? {
          activeEntry := Some(entries[0]);
        }
        view := EditorView;
      } else {
        activeEntry := None;
        view := Welcome;
      }
    }

    /** Saves an entry: a new id is added, a known id has its entries
        replaced; the list is sorted by descending date in place, the saved
        entry is shown, and the list is written to storage. */
    method SaveEntry(e: JournalEntry)
      requires Valid()
      modifies this`entries, this`activeEntry, this`view, storage`items
      ensures Valid()
      ensures entries == SortDesc(Upserted(old(entries), e))
      ensures activeEntry == Some(e) && view == EditorView
      ensures storage.items == if storage.canWrite
                               then old(storage.items)[LOCAL_STORAGE_KEY := Encoded(entries)]
                               else old(storage.items)
    {
      var isNew := !HasId(entries, e.id);
      var updated: seq<JournalEntry>;
      if isNew {
        updated := [e] + entries;
      } else {
        updated := Replaced(entries, e);
      }
      var a := new JournalEntry[|updated|](i requires 0 <= i < |updated| => updated[i]);
      assert a[..] == updated;
      SortByDateDesc(a);
      entries := a[..];
      SortDescSorted(updated);
      activeEntry := Some(e);
      view := EditorView;
      storage.SaveEntries(entries);
    }

    /** Deletes every entry with this id, keeping the others in order; then
        shows the most recent remaining entry, or the welcome view when none
        remain, and writes the list to storage. */
    method DeleteEntry(id: string)
      requires Valid()
      modifies this`entries, this`activeEntry, this`view, storage`items
      ensures Valid()
      ensures entries == WithoutId(old(entries), id)
      ensures (activeEntry, view) == AfterDelete(entries)
      ensures storage.items == if storage.canWrite
                               then old(storage.items)[LOCAL_STORAGE_KEY := Encoded(entries)]
                               else old(storage.items)
    {
      var updated := WithoutId(entries, id);
      WithoutIdPreserves(entries, id);
      entries := updated;
      if |updated| > 0 {
        activeEntry := Some(updated[0]);
        view := EditorView;
      } else {
        activeEntry := None;
        view := Welcome;
      }
      storage.SaveEntries(entries);
    }

    /** The editor's save button: a rejected save leaves the journal and
        the storage untouched; an accepted one is saved as above. */
    method SaveFromEditor(editor: JournalEditor, today: string) returns (r: SaveResult)
      requires Valid()
      modifies this`entries, this`activeEntry, this`view, storage`items
      ensures Valid()
      ensures r == Normalize(old(editor.entry), old(editor.Fields()), today)
      ensures r.Rejected? <==> AllWhitespace(old(editor.keyword))
      ensures r.Rejected? ==>
                (entries == old(entries) && activeEntry == old(activeEntry)
                 && view == old(view) && storage.items == old(storage.items))
      ensures r.Saved? ==>
                (entries == SortDesc(Upserted(old(entries), r.entry))
                 && activeEntry == Some(r.entry) && view == EditorView
                 && storage.items == if storage.canWrite
                                     then old(storage.items)[LOCAL_STORAGE_KEY := Encoded(entries)]
                                     else old(storage.items))
    {
      r := editor.HandleSave(today);
      if r.Saved? {
        SaveEntry(r.entry);
      }
    }

    /** The editor's delete button: only a confirmed delete of a shown
        entry reaches the journal. */
    method DeleteFromEditor(editor: JournalEditor, confirmed: bool)
      requires Valid()
      modifies this`entries, this`activeEntry, this`view, storage`items
      ensures Valid()
      ensures !(old(editor.entry).Some? && confirmed) ==>
                (entries == old(entries) && activeEntry == old(activeEntry)
                 && view == old(view) && storage.items == old(storage.items))
      ensures old(editor.entry).Some? && confirmed ==>
                (entries == WithoutId(old(entries), old(editor.entry).value.id)
                 && (activeEntry, view) == AfterDelete(entries)
                 && storage.items == if storage.canWrite
                                     then old(storage.items)[LOCAL_STORAGE_KEY := Encoded(entries)]
                                     else old(storage.items))
    {
      var id := editor.HandleDelete(confirmed);
      if id.Some? {
        DeleteEntry(id.value);
      }
    }

    method ShowStats()
      modifies this`isStatsOpen
      ensures isStatsOpen
    {
      isStatsOpen := true;
    }

    method CloseStats()
      modifies this`isStatsOpen
      ensures !isStatsOpen
    {
      isStatsOpen := false;
    }

    /** The statistics panel over the current list. */
    method Statistics() returns (r: Option<Stats.Summary>)
      ensures isStatsOpen <==> r.Some?
      ensures r.Some? ==> r.value.totalEntries == |entries| && |r.value.rows| == |EMOTIONS| && r.value.maxCount >= 1
      ensures r.Some? ==> forall i :: 0 <= i < |EMOTIONS| ==>
                var row := r.value.rows[i];
                && row.emotion == EMOTIONS[i].emotion
                && row.count == Stats.Occurrences(entries, EMOTIONS[i].emotion) <= r.value.maxCount
                && row.percentage == Stats.Percentage(row.count, |entries|)
                && row.width == Stats.BarWidth(row.count, r.value.maxCount)
      ensures r.Some? ==> r.value.maxCount == 1
                          || exists i :: 0 <= i < |EMOTIONS| && r.value.maxCount == r.value.rows[i].count
    {
      r := Stats.Render(isStatsOpen, entries);
    }
  }
}
