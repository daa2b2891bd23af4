/** The persistence adapter: the whole journal lives in one slot of the
    browser's key-value storage, read once at startup and overwritten after
    every change. Serialisation is modelled as an exact encoding: a slot
    holds either an encoded entry list or text that does not decode to one. */
module Storage {
  import opened Types
  import opened Constants
  import opened DateOrder

  /** The content of a storage slot. `Unreadable` stands for every text that
      does not come back as an entry list: the empty string, text that is
      not JSON, JSON that is not an array, and arrays whose records cannot
      be compared by date (the comparator then throws). */
  datatype Payload = Encoded(entries: seq<JournalEntry>) | Unreadable

  /** Storage can be read and the journal's slot holds an encoded list. */
  predicate Decodable(items: map<string, Payload>, canRead: bool) {
    canRead && LOCAL_STORAGE_KEY in items && items[LOCAL_STORAGE_KEY].Encoded?
  }

  /** What loading yields: the empty list when storage cannot be read or the
      slot is missing or unreadable, otherwise the stored records, every one
      of them and as often as stored, ordered by descending date. Records are
      neither de-duplicated nor given `id := date`. */
  function Retrieved(items: map<string, Payload>, canRead: bool): (r: seq<JournalEntry>)
    ensures SortedDesc(r)
    ensures Decodable(items, canRead) ==> multiset(r) == multiset(items[LOCAL_STORAGE_KEY].entries)
    ensures !Decodable(items, canRead) ==> r == []
  {
    if Decodable(items, canRead) then
      var stored := items[LOCAL_STORAGE_KEY].entries;
      SortDescSorted(stored);
      SortDescPermutation(stored);
      SortDesc(stored)
    else []
  }

  /** Saving a list already ordered by descending date and loading it back
      gives the same list. */
  lemma {:induction false} SaveThenLoad(items: map<string, Payload>, entries: seq<JournalEntry>)
    requires SortedDesc(entries)
    ensures Retrieved(items[LOCAL_STORAGE_KEY := Encoded(entries)], true) == entries
  {
    SortDescOfSorted(entries);
  }

  /** The browser's storage. `canRead` and `canWrite` say whether reading
      and writing succeed; when they do not, the storage call throws. */
  class LocalStorage {
    var items: map<string, Payload>
    var canRead: bool
    var canWrite: bool

    constructor (items: map<string, Payload>, canRead: bool, canWrite: bool)
      ensures this.items == items && this.canRead == canRead && this.canWrite == canWrite
    {
      this.items := items;
      this.canRead := canRead;
      this.canWrite := canWrite;
    }

    /** Loads the journal. Failures are caught and yield the empty list;
        the decoded list is sorted in place. */
    method GetEntries() returns (r: seq<JournalEntry>)
      ensures r == Retrieved(items, canRead)
    {
      if !canRead || LOCAL_STORAGE_KEY !in items {
        return [];
      }
      match items[LOCAL_STORAGE_KEY]
      case Unreadable =>
        return [];
      case Encoded(stored) =>
        var a := new JournalEntry[|stored|](i requires 0 <= i < |stored| => stored[i]);
        assert a[..] == stored;
        SortByDateDesc(a);
        return a[..];
    }

    /** Overwrites the journal's slot with the whole list. A failed write is
        swallowed: nothing is written and nothing is thrown. Other slots are
        never touched. */
    method SaveEntries(entries: seq<JournalEntry>)
      modifies this`items
      ensures items == if canWrite then old(items)[LOCAL_STORAGE_KEY := Encoded(entries)]
                       else old(items)
    {
      if canWrite {
        items := items[LOCAL_STORAGE_KEY := Encoded(entries)];
      }
    }
  }
}
