/** The entry editor: its field state, and the entry it hands to the
    journal when the user saves. */
module Editor {
  import opened Types
  import opened Text

  /** Why a save is refused: the keyword is empty after trimming. */
  datatype SaveError = MissingKeyword

  datatype SaveResult = Saved(entry: JournalEntry) | Rejected(error: SaveError)

  /** The four editable fields. */
  datatype Form = Form(emotion: Emotion, keyword: string, notes: string, song: Option<Song>)

  /** The fields shown for an entry: its own four fields, or for a new entry
      the defaults 🙂, empty keyword, empty notes and no song. */
  function FormFor(entry: Option<JournalEntry>): (f: Form)
    ensures entry.Some? ==> f.emotion == entry.value.emotion && f.keyword == entry.value.keyword
                            && f.notes == entry.value.notes && f.song == entry.value.song
    ensures entry.None? ==> f.emotion == Slight && f.keyword == [] && f.notes == [] && f.song == None
  {
    match entry
    case Some(e) => Form(e.emotion, e.keyword, e.notes, e.song)
    case None => Form(Slight, "", "", None)
  }

  /** JavaScript's `s || fallback` on strings: the empty string is falsy. */
  function OrElse(s: string, fallback: string): (r: string)
    ensures r == s || r == fallback
    ensures s != [] ==> r == s
  {
    if s != "" then s else fallback
  }

  /** The entry a save produces. A keyword that trims to nothing is
      rejected. Otherwise keyword and notes are trimmed, emotion and song
      pass through, and `id` and `date` are the edited entry's own, or the
      day of the save for a new entry (also when the edited entry's field
      is empty). */
  function Normalize(entry: Option<JournalEntry>, f: Form, today: string): (r: SaveResult)
    ensures r.Rejected? <==> AllWhitespace(f.keyword)
    ensures r.Saved? ==> r.entry.keyword == Trim(f.keyword) && r.entry.notes == Trim(f.notes)
    ensures r.Saved? ==> r.entry.keyword != [] && Trimmed(r.entry.keyword) && Trimmed(r.entry.notes)
    ensures r.Saved? ==> r.entry.emotion == f.emotion && r.entry.song == f.song
    ensures r.Saved? && entry.Some? && entry.value.id != [] ==> r.entry.id == entry.value.id
    ensures r.Saved? && entry.Some? && entry.value.date != [] ==> r.entry.date == entry.value.date
    ensures r.Saved? && entry.None? ==> r.entry.id == today && r.entry.date == today
    ensures r.Saved? && (entry.None? || entry.value.id == entry.value.date) ==> r.entry.id == r.entry.date
    ensures r.Saved? && today != [] ==> r.entry.id != [] && r.entry.date != []
  {
    BlankIffAllWhitespace(f.keyword);
    if Trim(f.keyword) == "" then Rejected(MissingKeyword)
    else
      var id := match entry case Some(e) => OrElse(e.id, today) case None => today;
      var date := match entry case Some(e) => OrElse(e.date, today) case None => today;
      Saved(JournalEntry(id, date, f.emotion, Trim(f.keyword), Trim(f.notes), f.song))
  }

  /** A well-formed entry (trimmed non-empty keyword, trimmed notes,
      non-empty id and date) saves back as itself, on any day. */
  lemma {:induction false} ResaveWellFormed(e: JournalEntry, day: string)
    requires e.keyword != [] && Trimmed(e.keyword) && Trimmed(e.notes)
    requires e.id != [] && e.date != []
    ensures Normalize(Some(e), FormFor(Some(e)), day) == Saved(e)
  {
    TrimKeepsTrimmed(e.keyword);
    TrimKeepsTrimmed(e.notes);
    BlankIffAllWhitespace(e.keyword);
  }

  /** Opening a saved entry and saving it again without edits yields the
      same entry, whatever the day of the second save. */
  lemma {:induction false} ResaveIsIdentity(entry: Option<JournalEntry>, f: Form, today: string, later: string)
    requires today != [] && !AllWhitespace(f.keyword)
    ensures Normalize(Some(Normalize(entry, f, today).entry),
                      FormFor(Some(Normalize(entry, f, today).entry)), later)
            == Normalize(entry, f, today)
  {
    ResaveWellFormed(Normalize(entry, f, today).entry, later);
  }

  /** The editor's state. `entry` is the entry it was given (`None` while
      drafting a new one). */
  class JournalEditor {
    var entry: Option<JournalEntry>
    var emotion: Emotion
    var keyword: string
    var notes: string
    var song: Option<Song>
    var isSearching: bool

    function Fields(): Form
      reads this
    {
      Form(emotion, keyword, notes, song)
    }

    /** Mounting: default state, then the fields loaded for `entry`. */
    constructor (entry: Option<JournalEntry>)
      ensures this.entry == entry && Fields() == FormFor(entry) && !isSearching
    {
      this.entry := entry;
      emotion, keyword, notes, song := Slight, "", "", None;
      isSearching := false;
      new;
      Load(entry);
    }

    /** The editor is given a (possibly different) entry: the fields are
        loaded from it, or reset for a new one. The song search stays as it
        was. */
    method Load(e: Option<JournalEntry>)
      modifies this
      ensures entry == e && Fields() == FormFor(e) && isSearching == old(isSearching)
    {
      entry := e;
      match e
      case Some(x) =>
        emotion, keyword, notes, song := x.emotion, x.keyword, x.notes, x.song;
      case None =>
        emotion, keyword, notes, song := Slight, "", "", None;
    }

    method SetEmotion(e: Emotion)
      modifies this`emotion
      ensures emotion == e
    {
      emotion := e;
    }

    method SetKeyword(s: string)
      modifies this`keyword
      ensures keyword == s
    {
      keyword := s;
    }

    method SetNotes(s: string)
      modifies this`notes
      ensures notes == s
    {
      notes := s;
    }

    /** The save button. `today` is the day at the moment of saving, so a
        draft opened before midnight and saved after it gets the later day.
        A rejected save changes nothing and hands nothing to the journal. */
    method HandleSave(today: string) returns (r: SaveResult)
      ensures r == Normalize(entry, Fields(), today)
      ensures r.Rejected? <==> AllWhitespace(keyword)
    {
      r := Normalize(entry, Fields(), today);
    }

    /** The delete button: asks for confirmation only when an entry is
        shown, and then hands over that entry's id. */
    method HandleDelete(confirmed: bool) returns (deleted: Option<string>)
      ensures deleted.Some? <==> entry.Some? && confirmed
      ensures deleted.Some? ==> deleted.value == entry.value.id
    {
      if entry.Some? && confirmed {
        deleted := Some(entry.value.id);
      } else {
        deleted := None;
      }
    }

    /** A song chosen in the search closes the search. */
    method HandleSelectSong(s: Song)
      modifies this`song, this`isSearching
      ensures song == Some(s) && !isSearching
    {
      song := Some(s);
      isSearching := false;
    }

    method RemoveSong()
      modifies this`song
      ensures song == None
    {
      song := None;
    }

    method OpenSearch()
      modifies this`isSearching
      ensures isSearching
    {
      isSearching := true;
    }

    method CloseSearch()
      modifies this`isSearching
      ensures !isSearching
    {
      isSearching := false;
    }
  }
}
