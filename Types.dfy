/** Record shapes of the journal: the closed emotion enumeration, songs,
    journal entries and song-search results. */
module Types {

  /** The conventional optional value; `None` stands for the source's `null`. */
  datatype Option<+T> = None | Some(value: T)

  /** The ten mood symbols an entry can carry. */
  datatype Emotion =
    | Grinning      // 😄
    | Smiling       // 😊
    | Slight        // 🙂
    | NeutralFace   // 😐
    | Thinking      // 🤔
    | Worried       // 😟
    | Crying        // 😢
    | Angry         // 😠
    | InLove        // 🥰
    | Party         // 🎉

  /** The symbol an emotion is written as, in memory and in storage. */
  function Symbol(e: Emotion): (s: string)
    ensures |s| == 1
  {
    match e
    case Grinning => "😄"
    case Smiling => "😊"
    case Slight => "🙂"
    case NeutralFace => "😐"
    case Thinking => "🤔"
    case Worried => "😟"
    case Crying => "😢"
    case Angry => "😠"
    case InLove => "🥰"
    case Party => "🎉"
  }

  /** Reads a symbol back; any string outside the ten symbols is not an emotion. */
  function FromSymbol(s: string): (r: Option<Emotion>)
    ensures r.Some? ==> Symbol(r.value) == s
  {
    if s == "😄" then Some(Grinning)
    else if s == "😊" then Some(Smiling)
    else if s == "🙂" then Some(Slight)
    else if s == "😐" then Some(NeutralFace)
    else if s == "🤔" then Some(Thinking)
    else if s == "😟" then Some(Worried)
    else if s == "😢" then Some(Crying)
    else if s == "😠" then Some(Angry)
    else if s == "🥰" then Some(InLove)
    else if s == "🎉" then Some(Party)
    else None
  }

  /** Every emotion's symbol reads back as that emotion, so the ten symbols
      are pairwise distinct. */
  lemma {:induction false} SymbolRoundTrip(e: Emotion)
    ensures FromSymbol(Symbol(e)) == Some(e)
  {
  }

  lemma {:induction false} SymbolInjective(e1: Emotion, e2: Emotion)
    ensures Symbol(e1) == Symbol(e2) ==> e1 == e2
  {
    SymbolRoundTrip(e1);
    SymbolRoundTrip(e2);
  }

  /** A song is exactly a video id and a title. */
  datatype Song = Song(videoId: string, title: string)

  /** One day's record. `id` is meant to be the `YYYY-MM-DD` day, like `date`. */
  datatype JournalEntry = JournalEntry(
    id: string,
    date: string,
    emotion: Emotion,
    keyword: string,
    notes: string,
    song: Option<Song>)

  /** One candidate returned by the song lookup. */
  datatype SearchResult = SearchResult(videoId: string, title: string, channel: string)
}
