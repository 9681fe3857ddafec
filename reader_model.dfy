/**
 * The reader's navigation and display-preference state as a value, and
 * each event handler of the reader component as a transition on it.
 * The class in module ReaderApp updates its fields in place and is
 * proved against these functions.
 */
module ReaderModel {
  import opened Corpus

  datatype Option<T> = None | Some(value: T)

  const MinFontSize: int := 14
  const MaxFontSize: int := 24
  const DefaultFontSize: int := 18

  datatype ReaderState = ReaderState(
    selectedBook: Option<Book>,
    selectedChapter: nat,
    sidebarOpen: bool,
    fontSize: int,
    darkMode: bool,
    showVerseNumbers: bool,
    expandedSections: map<string, bool>)

  function Min(a: int, b: int): int { if a < b then a else b }
  function Max(a: int, b: int): int { if a < b then b else a }

  /** Every sidebar section starts expanded. */
  function InitialSections(): map<string, bool>
  {
    map[OldTestament := true, NewTestament := true, MarcionGospel := true,
        Apostolikon := true, NagHammadi := true, OtherTexts := true]
  }

  /** The state before the mount effect: no book, chapter 0, sidebar open,
      font size 18, light mode, verse numbers shown. */
  function Initial(): ReaderState
  {
    ReaderState(None, 0, true, DefaultFontSize, false, true, InitialSections())
  }

  /** The mount effect: select the first book of a non-empty corpus. */
  function Mounted(books: seq<Book>, s: ReaderState): ReaderState
  {
    if |books| > 0 then s.(selectedBook := Some(books[0])) else s
  }

  // ---------------------------------------------------------------------
  // Event handlers

  function HandleBookSelect(s: ReaderState, book: Book): ReaderState
  {
    s.(selectedBook := Some(book), selectedChapter := 0)
  }

  function HandleChapterSelect(s: ReaderState, index: nat): ReaderState
  {
    s.(selectedChapter := index)
  }

  function NextChapter(s: ReaderState): ReaderState
  {
    if s.selectedBook.Some? && s.selectedChapter < |s.selectedBook.value.chapters| - 1
    then s.(selectedChapter := s.selectedChapter + 1)
    else s
  }

  function PrevChapter(s: ReaderState): ReaderState
  {
    if s.selectedBook.Some? && s.selectedChapter > 0
    then s.(selectedChapter := s.selectedChapter - 1)
    else s
  }

  function ToggleSidebar(s: ReaderState): ReaderState
  {
    s.(sidebarOpen := !s.sidebarOpen)
  }

  /** The functional updater `prev => Math.min(prev + 1, 24)`. */
  function IncreasedFontSize(prev: int): (r: int)
    ensures r <= MaxFontSize
    ensures prev < MaxFontSize ==> r == prev + 1
    ensures MaxFontSize <= prev ==> r == MaxFontSize
  {
    Min(prev + 1, MaxFontSize)
  }

  /** The functional updater `prev => Math.max(prev - 1, 14)`. */
  function DecreasedFontSize(prev: int): (r: int)
    ensures MinFontSize <= r
    ensures MinFontSize < prev ==> r == prev - 1
    ensures prev <= MinFontSize ==> r == MinFontSize
  {
    Max(prev - 1, MinFontSize)
  }

  function IncreaseFontSize(s: ReaderState): ReaderState
  {
    s.(fontSize := IncreasedFontSize(s.fontSize))
  }

  function DecreaseFontSize(s: ReaderState): ReaderState
  {
    s.(fontSize := DecreasedFontSize(s.fontSize))
  }

  function ToggleDarkMode(s: ReaderState): ReaderState
  {
    s.(darkMode := !s.darkMode)
  }

  function ToggleVerseNumbers(s: ReaderState): ReaderState
  {
    s.(showVerseNumbers := !s.showVerseNumbers)
  }

  /** The functional updater `prev => ({...prev, [section]: !prev[section]})`;
      a key that is absent reads as `undefined`, whose negation is `true`. */
  function ToggledSection(sections: map<string, bool>, section: string): (r: map<string, bool>)
    ensures r.Keys == sections.Keys + {section}
    ensures r[section] <==> section !in sections || !sections[section]
    ensures forall k :: k in sections && k != section ==> r[k] == sections[k]
  {
    sections[section := if section in sections then !sections[section] else true]
  }

  function ToggleSection(s: ReaderState, section: string): ReaderState
  {
    s.(expandedSections := ToggledSection(s.expandedSections, section))
  }

  // ---------------------------------------------------------------------
  // Events and traces

  /** One user action, as the rendered controls fire it. */
  datatype Event =
    | BookClicked(book: Book)
    | ChapterChosen(index: nat)
    | NextClicked
    | PrevClicked
    | SidebarToggled
    | FontIncreased
    | FontDecreased
    | DarkModeToggled
    | VerseNumbersToggled
    | SectionToggled(section: string)

  /** What the rendered page lets the user fire: a book item is one of the
      corpus's books, and the chapter list only exists while a book is
      selected and only offers indices 0 .. |chapters|-1. */
  predicate Enabled(books: seq<Book>, s: ReaderState, e: Event)
  {
    match e
    case BookClicked(book) => book in books
    case ChapterChosen(i) => s.selectedBook.Some? && i < |s.selectedBook.value.chapters|
    case _ => true
  }

  function Step(s: ReaderState, e: Event): ReaderState
  {
    match e
    case BookClicked(book) => HandleBookSelect(s, book)
    case ChapterChosen(i) => HandleChapterSelect(s, i)
    case NextClicked => NextChapter(s)
    case PrevClicked => PrevChapter(s)
    case SidebarToggled => ToggleSidebar(s)
    case FontIncreased => IncreaseFontSize(s)
    case FontDecreased => DecreaseFontSize(s)
    case DarkModeToggled => ToggleDarkMode(s)
    case VerseNumbersToggled => ToggleVerseNumbers(s)
    case SectionToggled(k) => ToggleSection(s, k)
  }

  function Run(s: ReaderState, es: seq<Event>): ReaderState
    decreases |es|
  {
    if |es| == 0 then s else Run(Step(s, es[0]), es[1..])
  }

  /** `es` can be fired one after the other starting in `s`. */
  ghost predicate IsTrace(books: seq<Book>, s: ReaderState, es: seq<Event>)
    decreases |es|
  {
    |es| == 0 || (Enabled(books, s, es[0]) && IsTrace(books, Step(s, es[0]), es[1..]))
  }

  // ---------------------------------------------------------------------
  // The invariant

  /** The selected book is one of the corpus's, the chapter index is within
      its chapters (so `chapters[selectedChapter]` is defined), the chapter is
      0 while nothing is selected, and the font size is within [14, 24]. */
  predicate Inv(books: seq<Book>, s: ReaderState)
  {
    && MinFontSize <= s.fontSize <= MaxFontSize
    && match s.selectedBook
       case None => s.selectedChapter == 0
       case Some(book) => book in books && s.selectedChapter < |book.chapters|
  }

  /** The chapter the reader displays: `selectedBook.chapters[selectedChapter]`. */
  function DisplayedChapter(s: ReaderState): (r: Option<Chapter>)
    requires s.selectedBook.Some? ==> s.selectedChapter < |s.selectedBook.value.chapters|
    ensures r.Some? <==> s.selectedBook.Some?
    ensures r.Some? ==> r.value == s.selectedBook.value.chapters[s.selectedChapter]
  {
    match s.selectedBook
    case None => None
    case Some(book) => Some(book.chapters[s.selectedChapter])
  }

  lemma InitialMountedIsValid(books: seq<Book>)
    requires WellFormed(books)
    ensures Inv(books, Mounted(books, Initial()))
    ensures Mounted(books, Initial()).selectedChapter == 0
    ensures |books| > 0 ==> Mounted(books, Initial()).selectedBook == Some(books[0])
    ensures |books| == 0 ==> Mounted(books, Initial()).selectedBook == None
    ensures forall k :: k in Sections <==> k in Mounted(books, Initial()).expandedSections
    ensures forall k :: k in Sections ==> Mounted(books, Initial()).expandedSections[k]
  {
  }

  /** Every enabled event keeps the invariant. */
  lemma StepKeepsInv(books: seq<Book>, s: ReaderState, e: Event)
    requires WellFormed(books) && Inv(books, s) && Enabled(books, s, e)
    ensures Inv(books, Step(s, e))
  {
  }

  /** Once a book is selected, no event clears the selection. */
  lemma StepKeepsSelection(s: ReaderState, e: Event)
    requires s.selectedBook.Some?
    ensures Step(s, e).selectedBook.Some?
  {
  }

  lemma {:induction false} RunKeepsInv(books: seq<Book>, s: ReaderState, es: seq<Event>)
    requires WellFormed(books) && Inv(books, s) && IsTrace(books, s, es)
    ensures Inv(books, Run(s, es))
    ensures s.selectedBook.Some? ==> Run(s, es).selectedBook.Some?
    decreases |es|
  {
    if |es| > 0 {
      StepKeepsInv(books, s, es[0]);
      if s.selectedBook.Some? {
        StepKeepsSelection(s, es[0]);
      }
      RunKeepsInv(books, Step(s, es[0]), es[1..]);
    }
  }

  /** Every state the reader can reach from start-up keeps the chapter index
      within the selected book's chapters and the font size within [14, 24];
      with a non-empty corpus a book is always selected. */
  lemma ReachableStatesAreSafe(books: seq<Book>, es: seq<Event>)
    requires WellFormed(books)
    requires IsTrace(books, Mounted(books, Initial()), es)
    ensures Inv(books, Run(Mounted(books, Initial()), es))
    ensures |books| > 0 ==> Run(Mounted(books, Initial()), es).selectedBook.Some?
    ensures Run(Mounted(books, Initial()), es).selectedBook.Some? ==>
      Run(Mounted(books, Initial()), es).selectedChapter < |Run(Mounted(books, Initial()), es).selectedBook.value.chapters|
  {
    InitialMountedIsValid(books);
    RunKeepsInv(books, Mounted(books, Initial()), es);
  }

  // ---------------------------------------------------------------------
  // Book and chapter navigation

  /** Selecting a book shows its first chapter and changes nothing else. */
  lemma BookSelectShowsFirstChapter(s: ReaderState, book: Book)
    ensures HandleBookSelect(s, book).selectedBook == Some(book)
    ensures HandleBookSelect(s, book).selectedChapter == 0
    ensures HandleBookSelect(s, book).(selectedBook := s.selectedBook, selectedChapter := s.selectedChapter) == s
  {
  }

  /** With a book selected, "next" is a no-op exactly when the last chapter
      is shown, which is when its button is disabled. */
  lemma NextChapterNoOpIffLast(books: seq<Book>, s: ReaderState)
    requires Inv(books, s) && s.selectedBook.Some?
    ensures NextChapter(s) == s <==> s.selectedChapter == |s.selectedBook.value.chapters| - 1
    ensures NextChapter(s) != s ==> NextChapter(s) == s.(selectedChapter := s.selectedChapter + 1)
  {
  }

  /** With a book selected, "previous" is a no-op exactly when the first
      chapter is shown, which is when its button is disabled. */
  lemma PrevChapterNoOpIffFirst(s: ReaderState)
    requires s.selectedBook.Some?
    ensures PrevChapter(s) == s <==> s.selectedChapter == 0
    ensures PrevChapter(s) != s ==> PrevChapter(s) == s.(selectedChapter := s.selectedChapter - 1)
  {
  }

  /** Without a selected book both buttons do nothing. */
  lemma NavigationWithoutBookIsNoOp(s: ReaderState)
    requires s.selectedBook.None?
    ensures NextChapter(s) == s && PrevChapter(s) == s
  {
  }

  function NextChapterTimes(s: ReaderState, n: nat): ReaderState
    decreases n
  {
    if n == 0 then s else NextChapterTimes(NextChapter(s), n - 1)
  }

  function PrevChapterTimes(s: ReaderState, n: nat): ReaderState
    decreases n
  {
    if n == 0 then s else PrevChapterTimes(PrevChapter(s), n - 1)
  }

  /** Pressing "next" n times advances n chapters but stops at the last one. */
  lemma {:induction false} NextChapterStopsAtLast(s: ReaderState, n: nat)
    requires s.selectedBook.Some? && s.selectedChapter < |s.selectedBook.value.chapters|
    ensures NextChapterTimes(s, n) ==
      s.(selectedChapter := Min(s.selectedChapter + n, |s.selectedBook.value.chapters| - 1))
    decreases n
  {
    if n > 0 {
      NextChapterStopsAtLast(NextChapter(s), n - 1);
    }
  }

  /** Pressing "previous" n times goes back n chapters but stops at chapter 0. */
  lemma {:induction false} PrevChapterStopsAtFirst(s: ReaderState, n: nat)
    requires s.selectedBook.Some?
    ensures PrevChapterTimes(s, n) == s.(selectedChapter := Max(s.selectedChapter - n, 0))
    decreases n
  {
    if n > 0 {
      PrevChapterStopsAtFirst(PrevChapter(s), n - 1);
    }
  }

  /** "Next" then "previous" returns to the same state unless the last chapter was shown. */
  lemma PrevUndoesNext(s: ReaderState)
    requires s.selectedBook.Some? && s.selectedChapter < |s.selectedBook.value.chapters| - 1
    ensures PrevChapter(NextChapter(s)) == s
  {
  }

  /** "Previous" then "next" returns to the same state unless the first chapter was shown. */
  lemma NextUndoesPrev(s: ReaderState)
    requires s.selectedBook.Some? && 0 < s.selectedChapter < |s.selectedBook.value.chapters|
    ensures NextChapter(PrevChapter(s)) == s
  {
  }

  // ---------------------------------------------------------------------
  // Font size

  /** From any size in [14, 24], both buttons keep the size in [14, 24]. */
  lemma FontSizeStaysInRange(size: int)
    requires MinFontSize <= size <= MaxFontSize
    ensures MinFontSize <= IncreasedFontSize(size) <= MaxFontSize
    ensures MinFontSize <= DecreasedFontSize(size) <= MaxFontSize
  {
  }

  /** Each button is idempotent at its bound, and one undoes the other away from the bounds. */
  lemma FontSizeBounds(size: int)
    ensures IncreasedFontSize(MaxFontSize) == MaxFontSize
    ensures DecreasedFontSize(MinFontSize) == MinFontSize
    ensures MinFontSize <= size < MaxFontSize ==> DecreasedFontSize(IncreasedFontSize(size)) == size
    ensures MinFontSize < size <= MaxFontSize ==> IncreasedFontSize(DecreasedFontSize(size)) == size
  {
  }

  function IncreasedTimes(size: int, n: nat): int
    decreases n
  {
    if n == 0 then size else IncreasedTimes(IncreasedFontSize(size), n - 1)
  }

  function DecreasedTimes(size: int, n: nat): int
    decreases n
  {
    if n == 0 then size else DecreasedTimes(DecreasedFontSize(size), n - 1)
  }

  /** Pressing A+ n times grows the size by n, saturating at 24. */
  lemma {:induction false} IncreaseSaturates(size: int, n: nat)
    requires size <= MaxFontSize
    ensures IncreasedTimes(size, n) == Min(size + n, MaxFontSize)
    decreases n
  {
    if n > 0 {
      IncreaseSaturates(IncreasedFontSize(size), n - 1);
    }
  }

  /** Pressing A- n times shrinks the size by n, saturating at 14. */
  lemma {:induction false} DecreaseSaturates(size: int, n: nat)
    requires MinFontSize <= size
    ensures DecreasedTimes(size, n) == Max(size - n, MinFontSize)
    decreases n
  {
    if n > 0 {
      DecreaseSaturates(DecreasedFontSize(size), n - 1);
    }
  }

  // ---------------------------------------------------------------------
  // Toggles

  /** Each of the three flag toggles negates its own flag, leaves every other
      part of the state as it was, and undoes itself when applied twice. */
  lemma FlagTogglesFlipOneFlag(s: ReaderState)
    ensures ToggleSidebar(s).sidebarOpen == !s.sidebarOpen
    ensures ToggleSidebar(s).(sidebarOpen := s.sidebarOpen) == s
    ensures ToggleSidebar(ToggleSidebar(s)) == s
    ensures ToggleDarkMode(s).darkMode == !s.darkMode
    ensures ToggleDarkMode(s).(darkMode := s.darkMode) == s
    ensures ToggleDarkMode(ToggleDarkMode(s)) == s
    ensures ToggleVerseNumbers(s).showVerseNumbers == !s.showVerseNumbers
    ensures ToggleVerseNumbers(s).(showVerseNumbers := s.showVerseNumbers) == s
    ensures ToggleVerseNumbers(ToggleVerseNumbers(s)) == s
  {
  }

  /** Toggling a section twice restores the map when the key was present;
      for an absent key the first toggle adds it as expanded, the second collapses it. */
  lemma ToggleSectionTwice(sections: map<string, bool>, section: string)
    ensures section in sections ==> ToggledSection(ToggledSection(sections, section), section) == sections
    ensures section !in sections ==> ToggledSection(ToggledSection(sections, section), section) == sections[section := false]
  {
  }

  /** Toggling a section changes only the sections map. */
  lemma ToggleSectionChangesOnlySections(s: ReaderState, section: string)
    ensures ToggleSection(s, section).(expandedSections := s.expandedSections) == s
    ensures ToggleSection(s, section).expandedSections[section] != (section in s.expandedSections && s.expandedSections[section])
  {
  }
}
