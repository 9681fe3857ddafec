/**
 * The reader component: one mutable field per piece of component state,
 * and one method per event handler. Each method changes the fields in
 * place and is proved to move the state exactly as the matching
 * transition of ReaderModel does, keeping the reader's invariant.
 */
module ReaderApp {
  import opened Corpus
  import M = ReaderModel

  class App {
    const books: seq<Book>
    var selectedBook: M.Option<Book>
    var selectedChapter: nat
    var sidebarOpen: bool
    var fontSize: int
    var darkMode: bool
    var showVerseNumbers: bool
    var expandedSections: map<string, bool>

    /** The component's state as a value. */
    function State(): M.ReaderState
      reads this
    {
      M.ReaderState(selectedBook, selectedChapter, sidebarOpen, fontSize,
                    darkMode, showVerseNumbers, expandedSections)
    }

    ghost predicate Valid()
      reads this
    {
      WellFormed(books) && M.Inv(books, State())
    }

    /** The initial state of every hook, before the mount effect runs. */
    constructor (books: seq<Book>)
      requires WellFormed(books)
      ensures Valid() && this.books == books
      ensures State() == M.Initial()
    {
      this.books := books;
      selectedBook := M.None;
      selectedChapter := 0;
      sidebarOpen := true;
      fontSize := M.DefaultFontSize;
      darkMode := false;
      showVerseNumbers := true;
      expandedSections := M.InitialSections();
    }

    /** The mount effect, which runs before any book has been chosen. */
    method Mount()
      requires Valid() && selectedBook.None?
      modifies this
      ensures Valid()
      ensures State() == M.Mounted(books, old(State()))
    {
      if |books| > 0 {
        selectedBook := M.Some(books[0]);
      }
    }

    /** A click on a book item of the sidebar. */
    method HandleBookSelect(book: Book)
      requires Valid() && book in books
      modifies this
      ensures Valid()
      ensures State() == M.HandleBookSelect(old(State()), book)
    {
      selectedBook := M.Some(book);
      selectedChapter := 0;
    }

    /** A choice in the chapter list, which offers indices 0 .. |chapters|-1 of the selected book. */
    method HandleChapterSelect(index: nat)
      requires Valid() && selectedBook.Some? && index < |selectedBook.value.chapters|
      modifies this
      ensures Valid()
      ensures State() == M.HandleChapterSelect(old(State()), index)
    {
      selectedChapter := index;
    }

    method NextChapter()
      requires Valid()
      modifies this
      ensures Valid()
      ensures State() == M.NextChapter(old(State()))
    {
      if selectedBook.Some? && selectedChapter < |selectedBook.value.chapters| - 1 {
        selectedChapter := selectedChapter + 1;
      }
    }

    method PrevChapter()
      requires Valid()
      modifies this
      ensures Valid()
      ensures State() == M.PrevChapter(old(State()))
    {
      if selectedBook.Some? && selectedChapter > 0 {
        selectedChapter := selectedChapter - 1;
      }
    }

    method ToggleSidebar()
      requires Valid()
      modifies this
      ensures Valid()
      ensures State() == M.ToggleSidebar(old(State()))
    {
      sidebarOpen := !sidebarOpen;
    }

    method IncreaseFontSize()
      requires Valid()
      modifies this
      ensures Valid()
      ensures State() == M.IncreaseFontSize(old(State()))
    {
      fontSize := M.IncreasedFontSize(fontSize);
    }

    method DecreaseFontSize()
      requires Valid()
      modifies this
      ensures Valid()
      ensures State() == M.DecreaseFontSize(old(State()))
    {
      fontSize := M.DecreasedFontSize(fontSize);
    }

    method ToggleDarkMode()
      requires Valid()
      modifies this
      ensures Valid()
      ensures State() == M.ToggleDarkMode(old(State()))
    {
      darkMode := !darkMode;
    }

    method ToggleVerseNumbers()
      requires Valid()
      modifies this
      ensures Valid()
      ensures State() == M.ToggleVerseNumbers(old(State()))
    {
      showVerseNumbers := !showVerseNumbers;
    }

    method ToggleSection(section: string)
      requires Valid()
      modifies this
      ensures Valid()
      ensures State() == M.ToggleSection(old(State()), section)
    {
      expandedSections := M.ToggledSection(expandedSections, section);
    }

    /** The chapter the reader renders; the invariant keeps the lookup in range. */
    method CurrentChapter() returns (chapter: M.Option<Chapter>)
      requires Valid()
      ensures chapter.Some? <==> selectedBook.Some?
      ensures chapter.Some? ==> selectedChapter < |selectedBook.value.chapters| &&
                                chapter.value == selectedBook.value.chapters[selectedChapter]
    {
      chapter := M.DisplayedChapter(State());
    }
  }
}
