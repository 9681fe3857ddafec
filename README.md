# Reader state of the christian-library web application

This project models the single React component `App` of a client-side reader
for a fixed corpus of religious texts. A reader picks a book from a sidebar
grouped into six category sections, pages through the book's chapters, and
adjusts display preferences: font size, dark mode, verse numbers, whether the
sidebar is open, and which sidebar sections are expanded.

The model has four modules:

- `Corpus` (`corpus.dfy`): books, chapters and verses as values, the six
  category tags and their sidebar order. `WellFormed` says every book has at
  least one chapter.
- `Grouping` (`grouping.dfy`): the six category filters of the sidebar as a
  recursive filter `InCategory` over the corpus. Lemmas show that each group is
  order-preserving, exact and counted with multiplicity, and that the six
  groups are pairwise disjoint.
- `ReaderModel` (`reader_model.dfy`): the component state as a value
  (`ReaderState`) and one pure transition per event handler. It includes the
  functional updaters for the font size (`Math.min`/`Math.max`) and for the
  section map (spread-and-flip). An invariant `Inv` says:
  - the selected book is a corpus book;
  - the chapter index is inside that book's chapters;
  - the chapter is 0 while no book is selected;
  - the font size is in [14, 24].

  `ReachableStatesAreSafe` proves that every state reachable from start-up keeps
  this invariant, so the chapter lookup the page renders is always in range.
- `ReaderApp` (`reader_app.dfy`): class `App` with one mutable field per
  `useState` hook and one method per handler. Each method updates the fields in
  place. It is proved to keep `Valid()` and to move `State()` exactly as the
  matching `ReaderModel` transition does.

The selected book is held as the `Book` value itself, as the component holds
the book object. A book can be clicked only if it is one of the corpus's books.
A chapter can be chosen only while a book is selected, and only with an index
below the book's chapter count, because the chapter drop-down offers only those
indices. `toggleSection` on a key missing from the map sets that key to
`true`, because the negation of an absent entry is `true` in JavaScript.

## Model

| member | source | states |
|---|---|---|
| Corpus.SectionsDistinct | src/App.js:93-98 | the six category tags filtered by the sidebar are pairwise different |
| Grouping.InCategory | src/App.js:93-98 | a category group contains a book iff the book is in the corpus with that category, and is no longer than the corpus |
| Grouping.InCategoryIsSubsequence | src/App.js:93-98 | a group is a subsequence of the corpus: its books appear in corpus order |
| Grouping.InCategoryConcat | src/App.js:93-98 | filtering a concatenation is the concatenation of the filtered parts, so the relative order of books is kept |
| Grouping.InCategoryMultiplicity | src/App.js:93-98 | each book occurs in its category's group exactly as often as in the corpus, and 0 times in any other group |
| Grouping.GroupsDisjoint | src/App.js:93-98 | groups of two different tags share no book |
| Grouping.GroupsOf | src/App.js:93-98 | there is one group per tag, and the k-th group is the filter for the k-th tag |
| Grouping.GroupsOfMultiplicity | src/App.js:93-98 | for distinct tags, the concatenated groups hold each book of a listed category exactly as often as the corpus, and no book of another category |
| Grouping.SidebarListsEachBookOnce | src/App.js:93-98 | the six sidebar sections together list every book of a known category once per corpus occurrence; a book with any other category is listed nowhere |
| Grouping.SidebarGroupsDisjoint | src/App.js:93-98 | the six sidebar groups are exact per tag and pairwise disjoint |
| ReaderModel.IncreasedFontSize | src/App.js:55-57 | the increased size never exceeds 24; below 24 it is one more, at or above 24 it is 24 |
| ReaderModel.DecreasedFontSize | src/App.js:59-61 | the decreased size never falls below 14; above 14 it is one less, at or below 14 it is 14 |
| ReaderModel.ToggledSection | src/App.js:71-76 | only the toggled key changes; its new value is the negation of the old one, or true when the key was absent; the key set gains at most that key |
| ReaderModel.DisplayedChapter | src/App.js:277-284 | a chapter is displayed iff a book is selected, and it is that book's chapter at the selected index |
| ReaderModel.InitialMountedIsValid | src/App.js:8-28 | after start-up and the mount effect: the first book is selected if the corpus is non-empty, otherwise none; chapter 0; all six sections expanded; the invariant holds |
| ReaderModel.StepKeepsInv | src/App.js:30-76 | every handler fired from the rendered page keeps the chapter index within the selected book and the font size within [14, 24] |
| ReaderModel.StepKeepsSelection | src/App.js:30-76 | no handler clears a book selection |
| ReaderModel.RunKeepsInv | src/App.js:30-76 | any sequence of enabled events keeps the invariant and a selection once made |
| ReaderModel.ReachableStatesAreSafe | src/App.js:8-76 | in every reachable state the chapter lookup is in range and the font size is in [14, 24]; with a non-empty corpus a book is always selected |
| ReaderModel.BookSelectShowsFirstChapter | src/App.js:30-33 | selecting a book makes it the selected book, resets the chapter to 0 and changes nothing else |
| ReaderModel.NextChapterNoOpIffLast | src/App.js:39-43 | with a book selected, "next" changes nothing exactly when the last chapter is shown; otherwise it only adds one to the chapter |
| ReaderModel.PrevChapterNoOpIffFirst | src/App.js:45-49 | with a book selected, "previous" changes nothing exactly when chapter 0 is shown; otherwise it only subtracts one |
| ReaderModel.NavigationWithoutBookIsNoOp | src/App.js:39-49 | without a selected book, "next" and "previous" change nothing |
| ReaderModel.NextChapterStopsAtLast | src/App.js:39-43 | n presses of "next" move to min(chapter + n, last chapter) and change nothing else |
| ReaderModel.PrevChapterStopsAtFirst | src/App.js:45-49 | n presses of "previous" move to max(chapter - n, 0) and change nothing else |
| ReaderModel.PrevUndoesNext | src/App.js:39-49 | "previous" after "next" restores the state when the last chapter was not shown |
| ReaderModel.NextUndoesPrev | src/App.js:39-49 | "next" after "previous" restores the state when chapter 0 was not shown |
| ReaderModel.FontSizeStaysInRange | src/App.js:55-61 | from any size in [14, 24] both buttons keep it in [14, 24] |
| ReaderModel.FontSizeBounds | src/App.js:55-61 | A+ is idempotent at 24 and A- at 14; away from the bounds each undoes the other |
| ReaderModel.IncreaseSaturates | src/App.js:55-57 | n presses of A+ give min(size + n, 24) |
| ReaderModel.DecreaseSaturates | src/App.js:59-61 | n presses of A- give max(size - n, 14) |
| ReaderModel.FlagTogglesFlipOneFlag | src/App.js:51-69 | each of the sidebar, dark-mode and verse-number toggles negates its own flag, leaves all other state unchanged, and is undone by a second toggle |
| ReaderModel.ToggleSectionTwice | src/App.js:71-76 | toggling a present section twice restores the map; toggling an absent one twice leaves it collapsed (false) |
| ReaderModel.ToggleSectionChangesOnlySections | src/App.js:71-76 | toggling a section changes only the section map, and flips the toggled entry's truth value |
| ReaderApp.App.constructor | src/App.js:8-21 | the hooks start as: no book, chapter 0, sidebar open, size 18, light mode, verse numbers on, six sections expanded |
| ReaderApp.App.Mount | src/App.js:24-28 | the mount effect selects the corpus's first book if there is one and keeps the invariant |
| ReaderApp.App.HandleBookSelect | src/App.js:30-33 | the fields change exactly as `HandleBookSelect` prescribes; the invariant is kept |
| ReaderApp.App.HandleChapterSelect | src/App.js:35-37 | sets the chapter to an index the drop-down offers; the invariant is kept |
| ReaderApp.App.NextChapter | src/App.js:39-43 | in-place "next chapter", equal to the `NextChapter` transition; the invariant is kept |
| ReaderApp.App.PrevChapter | src/App.js:45-49 | in-place "previous chapter", equal to the `PrevChapter` transition; the invariant is kept |
| ReaderApp.App.ToggleSidebar | src/App.js:51-53 | negates the sidebar flag only |
| ReaderApp.App.IncreaseFontSize | src/App.js:55-57 | applies the clamped increase; the size stays in [14, 24] |
| ReaderApp.App.DecreaseFontSize | src/App.js:59-61 | applies the clamped decrease; the size stays in [14, 24] |
| ReaderApp.App.ToggleDarkMode | src/App.js:63-65 | negates the dark-mode flag only |
| ReaderApp.App.ToggleVerseNumbers | src/App.js:67-69 | negates the verse-number flag only |
| ReaderApp.App.ToggleSection | src/App.js:71-76 | replaces the section map by its toggled form |
| ReaderApp.App.CurrentChapter | src/App.js:277-284 | returns `chapters[selectedChapter]` of the selected book, which is in range whenever a book is selected |

## Left out

- sw.js (the offline cache service worker) is not part of this model: it is asynchronous cache and network I/O.
- src/data/index.js is not part of this model: it only imports static book data. The corpus is a parameter `books: seq<Book>` of every statement.
- Rendering is display-only and not modelled. This covers the JSX, CSS classes, labels, and book and chapter descriptions. Verse numbers are shown as index + 1.
- `renderTextWithVerses` (src/App.js:79-90) is display-only and not modelled.
- React scheduling is not modelled. Each handler is treated as one atomic state transition.
- The `parseInt` of the drop-down value (src/App.js:254) is not modelled. The handler receives a natural number.
- `Enabled` accepts any corpus book for a click, not only books in an expanded section. It is a superset of what the page offers, so the invariants proved for it hold for the page.
- ReaderApp.App.Mount: requires that no book is selected yet. The mount effect runs once, right after the first render, when that holds.
- ReaderApp.App.HandleChapterSelect: requires a selected book and an index below its chapter count. The handler itself does no bounds check, but the drop-down renders only while a book is selected and offers only those indices.
- Every corpus book is assumed to have at least one chapter (`Corpus.WellFormed`). The component never checks this: for a book without chapters, the render at src/App.js:277 would read a property of `undefined` and fail.
