/**
 * The sidebar's grouping of the corpus by category: each section lists
 * `books.filter(book => book.category === tag)` for its tag.
 */
module Grouping {
  import opened Corpus

  /** The books whose category is `tag`, in corpus order. */
  function InCategory(books: seq<Book>, tag: string): (r: seq<Book>)
    ensures |r| <= |books|
    ensures forall b :: b in r <==> b in books && b.category == tag
  {
    if |books| == 0 then []
    else if books[0].category == tag then [books[0]] + InCategory(books[1..], tag)
    else InCategory(books[1..], tag)
  }

  /** `sub` is `s` with some elements dropped and the rest kept in order. */
  ghost predicate IsSubsequence<T>(sub: seq<T>, s: seq<T>)
    decreases |s|
  {
    |sub| == 0 ||
    (|s| > 0 && ((sub[0] == s[0] && IsSubsequence(sub[1..], s[1..])) || IsSubsequence(sub, s[1..])))
  }

  /** A group keeps the corpus order. */
  lemma {:induction false} InCategoryIsSubsequence(books: seq<Book>, tag: string)
    ensures IsSubsequence(InCategory(books, tag), books)
  {
    if |books| > 0 {
      InCategoryIsSubsequence(books[1..], tag);
      var rest := InCategory(books[1..], tag);
      if books[0].category == tag {
        assert InCategory(books, tag) == [books[0]] + rest;
        assert ([books[0]] + rest)[1..] == rest;
      }
    }
  }

  /** Filtering distributes over concatenation: the relative order of any two parts is kept. */
  lemma {:induction false} InCategoryConcat(a: seq<Book>, b: seq<Book>, tag: string)
    ensures InCategory(a + b, tag) == InCategory(a, tag) + InCategory(b, tag)
  {
    if |a| == 0 {
      assert a + b == b;
    } else {
      assert (a + b)[0] == a[0];
      assert (a + b)[1..] == a[1..] + b;
      InCategoryConcat(a[1..], b, tag);
    }
  }

  /** A group holds every book of its category as often as the corpus does, and no other book. */
  lemma {:induction false} InCategoryMultiplicity(books: seq<Book>, tag: string, b: Book)
    ensures multiset(InCategory(books, tag))[b] == if b.category == tag then multiset(books)[b] else 0
  {
    if |books| > 0 {
      InCategoryMultiplicity(books[1..], tag, b);
      assert books == [books[0]] + books[1..];
      assert multiset(books) == multiset([books[0]]) + multiset(books[1..]);
    }
  }

  /** Two groups of different tags share no book. */
  lemma GroupsDisjoint(books: seq<Book>, t1: string, t2: string)
    requires t1 != t2
    ensures forall b :: b in InCategory(books, t1) ==> b !in InCategory(books, t2)
  {
  }

  /** One group per tag, in the order of `tags`. */
  function GroupsOf(books: seq<Book>, tags: seq<string>): (gs: seq<seq<Book>>)
    ensures |gs| == |tags|
    ensures forall k :: 0 <= k < |tags| ==> gs[k] == InCategory(books, tags[k])
  {
    if |tags| == 0 then [] else [InCategory(books, tags[0])] + GroupsOf(books, tags[1..])
  }

  /** The six sidebar groups (old testament, new testament, Marcion's gospel,
      apostolikon, Nag Hammadi, other), in the order they are displayed. */
  function SidebarGroups(books: seq<Book>): (gs: seq<seq<Book>>)
  {
    GroupsOf(books, Sections)
  }

  function Flatten(gs: seq<seq<Book>>): seq<Book>
  {
    if |gs| == 0 then [] else gs[0] + Flatten(gs[1..])
  }

  /** Over distinct tags, the groups together list each book of a listed
      category exactly as often as the corpus holds it, and nothing else. */
  lemma {:induction false} GroupsOfMultiplicity(books: seq<Book>, tags: seq<string>, b: Book)
    requires Distinct(tags)
    ensures multiset(Flatten(GroupsOf(books, tags)))[b] == if b.category in tags then multiset(books)[b] else 0
  {
    if |tags| > 0 {
      var gs := GroupsOf(books, tags);
      assert gs[1..] == GroupsOf(books, tags[1..]);
      assert Distinct(tags[1..]) by {
        forall i, j | 0 <= i < j < |tags[1..]| ensures tags[1..][i] != tags[1..][j] {
          assert tags[1..][i] == tags[i + 1] && tags[1..][j] == tags[j + 1];
        }
      }
      GroupsOfMultiplicity(books, tags[1..], b);
      InCategoryMultiplicity(books, tags[0], b);
      assert Flatten(gs) == gs[0] + Flatten(gs[1..]);
      assert tags == [tags[0]] + tags[1..];
      if b.category == tags[0] {
        assert b.category !in tags[1..] by {
          forall j | 0 <= j < |tags[1..]| ensures tags[1..][j] != b.category {
            assert tags[1..][j] == tags[j + 1];
          }
        }
      }
    }
  }

  /** Every book whose category has a sidebar section is listed exactly once
      per occurrence in the corpus; a book of any other category is not listed. */
  lemma SidebarListsEachBookOnce(books: seq<Book>, b: Book)
    ensures multiset(Flatten(SidebarGroups(books)))[b] == if b.category in Sections then multiset(books)[b] else 0
  {
    SectionsDistinct();
    GroupsOfMultiplicity(books, Sections, b);
  }

  /** The six sidebar groups are pairwise disjoint, and each holds exactly the books of its tag. */
  lemma SidebarGroupsDisjoint(books: seq<Book>)
    ensures |SidebarGroups(books)| == |Sections|
    ensures forall k, b :: 0 <= k < |Sections| ==>
      (b in SidebarGroups(books)[k] <==> b in books && b.category == Sections[k])
    ensures forall j, k, b :: 0 <= j < k < |Sections| && b in SidebarGroups(books)[j] ==> b !in SidebarGroups(books)[k]
  {
    SectionsDistinct();
  }
}
