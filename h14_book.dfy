/**
 * h14 Book: a titled book whose chapters, each with a title and a link back
 * to its book, are added one at a time.
 */
module Books {
  import opened Wrappers

  /** The separator and prefix of the StringJoiner in toString. */
  const SEPARATOR: string := "\n- "

  /** The titles joined by SEPARATOR. */
  function Join(titles: seq<string>): string {
    if titles == [] then ""
    else if |titles| == 1 then titles[0]
    else Join(titles[..|titles| - 1]) + SEPARATOR + titles[|titles| - 1]
  }

  class Chapter {
    const title: string
    /** The enclosing book. */
    const book: Book

    constructor (title: string, book: Book)
      requires title != ""
      ensures this.title == title && this.book == book
    {
      this.title := title;
      this.book := book;
    }
  }

  class Book {
    const title: string
    var chapters: seq<Chapter>

    /** The representation invariant: a title, and only chapters of this book with a title. */
    ghost predicate Valid()
      reads this
    {
      title != "" && forall i :: 0 <= i < |chapters| ==> chapters[i].book == this && chapters[i].title != ""
    }

    /** The chapter titles, in insertion order. */
    function Titles(): seq<string>
      reads this
    {
      seq(|chapters|, i requires 0 <= i < |chapters| reads this => chapters[i].title)
    }

    constructor (title: string)
      requires title != ""
      ensures Valid() && this.title == title && chapters == []
    {
      this.title := title;
      chapters := [];
    }

    /**
     * addChapter: IllegalArgumentException for an empty title (nothing is
     * added); otherwise one new chapter of this book goes at the end.
     */
    method AddChapter(title: string) returns (o: Outcome)
      requires Valid()
      modifies this
      ensures Valid()
      ensures o.Fail? <==> title == ""
      ensures o.Fail? ==> o.error == IllegalArgument && chapters == old(chapters)
      ensures o.Pass? ==>
                |chapters| == old(|chapters|) + 1 && chapters[..old(|chapters|)] == old(chapters)
                && fresh(chapters[|chapters| - 1])
                && chapters[|chapters| - 1].title == title && chapters[|chapters| - 1].book == this
      ensures o.Pass? ==> Titles() == old(Titles()) + [title]
    {
      if title == "" {
        return Fail(IllegalArgument);
      }
      var c := new Chapter(title, this);
      chapters := chapters + [c];
      return Pass;
    }

    /** toString: the title, SEPARATOR, then the chapter titles joined by SEPARATOR. */
    method ToString() returns (s: string)
      ensures s == title + SEPARATOR + Join(Titles())
    {
      var joined := "";
      for i := 0 to |chapters|
        invariant joined == Join(Titles()[..i])
      {
        assert Titles()[..i + 1][..i] == Titles()[..i];
        if i == 0 {
          joined := chapters[i].title;
        } else {
          joined := joined + SEPARATOR + chapters[i].title;
        }
      }
      assert Titles()[..|chapters|] == Titles();
      s := title + SEPARATOR + joined;
    }
  }

  /** Book(title): IllegalArgumentException for an empty title; a new book has no chapters. */
  method NewBook(title: string) returns (r: Result<Book>)
    ensures r.Failure? <==> title == ""
    ensures r.Failure? ==> r.error == IllegalArgument
    ensures r.Success? ==> fresh(r.value) && r.value.Valid() && r.value.title == title && r.value.chapters == []
  {
    if title == "" {
      return Failure(IllegalArgument);
    }
    var b := new Book(title);
    return Success(b);
  }

  /**
   * What addChapter does to toString: the first chapter title follows the
   * prefix directly, every later one comes after another SEPARATOR.
   */
  lemma JoinAppend(titles: seq<string>, t: string)
    ensures Join(titles + [t]) == if titles == [] then t else Join(titles) + SEPARATOR + t
  {
    assert (titles + [t])[..|titles|] == titles;
  }
}
