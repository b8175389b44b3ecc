/** The library's `Book` entity: a mutable record of five fields, also the
    row type of the books table. */
module LibraryBook {
  import opened Platform
  import opened JavaStrings

  /** The fields of a Book at one moment. `id` is absent until the DAO has
      stored the book; `year` is a Java `int`. */
  datatype BookValue = BookValue(
    id: Option<int>,
    title: Option<string>,
    author: Option<string>,
    year: int32,
    coverImageFilename: Option<string>)

  class Book {
    var id: Option<int>
    var title: Option<string>
    var author: Option<string>
    var year: int32
    var coverImageFilename: Option<string>

    function Value(): BookValue
      reads this
    {
      BookValue(id, title, author, year, coverImageFilename)
    }

    /** `new Book()`: every reference null and the year 0. */
    constructor Empty()
      ensures Value() == BookValue(None, None, None, 0, None)
    {
      id := None;
      title := None;
      author := None;
      year := 0;
      coverImageFilename := None;
    }

    /** `new Book(title, author, year)`: no id and no cover yet. */
    constructor (title: Option<string>, author: Option<string>, year: int32)
      ensures Value() == BookValue(None, title, author, year, None)
    {
      this.id := None;
      this.title := title;
      this.author := author;
      this.year := year;
      this.coverImageFilename := None;
    }

    method SetId(id: Option<int>)
      modifies this
      ensures Value() == old(Value()).(id := id)
    {
      this.id := id;
    }

    method SetTitle(title: Option<string>)
      modifies this
      ensures Value() == old(Value()).(title := title)
    {
      this.title := title;
    }

    method SetAuthor(author: Option<string>)
      modifies this
      ensures Value() == old(Value()).(author := author)
    {
      this.author := author;
    }

    method SetYear(year: int32)
      modifies this
      ensures Value() == old(Value()).(year := year)
    {
      this.year := year;
    }

    method SetCoverImageFilename(coverImageFilename: Option<string>)
      modifies this
      ensures Value() == old(Value()).(coverImageFilename := coverImageFilename)
    {
      this.coverImageFilename := coverImageFilename;
    }

    function ToString(): (s: string)
      reads this
      ensures StartsWith(s, RenderHead(Value()) + RenderMiddle(Value())) && EndsWith(s, RenderTail(Value()))
    {
      RenderShowsFields(Value());
      Render(Value())
    }
  }

  /** The fields of each book of a list, in list order. */
  function Values(bs: seq<Book>): (r: seq<BookValue>)
    reads bs
    ensures |r| == |bs|
    ensures forall k :: 0 <= k < |bs| ==> r[k] == bs[k].Value()
  {
    if bs == [] then [] else Values(bs[..|bs| - 1]) + [bs[|bs| - 1].Value()]
  }

  lemma ValuesAppend(bs: seq<Book>, b: Book)
    ensures Values(bs + [b]) == Values(bs) + [b.Value()]
  {
    assert (bs + [b])[..|bs|] == bs;
  }

  /** `String.valueOf` of a possibly-null `Long`. */
  function IdText(id: Option<int>): string
  {
    match id
    case None => "null"
    case Some(n) => IntegerText(n)
  }

  /** The fixed text up to and including the title's opening quote. */
  function RenderHead(b: BookValue): string
  {
    "Book{id=" + IdText(b.id) + ", title='"
  }

  /** The fixed text from the comma after the year to the end. */
  function RenderTail(b: BookValue): string
  {
    ", coverImageFilename='" + NullableText(b.coverImageFilename) + "'}"
  }

  /** The text between the title's opening quote and the year's digits. */
  function RenderMiddle(b: BookValue): string
  {
    NullableText(b.title) + "', author='" + NullableText(b.author) + "', year="
  }

  /** `Book.toString()`: every field labelled, the strings quoted, null
      printed as `null`. */
  function Render(b: BookValue): (r: string)
    ensures StartsWith(r, "Book{id=") && EndsWith(r, "'}")
  {
    RenderHead(b) + (RenderMiddle(b) + IntegerText(b.year)) + RenderTail(b)
  }

  /** The rendering opens with the id and closes with the cover file name,
      and right before the cover's label sits the year's decimal text, which
      `parseInt` reads back as the year (`ParseIntegerText`). */
  lemma RenderShowsFields(b: BookValue)
    ensures var r := Render(b);
      StartsWith(r, RenderHead(b)) && StartsWith(r, RenderHead(b) + RenderMiddle(b))
      && EndsWith(r, RenderTail(b))
      && |r| == |RenderHead(b)| + |RenderMiddle(b)| + |IntegerText(b.year)| + |RenderTail(b)|
      && r[|r| - |RenderTail(b)| - |IntegerText(b.year)|..|r| - |RenderTail(b)|] == IntegerText(b.year)
  {
    Layout(RenderHead(b), RenderMiddle(b), IntegerText(b.year), RenderTail(b));
  }

  /** Where the parts of `head + (middle + year) + tail` lie. */
  lemma Layout(head: string, middle: string, year: string, tail: string)
    ensures var r := head + (middle + year) + tail;
      r[..|head|] == head && r[..|head| + |middle|] == head + middle && r[|r| - |tail|..] == tail
      && r[|r| - |tail| - |year|..|r| - |tail|] == year
  {
  }
}
