/** helpers/preprocess_goodreads_bookinfo.py: a table with one row per book of the
    training ratings, ascending by book id, filled with the work id and title of the
    book from the two genre catalogues and with the book's encoded id. A book no
    catalogue line mentions keeps empty (NaN) cells. */
module BookInfo {
  import opened Tables
  import opened Encoding
  import opened Pipeline

  /** One line of a goodreads_books_<genre>.json catalogue. */
  datatype CatalogLine = CatalogLine(book: int, workId: string, title: string)

  /** One row of book_titles.csv; `None` is a NaN cell. */
  datatype Title = Title(book: int, encBook: Option<nat>, workId: Option<string>, title: Option<string>)

  /** The ratings file agrees with itself: a book has one encoded id and an encoded
      id belongs to one book. */
  predicate Consistent(ratings: seq<OutRow>)
  {
    forall a, b :: a in ratings && b in ratings ==> (a.book == b.book <==> a.encBook == b.encBook)
  }

  /** The train file written by the split scripts is consistent. */
  lemma DenseIsConsistent(train: seq<OutRow>, test: seq<OutRow>)
    requires DenseCodes(train + test)
    ensures Consistent(train)
  {
    forall a, b | a in train && b in train ensures a.book == b.book <==> a.encBook == b.encBook {
      assert a in train + test && b in train + test;
      assert BookOf(a) < BookOf(b) <==> EncBookOf(a) < EncBookOf(b);
      assert BookOf(b) < BookOf(a) <==> EncBookOf(b) < EncBookOf(a);
    }
  }

  function EncsOf(rs: seq<OutRow>): (encs: seq<nat>)
    ensures |encs| == |rs| && forall k :: 0 <= k < |rs| ==> encs[k] == rs[k].encBook
  {
    seq(|rs|, k requires 0 <= k < |rs| => rs[k].encBook)
  }

  function BooksOf(rs: seq<OutRow>): (books: seq<int>)
    ensures |books| == |rs| && forall k :: 0 <= k < |rs| ==> books[k] == rs[k].book
  {
    seq(|rs|, k requires 0 <= k < |rs| => rs[k].book)
  }

  /** Row q occurs in rs with no earlier row of the same encoded id. */
  predicate FirstOfCode(rs: seq<OutRow>, q: OutRow)
  {
    exists k :: 0 <= k < |rs| && rs[k] == q && forall j :: 0 <= j < k ==> rs[j].encBook != q.encBook
  }

  lemma FirstOfTail(rs: seq<OutRow>, q: OutRow)
    requires rs != [] && FirstOfCode(rs[1..], q) && q.encBook != rs[0].encBook
    ensures FirstOfCode(rs, q)
  {
    var k :| 0 <= k < |rs| - 1 && rs[1..][k] == q && forall j :: 0 <= j < k ==> rs[1..][j].encBook != q.encBook;
    assert rs[k + 1] == q;
    assert forall j :: 0 < j < k + 1 ==> rs[j] == rs[1..][j - 1];
  }

  /** `drop_duplicates(subset=['encoded_book_id'], keep='first')`, for the rows after
      the encoded ids in `seen` have been met. */
  function DedupFrom(rs: seq<OutRow>, seen: set<nat>): (kept: seq<OutRow>)
    ensures forall q :: q in kept ==> q in rs && q.encBook !in seen
    ensures forall k :: 0 <= k < |rs| && rs[k].encBook !in seen ==> rs[k].encBook in EncsOf(kept)
    ensures forall i, j :: 0 <= i < j < |kept| ==> kept[i].encBook != kept[j].encBook
  {
    if rs == [] then []
    else if rs[0].encBook in seen then
      var kept := DedupFrom(rs[1..], seen);
      assert forall k :: 0 < k < |rs| ==> rs[k] == rs[1..][k - 1];
      kept
    else
      var rest := DedupFrom(rs[1..], seen + {rs[0].encBook});
      var kept := [rs[0]] + rest;
      assert forall k :: 0 < k < |rs| ==> rs[k] == rs[1..][k - 1];
      assert forall q :: q in rest ==> q.encBook != rs[0].encBook;
      assert EncsOf(kept) == [rs[0].encBook] + EncsOf(rest);
      kept
  }

  /** Each kept row is the first row of its encoded id. */
  lemma {:induction false} DedupKeepsFirst(rs: seq<OutRow>, seen: set<nat>)
    ensures forall q :: q in DedupFrom(rs, seen) ==> FirstOfCode(rs, q)
  {
    if rs != [] {
      if rs[0].encBook in seen {
        DedupKeepsFirst(rs[1..], seen);
        forall q | q in DedupFrom(rs, seen) ensures FirstOfCode(rs, q) {
          FirstOfTail(rs, q);
        }
      } else {
        DedupKeepsFirst(rs[1..], seen + {rs[0].encBook});
        forall q | q in DedupFrom(rs, seen) ensures FirstOfCode(rs, q) {
          if q != rs[0] {
            FirstOfTail(rs, q);
          } else {
            assert rs[0] == q;
          }
        }
      }
    }
  }

  function DedupByEncoded(rs: seq<OutRow>): (kept: seq<OutRow>)
    ensures forall q :: q in kept ==> q in rs
    ensures forall k :: 0 <= k < |rs| ==> rs[k].encBook in EncsOf(kept)
    ensures forall i, j :: 0 <= i < j < |kept| ==> kept[i].encBook != kept[j].encBook
  {
    DedupFrom(rs, {})
  }

  /** `keep='first'`: every row kept has no earlier row with its encoded id. */
  lemma DedupByEncodedKeepsFirst(rs: seq<OutRow>)
    ensures forall q :: q in DedupByEncoded(rs) ==> FirstOfCode(rs, q)
  {
    DedupKeepsFirst(rs, {});
  }

  /** `ratings_df.loc[book_id, 'encoded_book_id']`: the encoded id of the first row of
      the book. */
  function EncOf(rs: seq<OutRow>, b: int): (e: nat)
    requires b in BooksOf(rs)
    ensures exists k :: 0 <= k < |rs| && rs[k].book == b && rs[k].encBook == e
  {
    if rs[0].book == b then rs[0].encBook
    else
      assert b in BooksOf(rs[1..]) by {
        var k :| 0 <= k < |rs| && BooksOf(rs)[k] == b;
        assert BooksOf(rs[1..])[k - 1] == b;
      }
      var e := EncOf(rs[1..], b);
      assert forall k :: 0 <= k < |rs| - 1 ==> rs[1..][k] == rs[k + 1];
      e
  }

  /** The index of titles_df after `sort_index`: the distinct books of the
      deduplicated ratings, ascending; these are all the books of the ratings. */
  function TitleIndex(ratings: seq<OutRow>): (index: seq<int>)
    requires Consistent(ratings)
    ensures StrictlyIncreasing(index)
    ensures forall b :: b in index <==> b in BooksOf(ratings)
  {
    var kept := DedupByEncoded(ratings);
    var index := Classes(BooksOf(kept));
    forall b | b in BooksOf(kept) ensures b in BooksOf(ratings) {
      var k :| 0 <= k < |kept| && BooksOf(kept)[k] == b;
      assert kept[k] in kept;
      var j :| 0 <= j < |ratings| && ratings[j] == kept[k];
      assert BooksOf(ratings)[j] == b;
    }
    forall b | b in BooksOf(ratings) ensures b in BooksOf(kept) {
      var j :| 0 <= j < |ratings| && BooksOf(ratings)[j] == b;
      var m :| 0 <= m < |kept| && EncsOf(kept)[m] == ratings[j].encBook;
      assert kept[m] in kept && ratings[j] in ratings;
      assert BooksOf(kept)[m] == b;
    }
    index
  }

  /** The last catalogue line about book b: later lines overwrite earlier ones. */
  function LastLine(lines: seq<CatalogLine>, b: int): (r: Option<CatalogLine>)
    ensures r.None? <==> forall i :: 0 <= i < |lines| ==> lines[i].book != b
    ensures r.Some? ==> exists i ::
                          && 0 <= i < |lines| && lines[i] == r.value && r.value.book == b
                          && forall j :: i < j < |lines| ==> lines[j].book != b
  {
    if lines == [] then None
    else if lines[|lines| - 1].book == b then Some(lines[|lines| - 1])
    else LastLine(lines[..|lines| - 1], b)
  }

  /** The cells of a row after the lines have been read over it. */
  function Apply(t: Title, lines: seq<CatalogLine>, enc: nat): Title
  {
    match LastLine(lines, t.book)
    case None => t
    case Some(l) => t.(encBook := Some(enc), workId := Some(l.workId), title := Some(l.title))
  }

  /** The row of book b in book_titles.csv. */
  function TitleFor(b: int, catalog: seq<CatalogLine>, enc: nat): Title
  {
    Apply(Title(b, None, None, None), catalog, enc)
  }

  lemma {:induction false} LastLineConcat(a: seq<CatalogLine>, c: seq<CatalogLine>, b: int)
    ensures LastLine(a + c, b) == if LastLine(c, b).Some? then LastLine(c, b) else LastLine(a, b)
  {
    if c != [] {
      var ac := a + c;
      assert ac[|ac| - 1] == c[|c| - 1];
      assert ac[..|ac| - 1] == a + c[..|c| - 1];
      if c[|c| - 1].book == b {
        assert LastLine(ac, b) == Some(c[|c| - 1]) == LastLine(c, b);
      } else {
        assert LastLine(ac, b) == LastLine(a + c[..|c| - 1], b);
        assert LastLine(c, b) == LastLine(c[..|c| - 1], b);
        LastLineConcat(a, c[..|c| - 1], b);
      }
    } else {
      assert a + c == a;
    }
  }

  /** Reading two catalogues one after the other is reading their concatenation. */
  lemma ApplyConcat(t: Title, a: seq<CatalogLine>, c: seq<CatalogLine>, enc: nat)
    ensures Apply(Apply(t, a, enc), c, enc) == Apply(t, a + c, enc)
  {
    LastLineConcat(a, c, t.book);
  }

  /** What a row of book_titles.csv holds: empty cells when no catalogue line names the
      book, otherwise the work id and title of the last line naming it and its encoded id. */
  lemma TitleForMeaning(b: int, catalog: seq<CatalogLine>, enc: nat)
    ensures TitleFor(b, catalog, enc).book == b
    ensures TitleFor(b, catalog, enc).title.None? <==> forall i :: 0 <= i < |catalog| ==> catalog[i].book != b
    ensures TitleFor(b, catalog, enc).title.None? ==> TitleFor(b, catalog, enc) == Title(b, None, None, None)
    ensures TitleFor(b, catalog, enc).title.Some? ==>
      && TitleFor(b, catalog, enc).encBook == Some(enc)
      && exists i ::
           && 0 <= i < |catalog| && catalog[i].book == b
           && TitleFor(b, catalog, enc).workId == Some(catalog[i].workId)
           && TitleFor(b, catalog, enc).title == Some(catalog[i].title)
           && forall j :: i < j < |catalog| ==> catalog[j].book != b
  {
  }

  lemma ApplyStep(t: Title, lines: seq<CatalogLine>, i: nat, enc: nat)
    requires i < |lines|
    ensures Apply(t, lines[..i + 1], enc) ==
      if lines[i].book == t.book
      then Apply(t, lines[..i], enc).(encBook := Some(enc), workId := Some(lines[i].workId), title := Some(lines[i].title))
      else Apply(t, lines[..i], enc)
  {
    assert lines[..i + 1][..i] == lines[..i];
  }

  /** The encoded id titles_df receives for index entry k. */
  function EncAt(kept: seq<OutRow>, index: seq<int>, k: nat): nat
    requires k < |index| && forall b :: b in index ==> b in BooksOf(kept)
  {
    assert index[k] in index;
    EncOf(kept, index[k])
  }

  /** The loop over the lines of one catalogue. */
  method LoadGenre(frame: array<Title>, index: seq<int>, kept: seq<OutRow>, lines: seq<CatalogLine>)
    requires frame.Length == |index| && StrictlyIncreasing(index)
    requires forall b :: b in index ==> b in BooksOf(kept)
    requires forall k :: 0 <= k < |index| ==> frame[k].book == index[k]
    modifies frame
    ensures forall k :: 0 <= k < |index| ==> frame[k] == Apply(old(frame[k]), lines, EncAt(kept, index, k))
    ensures forall k :: 0 <= k < |index| ==> frame[k].book == index[k]
  {
    var i := 0;
    while i < |lines|
      invariant 0 <= i <= |lines|
      invariant forall k :: 0 <= k < |index| ==> frame[k].book == index[k]
      invariant forall k :: 0 <= k < |index| ==> frame[k] == Apply(old(frame[k]), lines[..i], EncAt(kept, index, k))
    {
      var line := lines[i];
      forall k | 0 <= k < |index|
        ensures Apply(old(frame[k]), lines[..i + 1], EncAt(kept, index, k)) ==
          if line.book == index[k]
          then Apply(old(frame[k]), lines[..i], EncAt(kept, index, k)).(encBook := Some(EncAt(kept, index, k)), workId := Some(line.workId), title := Some(line.title))
          else Apply(old(frame[k]), lines[..i], EncAt(kept, index, k))
      {
        ApplyStep(old(frame[k]), lines, i, EncAt(kept, index, k));
      }
      if line.book in index {
        var pos := IndexOf(index, line.book);
        frame[pos] := frame[pos].(encBook := Some(EncOf(kept, line.book)), workId := Some(line.workId), title := Some(line.title));
        forall k | 0 <= k < |index| && k != pos ensures index[k] != line.book {
          IndexOfStrict(index, k);
        }
      }
      i := i + 1;
    }
    assert lines[..i] == lines;
  }

  /** t is the row the catalogue gives to a book of the ratings, with that book's
      encoded id. */
  predicate TitleOfRatings(ratings: seq<OutRow>, catalog: seq<CatalogLine>, t: Title)
  {
    exists j :: 0 <= j < |ratings| && ratings[j].book == t.book && t == TitleFor(t.book, catalog, ratings[j].encBook)
  }

  function TitleBooks(titles: seq<Title>): (books: seq<int>)
    ensures |books| == |titles| && forall k :: 0 <= k < |titles| ==> books[k] == titles[k].book
  {
    seq(|titles|, k requires 0 <= k < |titles| => titles[k].book)
  }

  /** The whole script: build the index, preallocate the empty frame, read both
      catalogues over it, and return its rows in index order. */
  method BuildTitles(ratings: seq<OutRow>, fantasy: seq<CatalogLine>, romance: seq<CatalogLine>)
    returns (titles: seq<Title>)
    requires Consistent(ratings)
    ensures TitleBooks(titles) == TitleIndex(ratings)
    ensures forall k :: 0 <= k < |titles| ==> TitleOfRatings(ratings, fantasy + romance, titles[k])
  {
    var kept := DedupByEncoded(ratings);
    var index := TitleIndex(ratings);
    IndexInKept(ratings);
    var frame := new Title[|index|](k requires 0 <= k < |index| => Title(index[k], None, None, None));
    LoadGenre(frame, index, kept, fantasy);
    ghost var middle := frame[..];
    LoadGenre(frame, index, kept, romance);
    titles := frame[..];
    TitlesMeetSpec(ratings, kept, index, fantasy, romance, middle, titles);
  }

  lemma TitlesMeetSpec(ratings: seq<OutRow>, kept: seq<OutRow>, index: seq<int>, fantasy: seq<CatalogLine>,
                       romance: seq<CatalogLine>, middle: seq<Title>, titles: seq<Title>)
    requires forall q :: q in kept ==> q in ratings
    requires forall b :: b in index ==> b in BooksOf(kept)
    requires |middle| == |index| && |titles| == |index|
    requires forall k :: 0 <= k < |index| ==>
      middle[k] == Apply(Title(index[k], None, None, None), fantasy, EncAt(kept, index, k))
    requires forall k :: 0 <= k < |index| ==> titles[k] == Apply(middle[k], romance, EncAt(kept, index, k))
    requires forall k :: 0 <= k < |index| ==> titles[k].book == index[k]
    ensures TitleBooks(titles) == index
    ensures forall k :: 0 <= k < |titles| ==> TitleOfRatings(ratings, fantasy + romance, titles[k])
  {
    forall k | 0 <= k < |titles|
      ensures TitleOfRatings(ratings, fantasy + romance, titles[k])
    {
      var e := EncAt(kept, index, k);
      assert titles[k] == Apply(Apply(Title(index[k], None, None, None), fantasy, e), romance, e);
      TitleRow(ratings, kept, index, fantasy, romance, k);
      var j :| && 0 <= j < |ratings| && ratings[j].book == index[k]
               && Apply(Apply(Title(index[k], None, None, None), fantasy, e), romance, e)
                  == TitleFor(ratings[j].book, fantasy + romance, ratings[j].encBook);
      assert ratings[j].book == titles[k].book;
    }
    assert forall k :: 0 <= k < |index| ==> TitleBooks(titles)[k] == index[k];
  }

  lemma IndexInKept(ratings: seq<OutRow>)
    requires Consistent(ratings)
    ensures forall b :: b in TitleIndex(ratings) ==> b in BooksOf(DedupByEncoded(ratings))
  {
    var kept := DedupByEncoded(ratings);
    forall b | b in TitleIndex(ratings) ensures b in BooksOf(kept) {
      var j :| 0 <= j < |ratings| && BooksOf(ratings)[j] == b;
      var m :| 0 <= m < |kept| && EncsOf(kept)[m] == ratings[j].encBook;
      assert kept[m] in kept && ratings[j] in ratings;
      assert BooksOf(kept)[m] == b;
    }
  }

  lemma TitleRow(ratings: seq<OutRow>, kept: seq<OutRow>, index: seq<int>,
                 fantasy: seq<CatalogLine>, romance: seq<CatalogLine>, k: nat)
    requires forall q :: q in kept ==> q in ratings
    requires k < |index| && forall b :: b in index ==> b in BooksOf(kept)
    ensures exists j ::
              && 0 <= j < |ratings| && ratings[j].book == index[k]
              && Apply(Apply(Title(index[k], None, None, None), fantasy, EncAt(kept, index, k)), romance, EncAt(kept, index, k))
                 == TitleFor(ratings[j].book, fantasy + romance, ratings[j].encBook)
  {
    var e := EncAt(kept, index, k);
    ApplyConcat(Title(index[k], None, None, None), fantasy, romance, e);
    var m :| 0 <= m < |kept| && kept[m].book == index[k] && kept[m].encBook == e;
    assert kept[m] in kept;
    var j :| 0 <= j < |ratings| && ratings[j] == kept[m];
  }
}
