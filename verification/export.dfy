/**
 The three-level fold both export scripts run: for each book row, assign
 `{}` under the book's key; for each of its chapter rows, assign `{}` under
 the chapter number; for each of that chapter's verse rows, assign the
 verse's stored value under the verse number. The two scripts differ only in
 how a book row becomes a key and how a verse's `text` column becomes the
 stored value, so both are parameters here.
 */
module Export {
  import opened Optional
  import opened OrderedMap
  import opened BibleSource

  /** verse number -> stored value */
  type ChapterObj<T> = OMap<int, T>
  /** chapter number -> chapter */
  type BookObj<T> = OMap<int, ChapterObj<T>>
  /** book key -> book */
  type Document<T> = OMap<string, BookObj<T>>

  // ---------------------------------------------------------------------------
  // Reference definition: each level is the run of assignments its rows make

  /** One assignment per verse row, in row order. */
  function VerseEntries<T>(vs: seq<VerseRow>, textOf: Option<string> -> T): (es: seq<Entry<int, T>>)
    ensures |es| == |vs|
    ensures forall i :: 0 <= i < |vs| ==> es[i] == Entry(vs[i].number, textOf(vs[i].text))
  {
    seq(|vs|, i requires 0 <= i < |vs| => Entry(vs[i].number, textOf(vs[i].text)))
  }

  function ChapterObject<T>(src: Source, tid: string, bookId: string, number: int,
                            textOf: Option<string> -> T): ChapterObj<T>
  {
    AssignAll(VerseEntries(src.verses(tid, bookId, number), textOf))
  }

  /** One assignment per chapter row, each holding that chapter's object. */
  function ChapterEntries<T>(src: Source, tid: string, bookId: string,
                             textOf: Option<string> -> T): (es: seq<Entry<int, ChapterObj<T>>>)
    ensures |es| == |src.chapters(tid, bookId)|
    ensures forall j :: 0 <= j < |es| ==>
      var n := src.chapters(tid, bookId)[j].number;
      es[j] == Entry(n, ChapterObject(src, tid, bookId, n, textOf))
  {
    var cs := src.chapters(tid, bookId);
    seq(|cs|, j requires 0 <= j < |cs| =>
      Entry(cs[j].number, ChapterObject(src, tid, bookId, cs[j].number, textOf)))
  }

  function BookObject<T>(src: Source, tid: string, bookId: string,
                         textOf: Option<string> -> T): BookObj<T>
  {
    AssignAll(ChapterEntries(src, tid, bookId, textOf))
  }

  /** One assignment per book row, under the key `keyOf` gives it. */
  function BookEntries<T>(src: Source, tid: string, keyOf: BookRow -> string,
                          textOf: Option<string> -> T): (es: seq<Entry<string, BookObj<T>>>)
    ensures |es| == |src.books(tid)|
    ensures forall i :: 0 <= i < |es| ==>
      var b := src.books(tid)[i];
      es[i] == Entry(keyOf(b), BookObject(src, tid, b.id, textOf))
  {
    var bs := src.books(tid);
    seq(|bs|, i requires 0 <= i < |bs| =>
      Entry(keyOf(bs[i]), BookObject(src, tid, bs[i].id, textOf)))
  }

  function ExportDocument<T>(src: Source, tid: string, keyOf: BookRow -> string,
                             textOf: Option<string> -> T): Document<T>
  {
    AssignAll(BookEntries(src, tid, keyOf, textOf))
  }

  // ---------------------------------------------------------------------------
  // The loops, statement by statement

  /** The nested loops of the export scripts, each assignment writing into the
      object built so far. Reading `doc[key]` and `doc[key][number]` never
      meets `undefined`: the preconditions of `At` are discharged here. */
  method ExportTranslation<T>(src: Source, tid: string, keyOf: BookRow -> string,
                              textOf: Option<string> -> T) returns (doc: Document<T>)
    ensures doc == ExportDocument(src, tid, keyOf, textOf)
  {
    doc := [];
    var books := src.books(tid);
    ghost var bookEntries := BookEntries(src, tid, keyOf, textOf);
    for i := 0 to |books|
      invariant doc == AssignAll(bookEntries[..i])
    {
      var book := books[i];
      var key := keyOf(book);
      ghost var before := doc;
      doc := Put(doc, key, []);
      var chapters := src.chapters(tid, book.id);
      ghost var chapterEntries := ChapterEntries(src, tid, book.id, textOf);
      for j := 0 to |chapters|
        invariant doc == Put(before, key, AssignAll(chapterEntries[..j]))
      {
        var number := chapters[j].number;
        ghost var bookSoFar := AssignAll(chapterEntries[..j]);
        AtPut(before, key, bookSoFar);
        doc := Put(doc, key, Put(At(doc, key), number, []));
        PutPut(before, key, bookSoFar, Put(bookSoFar, number, []));
        var verses := src.verses(tid, book.id, number);
        ghost var verseEntries := VerseEntries(verses, textOf);
        for l := 0 to |verses|
          invariant doc == Put(before, key, Put(bookSoFar, number, AssignAll(verseEntries[..l])))
        {
          VerseStep(before, key, bookSoFar, number, verseEntries, l);
          var bookObj := At(doc, key);
          doc := Put(doc, key, Put(bookObj, number, Put(At(bookObj, number), verses[l].number, textOf(verses[l].text))));
        }
        assert verseEntries[..|verses|] == verseEntries;
        AssignAllSnoc(chapterEntries, j);
      }
      assert chapterEntries[..|chapters|] == chapterEntries;
      AssignAllSnoc(bookEntries, i);
      PutPut(before, key, [], BookObject(src, tid, book.id, textOf));
    }
    assert bookEntries[..|books|] == bookEntries;
  }

  /** One verse assignment, `doc[key][number][e.key] = e.value`, extends the
      run of verse assignments by one while every enclosing object keeps its
      place. */
  lemma VerseStep<T>(before: Document<T>, key: string, bookSoFar: BookObj<T>, number: int,
                     es: seq<Entry<int, T>>, l: nat)
    requires l < |es|
    ensures
      var chapter := AssignAll(es[..l]);
      var doc := Put(before, key, Put(bookSoFar, number, chapter));
      && key in Keys(doc)
      && number in Keys(At(doc, key))
      && Put(doc, key, Put(At(doc, key), number, Put(At(At(doc, key), number), es[l].key, es[l].value)))
         == Put(before, key, Put(bookSoFar, number, AssignAll(es[..l + 1])))
  {
    var chapter := AssignAll(es[..l]);
    var book := Put(bookSoFar, number, chapter);
    var next := Put(chapter, es[l].key, es[l].value);
    AtPut(before, key, book);
    AtPut(bookSoFar, number, chapter);
    PutPut(bookSoFar, number, chapter, next);
    PutPut(before, key, book, Put(bookSoFar, number, next));
    AssignAllSnoc(es, l);
  }

  // ---------------------------------------------------------------------------
  // What the document holds

  /** The keys each book row produces, in row order. */
  function BookKeys(src: Source, tid: string, keyOf: BookRow -> string): (ks: seq<string>)
    ensures |ks| == |src.books(tid)|
    ensures forall i :: 0 <= i < |ks| ==> ks[i] == keyOf(src.books(tid)[i])
  {
    var bs := src.books(tid);
    seq(|bs|, i requires 0 <= i < |bs| => keyOf(bs[i]))
  }

  function ChapterNumbers(cs: seq<ChapterRow>): (ns: seq<int>)
    ensures |ns| == |cs|
    ensures forall j :: 0 <= j < |cs| ==> ns[j] == cs[j].number
  {
    seq(|cs|, j requires 0 <= j < |cs| => cs[j].number)
  }

  function VerseNumbers(vs: seq<VerseRow>): (ns: seq<int>)
    ensures |ns| == |vs|
    ensures forall l :: 0 <= l < |vs| ==> ns[l] == vs[l].number
  {
    seq(|vs|, l requires 0 <= l < |vs| => vs[l].number)
  }

  /** Every book row contributes its key, in the order the rows arrive; a key
      shared by several rows appears once, where it first arrived. */
  lemma ExportKeys<T>(src: Source, tid: string, keyOf: BookRow -> string, textOf: Option<string> -> T)
    ensures Keys(ExportDocument(src, tid, keyOf, textOf)) == Dedup(BookKeys(src, tid, keyOf))
  {
    var es := BookEntries(src, tid, keyOf, textOf);
    AssignAllKeys(es);
    assert Keys(es) == BookKeys(src, tid, keyOf);
  }

  /** A translation without book rows exports `{}`. */
  lemma ExportNoBooks<T>(src: Source, tid: string, keyOf: BookRow -> string, textOf: Option<string> -> T)
    requires src.books(tid) == []
    ensures ExportDocument(src, tid, keyOf, textOf) == []
  {
  }

  /** The chapter keys of a book are its chapter numbers, each once, in row
      order; under `ORDER BY number` they come out strictly ascending, so
      JavaScript's numeric ordering of integer keys agrees with this order. */
  lemma BookKeysAreChapters<T>(src: Source, tid: string, bookId: string, textOf: Option<string> -> T)
    ensures Keys(BookObject(src, tid, bookId, textOf)) == Dedup(ChapterNumbers(src.chapters(tid, bookId)))
    ensures NonDecreasing(ChapterNumbers(src.chapters(tid, bookId))) ==>
      Increasing(Keys(BookObject(src, tid, bookId, textOf)))
  {
    var es := ChapterEntries(src, tid, bookId, textOf);
    var ns := ChapterNumbers(src.chapters(tid, bookId));
    AssignAllKeys(es);
    assert Keys(es) == ns;
    if NonDecreasing(ns) {
      DedupSorted(ns);
    }
  }

  /** The verse keys of a chapter are its verse numbers, each once, in row
      order, and strictly ascending under `ORDER BY number`. */
  lemma ChapterKeysAreVerses<T>(vs: seq<VerseRow>, textOf: Option<string> -> T)
    ensures Keys(AssignAll(VerseEntries(vs, textOf))) == Dedup(VerseNumbers(vs))
    ensures NonDecreasing(VerseNumbers(vs)) ==> Increasing(Keys(AssignAll(VerseEntries(vs, textOf))))
  {
    var es := VerseEntries(vs, textOf);
    AssignAllKeys(es);
    assert Keys(es) == VerseNumbers(vs);
    if NonDecreasing(VerseNumbers(vs)) {
      DedupSorted(VerseNumbers(vs));
    }
  }

  /** Distinct numbers, as a primary key guarantees, are the keys exactly. */
  lemma ChapterKeysDistinct<T>(src: Source, tid: string, bookId: string, textOf: Option<string> -> T)
    requires Distinct(ChapterNumbers(src.chapters(tid, bookId)))
    ensures Keys(BookObject(src, tid, bookId, textOf)) == ChapterNumbers(src.chapters(tid, bookId))
  {
    BookKeysAreChapters(src, tid, bookId, textOf);
    DedupOfDistinct(ChapterNumbers(src.chapters(tid, bookId)));
  }

  /** A book row is the last with its key: the key maps to that book's
      chapters alone; whatever an earlier book with the same key held was
      discarded by the later `= {}`. */
  lemma ExportBook<T>(src: Source, tid: string, keyOf: BookRow -> string, textOf: Option<string> -> T, i: nat)
    requires i < |src.books(tid)|
    requires forall i' :: i < i' < |src.books(tid)| ==> keyOf(src.books(tid)[i']) != keyOf(src.books(tid)[i])
    ensures Get(ExportDocument(src, tid, keyOf, textOf), keyOf(src.books(tid)[i]))
         == Some(BookObject(src, tid, src.books(tid)[i].id, textOf))
  {
    var es := BookEntries(src, tid, keyOf, textOf);
    AssignAllLastWins(es, i);
  }

  /** A key no book row produces is absent. */
  lemma ExportAbsent<T>(src: Source, tid: string, keyOf: BookRow -> string, textOf: Option<string> -> T, k: string)
    requires forall i :: 0 <= i < |src.books(tid)| ==> keyOf(src.books(tid)[i]) != k
    ensures Get(ExportDocument(src, tid, keyOf, textOf), k) == None
  {
    var es := BookEntries(src, tid, keyOf, textOf);
    assert Keys(es) == BookKeys(src, tid, keyOf);
    AssignAllAbsent(es, k);
  }

  /** A book without chapter rows still appears, as `{}`. */
  lemma ExportEmptyBook<T>(src: Source, tid: string, keyOf: BookRow -> string, textOf: Option<string> -> T, i: nat)
    requires i < |src.books(tid)|
    requires forall i' :: i < i' < |src.books(tid)| ==> keyOf(src.books(tid)[i']) != keyOf(src.books(tid)[i])
    requires src.chapters(tid, src.books(tid)[i].id) == []
    ensures Get(ExportDocument(src, tid, keyOf, textOf), keyOf(src.books(tid)[i])) == Some([])
  {
    ExportBook(src, tid, keyOf, textOf, i);
  }

  /** A chapter row that is the last with its number maps to its own verses. */
  lemma BookChapter<T>(src: Source, tid: string, bookId: string, textOf: Option<string> -> T, j: nat)
    requires j < |src.chapters(tid, bookId)|
    requires forall j' :: j < j' < |src.chapters(tid, bookId)| ==>
      src.chapters(tid, bookId)[j'].number != src.chapters(tid, bookId)[j].number
    ensures
      var n := src.chapters(tid, bookId)[j].number;
      Get(BookObject(src, tid, bookId, textOf), n) == Some(ChapterObject(src, tid, bookId, n, textOf))
  {
    var es := ChapterEntries(src, tid, bookId, textOf);
    AssignAllLastWins(es, j);
  }

  /** A chapter without verse rows still appears, as `{}`. */
  lemma BookEmptyChapter<T>(src: Source, tid: string, bookId: string, textOf: Option<string> -> T, j: nat)
    requires j < |src.chapters(tid, bookId)|
    requires forall j' :: j < j' < |src.chapters(tid, bookId)| ==>
      src.chapters(tid, bookId)[j'].number != src.chapters(tid, bookId)[j].number
    requires src.verses(tid, bookId, src.chapters(tid, bookId)[j].number) == []
    ensures Get(BookObject(src, tid, bookId, textOf), src.chapters(tid, bookId)[j].number) == Some([])
  {
    BookChapter(src, tid, bookId, textOf, j);
  }

  /** The value stored under a verse number is that of the last row with the
      number. */
  lemma ChapterVerse<T>(vs: seq<VerseRow>, textOf: Option<string> -> T, l: nat)
    requires l < |vs|
    requires forall l' :: l < l' < |vs| ==> vs[l'].number != vs[l].number
    ensures Get(AssignAll(VerseEntries(vs, textOf)), vs[l].number) == Some(textOf(vs[l].text))
  {
    AssignAllLastWins(VerseEntries(vs, textOf), l);
  }

  /** `doc[key][chapter][verse]`, or `None` where a level is missing. */
  function Lookup<T>(doc: Document<T>, key: string, chapter: int, verse: int): Option<T>
  {
    match Get(doc, key)
    case None => None
    case Some(book) =>
      match Get(book, chapter)
      case None => None
      case Some(ch) => Get(ch, verse)
  }

  /** Following a book row, one of its chapter rows and one of that chapter's
      verse rows, each the last of its key at its level, reaches the value
      made from that verse row's text. */
  lemma ExportVerse<T>(src: Source, tid: string, keyOf: BookRow -> string, textOf: Option<string> -> T,
                       i: nat, j: nat, l: nat)
    requires i < |src.books(tid)|
    requires forall i' :: i < i' < |src.books(tid)| ==> keyOf(src.books(tid)[i']) != keyOf(src.books(tid)[i])
    requires j < |src.chapters(tid, src.books(tid)[i].id)|
    requires forall j' :: j < j' < |src.chapters(tid, src.books(tid)[i].id)| ==>
      src.chapters(tid, src.books(tid)[i].id)[j'].number != src.chapters(tid, src.books(tid)[i].id)[j].number
    requires l < |src.verses(tid, src.books(tid)[i].id, src.chapters(tid, src.books(tid)[i].id)[j].number)|
    requires
      var vs := src.verses(tid, src.books(tid)[i].id, src.chapters(tid, src.books(tid)[i].id)[j].number);
      forall l' :: l < l' < |vs| ==> vs[l'].number != vs[l].number
    ensures
      var b := src.books(tid)[i];
      var n := src.chapters(tid, b.id)[j].number;
      var v := src.verses(tid, b.id, n)[l];
      Lookup(ExportDocument(src, tid, keyOf, textOf), keyOf(b), n, v.number) == Some(textOf(v.text))
  {
    var b := src.books(tid)[i];
    var n := src.chapters(tid, b.id)[j].number;
    ExportBook(src, tid, keyOf, textOf, i);
    BookChapter(src, tid, b.id, textOf, j);
    ChapterVerse(src.verses(tid, b.id, n), textOf, l);
  }

  /** The result depends on the rows of translation `tid` alone. */
  lemma ExportOnlyReads<T>(a: Source, b: Source, tid: string, keyOf: BookRow -> string, textOf: Option<string> -> T)
    requires SameTranslation(a, b, tid)
    ensures ExportDocument(a, tid, keyOf, textOf) == ExportDocument(b, tid, keyOf, textOf)
  {
    forall bookId: string
      ensures BookObject(a, tid, bookId, textOf) == BookObject(b, tid, bookId, textOf)
    {
      var ea := ChapterEntries(a, tid, bookId, textOf);
      var eb := ChapterEntries(b, tid, bookId, textOf);
      assert ea == eb;
    }
    assert BookEntries(a, tid, keyOf, textOf) == BookEntries(b, tid, keyOf, textOf);
  }

  // ---------------------------------------------------------------------------
  // Changing the key and value policies

  /** Every stored value passed through `f`, every key kept. */
  function MapDocument<T, U>(doc: Document<T>, f: T -> U): (r: Document<U>)
    ensures |r| == |doc|
  {
    MapValues(doc, (book: BookObj<T>) => MapValues(book, (ch: ChapterObj<T>) => MapValues(ch, f)))
  }

  /** Exporting with `h`, a value policy that factors as `f` after `g`, and a
      key policy that agrees with another on every book row, is exporting
      with `g` and the other key policy and then mapping every value by `f`. */
  lemma ExportMapValues<T, U>(src: Source, tid: string,
                              keyOf: BookRow -> string, keyOf': BookRow -> string,
                              g: Option<string> -> T, f: T -> U, h: Option<string> -> U)
    requires forall i :: 0 <= i < |src.books(tid)| ==> keyOf(src.books(tid)[i]) == keyOf'(src.books(tid)[i])
    requires forall t :: h(t) == f(g(t))
    ensures ExportDocument(src, tid, keyOf, h) == MapDocument(ExportDocument(src, tid, keyOf', g), f)
  {
    var cf := (ch: ChapterObj<T>) => MapValues(ch, f);
    var bf := (book: BookObj<T>) => MapValues(book, cf);
    forall bookId: string
      ensures BookObject(src, tid, bookId, h) == MapValues(BookObject(src, tid, bookId, g), cf)
    {
      var cs := src.chapters(tid, bookId);
      forall n: int
        ensures ChapterObject(src, tid, bookId, n, h) == cf(ChapterObject(src, tid, bookId, n, g))
      {
        var vs := src.verses(tid, bookId, n);
        assert VerseEntries(vs, h) == MapValues(VerseEntries(vs, g), f);
        AssignAllMapValues(VerseEntries(vs, g), f);
      }
      assert ChapterEntries(src, tid, bookId, h) == MapValues(ChapterEntries(src, tid, bookId, g), cf);
      AssignAllMapValues(ChapterEntries(src, tid, bookId, g), cf);
    }
    assert BookEntries(src, tid, keyOf, h) == MapValues(BookEntries(src, tid, keyOf', g), bf);
    AssignAllMapValues(BookEntries(src, tid, keyOf', g), bf);
  }
}
