/**
 `fetchBible`: the single-translation export. A book is filed under its
 common name when it has a non-empty one and under its name otherwise, and
 a verse whose text is `NULL` or empty is stored as `""`.
 */
module FetchBible {
  import opened Optional
  import opened OrderedMap
  import opened BibleSource
  import opened Export

  /** The one translation this script exports. */
  const TranslationId: string := "eng_kjv"

  /** `book.commonName || book.name`. */
  function DisplayKey(b: BookRow): (k: string)
    ensures k == b.name || b.commonName == Some(k)
    ensures k == "" ==> b.name == ""
  {
    match b.commonName
    case Some(c) => if c != "" then c else b.name
    case None => b.name
  }

  /** `verse.text || ""`. */
  function NormalizedText(t: Option<string>): (s: string)
    ensures s == "" <==> !Truthy(t)
    ensures s != "" ==> t == Some(s)
  {
    if t.Some? then t.value else ""
  }

  /** The key policy, case by case: a missing or empty common name falls
      back to the name. */
  lemma DisplayKeyPolicy(b: BookRow)
    ensures b.commonName == None ==> DisplayKey(b) == b.name
    ensures b.commonName == Some("") ==> DisplayKey(b) == b.name
    ensures Truthy(b.commonName) ==> DisplayKey(b) == b.commonName.value
  {
  }

  /** The document `fetchBible` builds before it is serialised. */
  function Exported(src: Source): Document<string>
  {
    ExportDocument(src, TranslationId, DisplayKey, NormalizedText)
  }

  /** `fetchBible` up to the point where the object is written out: one key
      per distinct display key, in book-row order. */
  method FetchBibleData(src: Source) returns (bibleData: Document<string>)
    ensures bibleData == Exported(src)
    ensures Keys(bibleData) == Dedup(BookKeys(src, TranslationId, DisplayKey))
    ensures Distinct(Keys(bibleData))
  {
    bibleData := ExportTranslation(src, TranslationId, DisplayKey, NormalizedText);
    ExportKeys(src, TranslationId, DisplayKey, NormalizedText);
    AssignAllDistinct(BookEntries(src, TranslationId, DisplayKey, NormalizedText));
  }

  /** The value stored for a verse is its text when that is non-empty and
      `""` otherwise, never `null`. */
  lemma FetchBibleVerse(src: Source, i: nat, j: nat, l: nat)
    requires i < |src.books(TranslationId)|
    requires forall i' :: i < i' < |src.books(TranslationId)| ==>
      DisplayKey(src.books(TranslationId)[i']) != DisplayKey(src.books(TranslationId)[i])
    requires j < |src.chapters(TranslationId, src.books(TranslationId)[i].id)|
    requires
      var cs := src.chapters(TranslationId, src.books(TranslationId)[i].id);
      forall j' :: j < j' < |cs| ==> cs[j'].number != cs[j].number
    requires l < |src.verses(TranslationId, src.books(TranslationId)[i].id,
                             src.chapters(TranslationId, src.books(TranslationId)[i].id)[j].number)|
    requires
      var vs := src.verses(TranslationId, src.books(TranslationId)[i].id,
                           src.chapters(TranslationId, src.books(TranslationId)[i].id)[j].number);
      forall l' :: l < l' < |vs| ==> vs[l'].number != vs[l].number
    ensures
      var b := src.books(TranslationId)[i];
      var n := src.chapters(TranslationId, b.id)[j].number;
      var v := src.verses(TranslationId, b.id, n)[l];
      && (Truthy(v.text) ==> Lookup(Exported(src), DisplayKey(b), n, v.number) == Some(v.text.value))
      && (!Truthy(v.text) ==> Lookup(Exported(src), DisplayKey(b), n, v.number) == Some(""))
  {
    ExportVerse(src, TranslationId, DisplayKey, NormalizedText, i, j, l);
  }

  /** Two books with the same display key, the later one the last book with
      it: the later one's `= {}` discards what the earlier one stored, so only
      the later book's chapters remain, whatever books follow. */
  lemma SharedKeyKeepsLater(src: Source, i: nat, i': nat)
    requires i < i' < |src.books(TranslationId)|
    requires DisplayKey(src.books(TranslationId)[i]) == DisplayKey(src.books(TranslationId)[i'])
    requires forall k :: i' < k < |src.books(TranslationId)| ==>
      DisplayKey(src.books(TranslationId)[k]) != DisplayKey(src.books(TranslationId)[i'])
    ensures Get(Exported(src), DisplayKey(src.books(TranslationId)[i]))
         == Some(BookObject(src, TranslationId, src.books(TranslationId)[i'].id, NormalizedText))
  {
    ExportBook(src, TranslationId, DisplayKey, NormalizedText, i');
  }

  /** A source holding exactly one book with one chapter of two verses, the
      second with `NULL` text. */
  predicate OneBookSource(src: Source, bookId: string, name: string, first: string)
  {
    && src.books(TranslationId) == [BookRow(bookId, name, None, 1)]
    && src.chapters(TranslationId, bookId) == [ChapterRow(1)]
    && src.verses(TranslationId, bookId, 1) == [VerseRow(1, Some(first)), VerseRow(2, None)]
  }

  /** Genesis with verses "In the beginning" and `NULL` exports as
      `{"Genesis": {1: {1: "In the beginning", 2: ""}}}`. */
  lemma GenesisExample(src: Source, name: string, first: string)
    requires name == "Genesis" && first == "In the beginning"
    requires OneBookSource(src, "GEN", name, first)
    ensures Exported(src) == [Entry(name, [Entry(1, [Entry(1, first), Entry(2, "")])])]
  {
    OneBookExport(src, "GEN", name, first);
  }

  lemma OneBookExport(src: Source, bookId: string, name: string, first: string)
    requires OneBookSource(src, bookId, name, first)
    ensures Exported(src) == [Entry(name, [Entry(1, [Entry(1, first), Entry(2, "")])])]
  {
    var ves := VerseEntries(src.verses(TranslationId, bookId, 1), NormalizedText);
    assert ves == [Entry(1, first), Entry(2, "")];
    assert Keys(ves) == [1, 2];
    AssignAllOfDistinct(ves);
    var ch := ChapterObject(src, TranslationId, bookId, 1, NormalizedText);
    assert ch == ves;
    var ces := ChapterEntries(src, TranslationId, bookId, NormalizedText);
    assert ces == [Entry(1, ch)];
    AssignAllOfDistinct(ces);
    var bes := BookEntries(src, TranslationId, DisplayKey, NormalizedText);
    assert bes == [Entry(name, ces)];
    AssignAllOfDistinct(bes);
  }
}
