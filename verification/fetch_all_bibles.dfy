/**
 `fetchTranslationData`: the per-translation export. A book is filed under
 its name, with no common-name fallback, and a verse's `text` column is
 stored as it is, so `NULL` stays `null`.
 */
module FetchAllBibles {
  import opened Optional
  import opened OrderedMap
  import opened BibleSource
  import opened Export
  import FetchBible

  /** `book.name`. */
  function BookName(b: BookRow): string
  {
    b.name
  }

  /** `verse.text`, unchanged. */
  function Verbatim(t: Option<string>): Option<string>
  {
    t
  }

  /** The document `fetchTranslationData(tid)` returns. */
  function TranslationData(src: Source, tid: string): Document<Option<string>>
  {
    ExportDocument(src, tid, BookName, Verbatim)
  }

  /** `fetchTranslationData`: a fresh result per call, one key per distinct
      book name, in book-row order. */
  method FetchTranslationData(src: Source, tid: string) returns (result: Document<Option<string>>)
    ensures result == TranslationData(src, tid)
    ensures Keys(result) == Dedup(BookKeys(src, tid, BookName))
    ensures Distinct(Keys(result))
  {
    result := ExportTranslation(src, tid, BookName, Verbatim);
    ExportKeys(src, tid, BookName, Verbatim);
    AssignAllDistinct(BookEntries(src, tid, BookName, Verbatim));
  }

  /** The value stored for a verse is its `text` column exactly; in
      particular a `NULL` text is stored as `null`. */
  lemma TranslationVerse(src: Source, tid: string, i: nat, j: nat, l: nat)
    requires i < |src.books(tid)|
    requires forall i' :: i < i' < |src.books(tid)| ==> src.books(tid)[i'].name != src.books(tid)[i].name
    requires j < |src.chapters(tid, src.books(tid)[i].id)|
    requires
      var cs := src.chapters(tid, src.books(tid)[i].id);
      forall j' :: j < j' < |cs| ==> cs[j'].number != cs[j].number
    requires l < |src.verses(tid, src.books(tid)[i].id, src.chapters(tid, src.books(tid)[i].id)[j].number)|
    requires
      var vs := src.verses(tid, src.books(tid)[i].id, src.chapters(tid, src.books(tid)[i].id)[j].number);
      forall l' :: l < l' < |vs| ==> vs[l'].number != vs[l].number
    ensures
      var b := src.books(tid)[i];
      var n := src.chapters(tid, b.id)[j].number;
      var v := src.verses(tid, b.id, n)[l];
      Lookup(TranslationData(src, tid), b.name, n, v.number) == Some(v.text)
  {
    ExportVerse(src, tid, BookName, Verbatim, i, j, l);
  }

  /** Each translation's document is built from that translation's rows
      alone, so exporting one cannot affect another. */
  lemma TranslationsIndependent(a: Source, b: Source, tid: string)
    requires SameTranslation(a, b, tid)
    ensures TranslationData(a, tid) == TranslationData(b, tid)
  {
    ExportOnlyReads(a, b, tid, BookName, Verbatim);
  }

  /** When no book has a non-empty common name, `fetchBible`'s document is
      this one with every `null` or empty text replaced by `""`: the two
      scripts differ in exactly the key and text policies. */
  lemma AgreesWithFetchBible(src: Source)
    requires forall i :: 0 <= i < |src.books(FetchBible.TranslationId)| ==>
      !Truthy(src.books(FetchBible.TranslationId)[i].commonName)
    ensures FetchBible.Exported(src)
         == MapDocument(TranslationData(src, FetchBible.TranslationId), FetchBible.NormalizedText)
  {
    var tid := FetchBible.TranslationId;
    forall i | 0 <= i < |src.books(tid)|
      ensures FetchBible.DisplayKey(src.books(tid)[i]) == BookName(src.books(tid)[i])
    {
      FetchBible.DisplayKeyPolicy(src.books(tid)[i]);
    }
    ExportMapValues(src, tid, FetchBible.DisplayKey, BookName,
                    Verbatim, FetchBible.NormalizedText, FetchBible.NormalizedText);
  }

  /** The one-book source of the `fetchBible` example, exported verbatim:
      the `NULL` text of verse 2 stays `null` instead of becoming `""`. */
  lemma VerbatimExample(src: Source, tid: string, bookId: string, name: string, first: string)
    requires src.books(tid) == [BookRow(bookId, name, None, 1)]
    requires src.chapters(tid, bookId) == [ChapterRow(1)]
    requires src.verses(tid, bookId, 1) == [VerseRow(1, Some(first)), VerseRow(2, None)]
    ensures TranslationData(src, tid) == [Entry(name, [Entry(1, [Entry(1, Some(first)), Entry(2, None)])])]
  {
    var ves := VerseEntries(src.verses(tid, bookId, 1), Verbatim);
    assert ves == [Entry(1, Some(first)), Entry(2, None)];
    assert Keys(ves) == [1, 2];
    AssignAllOfDistinct(ves);
    var ch := ChapterObject(src, tid, bookId, 1, Verbatim);
    assert ch == ves;
    var ces := ChapterEntries(src, tid, bookId, Verbatim);
    assert ces == [Entry(1, ch)];
    AssignAllOfDistinct(ces);
    var bes := BookEntries(src, tid, BookName, Verbatim);
    assert bes == [Entry(name, ces)];
    AssignAllOfDistinct(bes);
  }

  /** A book with a non-empty common name other than its name is filed under
      different keys by the two scripts. */
  lemma KeyPoliciesDiffer(src: Source, i: nat)
    requires i < |src.books(FetchBible.TranslationId)|
    requires
      var b := src.books(FetchBible.TranslationId)[i];
      Truthy(b.commonName) && b.commonName.value != b.name
    ensures
      var b := src.books(FetchBible.TranslationId)[i];
      && FetchBible.DisplayKey(b) in Keys(FetchBible.Exported(src))
      && b.name in Keys(TranslationData(src, FetchBible.TranslationId))
      && FetchBible.DisplayKey(b) != b.name
  {
    var tid := FetchBible.TranslationId;
    ExportKeys(src, tid, FetchBible.DisplayKey, FetchBible.NormalizedText);
    ExportKeys(src, tid, BookName, Verbatim);
    DedupMembers(BookKeys(src, tid, FetchBible.DisplayKey));
    DedupMembers(BookKeys(src, tid, BookName));
    assert BookKeys(src, tid, FetchBible.DisplayKey)[i] == FetchBible.DisplayKey(src.books(tid)[i]);
    assert BookKeys(src, tid, BookName)[i] == BookName(src.books(tid)[i]);
  }
}
