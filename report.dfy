/**
 The body of `main(file)` once the book's text is in hand: the word count,
 the character table sorted by descending count, and one report line per
 lower-case ASCII letter, emitted in that order after the header and the
 word-count line.
 */
module Report {
  import opened Chars
  import opened Seqs
  import opened Dicts
  import opened Words
  import opened Frequencies
  import opened Sorting

  /** The report lines, by content; the exact wording of the f-strings is not modelled. */
  datatype Line =
    | Header(file: string)                  // "--- Begin report of {file} ---"
    | WordTotal(words: nat)                 // "{n} words found in the document"
    | CharacterTotal(ch: char, times: nat)  // "The character {c} was found {n} times"

  /** `c in ascii_lowercase` for the key `c` of an entry. */
  predicate IsReported(e: Entry) {
    e.ch in AsciiLowercase
  }

  /** The order in which characters first occur in `text`. */
  predicate OccursFirst(text: string, a: Entry, b: Entry) {
    FirstIndex(text, a.ch) < FirstIndex(text, b.ch)
  }

  /** The items of the sorted table, `sorted(count_characters(book).items(), ...)`. */
  function SortedCounts(book: string): seq<Entry> {
    SortByCountDesc(CharacterCounts(book).Items())
  }

  /** The entries that get a report line, in report order. */
  function ReportEntries(book: string): seq<Entry> {
    Filter(SortedCounts(book), IsReported)
  }

  function LinesOf(es: seq<Entry>): seq<Line> {
    seq(|es|, i requires 0 <= i < |es| => CharacterTotal(es[i].ch, es[i].count))
  }

  lemma LinesOfSnoc(es: seq<Entry>, e: Entry)
    ensures LinesOf(es + [e]) == LinesOf(es) + [CharacterTotal(e.ch, e.count)]
  {
  }

  /** Everything `main(file)` emits for the text `book`, in order. */
  function ReportLines(file: string, book: string): seq<Line> {
    [Header(file), WordTotal(WordCount(book))] + LinesOf(ReportEntries(book))
  }

  /** The table's items: one per distinct character, in first-occurrence order, carrying its count. */
  lemma ItemsOfCounts(text: string)
    ensures DistinctKeys(CharacterCounts(text).Items())
    ensures Pairwise(CharacterCounts(text).Items(), (a, b) => OccursFirst(LowerText(text), a, b))
    ensures forall e :: e in CharacterCounts(text).Items() <==>
              e.ch in LowerText(text) && e.count == multiset(LowerText(text))[e.ch]
  {
    var lowered := LowerText(text);
    var d := CharacterCounts(text);
    var items := d.Items();
    KeysInFirstOccurrenceOrder(lowered);
    forall e ensures e in items <==> e.ch in lowered && e.count == multiset(lowered)[e.ch] {
      if e.ch in lowered && e.count == multiset(lowered)[e.ch] {
        var i :| 0 <= i < |d.keys| && d.keys[i] == e.ch;
        assert items[i] == e;
      }
    }
  }

  /**
   What the character part of the report holds: exactly the lower-case
   ASCII letters of the lower-cased text, each once with its number of
   occurrences, by descending count, ties in order of first occurrence.
   */
  lemma ReportEntriesCorrect(book: string)
    ensures forall e :: e in ReportEntries(book) <==>
              'a' <= e.ch <= 'z' && e.ch in LowerText(book) && e.count == multiset(LowerText(book))[e.ch]
    ensures DistinctKeys(ReportEntries(book))
    ensures CountsNonIncreasing(ReportEntries(book))
    ensures TiesOrdered(ReportEntries(book), (a, b) => OccursFirst(LowerText(book), a, b))
  {
    var items := CharacterCounts(book).Items();
    var sorted := SortedCounts(book);
    var lowered := LowerText(book);
    ItemsOfCounts(book);
    forall e ensures e in ReportEntries(book) <==> 'a' <= e.ch <= 'z' && e in items {
      AsciiLowercaseIsRange(e.ch);
      assert e in sorted <==> e in multiset(items);
    }
    SortKeepsKeysDistinct(items);
    FilterPairwise(sorted, IsReported, (a: Entry, b: Entry) => a.ch != b.ch);
    FilterPairwise(sorted, IsReported, CountAtLeast);
    var Before := (a, b) => OccursFirst(lowered, a, b);
    var Tie := (a: Entry, b: Entry) => a.count == b.count ==> Before(a, b);
    SortKeepsTieOrder(items, Before);
    assert Pairwise(sorted, Tie);
    FilterPairwise(sorted, IsReported, Tie);
  }

  /** A report made from entries carries the same characters, counts and order, after the two header lines. */
  lemma ReportOfEntries(file: string, words: nat, es: seq<Entry>, text: string)
    requires forall e :: e in es <==> 'a' <= e.ch <= 'z' && e.ch in text && e.count == multiset(text)[e.ch]
    requires DistinctKeys(es) && CountsNonIncreasing(es)
    requires TiesOrdered(es, (a, b) => OccursFirst(text, a, b))
    ensures var lines := [Header(file), WordTotal(words)] + LinesOf(es);
      && (forall i :: 2 <= i < |lines| ==> lines[i].CharacterTotal?)
      && (forall c, n :: CharacterTotal(c, n) in lines <==> 'a' <= c <= 'z' && c in text && n == multiset(text)[c])
      && (forall i, j :: 2 <= i < j < |lines| ==>
            lines[i].ch != lines[j].ch && lines[i].times >= lines[j].times &&
            (lines[i].times == lines[j].times ==> FirstIndex(text, lines[i].ch) < FirstIndex(text, lines[j].ch)))
  {
    var lines := [Header(file), WordTotal(words)] + LinesOf(es);
    assert forall i :: 2 <= i < |lines| ==> lines[i] == CharacterTotal(es[i - 2].ch, es[i - 2].count);
    forall c, n ensures CharacterTotal(c, n) in lines <==> Entry(c, n) in es {
      if Entry(c, n) in es {
        var i :| 0 <= i < |es| && es[i] == Entry(c, n);
        assert lines[i + 2] == CharacterTotal(c, n);
      }
    }
    forall i, j | 2 <= i < j < |lines|
      ensures lines[i].ch != lines[j].ch && lines[i].times >= lines[j].times
      ensures lines[i].times == lines[j].times ==> FirstIndex(text, lines[i].ch) < FirstIndex(text, lines[j].ch)
    {
      assert CountAtLeast(es[i - 2], es[j - 2]);
    }
  }

  /** The report as `main` emits it: header, word count, then the letter lines. */
  lemma ReportLinesCorrect(file: string, book: string)
    ensures |ReportLines(file, book)| >= 2
    ensures ReportLines(file, book)[0] == Header(file)
    ensures ReportLines(file, book)[1] == WordTotal(Runs(book))
    ensures forall i :: 2 <= i < |ReportLines(file, book)| ==> ReportLines(file, book)[i].CharacterTotal?
    ensures forall c, n :: CharacterTotal(c, n) in ReportLines(file, book) <==>
              'a' <= c <= 'z' && c in LowerText(book) && n == multiset(LowerText(book))[c]
    ensures forall i, j :: 2 <= i < j < |ReportLines(file, book)| ==>
              var a, b := ReportLines(file, book)[i], ReportLines(file, book)[j];
              a.ch != b.ch && a.times >= b.times &&
              (a.times == b.times ==> FirstIndex(LowerText(book), a.ch) < FirstIndex(LowerText(book), b.ch))
  {
    WordCountIsRunCount(book);
    ReportEntriesCorrect(book);
    ReportOfEntries(file, WordCount(book), ReportEntries(book), LowerText(book));
  }

  /** An empty book: zero words and no character line. */
  lemma EmptyBookReport(file: string)
    ensures ReportLines(file, "") == [Header(file), WordTotal(0)]
  {
    CountsOfEmptyText();
    assert ReportEntries("") == [];
  }

  /**
   The closing loop of `main`: for each key of the sorted dict, in order,
   emit a line when the key is in `ascii_lowercase`.
   */
  method EmitLetterLines(counts: Dict) returns (lines: seq<Line>)
    requires counts.Valid()
    ensures lines == LinesOf(Filter(counts.Items(), IsReported))
    ensures forall c, n :: CharacterTotal(c, n) in lines <==>
              c in AsciiLowercase && c in counts.values && counts.values[c] == n
  {
    ghost var items := counts.Items();
    lines := [];
    for i := 0 to |counts.keys|
      invariant lines == LinesOf(Filter(items[..i], IsReported))
    {
      var c := counts.keys[i];
      ghost var e := Entry(c, counts.values[c]);
      assert items[..i + 1] == items[..i] + [e];
      FilterSnoc(items[..i], e, IsReported);
      if c in AsciiLowercase {
        LinesOfSnoc(Filter(items[..i], IsReported), e);
        lines := lines + [CharacterTotal(c, counts.values[c])];
      }
    }
    assert items[..|counts.keys|] == items;
    forall c, n ensures CharacterTotal(c, n) in lines <==> c in AsciiLowercase && c in counts.values && counts.values[c] == n {
      var es := Filter(items, IsReported);
      if CharacterTotal(c, n) in lines {
        var i :| 0 <= i < |lines| && lines[i] == CharacterTotal(c, n);
        assert es[i] in es;
      }
      if c in AsciiLowercase && c in counts.values && counts.values[c] == n {
        var i :| 0 <= i < |counts.keys| && counts.keys[i] == c;
        assert items[i] == Entry(c, n);
        assert Entry(c, n) in es;
        var j :| 0 <= j < |es| && es[j] == Entry(c, n);
        assert lines[j] == CharacterTotal(c, n);
      }
    }
  }

  /**
   `main(file)` after `read_book`: count the words, build and sort the
   table, rebuild a dict from the sorted items, and emit the header, the
   word count and a line for each lower-case ASCII letter. The lines are
   returned instead of being logged and printed.
   */
  method ReportBook(file: string, book: string) returns (lines: seq<Line>)
    ensures lines == ReportLines(file, book)
    ensures |lines| >= 2 && lines[0] == Header(file) && lines[1] == WordTotal(Runs(book))
    ensures forall c, n :: CharacterTotal(c, n) in lines <==>
              'a' <= c <= 'z' && c in LowerText(book) && n == multiset(LowerText(book))[c]
    ensures forall i, j :: 2 <= i < j < |lines| ==>
              lines[i].ch != lines[j].ch && lines[i].times >= lines[j].times &&
              (lines[i].times == lines[j].times ==> FirstIndex(LowerText(book), lines[i].ch) < FirstIndex(LowerText(book), lines[j].ch))
  {
    var words := Split(book);
    var characterCounts := CountCharacters(book);
    lines := [Header(file), WordTotal(|words|)];
    var sorted := FromItems(SortByCountDesc(characterCounts.Items()));
    assert sorted.Items() == SortedCounts(book) by {
      ItemsOfCounts(book);
      SortKeepsKeysDistinct(characterCounts.Items());
      FromItemsRoundTrip(SortedCounts(book));
    }
    var letterLines := EmitLetterLines(sorted);
    lines := lines + letterLines;
    ReportLinesCorrect(file, book);
  }
}
