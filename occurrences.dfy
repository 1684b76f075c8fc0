/** What the reported rows mean when locate is exact: a reference definition
    of an occurrence (the criterion of a naive scan), what the rows built
    from the concatenated text guarantee, a corpus for which they report a
    match that no corpus string holds, and the per-document filter that
    removes such matches. */
module Occurrences {
  import opened Corpus
  import opened Documents
  import opened Results

  /** Pattern p occurs in text starting at 0-based offset g. */
  predicate IsOccurrence(text: string, p: string, g: int)
  {
    0 <= g < |text| && g + |p| <= |text| && text[g..g + |p|] == p
  }

  /** No offset is listed twice. */
  predicate Distinct(locs: seq<nat>)
  {
    forall i, j :: 0 <= i < j < |locs| ==> locs[i] != locs[j]
  }

  /** all[k] lists exactly the offsets at which patterns[k] occurs in text,
      each once, which is what locate promises over the index of that text:
      the offsets are distinct entries of the suffix array. */
  ghost predicate ExactLocations(text: string, patterns: seq<string>, all: seq<seq<nat>>)
  {
    |all| == |patterns| &&
    (forall k {:trigger Distinct(all[k])} :: 0 <= k < |all| ==> Distinct(all[k])) &&
    forall k, g: nat {:trigger IsOccurrence(text, patterns[k], g)} ::
      0 <= k < |all| ==> (g in all[k] <==> IsOccurrence(text, patterns[k], g))
  }

  /** A match of length m starting at g ends inside the document g falls in. */
  predicate WithinDocument(b: seq<int>, g: int, m: nat)
  {
    DocumentOf(b, g) < |b| && g + m <= b[DocumentOf(b, g)]
  }

  /** The locations of a list whose match of length m stays in its document,
      in the order of the list. */
  function KeepWithin(b: seq<int>, locs: seq<nat>, m: nat): (kept: seq<nat>)
    ensures forall g :: g in kept <==> g in locs && WithinDocument(b, g, m)
  {
    if locs == [] then []
    else
      var last := locs[|locs| - 1];
      KeepWithin(b, locs[..|locs| - 1], m) + (if WithinDocument(b, last, m) then [last] else [])
  }

  /** Every pattern's locations, filtered to matches inside one document. */
  function WithinDocuments(b: seq<int>, patterns: seq<string>, all: seq<seq<nat>>): (kept: seq<seq<nat>>)
    requires |all| == |patterns|
    ensures |kept| == |all|
  {
    seq(|all|, k requires 0 <= k < |all| => KeepWithin(b, all[k], |patterns[k]|))
  }

  /** A match starting inside document d of a valid table, read off the
      text, is a match inside the document exactly when it ends by the
      document's end. */
  lemma OccurrenceInSpan(text: string, b: seq<int>, p: string, d: nat, pos: int)
    requires ValidTable(text, b)
    requires d < |b|
    requires 0 <= pos < |Split(text, b)[d]|
    ensures 0 <= StartOf(b, d) <= b[d] <= |text|
    ensures IsOccurrence(Split(text, b)[d], p, pos) <==>
      IsOccurrence(text, p, StartOf(b, d) + pos) && StartOf(b, d) + pos + |p| <= b[d]
  {
    var s := StartOf(b, d);
    SpanBounds(text, b, d);
    var doc := Split(text, b)[d];
    assert doc == text[s..b[d]];
    if pos + |p| <= |doc| {
      var inDoc, inText := doc[pos..pos + |p|], text[s + pos..s + pos + |p|];
      forall i | 0 <= i < |p| ensures inDoc[i] == inText[i] {
        assert doc[pos + i] == text[s + pos + i];
      }
      assert inDoc == inText;
    }
  }

  /** As the source is written, each row names a pattern, a corpus string and
      a position inside that string, and the pattern occurs in the
      concatenated text starting at that position; nothing makes the match
      end inside the string. */
  lemma RowsAreTextOccurrences(text: string, b: seq<int>, patterns: seq<string>, all: seq<seq<nat>>, i: nat)
    requires ValidTable(text, b)
    requires ExactLocations(text, patterns, all)
    requires i < TotalCount(all)
    ensures 1 <= Rows(b, all)[i].patternIndex <= |patterns|
    ensures 1 <= Rows(b, all)[i].libraryIndex <= |b|
    ensures 1 <= Rows(b, all)[i].position <= |Split(text, b)[Rows(b, all)[i].libraryIndex - 1]|
    ensures IsOccurrence(text, patterns[Rows(b, all)[i].patternIndex - 1],
      StartOf(b, Rows(b, all)[i].libraryIndex - 1) + Rows(b, all)[i].position - 1)
  {
    RowOrigin(b, all, i);
    var k, j :| 0 <= k < |all| && 0 <= j < |all[k]| &&
      i == TotalCount(all[..k]) + j && Rows(b, all)[i] == MakeRow(b, k, all[k][j]);
    var g := all[k][j];
    assert IsOccurrence(text, patterns[k], g);
    MapOffset(text, b, g);
    SpanBounds(text, b, DocumentOf(b, g));
  }

  /** The corpus "abc", "de" is indexed as "abcde", with table [3, 5]. */
  lemma CrossBoundaryCorpus()
    ensures Concat(["abc", "de"]) == "abcde" && Boundaries(["abc", "de"]) == [3, 5]
  {
    assert ["abc", "de"][..1] == ["abc"];
    assert ["abc"][..0] == [];
  }

  /** In "abcde" the pattern "cd" occurs at offset 2 and nowhere else. */
  lemma CrossBoundaryLocations()
    ensures ExactLocations("abcde", ["cd"], [[2]])
  {
    var text := "abcde";
    assert text[2..4] == "cd";
    forall g: nat | g != 2
      ensures !IsOccurrence(text, "cd", g)
    {
      if g < 4 {
        assert text[g..g + 2][0] == text[g];
      }
    }
  }

  /** "cd" occurs in neither "abc" nor "de". */
  lemma CrossBoundaryNoMatch()
    ensures forall pos :: !IsOccurrence("abc", "cd", pos) && !IsOccurrence("de", "cd", pos)
  {
    forall pos ensures !IsOccurrence("abc", "cd", pos) && !IsOccurrence("de", "cd", pos) {
      if 0 <= pos < 2 {
        assert "abc"[pos..pos + 2][0] == "abc"[pos];
      }
      if pos == 0 {
        assert "de"[0..2][0] == 'd';
      }
    }
  }

  /** The discrepancy: for the corpus ["abc", "de"] and the pattern "cd",
      exact locations give the row (pattern 1, string 1, position 3), yet the
      match runs past the end of "abc" and "cd" is in neither string. */
  lemma CrossBoundaryMatch()
    ensures ExactLocations(Concat(["abc", "de"]), ["cd"], [[2]])
    ensures Rows(Boundaries(["abc", "de"]), [[2]]) == [Row(1, 1, 3)]
    ensures !InDocumentMatch(["abc", "de"], ["cd"], Row(1, 1, 3))
  {
    CrossBoundaryCorpus();
    CrossBoundaryLocations();
    CrossBoundaryNoMatch();
  }

  /** Row r reports an occurrence of its pattern inside its corpus string. */
  predicate InDocumentMatch(docs: seq<string>, patterns: seq<string>, r: Row)
  {
    1 <= r.patternIndex <= |patterns| && 1 <= r.libraryIndex <= |docs| &&
    IsOccurrence(docs[r.libraryIndex - 1], patterns[r.patternIndex - 1], r.position - 1)
  }

  /** A location the filter keeps yields a row that is a match inside its
      corpus string. */
  lemma KeptRowMatches(text: string, b: seq<int>, patterns: seq<string>, k: nat, g: nat, r: Row)
    requires ValidTable(text, b) && k < |patterns|
    requires IsOccurrence(text, patterns[k], g) && WithinDocument(b, g, |patterns[k]|)
    requires r == MakeRow(b, k, g)
    ensures InDocumentMatch(Split(text, b), patterns, r)
  {
    MapOffset(text, b, g);
    SpanBounds(text, b, DocumentOf(b, g));
    OccurrenceInSpan(text, b, patterns[k], DocumentOf(b, g), LocalOffset(b, g));
  }

  /** Corrected behaviour, soundness: after the per-document filter, each
      row names a pattern, a corpus string and a position at which the
      pattern occurs inside that string. */
  lemma WithinDocumentsSound(text: string, b: seq<int>, patterns: seq<string>, all: seq<seq<nat>>, i: nat)
    requires ValidTable(text, b)
    requires ExactLocations(text, patterns, all)
    requires i < TotalCount(WithinDocuments(b, patterns, all))
    ensures InDocumentMatch(Split(text, b), patterns, Rows(b, WithinDocuments(b, patterns, all))[i])
  {
    var kept := WithinDocuments(b, patterns, all);
    var r := Rows(b, kept)[i];
    var k, g :| 0 <= k < |kept| && g in all[k] && WithinDocument(b, g, |patterns[k]|) && r == MakeRow(b, k, g) by {
      RowOrigin(b, kept, i);
      var k, j :| 0 <= k < |kept| && 0 <= j < |kept[k]| &&
        i == TotalCount(kept[..k]) + j && r == MakeRow(b, k, kept[k][j]);
      assert kept[k][j] in kept[k];
    }
    assert IsOccurrence(text, patterns[k], g);
    KeptRowMatches(text, b, patterns, k, g, r);
  }

  /** An occurrence inside document d starts at StartOf(b, d) + pos in the
      text, ends by the document's end and is mapped back to (d, pos). */
  lemma SpanMatchMapsBack(text: string, b: seq<int>, p: string, k: nat, d: nat, pos: nat)
    requires ValidTable(text, b)
    requires d < |b|
    requires IsOccurrence(Split(text, b)[d], p, pos)
    ensures IsOccurrence(text, p, StartOf(b, d) + pos)
    ensures WithinDocument(b, StartOf(b, d) + pos, |p|)
    ensures MakeRow(b, k, StartOf(b, d) + pos) == Row(k + 1, d + 1, pos + 1)
  {
    OccurrenceInSpan(text, b, p, d, pos);
    MapOffset(text, b, StartOf(b, d) + pos);
  }

  /** A location whose match stays in its document is reported by the
      corrected query. */
  lemma KeptReported(b: seq<int>, patterns: seq<string>, all: seq<seq<nat>>, k: nat, g: nat, r: Row)
    requires |all| == |patterns| && k < |all|
    requires g in all[k] && WithinDocument(b, g, |patterns[k]|)
    requires r == MakeRow(b, k, g)
    ensures r in Rows(b, WithinDocuments(b, patterns, all))
  {
    var kept := WithinDocuments(b, patterns, all);
    assert g in kept[k];
    LocationReported(b, kept, k, g, r);
  }

  /** With exact locations, an occurrence is listed. */
  lemma ListedOccurrence(text: string, patterns: seq<string>, all: seq<seq<nat>>, k: nat, g: nat)
    requires ExactLocations(text, patterns, all)
    requires k < |patterns| && IsOccurrence(text, patterns[k], g)
    ensures k < |all| && g in all[k]
  {
  }

  /** Corrected behaviour, completeness: every occurrence of a pattern inside
      a corpus string is reported, as the row (pattern, string, position). */
  lemma WithinDocumentsComplete(text: string, b: seq<int>, patterns: seq<string>, all: seq<seq<nat>>,
                                k: nat, d: nat, pos: nat)
    requires ValidTable(text, b)
    requires ExactLocations(text, patterns, all)
    requires k < |patterns| && d < |b|
    requires IsOccurrence(Split(text, b)[d], patterns[k], pos)
    ensures Row(k + 1, d + 1, pos + 1) in Rows(b, WithinDocuments(b, patterns, all))
  {
    var g := StartOf(b, d) + pos;
    SpanMatchMapsBack(text, b, patterns[k], k, d, pos);
    ListedOccurrence(text, patterns, all, k, g);
    KeptReported(b, patterns, all, k, g, Row(k + 1, d + 1, pos + 1));
  }

  /** As the source is written, nothing is missed: every occurrence of a
      pattern inside a corpus string is reported as the row (pattern,
      string, position). */
  lemma RowsComplete(text: string, b: seq<int>, patterns: seq<string>, all: seq<seq<nat>>,
                     k: nat, d: nat, pos: nat)
    requires ValidTable(text, b)
    requires ExactLocations(text, patterns, all)
    requires k < |patterns| && d < |b|
    requires IsOccurrence(Split(text, b)[d], patterns[k], pos)
    ensures Row(k + 1, d + 1, pos + 1) in Rows(b, all)
  {
    var g := StartOf(b, d) + pos;
    SpanMatchMapsBack(text, b, patterns[k], k, d, pos);
    assert g in all[k];
    LocationReported(b, all, k, g, Row(k + 1, d + 1, pos + 1));
  }

  /** For an index built from a corpus, the filtered rows are exactly the
      in-string occurrences: each row is one, and each one is a row. */
  lemma CorpusWithinDocuments(docs: seq<string>, patterns: seq<string>, all: seq<seq<nat>>)
    requires ExactLocations(Concat(docs), patterns, all)
    ensures forall r :: r in Rows(Boundaries(docs), WithinDocuments(Boundaries(docs), patterns, all)) <==>
      InDocumentMatch(docs, patterns, r)
  {
    var text, b := Concat(docs), Boundaries(docs);
    SplitConcat(docs);
    var rows := Rows(b, WithinDocuments(b, patterns, all));
    forall r | r in rows ensures InDocumentMatch(docs, patterns, r) {
      var i :| 0 <= i < |rows| && rows[i] == r;
      WithinDocumentsSound(text, b, patterns, all, i);
    }
    forall r | InDocumentMatch(docs, patterns, r) ensures r in rows {
      WithinDocumentsComplete(text, b, patterns, all, r.patternIndex - 1, r.libraryIndex - 1, r.position - 1);
    }
  }

  /** Filtering keeps a list free of repeats. */
  lemma {:induction false} KeepWithinDistinct(b: seq<int>, locs: seq<nat>, m: nat)
    requires Distinct(locs)
    ensures Distinct(KeepWithin(b, locs, m))
  {
    if locs != [] {
      var n := |locs|;
      var prefix := locs[..n - 1];
      var last := locs[n - 1];
      assert Distinct(prefix) by {
        forall i, j | 0 <= i < j < |prefix| ensures prefix[i] != prefix[j] {
          assert locs[i] != locs[j];
        }
      }
      KeepWithinDistinct(b, prefix, m);
      var front := KeepWithin(b, prefix, m);
      assert last !in prefix by {
        forall i | 0 <= i < n - 1 ensures prefix[i] != last {
          assert locs[i] != locs[n - 1];
        }
      }
      assert last !in front;
    }
  }

  /** When every pattern's list is free of repeats and lies inside the text
      of a valid table, two different rows of the table differ: no match is
      reported twice. */
  lemma DistinctRows(text: string, b: seq<int>, all: seq<seq<nat>>, i: nat, i': nat)
    requires ValidTable(text, b)
    requires forall k :: 0 <= k < |all| ==> Distinct(all[k])
    requires forall k, j :: 0 <= k < |all| && 0 <= j < |all[k]| ==> all[k][j] < |text|
    requires i < i' < TotalCount(all)
    ensures Rows(b, all)[i] != Rows(b, all)[i']
  {
    var k, j :| 0 <= k < |all| && 0 <= j < |all[k]| &&
      i == TotalCount(all[..k]) + j && Rows(b, all)[i] == MakeRow(b, k, all[k][j]) by {
      RowOrigin(b, all, i);
    }
    var k', j' :| 0 <= k' < |all| && 0 <= j' < |all[k']| &&
      i' == TotalCount(all[..k']) + j' && Rows(b, all)[i'] == MakeRow(b, k', all[k'][j']) by {
      RowOrigin(b, all, i');
    }
    var g, g' := all[k][j], all[k'][j'];
    if k == k' {
      assert j < j';
      assert g != g' by {
        assert Distinct(all[k]);
        assert all[k][j] != all[k][j'];
      }
      OffsetsGiveDistinctRows(text, b, k, g, g');
    } else {
      assert MakeRow(b, k, g).patternIndex != MakeRow(b, k', g').patternIndex;
    }
  }

  /** Two different offsets inside the text of a valid table map to
      different rows. */
  lemma OffsetsGiveDistinctRows(text: string, b: seq<int>, k: nat, g: nat, g': nat)
    requires ValidTable(text, b)
    requires g < |text| && g' < |text| && g != g'
    ensures MakeRow(b, k, g) != MakeRow(b, k, g')
  {
    MapOffset(text, b, g);
    MapOffset(text, b, g');
  }

  /** With exact locations, the as-written table reports no row twice. */
  lemma RowsDistinct(text: string, b: seq<int>, patterns: seq<string>, all: seq<seq<nat>>, i: nat, i': nat)
    requires ValidTable(text, b)
    requires ExactLocations(text, patterns, all)
    requires i < i' < TotalCount(all)
    ensures Rows(b, all)[i] != Rows(b, all)[i']
  {
    forall k, j | 0 <= k < |all| && 0 <= j < |all[k]| ensures all[k][j] < |text| {
      assert all[k][j] in all[k];
      assert IsOccurrence(text, patterns[k], all[k][j]);
    }
    DistinctRows(text, b, all, i, i');
  }

  /** With exact locations, the corrected table reports no row twice. */
  lemma WithinDocumentsDistinct(text: string, b: seq<int>, patterns: seq<string>, all: seq<seq<nat>>,
                                i: nat, i': nat)
    requires ValidTable(text, b)
    requires ExactLocations(text, patterns, all)
    requires i < i' < TotalCount(WithinDocuments(b, patterns, all))
    ensures Rows(b, WithinDocuments(b, patterns, all))[i] != Rows(b, WithinDocuments(b, patterns, all))[i']
  {
    var kept := WithinDocuments(b, patterns, all);
    forall k | 0 <= k < |kept| ensures Distinct(kept[k]) {
      assert Distinct(all[k]);
      KeepWithinDistinct(b, all[k], |patterns[k]|);
    }
    forall k, j | 0 <= k < |kept| && 0 <= j < |kept[k]| ensures kept[k][j] < |text| {
      var g := kept[k][j];
      assert g in kept[k];
      assert g in all[k];
      assert IsOccurrence(text, patterns[k], g);
    }
    DistinctRows(text, b, kept, i, i');
  }

  /** For an index built from a corpus, the corrected table lists each
      in-string match once. */
  lemma CorpusWithinDocumentsDistinct(docs: seq<string>, patterns: seq<string>, all: seq<seq<nat>>)
    requires ExactLocations(Concat(docs), patterns, all)
    ensures forall i, i' :: 0 <= i < i' < TotalCount(WithinDocuments(Boundaries(docs), patterns, all)) ==>
      Rows(Boundaries(docs), WithinDocuments(Boundaries(docs), patterns, all))[i] !=
      Rows(Boundaries(docs), WithinDocuments(Boundaries(docs), patterns, all))[i']
  {
    BuiltTableValid(docs);
    forall i, i' | 0 <= i < i' < TotalCount(WithinDocuments(Boundaries(docs), patterns, all))
      ensures Rows(Boundaries(docs), WithinDocuments(Boundaries(docs), patterns, all))[i] !=
        Rows(Boundaries(docs), WithinDocuments(Boundaries(docs), patterns, all))[i']
    {
      WithinDocumentsDistinct(Concat(docs), Boundaries(docs), patterns, all, i, i');
    }
  }

  /** A locate that reports the end offset |text| (the empty pattern, for an
      index that counts the position after the last character) yields, as
      written, a row naming string |b| + 1, which does not exist. */
  lemma EndOffsetRow()
    ensures Boundaries(["ab"]) == [2]
    ensures Rows([2], [[2]]) == [Row(1, 2, 1)]
    ensures !IsOccurrence("ab", "", 2)
  {
    assert ["ab"][..0] == [];
    assert [2][..0] == [];
    assert [[2]][..0] == [];
  }
}
