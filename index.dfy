/** The FM index object: built from a corpus of strings, it keeps the
    compressed index of their concatenation and the boundary table, and
    answers queries with a table of (pattern, corpus string, position) rows.
    The compressed index is modelled by the text it indexes, and its locate
    operation by a function parameter from a pattern to the 0-based offsets
    at which the index reports it. */
module Index {
  import opened Corpus
  import opened Documents
  import opened Results
  import opened Occurrences

  /** What locate reports for each pattern, in pattern order. */
  function Located(patterns: seq<string>, locate: string -> seq<nat>): (all: seq<seq<nat>>)
    ensures |all| == |patterns|
  {
    seq(|patterns|, k requires 0 <= k < |patterns| => locate(patterns[k]))
  }

  class FMIndex {
    /** The compressed index, represented by the text it was built over. */
    var index: string
    /** Entry i is the end, in the text, of corpus string i. */
    var boundaries: seq<int>

    /** The boundary table describes the indexed text. The corpus
        constructor establishes it; it is not an invariant of every object,
        since FromParts keeps its parts as given and the queries need only a
        non-decreasing table. */
    predicate Valid()
      reads this
    {
      ValidTable(index, boundaries)
    }

    /** Rebuilds an index object from an index and a boundary table. */
    constructor FromParts(index: string, boundaries: seq<int>)
      ensures this.index == index && this.boundaries == boundaries
    {
      this.index := index;
      this.boundaries := boundaries;
    }

    /** Builds the index of a corpus: a running total of the string lengths
        gives the boundary table, and the strings appended in order give the
        text that is indexed. */
    constructor (text: seq<string>)
      ensures index == Concat(text)
      ensures boundaries == Boundaries(text)
      ensures Valid()
      ensures Split(index, boundaries) == text
    {
      var table: seq<int> := [];
      var stringLength := 0;
      var i := 0;
      while i < |text|
        invariant 0 <= i <= |text|
        invariant stringLength == TotalLength(text[..i])
        invariant table == Boundaries(text[..i])
      {
        assert text[..i + 1][..i] == text[..i];
        stringLength := stringLength + |text[i]|;
        table := table + [stringLength];
        i := i + 1;
      }
      var textConcat := "";
      i := 0;
      while i < |text|
        invariant 0 <= i <= |text|
        invariant textConcat == Concat(text[..i])
      {
        assert text[..i + 1][..i] == text[..i];
        textConcat := textConcat + text[i];
        i := i + 1;
      }
      assert text[..|text|] == text;
      index := textConcat;
      boundaries := table;
      SplitConcat(text);
    }

    /** Looks every pattern up and reports one row per location: the rows
        of the first pattern first, each location mapped to its corpus
        string and the offset inside it, all 1-based. */
    method Find(patterns: seq<string>, locate: string -> seq<nat>) returns (t: Table)
      requires NonDecreasing(boundaries)
      ensures WellFormed(t) && |t.patternIndex| == TotalCount(Located(patterns, locate))
      ensures RowsOf(t) == Rows(boundaries, Located(patterns, locate))
    {
      var all: seq<seq<nat>> := [];
      var k := 0;
      while k < |patterns|
        invariant 0 <= k <= |patterns|
        invariant |all| == k
        invariant forall k' :: 0 <= k' < k ==> all[k'] == locate(patterns[k'])
      {
        var found := locate(patterns[k]);
        var locations: seq<nat> := [];
        var j := 0;
        while j < |found|
          invariant 0 <= j <= |found|
          invariant locations == found[..j]
        {
          locations := locations + [found[j]];
          j := j + 1;
        }
        assert found[..|found|] == found;
        all := all + [locations];
        k := k + 1;
      }
      assert all == Located(patterns, locate);
      t := Flatten(all);
    }

    /** The corrected query: a location is kept only when its match ends
        inside the corpus string it starts in. */
    method FindWithinDocuments(patterns: seq<string>, locate: string -> seq<nat>) returns (t: Table)
      requires NonDecreasing(boundaries)
      ensures WellFormed(t)
      ensures RowsOf(t) == Rows(boundaries, WithinDocuments(boundaries, patterns, Located(patterns, locate)))
    {
      var all: seq<seq<nat>> := [];
      var k := 0;
      while k < |patterns|
        invariant 0 <= k <= |patterns|
        invariant |all| == k
        invariant forall k' :: 0 <= k' < k ==>
          all[k'] == KeepWithin(boundaries, locate(patterns[k']), |patterns[k']|)
      {
        var pattern := patterns[k];
        var found := locate(pattern);
        var locations: seq<nat> := [];
        var j := 0;
        while j < |found|
          invariant 0 <= j <= |found|
          invariant locations == KeepWithin(boundaries, found[..j], |pattern|)
        {
          assert found[..j + 1][..j] == found[..j];
          var location := found[j];
          var d := UpperBound(boundaries, location);
          if d < |boundaries| && location + |pattern| <= boundaries[d] {
            locations := locations + [location];
          }
          j := j + 1;
        }
        assert found[..|found|] == found;
        all := all + [locations];
        k := k + 1;
      }
      assert all == WithinDocuments(boundaries, patterns, Located(patterns, locate));
      t := Flatten(all);
    }

    /** Turns the per-pattern locations into the three result columns:
        counts the rows, allocates the columns, then fills them pattern by
        pattern, mapping each location with a binary search over the
        boundary table. */
    method Flatten(all: seq<seq<nat>>) returns (t: Table)
      requires NonDecreasing(boundaries)
      ensures WellFormed(t) && |t.patternIndex| == TotalCount(all)
      ensures RowsOf(t) == Rows(boundaries, all)
    {
      var nTotal := CountRows(all);
      var patternIndices := new int[nTotal];
      var libraryIndices := new int[nTotal];
      var positions := new int[nTotal];
      var iTotal := 0;
      for patternIdx := 0 to |all|
        invariant iTotal == TotalCount(all[..patternIdx]) <= nTotal
        invariant forall i :: 0 <= i < iTotal ==>
          Row(patternIndices[i], libraryIndices[i], positions[i]) == Rows(boundaries, all)[i]
      {
        var locations := all[patternIdx];
        for j := 0 to |locations|
          invariant iTotal == TotalCount(all[..patternIdx]) + j <= nTotal
          invariant forall i :: 0 <= i < iTotal ==>
            Row(patternIndices[i], libraryIndices[i], positions[i]) == Rows(boundaries, all)[i]
        {
          var libraryIndex, position := MapLocation(locations[j]);
          RowAt(boundaries, all, patternIdx, j);
          patternIndices[iTotal] := patternIdx + 1;
          libraryIndices[iTotal] := libraryIndex + 1;
          positions[iTotal] := position + 1;
          iTotal := iTotal + 1;
        }
        TotalCountAppend(all, patternIdx);
        TotalCountMonotone(all, patternIdx + 1, |all|);
      }
      assert all[..|all|] == all;
      t := Table(patternIndices[..], libraryIndices[..], positions[..]);
      assert forall i :: 0 <= i < nTotal ==> RowsOf(t)[i] == Rows(boundaries, all)[i];
    }
  
    /** The number of rows: the location counts of all patterns summed. */
    static method CountRows(all: seq<seq<nat>>) returns (nTotal: nat)
      ensures nTotal == TotalCount(all)
    {
      nTotal := 0;
      for k := 0 to |all|
        invariant nTotal == TotalCount(all[..k])
      {
        TotalCountAppend(all, k);
        nTotal := nTotal + |all[k]|;
      }
      assert all[..|all|] == all;
    }

    /** Maps a 0-based offset into the text to the 0-based index of the
        corpus string it falls in (the number of boundaries at or below it)
        and the offset inside that string. */
    method MapLocation(location: int) returns (libraryIndex: nat, position: int)
      requires NonDecreasing(boundaries)
      ensures libraryIndex == DocumentOf(boundaries, location)
      ensures position == LocalOffset(boundaries, location)
    {
      libraryIndex := UpperBound(boundaries, location);
      position := location;
      if libraryIndex > 0 {
        position := position - boundaries[libraryIndex - 1];
      }
    }
  }
}
