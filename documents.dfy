/** The document mapper: turns a 0-based offset into the concatenated text
    into the corpus string it falls in and the offset inside that string. */
module Documents {
  import opened Corpus

  /** The document index of offset g: the number of boundaries <= g. On a
      non-decreasing table this is the first index whose boundary exceeds g,
      which is the distance std::upper_bound reports. */
  function DocumentOf(b: seq<int>, g: int): (d: nat)
    ensures d <= |b|
  {
    if b == [] then 0
    else DocumentOf(b[..|b| - 1], g) + (if b[|b| - 1] <= g then 1 else 0)
  }

  /** The offset of g inside its document: g minus the previous boundary,
      or g itself in the first document. */
  function LocalOffset(b: seq<int>, g: int): int
  {
    g - StartOf(b, DocumentOf(b, g))
  }

  /** Whatever the table, a split point below which every boundary is <= g
      and from which every boundary is > g is the count of boundaries <= g. */
  lemma {:induction false} PartitionIsCount(b: seq<int>, g: int, d: nat)
    requires d <= |b|
    requires forall i :: 0 <= i < d ==> b[i] <= g
    requires forall i :: d <= i < |b| ==> g < b[i]
    ensures DocumentOf(b, g) == d
  {
    if b != [] {
      var n := |b|;
      if d == n {
        PartitionIsCount(b[..n - 1], g, d - 1);
      } else {
        PartitionIsCount(b[..n - 1], g, d);
      }
    }
  }

  /** On a non-decreasing table the boundaries below the document index are
      <= g and the others are > g. */
  lemma {:induction false} CountIsPartition(b: seq<int>, g: int)
    requires NonDecreasing(b)
    ensures forall i :: 0 <= i < DocumentOf(b, g) ==> b[i] <= g
    ensures forall i :: DocumentOf(b, g) <= i < |b| ==> g < b[i]
  {
    if b != [] {
      var n := |b|;
      var b' := b[..n - 1];
      OrderedPrefix(b, n - 1);
      CountIsPartition(b', g);
      var d' := DocumentOf(b', g);
      if b[n - 1] <= g {
        forall i | 0 <= i < n - 1 ensures b'[i] <= g {
          Ordered(b, i, n - 1);
        }
        PartitionIsCount(b', g, n - 1);
      }
    }
  }

  /** std::upper_bound over the boundary table, as a binary search. */
  method UpperBound(b: seq<int>, g: int) returns (d: nat)
    requires NonDecreasing(b)
    ensures d == DocumentOf(b, g)
    ensures d <= |b|
    ensures forall i :: 0 <= i < d ==> b[i] <= g
    ensures forall i :: d <= i < |b| ==> g < b[i]
  {
    var lo, hi := 0, |b|;
    while lo < hi
      invariant 0 <= lo <= hi <= |b|
      invariant forall i :: 0 <= i < lo ==> b[i] <= g
      invariant forall i :: hi <= i < |b| ==> g < b[i]
    {
      var mid := lo + (hi - lo) / 2;
      if b[mid] <= g {
        forall i | 0 <= i < mid ensures b[i] <= g {
          Ordered(b, i, mid);
        }
        lo := mid + 1;
      } else {
        forall i | mid < i < |b| ensures g < b[i] {
          Ordered(b, mid, i);
        }
        hi := mid;
      }
    }
    d := lo;
    PartitionIsCount(b, g, d);
  }

  /** Every offset inside a valid table's text falls in exactly one document:
      the one whose span [StartOf(b, d), b[d]) holds it. That document is not
      empty and the local offset lies inside it. */
  lemma MapOffset(text: string, b: seq<int>, g: int)
    requires ValidTable(text, b)
    requires 0 <= g < |text|
    ensures DocumentOf(b, g) < |b|
    ensures StartOf(b, DocumentOf(b, g)) <= g < b[DocumentOf(b, g)]
    ensures 0 <= LocalOffset(b, g) < b[DocumentOf(b, g)] - StartOf(b, DocumentOf(b, g))
    ensures forall j {:trigger StartOf(b, j)} :: 0 <= j < |b| ==>
      (StartOf(b, j) <= g < b[j] <==> j == DocumentOf(b, g))
  {
    var d := DocumentOf(b, g);
    CountIsPartition(b, g);
    assert g < b[|b| - 1];
    forall j | 0 <= j < |b| && StartOf(b, j) <= g < b[j]
      ensures j == d
    {
      assert j >= d;
      if j > 0 {
        assert b[j - 1] <= g;
      }
    }
  }

  /** For a corpus, the mapped document and local offset name the very
      character the offset names in the concatenated text, and the document
      it names is never an empty string. */
  lemma LocateInCorpus(docs: seq<string>, g: int)
    requires 0 <= g < |Concat(docs)|
    ensures DocumentOf(Boundaries(docs), g) < |docs|
    ensures 0 <= LocalOffset(Boundaries(docs), g) < |docs[DocumentOf(Boundaries(docs), g)]|
    ensures docs[DocumentOf(Boundaries(docs), g)][LocalOffset(Boundaries(docs), g)] == Concat(docs)[g]
  {
    var b := Boundaries(docs);
    BuiltTableValid(docs);
    MapOffset(Concat(docs), b, g);
    var d := DocumentOf(b, g);
    DocumentSpan(docs, d);
  }
}
