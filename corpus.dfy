/** The corpus concatenator: the strings of the corpus appended into one text,
    and the boundary table of running lengths that remembers where each
    string ends in that text. */
module Corpus {

  /** The corpus strings appended in input order. */
  function Concat(docs: seq<string>): string
  {
    if docs == [] then "" else Concat(docs[..|docs| - 1]) + docs[|docs| - 1]
  }

  /** The sum of the lengths of the corpus strings. */
  function TotalLength(docs: seq<string>): nat
  {
    if docs == [] then 0 else TotalLength(docs[..|docs| - 1]) + |docs[|docs| - 1]|
  }

  /** The boundary table: entry i is the length of strings 0..i together. */
  function Boundaries(docs: seq<string>): (b: seq<int>)
    ensures |b| == |docs|
  {
    if docs == [] then [] else Boundaries(docs[..|docs| - 1]) + [TotalLength(docs)]
  }

  /** Entry i of a table; the ordering of a table is stated on this term so
      that it is used only where a proof asks for it. */
  function At(b: seq<int>, i: int): int
    requires 0 <= i < |b|
  {
    b[i]
  }

  predicate NonDecreasing(b: seq<int>)
  {
    forall i, j :: 0 <= i <= j < |b| ==> At(b, i) <= At(b, j)
  }

  lemma Ordered(b: seq<int>, i: int, j: int)
    requires NonDecreasing(b) && 0 <= i <= j < |b|
    ensures b[i] <= b[j]
  {
    assert At(b, i) <= At(b, j);
  }

  lemma OrderedPrefix(b: seq<int>, n: nat)
    requires NonDecreasing(b) && n <= |b|
    ensures NonDecreasing(b[..n])
  {
    forall i, j | 0 <= i <= j < n ensures At(b[..n], i) <= At(b[..n], j) {
      Ordered(b, i, j);
    }
  }

  /** What a boundary table must satisfy to describe `text`: it starts at or
      above zero, never decreases and ends at the length of the text; an
      empty table goes with an empty text. */
  predicate ValidTable(text: string, b: seq<int>)
  {
    NonDecreasing(b) &&
    (|b| == 0 ==> |text| == 0) &&
    (|b| > 0 ==> 0 <= b[0] && b[|b| - 1] == |text|)
  }

  /** Where string i starts in the text: the previous boundary, or 0. */
  function StartOf(b: seq<int>, i: nat): int
    requires i <= |b|
  {
    if i == 0 then 0 else b[i - 1]
  }

  /** Cuts a text back into strings along a boundary table. */
  function Split(text: string, b: seq<int>): (docs: seq<string>)
    requires ValidTable(text, b)
    ensures |docs| == |b|
  {
    seq(|b|, i requires 0 <= i < |b| => SpanBounds(text, b, i); text[StartOf(b, i)..b[i]])
  }

  /** Each span of a valid table lies inside the text. */
  lemma SpanBounds(text: string, b: seq<int>, i: int)
    requires ValidTable(text, b) && 0 <= i < |b|
    ensures 0 <= StartOf(b, i) <= b[i] <= |text|
  {
    if i > 0 {
      Ordered(b, 0, i - 1);
      Ordered(b, i - 1, i);
    }
    Ordered(b, i, |b| - 1);
  }

  /** The concatenated text is as long as the strings together. */
  lemma {:induction false} ConcatLength(docs: seq<string>)
    ensures |Concat(docs)| == TotalLength(docs)
  {
    if docs != [] {
      ConcatLength(docs[..|docs| - 1]);
    }
  }

  lemma {:induction false} TotalLengthAppend(docs: seq<string>, i: nat)
    requires i < |docs|
    ensures TotalLength(docs[..i + 1]) == TotalLength(docs[..i]) + |docs[i]|
  {
    assert docs[..i + 1][..i] == docs[..i];
  }

  /** Entry i of the table is the total length of strings 0..i. */
  lemma {:induction false} BoundaryAt(docs: seq<string>, i: nat)
    requires i < |docs|
    ensures Boundaries(docs)[i] == TotalLength(docs[..i + 1])
  {
    var n := |docs|;
    if i < n - 1 {
      BoundaryAt(docs[..n - 1], i);
      assert docs[..n - 1][..i + 1] == docs[..i + 1];
    } else {
      assert docs[..i + 1] == docs;
    }
  }

  /** Where string i starts is the total length of the strings before it. */
  lemma StartAt(docs: seq<string>, i: nat)
    requires i < |docs|
    ensures StartOf(Boundaries(docs), i) == TotalLength(docs[..i])
    ensures Boundaries(docs)[i] == StartOf(Boundaries(docs), i) + |docs[i]|
  {
    BoundaryAt(docs, i);
    TotalLengthAppend(docs, i);
    if i > 0 {
      BoundaryAt(docs, i - 1);
      assert docs[..i - 1 + 1] == docs[..i];
    }
  }

  /** A table built from a corpus is valid for the concatenated text:
      non-decreasing, starting at or above 0 and ending at the text's length. */
  lemma BuiltTableValid(docs: seq<string>)
    ensures ValidTable(Concat(docs), Boundaries(docs))
  {
    var b := Boundaries(docs);
    forall i, j | 0 <= i <= j < |b| ensures At(b, i) <= At(b, j) {
      StartAt(docs, j);
      if i < j {
        StartAt(docs, i);
        BoundaryAt(docs, i);
        LengthMonotone(docs, i + 1, j);
      }
    }
    if |b| > 0 {
      StartAt(docs, 0);
      BoundaryAt(docs, |b| - 1);
      assert docs[..|b|] == docs;
    }
  }

  lemma {:induction false} LengthMonotone(docs: seq<string>, i: nat, j: nat)
    requires i <= j <= |docs|
    ensures TotalLength(docs[..i]) <= TotalLength(docs[..j])
    decreases j - i
  {
    if i < j {
      LengthMonotone(docs, i, j - 1);
      TotalLengthAppend(docs, j - 1);
    }
  }

  /** The concatenation of the first j strings is a prefix of the text. */
  lemma {:induction false} ConcatPrefix(docs: seq<string>, j: nat)
    requires j <= |docs|
    ensures |Concat(docs[..j])| <= |Concat(docs)|
    ensures Concat(docs)[..|Concat(docs[..j])|] == Concat(docs[..j])
  {
    var n := |docs|;
    if j < n {
      var prefix := docs[..n - 1];
      ConcatPrefix(prefix, j);
      assert prefix[..j] == docs[..j];
    } else {
      assert docs[..j] == docs;
    }
  }

  /** String i occupies [StartOf(b, i), b[i]) of the concatenated text. */
  lemma DocumentSpan(docs: seq<string>, i: nat)
    requires i < |docs|
    ensures 0 <= StartOf(Boundaries(docs), i) <= Boundaries(docs)[i] <= |Concat(docs)|
    ensures Concat(docs)[StartOf(Boundaries(docs), i)..Boundaries(docs)[i]] == docs[i]
  {
    StartAt(docs, i);
    var text, before, upTo := Concat(docs), Concat(docs[..i]), Concat(docs[..i + 1]);
    assert upTo == before + docs[i] by {
      assert docs[..i + 1][..i] == docs[..i];
    }
    ConcatLength(docs[..i]);
    ConcatPrefix(docs, i + 1);
    assert text[..|upTo|] == upTo;
    assert text[|before|..|upTo|] == upTo[|before|..];
  }

  /** Cutting the concatenation along the table gives the corpus back. */
  lemma SplitConcat(docs: seq<string>)
    ensures ValidTable(Concat(docs), Boundaries(docs))
    ensures Split(Concat(docs), Boundaries(docs)) == docs
  {
    BuiltTableValid(docs);
    var s := Split(Concat(docs), Boundaries(docs));
    forall i | 0 <= i < |docs| ensures s[i] == docs[i] {
      DocumentSpan(docs, i);
    }
  }

  /** Dropping the last piece of a split is splitting the text before it. */
  lemma SplitPrefix(text: string, b: seq<int>)
    requires ValidTable(text, b) && |b| > 0
    ensures 0 <= StartOf(b, |b| - 1) <= |text|
    ensures ValidTable(text[..StartOf(b, |b| - 1)], b[..|b| - 1])
    ensures Split(text, b)[..|b| - 1] == Split(text[..StartOf(b, |b| - 1)], b[..|b| - 1])
  {
    var n := |b|;
    var s := StartOf(b, n - 1);
    var b' := b[..n - 1];
    SpanBounds(text, b, n - 1);
    var text' := text[..s];
    assert ValidTable(text', b') by {
      OrderedPrefix(b, n - 1);
      if n > 1 { Ordered(b, 0, n - 2); }
    }
    forall i | 0 <= i < n - 1
      ensures Split(text, b)[i] == Split(text', b')[i]
    {
      var lo := StartOf(b, i);
      assert 0 <= lo <= b[i] by {
        if i > 0 { Ordered(b, 0, i - 1); Ordered(b, i - 1, i); }
        else { Ordered(b, 0, i); }
      }
      Ordered(b, i, n - 2);
      assert text'[lo..b[i]] == text[lo..b[i]];
    }
  }

  /** A valid table and its text determine a corpus: concatenating the pieces
      gives the text back, and their table is the table. */
  lemma {:induction false} ConcatSplit(text: string, b: seq<int>)
    requires ValidTable(text, b)
    ensures Concat(Split(text, b)) == text
    ensures Boundaries(Split(text, b)) == b
    decreases |b|
  {
    var docs := Split(text, b);
    var n := |b|;
    if n > 0 {
      var s := StartOf(b, n - 1);
      SplitPrefix(text, b);
      ConcatSplit(text[..s], b[..n - 1]);
      assert text == text[..s] + text[s..];
      ConcatLength(docs);
      assert b == b[..n - 1] + [b[n - 1]];
    }
  }
}
