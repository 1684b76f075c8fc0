# fm.index: the bookkeeping around the FM index, in Dafny

The R package fm.index builds an FM index over a vector of strings and
answers substring queries. The index itself, its construction and its
`locate` operation come from the sdsl library. The package's own logic is
the bookkeeping around them:

- **Corpus concatenator** (`Corpus`, and the constructor of `Index.FMIndex`).
  The corpus strings are appended in input order into one text, which is
  indexed. A boundary table records, for each string, the running total of
  the lengths up to and including it.
- **Document mapper** (`Documents`). A 0-based offset into the text becomes
  the corpus string it falls in and the offset inside that string. The
  string is found with `std::upper_bound` over the boundary table, and the
  previous boundary is subtracted from the offset.
- **Result flattening** (`Results`, and `Find`/`Flatten` of `Index.FMIndex`).
  The locations of each pattern are collected and counted. Three
  preallocated integer columns (pattern index, library index, position,
  all 1-based) are then filled pattern by pattern.

The class `Index.FMIndex` keeps the source's two fields. The compressed
index is represented by the text it indexes, and the boundary table is a
sequence of integers. `locate` is a parameter of `Find`: a function from a
pattern to the offsets it reports. `Occurrences` gives that parameter a
reference meaning: the offsets at which the pattern occurs in the text,
each listed once (`ExactLocations`). Under that reading, the module states what the
reported rows mean.

Modules, in dependency order: `Corpus` (corpus.dfy), `Documents`
(documents.dfy), `Results` (results.dfy), `Occurrences` (occurrences.dfy),
`Index` (index.dfy).

## Model

| member | source | states |
|---|---|---|
| Index.FMIndex.constructor | src/index.cpp:21-34 | the indexed text is the corpus strings appended in order; the table is the running length total, one entry per string; the table is valid for the text, and cutting the text along it gives the corpus back |
| Index.FMIndex.FromParts | src/index.cpp:13 | the object holds exactly the index and the boundary table it was given |
| Index.FMIndex.Find | src/index.cpp:36-76 | the three columns have equal length, the total of the location counts; row by row the table equals `Rows` of the boundary table and of locate's results for each pattern, taken in pattern order |
| Index.FMIndex.Flatten | src/index.cpp:48-70 | the filled columns have the total location count as length, and they read row by row as `Rows` of the table and the locations |
| Index.FMIndex.CountRows | src/index.cpp:48-50 | the row count is the sum of the per-pattern location counts |
| Index.FMIndex.MapLocation | src/index.cpp:58-64 | the library index is the number of boundaries at or below the location; the position is the location minus the start of that string |
| Index.FMIndex.FindWithinDocuments | src/index.cpp:36-76 | corrected query: the table equals `Rows` of locate's results, each filtered to the matches that end inside the string they start in |
| Corpus.ConcatLength | src/index.cpp:28-32 | the concatenated text is as long as the sum of the string lengths |
| Corpus.ConcatPrefix | src/index.cpp:30-32 | appending keeps what was already built: the text of the first j strings is a prefix of the whole text |
| Corpus.Boundaries | src/index.cpp:22-27 | the table has one entry per corpus string |
| Corpus.TotalLengthAppend | src/index.cpp:24-26 | adding string i to the running total gives the total up to and including it |
| Corpus.BoundaryAt | src/index.cpp:22-27 | entry i of the table is the total length of strings 0..i |
| Corpus.StartAt | src/index.cpp:22-27 | string i starts at the total length of the strings before it, and its entry is that start plus its length |
| Corpus.LengthMonotone | src/index.cpp:23-26 | the running total never decreases along the corpus |
| Corpus.BuiltTableValid | src/index.cpp:22-32 | the built table is non-decreasing, starts at or above 0 and ends at the text's length; an empty corpus gives an empty table and an empty text |
| Corpus.DocumentSpan | src/index.cpp:28-32 | string i occupies exactly the span from the previous boundary (or 0) to boundary i of the text |
| Corpus.SpanBounds | src/index.cpp:22-32 | on a valid table each string's span runs from at least 0 to at most the text's length, and does not end before it starts |
| Corpus.Ordered | src/index.cpp:22-27 | in a non-decreasing table an earlier entry is at most a later one |
| Corpus.OrderedPrefix | src/index.cpp:22-27 | a prefix of a non-decreasing table is non-decreasing |
| Corpus.Split | src/index.cpp:28-32 | cutting a text along a valid table gives one string per entry |
| Corpus.SplitConcat | src/index.cpp:21-32 | cutting the concatenated text along the built table gives the corpus back |
| Corpus.SplitPrefix | src/index.cpp:22-32 | the pieces before the last one are the pieces of the text before the last boundary, cut along the shorter table |
| Corpus.ConcatSplit | src/index.cpp:21-32 | conversely, any valid table and text arise from a corpus: the pieces concatenate to the text and their table is the table |
| Documents.DocumentOf | src/index.cpp:58-61 | the document index never exceeds the table's size |
| Documents.PartitionIsCount | src/index.cpp:58-61 | an index below which every boundary is at or below the location, and from which every boundary is above it, is the document index |
| Documents.CountIsPartition | src/index.cpp:58-61 | on a non-decreasing table the document index splits the boundaries into those at or below the location and those above it |
| Documents.UpperBound | src/index.cpp:58-61 | the binary search returns the first index whose boundary is strictly above the location, which is the number of boundaries at or below it |
| Documents.MapOffset | src/index.cpp:58-64 | for an offset inside the text, the document index is below the table's size, the offset lies in that string's span, the local position lies inside the string, and no other string's span holds the offset |
| Documents.LocateInCorpus | src/index.cpp:58-64 | for a built corpus, the mapped string is not empty and holds at the local position the character the text holds at the offset |
| Results.RowsOf | src/index.cpp:71-75 | a table has one row per entry of its columns |
| Results.Rows | src/index.cpp:48-53 | there is one row per location over all patterns |
| Results.TotalCountAppend | src/index.cpp:49-50 | adding pattern k's location count to the running count gives the count up to and including it |
| Results.TotalCountMonotone | src/index.cpp:48-54 | the running count of locations never decreases over the patterns |
| Results.RowAt | src/index.cpp:54-69 | location j of pattern k is written at row (locations of earlier patterns) + j, as the 1-based pattern index k + 1, library index d + 1 and position local + 1 |
| Results.RowOrigin | src/index.cpp:54-69 | every row comes from some location of some pattern, so no row is made up |
| Results.LocationReported | src/index.cpp:57-68 | every location of every pattern appears in the table as its row |
| Results.RowsGrouped | src/index.cpp:55-67 | the pattern index names a pattern and never decreases down the table |
| Occurrences.KeepWithin | src/index.cpp:43-45 | corrected collection: a location is kept exactly when it was reported and its match ends inside its string |
| Occurrences.WithinDocuments | src/index.cpp:38-47 | corrected collection keeps one list per pattern |
| Occurrences.OccurrenceInSpan | src/index.cpp:28-33 | a match inside string d is a match in the text at the string's start plus the position that ends by the string's end, and conversely |
| Occurrences.RowsAreTextOccurrences | src/index.cpp:39-67 | with exact locations, each row names a pattern, a string and a position inside it, and the pattern occurs in the text from there; nothing keeps the match inside the string |
| Occurrences.RowsComplete | src/index.cpp:39-67 | with exact locations, every match inside a corpus string is reported as its row |
| Occurrences.CrossBoundaryCorpus | src/index.cpp:21-32 | the corpus "abc", "de" is indexed as the text "abcde" with the table [3, 5] |
| Occurrences.CrossBoundaryLocations | src/index.cpp:39 | in "abcde" the pattern "cd" occurs at offset 2 and nowhere else |
| Occurrences.CrossBoundaryNoMatch | src/index.cpp:28-33 | "cd" occurs in neither "abc" nor "de" |
| Occurrences.CrossBoundaryMatch | src/index.cpp:28-69 | for the corpus "abc", "de" and the pattern "cd", exact locations give the row (1, 1, 3), which is not a match inside any corpus string |
| Occurrences.KeptRowMatches | src/index.cpp:58-64 | a location that is an occurrence in the text and whose match stays in its string maps to a row that is a match inside that string |
| Occurrences.KeptReported | src/index.cpp:43-68 | a reported location whose match stays in its string appears in the corrected table as its row |
| Occurrences.WithinDocumentsSound | src/index.cpp:39-67 | corrected query: with exact locations, every row is a match inside its string |
| Occurrences.SpanMatchMapsBack | src/index.cpp:58-64 | a match inside string d is a kept location of the text that maps back to string d and its position |
| Occurrences.WithinDocumentsComplete | src/index.cpp:39-67 | corrected query: with exact locations, every match inside a string is reported |
| Occurrences.KeepWithinDistinct | src/index.cpp:43-45 | filtering a list with no repeated offset leaves a list with no repeated offset |
| Occurrences.OffsetsGiveDistinctRows | src/index.cpp:58-67 | two different offsets inside the text of a valid table are reported as different rows |
| Occurrences.DistinctRows | src/index.cpp:54-69 | when no pattern's list repeats an offset and all offsets lie inside the text, no two rows of the table are equal |
| Occurrences.RowsDistinct | src/index.cpp:39-69 | with exact locations, the as-written table reports each match once |
| Occurrences.WithinDocumentsDistinct | src/index.cpp:39-69 | corrected query: with exact locations, the table reports each match once |
| Occurrences.CorpusWithinDocumentsDistinct | src/index.cpp:21-69 | for an index built from a corpus, no two rows of the corrected table are equal |
| Occurrences.ListedOccurrence | src/index.cpp:39-45 | with exact locations, every occurrence of a pattern is among its listed offsets |
| Occurrences.EndOffsetRow | src/index.cpp:58-67 | an offset equal to the text's length, over the table [2], is reported as the row (1, 2, 1), naming a string that does not exist; it is not an occurrence of the empty pattern in the reference definition |
| Occurrences.CorpusWithinDocuments | src/index.cpp:21-67 | for an index built from a corpus, the corrected rows are exactly the matches inside the corpus strings |

## Left out

- `sdsl::construct_im` and the compressed index (src/index.cpp:33): the index is represented by the text it is built over. The suffix array, the BWT and the wavelet tree are not modelled.
- `locate` (src/index.cpp:39) is a parameter. Its result order is whatever the parameter gives. Its correctness is only assumed, as a hypothesis (`ExactLocations`), in the lemmas about occurrences.
- Index.FMIndex.Find: does not model the truncation of locate's 64-bit offsets to `int` (src/index.cpp:44), because the integers here are unbounded.
- Index.FMIndex.constructor: does not model 32-bit overflow of `string_length` (src/index.cpp:25), because the integers here are unbounded. Corpora whose total length exceeds 2^31 - 1 are outside the model.
- Index.FMIndex.Flatten: does not model 32-bit overflow of `n_total` and `i_total` (src/index.cpp:48-54) or of the `IntegerVector` entries (src/index.cpp:51-53, 65-67), because the integers here are unbounded. Once all patterns' locations together number more than 2^31 - 1, the source's counts wrap, even when the text length still fits.
- IsOccurrence: the empty pattern occurs at every offset 0 <= g < |text| and not at the end offset |text|; inside a string, at every position before its length. The lemmas about occurrences therefore take locate never to report the offset |text|. A locate that does report it (an index that counts the position after the last character) gets the row with library index |b| + 1 from the source as written; `EndOffsetRow` shows this row, and `FindWithinDocuments` drops it.
- The `reserve` calls (src/index.cpp:22, 29, 42) only set capacity, so they are left out. So is the by-value copy of a location list (src/index.cpp:56).
- Strings are sequences of characters, and a string's size is its number of characters. The source counts bytes of the R strings, and no encoding is modelled.
- The Rcpp glue: `CharacterVector`, `IntegerVector` and `DataFrame::create` (src/index.cpp:71-75) are represented by sequences, arrays and the `Table` datatype. The `XPtr` wrappers `construct_fm_index` and `fm_index_find` (src/index.cpp:83-98) only create and unwrap a handle.
- src/RcppExports.cpp is generated forwarding code, so it is not part of this model. The save and load functions it forwards to have no visible bodies.
- `tree_t` and any case folding in utils.hpp: utils.hpp is not part of this model.

## Findings

| source | as written | input that shows it | evidently intended | confidence | as-written member | corrected member |
|---|---|---|---|---|---|---|
| src/index.cpp:28-33, 39-67 | the corpus strings are concatenated without a separator, and every location is reported, so a match that runs from one string into the next is reported as a row of the first string | corpus "abc", "de" and pattern "cd": the row (pattern 1, string 1, position 3), although "cd" occurs in neither string | report only matches that lie inside one corpus string | not executed; medium, since a separator or a filter could also be intended outside the code shown | Occurrences.CrossBoundaryMatch | Index.FMIndex.FindWithinDocuments |
