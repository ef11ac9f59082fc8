# Korean Hanja extractor — a Dafny model

The Korean Hanja extractor reads the HTML page that lists the Hanja characters for everyday
use and turns it into a list of `Hanja` records (character, meaning, pronunciation). This
project models the extraction core of `ExtractorService` and proves what each stage promises.

The stages are:

- `GetDataTable` finds the one table below `<body>` whose `class` is `datatable`.
- `GetTableRows` keeps that table's `tr` children that carry a `valign` attribute.
- `GetTableCells` collects, row by row, the `td` cells whose trimmed text is not blank.
- `GetWords` splits each cell's trimmed text at the bullet `•`. It keeps the trimmed
  fragments without a `/` as words. It then splits each slash group, such as `甲/乙 (gap)`,
  at `/` into one word per non-empty `/`-piece, each trimmed (a piece of blanks becomes an
  empty word). When the last piece matches the pattern
  `\(.+\)?`, every other piece also gets the annotation: the trimmed run from the leftmost
  `(` that is followed by a character other than a line feed, up to the end of that line.
- `ConvertWords` splits each word on spaces and parentheses. The first token is the
  character, the last the pronunciation, and the ones between, joined by single spaces, the
  meaning. The records are then sorted by pronunciation, meaning and character.

Files:

- `results.dfy`: `Option`, `Result`, and the `Error` values that stand for the exceptions
  the C# code throws. These are `Single` on no match or on several matches, a missing
  `<body>`, and an index out of range.
- `seqs.dfy`: the order-keeping filter (LINQ `Where`), subsequences, and `FlatMap` for "append
  each element's contribution".
- `strings.dfy`: the .NET string operations the code uses. These are `Char.IsWhiteSpace`,
  `Trim`, `Split` with `RemoveEmptyEntries`, `String.Join`, and an ordinal string order.
- `html.dfy`: the parsed page as a tree of element and text nodes, with `Element`,
  `Elements`, `Descendants`, `Attributes` and `InnerText`.
- `tables.dfy`: `GetDataTable`, `GetTableRows` and `GetTableCells`.
- `words.dfy`: `GetWords`, its regular expression, and the in-place annotation of segments.
- `sorting.dfy`: an insertion sort standing for `OrderBy(…).ThenBy(…)`, over any total order.
  LINQ's sort is stable. Stability is not proved here. Under the key `ConvertWords` uses it
  cannot show: that key orders whole records antisymmetrically, and `Sorting.SortedUnique`
  shows that there is then only one sorted arrangement of the records.
- `records.dfy`: `ConvertWords`.

Modelling choices:

- The LINQ pipelines (`GetDataTable`, `GetTableRows`, `ConvertWords`) are functions.
- `GetTableCells` and `GetWords` build their lists in loops, so they are methods with loop
  invariants. Each method is proved equal to a specification function. The properties are
  then proved about that function.
- In `GetWords`, the per-group list of segments is overwritten in place by index. It is
  modelled as an array (`AppendTranslation`).
- A thrown exception is modelled as an `Err` result carrying the reason.

Two behaviours of the code are easy to misread. The model follows the code:

- For a group such as `甲/乙 (gap/eul)`, one might expect two words that both carry
  `(gap/eul)`. The code instead also splits at the slash inside the parentheses. It gives
  the three pieces `甲`, `乙 (gap` and `eul)`, and no annotation, because the last piece has
  no `(`. `WordTokenizer.SlashInsideAnnotation` proves the general case.
- One might expect a word with a single token to be rejected as malformed. The code instead
  accepts it: `Take(0).Skip(1)` is empty, so the character and the pronunciation are the
  same token and the meaning is empty (`HanjaConversion.ParseWordSingleToken`). Only a word
  with no token fails, at `segments[0]`.

## Model

| member | source | states |
|---|---|---|
| TableExtraction.GetDataTable | SourceCodes/KoreanHanjaExtractor.Services/ExtractorService.cs:41-47 | `Single` semantics. Fails with `NoBody` exactly when there is no `body` child. Fails with `NoDataTable` exactly when no descendant table has class `datatable`. Fails with `AmbiguousDataTable` exactly when two do. It succeeds exactly when one position holds a data table and no other does, and then returns that table. No other error is possible. |
| TableExtraction.IsDataTable | SourceCodes/KoreanHanjaExtractor.Services/ExtractorService.cs:45 | The predicate given to `Single` holds exactly for an element whose first `class` attribute has the value `datatable`. |
| TableExtraction.GetTableRows | SourceCodes/KoreanHanjaExtractor.Services/ExtractorService.cs:54-60 | The rows are exactly the table's `tr` children with a `valign` attribute. Both directions of membership hold. They keep the children's order (a subsequence) and every occurrence of each data row. |
| TableExtraction.HasTextIff | SourceCodes/KoreanHanjaExtractor.Services/ExtractorService.cs:71 | The cell filter `!IsNullOrWhiteSpace(InnerText.Trim())` holds exactly when the inner text is not blank. |
| TableExtraction.RowCellsMembers | SourceCodes/KoreanHanjaExtractor.Services/ExtractorService.cs:71 | A row contributes exactly its `td` children that have text. |
| TableExtraction.TableCellsMembers | SourceCodes/KoreanHanjaExtractor.Services/ExtractorService.cs:69-72 | A node is collected exactly when it is a `td` child with text of one of the rows. Every collected cell has non-blank inner text. |
| TableExtraction.TableCellsAppend | SourceCodes/KoreanHanjaExtractor.Services/ExtractorService.cs:70-71 | Cells come row by row: two runs of rows give the first run's cells followed by the second's. |
| TableExtraction.GetTableCells | SourceCodes/KoreanHanjaExtractor.Services/ExtractorService.cs:67-73 | The loop's list is each row's text cells, row after row (`TableCells`). Membership holds both ways. Every cell is a `td` with non-blank text. |
| WordTokenizer.CollectFragments | SourceCodes/KoreanHanjaExtractor.Services/ExtractorService.cs:82-86 | The first loop collects the bullet-separated pieces of every cell's trimmed text, cell after cell. |
| WordTokenizer.PlainWords | SourceCodes/KoreanHanjaExtractor.Services/ExtractorService.cs:88-90 | The first group of words: every word is free of `/` and is the trim of a fragment that is free of `/`. |
| WordTokenizer.SlashGroups | SourceCodes/KoreanHanjaExtractor.Services/ExtractorService.cs:91 | The slash groups: every group contains `/` and is the trim of a fragment that contains `/`. |
| WordTokenizer.FragmentsPartition | SourceCodes/KoreanHanjaExtractor.Services/ExtractorService.cs:88-91 | The two `Where` filters partition the fragments: the plain words and the slash groups together number exactly the fragments. |
| WordTokenizer.LineEnd | SourceCodes/KoreanHanjaExtractor.Services/ExtractorService.cs:96 | The greedy `.+` stops at the first line feed or at the end of the string. |
| WordTokenizer.FindMatch | SourceCodes/KoreanHanjaExtractor.Services/ExtractorService.cs:96 | Finds the leftmost position where `\(.+` can start, or reports that there is none. The match then runs to the end of its line. |
| WordTokenizer.RegexMatchSpec | SourceCodes/KoreanHanjaExtractor.Services/ExtractorService.cs:96 | `Regex.Match` fails exactly when no `(` is followed by a character other than a line feed. Otherwise the match starts at the leftmost such `(` and ends at the next line feed or the end. |
| WordTokenizer.RegexMatch | SourceCodes/KoreanHanjaExtractor.Services/ExtractorService.cs:96 | A match covers the parenthesis and at least one more character, within the string. |
| WordTokenizer.Annotate | SourceCodes/KoreanHanjaExtractor.Services/ExtractorService.cs:98-99 | Every segment but the last becomes `segment + " " + translation`; the last is unchanged; the count is kept. |
| WordTokenizer.AppendTranslation | SourceCodes/KoreanHanjaExtractor.Services/ExtractorService.cs:98-99 | The in-place loop leaves the array equal to `Annotate` of its old contents. |
| WordTokenizer.SplitGroup | SourceCodes/KoreanHanjaExtractor.Services/ExtractorService.cs:93-101 | One group's segments, annotated in place when the last segment matches, equal the specification `ExpandGroup`. A group without pieces fails. |
| WordTokenizer.ExpandGroupFails | SourceCodes/KoreanHanjaExtractor.Services/ExtractorService.cs:93-96 | A group fails (`segments[Count - 1]` out of range) exactly when it is made of slashes only, and with its own error. Otherwise it gives one word per non-empty `/`-piece. |
| WordTokenizer.ExpandGroupByPieces | SourceCodes/KoreanHanjaExtractor.Services/ExtractorService.cs:93-101 | A group succeeds exactly when it has a non-empty `/`-piece, and then gives one word per piece. |
| WordTokenizer.SlashInsideAnnotation | SourceCodes/KoreanHanjaExtractor.Services/ExtractorService.cs:93-95 | `a/b (p/q)` splits into `a`, `b (p` and `q)`, so it expands to three words. |
| WordTokenizer.ExpandAllFailsEarly | SourceCodes/KoreanHanjaExtractor.Services/ExtractorService.cs:91-102 | Once a group fails, the whole expansion fails with that group's error. |
| WordTokenizer.ExpandGroups | SourceCodes/KoreanHanjaExtractor.Services/ExtractorService.cs:91-102 | The second loop appends each group's words in order, and stops at the first failing group with its error. |
| WordTokenizer.Words | SourceCodes/KoreanHanjaExtractor.Services/ExtractorService.cs:80-104 | The specification of `GetWords`: the trimmed slash-free fragments, then every slash group expanded by `ExpandAll`, or the first group's failure. `WordTokenizer.GetWords` is proved equal to it, and `WordTokenizer.WordsHaveNoSlash` states its property. |
| WordTokenizer.ExpandGroup | SourceCodes/KoreanHanjaExtractor.Services/ExtractorService.cs:93-101 | One group's trimmed `/`-pieces, annotated when the last piece matches. `WordTokenizer.ExpandGroupFails`, `WordTokenizer.ExpandGroupHasNoSlash` and `WordTokenizer.SlashInsideAnnotation` state its properties. |
| WordTokenizer.ExpandPieces | SourceCodes/KoreanHanjaExtractor.Services/ExtractorService.cs:96-100 | The segments, each but the last followed by a space and the last one's translation when the pattern matches there, and unchanged otherwise. `WordTokenizer.Annotate` and `WordTokenizer.RegexMatchSpec` state both parts. |
| WordTokenizer.AnnotateSegments | SourceCodes/KoreanHanjaExtractor.Services/ExtractorService.cs:94-100 | The segments copied into a mutable list and annotated in place equal `ExpandPieces` of the segments. |
| WordTokenizer.ExpandAll | SourceCodes/KoreanHanjaExtractor.Services/ExtractorService.cs:91-102 | Each group's words appended in order, or the first failing group's error. `WordTokenizer.ExpandAllFailsEarly` and `WordTokenizer.ExpandAllHasNoSlash` state its properties. |
| WordTokenizer.GetWords | SourceCodes/KoreanHanjaExtractor.Services/ExtractorService.cs:80-104 | The result is the trimmed slash-free fragments followed by the expanded slash groups. No word contains `/`. |
| WordTokenizer.WordsHaveNoSlash | SourceCodes/KoreanHanjaExtractor.Tests/ExtractorServiceTest.cs:113 | No word that `GetWords` returns contains a slash. |
| WordTokenizer.ExpandAllHasNoSlash | SourceCodes/KoreanHanjaExtractor.Services/ExtractorService.cs:91-102 | No word of any expanded group contains a slash. |
| WordTokenizer.ExpandGroupHasNoSlash | SourceCodes/KoreanHanjaExtractor.Services/ExtractorService.cs:93-99 | No word of one expanded group contains a slash. |
| WordTokenizer.SegmentsHaveNoSlash | SourceCodes/KoreanHanjaExtractor.Services/ExtractorService.cs:93-95 | The trimmed `/`-pieces of a group hold no slash. |
| WordTokenizer.TranslationHasNoSlash | SourceCodes/KoreanHanjaExtractor.Services/ExtractorService.cs:96-99 | A translation taken from a slash-free segment holds no slash. |
| WordTokenizer.AnnotateHasNoSlash | SourceCodes/KoreanHanjaExtractor.Services/ExtractorService.cs:98-99 | Annotating slash-free segments with a slash-free translation adds no slash. |
| WordTokenizer.TrimKeepsNoSlash | SourceCodes/KoreanHanjaExtractor.Services/ExtractorService.cs:89 | Trimming a slash-free fragment keeps it slash-free. |
| HanjaConversion.ParseWord | SourceCodes/KoreanHanjaExtractor.Services/ExtractorService.cs:113-119 | One word's record: the first token, the middle tokens joined by spaces, and the last token. `HanjaConversion.ParseWordFails`, `ParseWordFields`, `ParseWordSingleToken`, `ParseWordKeepsTokens` and `ParseEntry` state its properties. |
| HanjaConversion.ParseWordFails | SourceCodes/KoreanHanjaExtractor.Services/ExtractorService.cs:113-116 | A word fails (`segments[0]` out of range) exactly when it holds only spaces and parentheses, and with its own error. |
| HanjaConversion.ParseWordFields | SourceCodes/KoreanHanjaExtractor.Services/ExtractorService.cs:113-119 | The character and the pronunciation are single non-empty tokens. The meaning has no parenthesis and no leading, trailing or doubled space. |
| HanjaConversion.ParseWordSingleToken | SourceCodes/KoreanHanjaExtractor.Services/ExtractorService.cs:116-118 | A single-token word gives that token as both character and pronunciation, and an empty meaning. |
| HanjaConversion.ParseWordKeepsTokens | SourceCodes/KoreanHanjaExtractor.Services/ExtractorService.cs:113-119 | With two tokens or more nothing is lost. The word's tokens are the character, the meaning's tokens and the pronunciation. |
| HanjaConversion.ParseEntry | SourceCodes/KoreanHanjaExtractor.Tests/ExtractorServiceTest.cs:129 | The inverse: a word written as `character meaning… (pronunciation)` parses back into exactly those fields. A multi-word meaning keeps its spaces. |
| HanjaConversion.EntryTokens | SourceCodes/KoreanHanjaExtractor.Services/ExtractorService.cs:113 | Such a word splits into the character, the meaning's words and the pronunciation. |
| HanjaConversion.ParenthesisedTokens | SourceCodes/KoreanHanjaExtractor.Services/ExtractorService.cs:113 | `(p)` splits into the single token `p`. |
| HanjaConversion.MeaningTokens | SourceCodes/KoreanHanjaExtractor.Services/ExtractorService.cs:113 | The space-joined words of a meaning split back into those words. |
| HanjaConversion.ParseWords | SourceCodes/KoreanHanjaExtractor.Services/ExtractorService.cs:113-119 | On success there is one record per word. A failure carries the error of some word in the list; `HanjaConversion.ParseWordsSpec` says it is the first failing one. |
| HanjaConversion.ParseWordsSpec | SourceCodes/KoreanHanjaExtractor.Services/ExtractorService.cs:113-119 | Gives one record per word at the word's position when every word parses. Otherwise it gives the error of the first word that fails. |
| HanjaConversion.KeyLe | SourceCodes/KoreanHanjaExtractor.Services/ExtractorService.cs:120-122 | The sort key order compares pronunciations first. Among equal pronunciations it compares meanings, and among equal pronunciations and meanings it compares characters. |
| HanjaConversion.KeyLeTotalOrder | SourceCodes/KoreanHanjaExtractor.Services/ExtractorService.cs:120-122 | The (pronunciation, meaning, character) order is total, antisymmetric and transitive. |
| HanjaConversion.ConvertWords | SourceCodes/KoreanHanjaExtractor.Services/ExtractorService.cs:111-125 | Parses every word, then sorts the records by (pronunciation, meaning, character). `HanjaConversion.ConvertWordsSpec` and `ConvertWordsDeterminate` state its properties. |
| HanjaConversion.ConvertWordsSpec | SourceCodes/KoreanHanjaExtractor.Services/ExtractorService.cs:111-125 | Succeeds exactly when every word has a token. It then returns one record per word, sorted, as a permutation of the words' records. Otherwise it fails with the first token-less word's error. |
| HanjaConversion.ConvertWordsDeterminate | SourceCodes/KoreanHanjaExtractor.Services/ExtractorService.cs:120-123 | Any sorted permutation of the records is the output, so every stable sort by this key agrees with it. |
| Sorting.SortBy | SourceCodes/KoreanHanjaExtractor.Services/ExtractorService.cs:120-122 | Inserts the elements one after another into a sorted list. `Sorting.SortBySpec` states that the result is sorted and a permutation. |
| Sorting.SortBySpec | SourceCodes/KoreanHanjaExtractor.Services/ExtractorService.cs:120-123 | The sort's output is sorted, a permutation of its input, and of the same length. |
| Sorting.InsertSorted | SourceCodes/KoreanHanjaExtractor.Services/ExtractorService.cs:120-122 | Inserting into a sorted list keeps it sorted. |
| Sorting.InsertMultiset | SourceCodes/KoreanHanjaExtractor.Services/ExtractorService.cs:120-122 | Inserting adds exactly the one record. |
| Sorting.SortedUnique | SourceCodes/KoreanHanjaExtractor.Services/ExtractorService.cs:120-123 | Under a total order, two sorted arrangements of the same elements are equal. |
| Html.FirstValue | SourceCodes/KoreanHanjaExtractor.Services/ExtractorService.cs:45 | `Attributes[key]` is absent exactly when no attribute has that name. Otherwise it is the value of the first attribute with that name (a repeated name is discussed under "Left out"). |
| Html.AttributeValue | SourceCodes/KoreanHanjaExtractor.Services/ExtractorService.cs:45 | A value exists exactly when `Attributes.Contains(key)`. |
| Html.Child | SourceCodes/KoreanHanjaExtractor.Services/ExtractorService.cs:43 | `Element(name)` is absent exactly when no child has that name. Otherwise it is the first child with that name. |
| Html.Elements | SourceCodes/KoreanHanjaExtractor.Services/ExtractorService.cs:56 | `Elements(name)` holds exactly the children with that name, every occurrence of each and no other node, in document order. |
| Html.Descendants | SourceCodes/KoreanHanjaExtractor.Services/ExtractorService.cs:44 | `Descendants(name)` holds exactly the nodes below the node with that name, every occurrence of each and no other node, in document order. |
| Html.InnerText | SourceCodes/KoreanHanjaExtractor.Services/ExtractorService.cs:84 | A text node's text, or the texts of every text node below an element, in document order. `Html.InnerTextOfChildren` states the order. |
| Html.InnerTextOfChildren | SourceCodes/KoreanHanjaExtractor.Services/ExtractorService.cs:84 | An element's inner text is its children's inner texts concatenated in document order. |
| Seqs.FilterMembers | SourceCodes/KoreanHanjaExtractor.Services/ExtractorService.cs:57 | `Where` keeps exactly the elements that pass. |
| Seqs.FilterIsSubsequence | SourceCodes/KoreanHanjaExtractor.Services/ExtractorService.cs:57 | `Where` keeps the order. |
| Seqs.FilterKeepsOccurrences | SourceCodes/KoreanHanjaExtractor.Services/ExtractorService.cs:57 | `Where` keeps every occurrence of a passing element. |
| Seqs.FilterOccurrences | SourceCodes/KoreanHanjaExtractor.Services/ExtractorService.cs:57 | `Where` keeps every occurrence of a passing element and no occurrence of the others. |
| Seqs.FilterAtLeastTwo | SourceCodes/KoreanHanjaExtractor.Services/ExtractorService.cs:45 | Two or more elements pass exactly when two distinct positions pass. This is what makes `Single` fail. |
| Seqs.FilterSingle | SourceCodes/KoreanHanjaExtractor.Services/ExtractorService.cs:45 | What `Single` decides on: no element passes, two or more pass, or exactly one passes and every passing element equals it. |
| Seqs.SubsequenceTransitive | SourceCodes/KoreanHanjaExtractor.Services/ExtractorService.cs:56-57 | A subsequence of a subsequence is a subsequence. |
| Seqs.FlatMapAppend | SourceCodes/KoreanHanjaExtractor.Services/ExtractorService.cs:70-71 | Appending each element's contribution distributes over concatenation. |
| Seqs.FlatMapMembers | SourceCodes/KoreanHanjaExtractor.Services/ExtractorService.cs:70-71 | An appended element comes from the contribution of some input element. |
| Strings.Trim | SourceCodes/KoreanHanjaExtractor.Services/ExtractorService.cs:85 | The result is no longer than the input. `Strings.TrimSpec` and `Strings.TrimChars` state what is cut and what is kept. |
| Strings.LeadingBlanksSpec | SourceCodes/KoreanHanjaExtractor.Services/ExtractorService.cs:85 | The characters `TrimStart` drops are white space, and the first one it keeps is not. |
| Strings.TrimSpec | SourceCodes/KoreanHanjaExtractor.Services/ExtractorService.cs:85 | `Trim` cuts only white space from both ends. The result neither starts nor ends with white space, and it is empty exactly when the input is blank. |
| Strings.TrimChars | SourceCodes/KoreanHanjaExtractor.Services/ExtractorService.cs:89 | `Trim` keeps every non-white-space character and adds none. |
| Strings.Split | SourceCodes/KoreanHanjaExtractor.Services/ExtractorService.cs:86 | `Split` with `RemoveEmptyEntries`: the maximal separator-free runs, in order. `Strings.SplitPieces`, `SplitConcat`, `SplitEmpty` and `SplitLaws.SplitAppend` state its properties. |
| Strings.SplitPieces | SourceCodes/KoreanHanjaExtractor.Services/ExtractorService.cs:86 | With `RemoveEmptyEntries`, every piece is non-empty and separator-free. |
| Strings.SplitConcat | SourceCodes/KoreanHanjaExtractor.Services/ExtractorService.cs:93 | Gluing the pieces back gives the input without its separators. |
| Strings.SplitEmpty | SourceCodes/KoreanHanjaExtractor.Services/ExtractorService.cs:93 | There are no pieces exactly when every character is a separator. |
| SplitLaws.SplitJoin | SourceCodes/KoreanHanjaExtractor.Services/ExtractorService.cs:113-117 | `Split` inverts `Join(" ", …)` on non-empty, separator-free tokens. |
| Strings.Join | SourceCodes/KoreanHanjaExtractor.Services/ExtractorService.cs:117 | `String.Join`: the tokens with the separator between each two. `SplitLaws.SplitJoin` states that `Split` inverts it, and `Strings.JoinWellSpaced` what it adds. |
| Strings.JoinWellSpaced | SourceCodes/KoreanHanjaExtractor.Services/ExtractorService.cs:117 | Joining such tokens gives single spaces and no other new characters. |
| SplitLaws.SplitAppend | SourceCodes/KoreanHanjaExtractor.Services/ExtractorService.cs:93 | A separator cuts a string into two parts that split independently. |
| Strings.StrLeTotal | SourceCodes/KoreanHanjaExtractor.Services/ExtractorService.cs:120-122 | The ordinal string order is total. |
| Strings.StrLeReflexive | SourceCodes/KoreanHanjaExtractor.Services/ExtractorService.cs:120-122 | Every string is ordered before or equal to itself. |
| Strings.StrLeAntisymmetric | SourceCodes/KoreanHanjaExtractor.Services/ExtractorService.cs:120-122 | The ordinal string order is antisymmetric. |
| Strings.StrLeTransitive | SourceCodes/KoreanHanjaExtractor.Services/ExtractorService.cs:120-122 | The ordinal string order is transitive. |

## Left out

- `GetHtmlNode` is not modelled. It reads `korean-hanja.html` from disk, detects its encoding
  and lets HtmlAgilityPack parse it. That is I/O and a foreign parser, so the model starts
  from an already-parsed node tree.
- `SaveXml` is not modelled. It serialises the records to `hanja-for-everyday-use.xml` and
  turns any exception into `false`; that is I/O and the .NET XML serializer.
- The `Hanja` and `HanjaCollection` classes are not part of this model beyond the
  three-field record they carry.
- HtmlAgilityPack's parsing details are not modelled. These are lower-casing of names,
  entity decoding in `InnerText`, and tolerance of malformed markup. Names and text are
  taken as given in the tree.
- The general .NET regular-expression engine is not modelled. Only the one pattern
  `(?<Translation>\(.+\)?)` is, with `.` excluding the line feed.
- `HanjaConversion.KeyLe`: compares each key with the ordinal `Strings.StrLe` rather than with
  `OrderBy`'s culture-sensitive comparison, as explained under `KeyLeTotalOrder` below.
- `HanjaConversion.KeyLeTotalOrder`: `OrderBy` on strings uses the current culture's
  comparison. The model uses ordinal order on characters instead, because culture-sensitive
  collation is not something Dafny can express. Under a culture comparison, two different
  strings can rank equal; LINQ's stable sort would then keep their input order, and
  `ConvertWordsDeterminate` would not apply as stated.
- `Html.FirstValue`: when an element repeats an attribute name, the model reads the first
  attribute with that name. HtmlAgilityPack's `Attributes[key]` reads a collection keyed by
  name, which may keep the last one instead. The HtmlAgilityPack source is not part of this
  model, so the model does not settle which of the two it returns.
- `Strings.StrLeTotal`: characters are compared as Unicode scalar values. .NET compares
  UTF-16 code units, and the two orders differ only for characters outside the Basic
  Multilingual Plane.
- `WordTokenizer.AppendTranslation`: `segments` is a `List<string>`; the model uses an array
  of the same length. The loop only overwrites elements by index, so the difference does not
  show.
- A null argument (a null `html`, `table`, `rows` or `cells`) is not modelled, because the
  Dafny values cannot be null. A missing `<body>` is modelled, as the `NoBody` error.
- Which exception type .NET throws is not modelled: each failure is an `Error` value naming
  its reason.
