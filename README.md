# Shingling and Jaccard similarity, modelled in Dafny

This project models the text-similarity core of a small Streamlit application over a
corpus of medical transcriptions. Raw documents are cleaned into word tokens and
stopwords are removed. Each document is then turned into the set of its k-token
shingles, the corpus-wide shingle list and a characteristic matrix are built, and two
documents are compared by their exact Jaccard similarity.

Modules, one per stage of `streamlit_app.py`:

- `Text` (`text.dfy`): the parts of Python's `str` and `re` that the code relies on. These are the
  character classes `\w` and `\s`, `' '.join`, `str.split(" ")`, and the facts linking them
  (join and split undo each other).
- `Tokenizer` (`tokenizer.dfy`): `clean_data`. The two regular-expression substitutions, the
  strip and the split are functions, and `CleanData` is the loop over the documents. `Words`
  defines the words of a document without the regular expressions: the maximal runs of word
  characters and apostrophes. `TokenizeWords` proves that the tokens are exactly those words.
- `StopwordFilter` (`stopwords.dfy`): `remove_stopwords`. The list comprehension is the
  function `RemoveStops`, and `RemoveStopwords` rewrites the documents of an array in place.
- `ShingleBuilder` (`shingles.dfy`): `create_shingle_lists`. The shingle set of a document is
  specified as a set comprehension over windows. `CreateShingleLists` builds it with the
  source's nested loops, together with the universal shingle set and its conversion to a list.
- `CharMatrix` (`char_matrix.dfy`): `create_char_matrix`, the adjacency list from each
  shingle to the documents that contain it.
- `Jaccard` (`jaccard.dfy`): `jaccard_similarity`. It gives the exact ratio, or the division by
  zero the source hits when both sets are empty.
- `Pipeline` (`pipeline.dfy`): properties of the stages chained together as the main code
  runs them.

Points where the program's own text and its behaviour need care:

- The data-cleaning steps shown to the user (streamlit_app.py:100-102) start with putting
  every document in lowercase. `clean_data` does not lowercase: `load_data` does
  (streamlit_app.py:8), and it is not modelled, so the model takes documents as given.
- `clean_data` keeps empty tokens. A document without a word, that is without any word
  character or apostrophe, becomes `[""]` (`TokenizeSpec`, `TokenizeWords`); a lone apostrophe
  survives the first substitution, so `'` becomes `["'"]`. What happens to `[""]` next
  depends on the stopword list. The list is read with `split("\n")`, so it holds `""` whenever
  the stopword file ends in a newline or has a blank line. In that case `remove_stopwords` turns
  the document into `[]`, which has no shingle for any shingle size of 1 or more. Otherwise the
  document keeps `[""]`, and with a shingle size of 1 it has the shingle `""`
  (`EmptyDocumentShingles`).
- `jaccard_similarity` divides by the size of the union, so two empty shingle sets raise
  `ZeroDivisionError`. The model returns `ZeroDivisionError` in that case.

## Model

| member | source | states |
|---|---|---|
| Text.IsWordChar | streamlit_app.py:26 | the `\w` class of the first pattern: ASCII letters, digits and `_` (a predicate, no contract) |
| Text.IsSpace | streamlit_app.py:26-28 | the `\s` class of both patterns and the characters `strip()` removes: exactly Python's `str.isspace` characters (a predicate, no contract) |
| Text.Join | streamlit_app.py:50 | `' '.join(ws)`: the words with one blank between neighbours; its round trips with `Split` are `SplitJoin` and `JoinSplit` |
| Text.Split | streamlit_app.py:29 | `str.split(" ")` always returns at least one piece, `[""]` for the empty string |
| Text.JoinSplit | streamlit_app.py:29 | joining the pieces of `split(" ")` with single blanks gives back the original string |
| Text.SplitJoin | streamlit_app.py:50 | splitting `' '.join(ws)` on blanks gives back `ws` whenever no word holds a blank and there is at least one word |
| Text.ConcatSplit | streamlit_app.py:29 | if every whitespace character is a blank, the pieces of the split glued together are the non-whitespace characters, in order |
| Text.SplitPiecesBlankFree | streamlit_app.py:29 | no piece of `split(" ")` contains a blank |
| Text.SplitPiecesNonEmpty | streamlit_app.py:27-29 | a non-empty string with no doubled blank and no blank at either end splits into non-empty pieces only; every piece after the first is non-empty whenever there is no doubled or trailing blank |
| Tokenizer.ReplacePunctuation | streamlit_app.py:26 | `re.sub("[^\w\s\']", " ", s)`; its contract keeps the length, and `ReplacePunctuationSpec` gives each position |
| Tokenizer.ReplacePunctuationSpec | streamlit_app.py:26 | position by position, a word character, whitespace character or apostrophe stays and every other character becomes a blank in its place, so nothing is deleted |
| Tokenizer.LStrip | streamlit_app.py:28 | the leading-whitespace half of `strip()`; its contract says it never grows and removes a leading whitespace character, `LStripSpec` gives the rest |
| Tokenizer.RStrip | streamlit_app.py:28 | the trailing-whitespace half of `strip()` (no contract; `RStripSpec` states it) |
| Tokenizer.Strip | streamlit_app.py:28 | `str.strip()` as `RStrip(LStrip(s))` (no contract; `StripCollapsed` and `WordsStrip` state it) |
| Tokenizer.LStripSpec | streamlit_app.py:28 | the left half of `strip()`: the result is a suffix of the input, everything removed is whitespace, and the result does not start with whitespace |
| Tokenizer.RStripSpec | streamlit_app.py:28 | the right half of `strip()`: the result is a prefix of the input, everything removed is whitespace, and the result does not end with whitespace |
| Tokenizer.CollapseSpacesSpec | streamlit_app.py:27 | after `re.sub("[\s]+", " ", s)` every whitespace character is a blank and no two are neighbours; the result is empty only for empty input and starts with a blank exactly when the input starts with whitespace |
| Tokenizer.CollapseSpaces | streamlit_app.py:27 | `re.sub("[\s]+", " ", s)`, one blank per maximal whitespace run (no contract; `CollapseSpacesSpec`, `CollapseAppend` and `CollapseSeparator` state it) |
| Tokenizer.CollapseAppend | streamlit_app.py:27 | runs never cross a non-whitespace character, so text split after one is collapsed part by part |
| Tokenizer.CollapseSeparator | streamlit_app.py:27 | a whitespace run between a non-whitespace character and the rest of the text becomes exactly one blank, and the text on either side is collapsed on its own |
| Tokenizer.NonSpaceCollapseSpaces | streamlit_app.py:27 | collapsing whitespace runs keeps every other character, in order |
| Tokenizer.NonSpaceReplacePunctuation | streamlit_app.py:26 | after `re.sub("[^\w\s\']", " ", s)` the non-whitespace characters are exactly the word characters and apostrophes of `s`, in order |
| Tokenizer.StripCollapsed | streamlit_app.py:28 | stripping collapsed text keeps it collapsed, leaves no whitespace at either end and removes no other character |
| Tokenizer.CleanTextShape | streamlit_app.py:26-28 | the text that is split has only single blanks as whitespace, none at either end, and the word characters and apostrophes of the raw text as its other characters |
| Tokenizer.CleanText | streamlit_app.py:26-28 | the text after both substitutions and the strip (no contract; `CleanTextShape` states it) |
| Tokenizer.Tokenize | streamlit_app.py:26-29 | what `clean_data` stores for one document; its contract says `split(" ")` always yields at least one token, and `TokenizeWords` says which |
| Tokenizer.Words | streamlit_app.py:29 | the words of a document as the code comment names them, defined independently of the regular expressions: the maximal runs of word characters and apostrophes, in order (a reference definition, no contract) |
| Tokenizer.WordsReplacePunctuation | streamlit_app.py:26 | turning punctuation into blanks keeps the words of the document |
| Tokenizer.WordsCollapseSpaces | streamlit_app.py:27 | collapsing whitespace runs keeps the words |
| Tokenizer.WordsStrip | streamlit_app.py:28 | stripping whitespace at both ends keeps the words |
| Tokenizer.SplitWords | streamlit_app.py:29 | `split(" ")` of text made of word characters, apostrophes and single inner blanks gives exactly its words |
| Tokenizer.TokenizeWords | streamlit_app.py:25-29 | the tokens of a document are exactly its words, the maximal runs of word characters and apostrophes in order; a document without a word becomes `[""]` |
| Tokenizer.TokenizeExample | streamlit_app.py:25-29 | ` a,b!` becomes `["a", "b"]`: the comma splits the two words as a blank would |
| Tokenizer.TokenizeApostrophe | streamlit_app.py:26-29 | a document made of one apostrophe keeps it as a word and becomes `["'"]`, not `[""]` |
| Tokenizer.TokenizeSpec | streamlit_app.py:25-29 | the tokens glued together are exactly the word characters and apostrophes of the raw document, in order; no token holds whitespace or any other character; every token is non-empty, except that a document without such characters becomes exactly `[""]` (both directions) |
| Tokenizer.TokenizeJoin | streamlit_app.py:26-29 | joining a document's tokens with single blanks gives back its cleaned text |
| Tokenizer.CleanData | streamlit_app.py:23-30 | `clean_data` keeps the number of documents and turns document `i` into the tokens of raw document `i` |
| StopwordFilter.RemoveStops | streamlit_app.py:36 | the comprehension keeps no stopword, keeps every token that is not a stopword, and never grows the list |
| StopwordFilter.RemoveStopsSubsequence | streamlit_app.py:36 | the filtered tokens are a subsequence of the original, so their order is kept |
| StopwordFilter.RemoveStopsCount | streamlit_app.py:36 | a non-stopword survives exactly as often as it occurs, and a stopword not at all |
| StopwordFilter.RemoveStopsNothingToRemove | streamlit_app.py:36 | a token list without stopwords is left unchanged |
| StopwordFilter.RemoveStopsIdempotent | streamlit_app.py:36 | filtering twice with the same stopword list is the same as filtering once |
| StopwordFilter.RemoveStopwords | streamlit_app.py:33-37 | `remove_stopwords` replaces every document of the list, in place, by its filtered tokens; the number of documents is unchanged |
| StopwordFilter.RemoveStopsExample | streamlit_app.py:36 | `["the", "cat", "sat"]` with the stopword `"the"` becomes `["cat", "sat"]` |
| ShingleBuilder.ShingleAt | streamlit_app.py:49-50 | `' '.join(dataset[i][j:j+k])`, the shingle of the window starting at `j` (no contract; `ShingleAtSplits` states it) |
| ShingleBuilder.Shingles | streamlit_app.py:47-51 | the set of shingles of one document, one per window `0 <= j <= len(tokens)-k` (a set comprehension used as the reference for `CreateShingleLists`) |
| ShingleBuilder.AllShingles | streamlit_app.py:42-52 | the universal shingle set built one document after another (no contract; `AllShinglesSpec` states it) |
| ShingleBuilder.AllShinglesSpec | streamlit_app.py:42-52 | a shingle is in the universal set exactly when some document's shingle set contains it |
| ShingleBuilder.ShinglesSize | streamlit_app.py:47-51 | a document with fewer tokens than the shingle size has no shingle; otherwise it has at most `len(tokens) - k + 1` |
| ShingleBuilder.ShingleAtSplits | streamlit_app.py:49-50 | when no token holds a blank, a shingle splits back into its window, so two windows give the same shingle exactly when they hold the same tokens |
| ShingleBuilder.ListOfSet | streamlit_app.py:53 | `list(shingle_list)` holds every element of the set, nothing else, and no element twice |
| ShingleBuilder.AddDocumentShingles | streamlit_app.py:48-52 | the window loop of one document adds exactly that document's shingles to its own set and to the universal set, and changes no other document's set; with fewer tokens than the shingle size the range is empty and nothing is added |
| ShingleBuilder.CreateShingleLists | streamlit_app.py:40-53 | `shingle_docs` has exactly the keys `0 .. len(dataset)-1` and key `i` holds `{' '.join(tokens[j:j+k]) : 0 <= j <= len(tokens)-k}` of document `i`; the returned list has no duplicates and holds exactly the shingles of all documents |
| ShingleBuilder.ShinglesExample | streamlit_app.py:47-51 | the tokens `the quick brown fox` with shingle size 2 give `{"the quick", "quick brown", "brown fox"}` |
| CharMatrix.Holders | streamlit_app.py:62-65 | the row of one shingle: the documents appended to it, in the order the outer loop visits them (no contract; `HoldersSpec` states it) |
| CharMatrix.HoldersSpec | streamlit_app.py:62-65 | the documents appended for a shingle are strictly increasing, and a document is among them exactly when its shingle set contains the shingle |
| CharMatrix.AppendDocument | streamlit_app.py:63-65 | for one document `i`, `i` is appended to the row of exactly those shingles the document contains; every key and every other row is kept |
| CharMatrix.CreateCharMatrix | streamlit_app.py:56-67 | `char_matrix` has exactly the keys `0 .. len(shingle_list)-1`, and row `j` is a strictly increasing list holding exactly the documents whose shingle set contains `shingle_list[j]` |
| Jaccard.JaccardSimilarity | streamlit_app.py:84-92 | the division fails exactly when both sets are empty; otherwise the similarity lies in [0, 1] |
| Jaccard.IntersectionNoLarger | streamlit_app.py:89-90 | the intersection is never larger than the union, and is as large only when the two sets are equal |
| Jaccard.JaccardSymmetric | streamlit_app.py:84-92 | the similarity does not depend on the order of its arguments |
| Jaccard.JaccardOneIffEqual | streamlit_app.py:84-92 | two sets that are not both empty have similarity 1 exactly when they are equal |
| Jaccard.JaccardZeroIffDisjoint | streamlit_app.py:84-92 | two sets that are not both empty have similarity 0 exactly when they share no shingle |
| Jaccard.JaccardExample | streamlit_app.py:84-92 | `{a, b, c}` against `{b, c, d}` gives 2/4 = 0.5 |
| Pipeline.CleanedShinglesSplit | streamlit_app.py:104-119 | after cleaning and stopword removal no token holds a blank, so each shingle of a document splits back into its window of tokens |
| Pipeline.EmptyDocumentShingles | streamlit_app.py:104-112 | a document without a word is `[]` after stopword removal when the stopword list holds `""`, and then has no shingle of size 1 or more; otherwise it stays `[""]` and has the single shingle `""` of size 1 |
| Pipeline.ShingleDocsFitCharMatrix | streamlit_app.py:119-120 | the shingle sets returned by `create_shingle_lists` are keyed by exactly `0 .. n-1`, so there are `n` of them and every `shingle_docs[i]` that `create_char_matrix` looks up exists when it is called on them, as the commented-out line 120 does |
| Pipeline.SelfSimilarity | streamlit_app.py:143-146 | a document compared with itself scores 1, or hits the division by zero when it has fewer tokens than the shingle size |

## Left out

- `load_data` (streamlit_app.py:7-20): reading the CSV file, taking column 4 and lowercasing happen before the core, so the model takes the raw documents as given strings.
- Reading and splitting the stopword file (streamlit_app.py:107-110): file I/O. The stopword list is a given `seq<string>`.
- `minhash` (streamlit_app.py:70-81): it delegates to the `datasketch` library, which is not part of this model. Its result is a randomised floating-point estimate.
- The Streamlit user interface (streamlit_app.py:95-150): sliders, buttons and output. Only the order in which it chains the stages is used, in the `Pipeline` lemmas.
- Text.IsWordChar: Python's `\w` on a `str` also matches non-ASCII letters and digits. The model accepts only ASCII letters, digits and `_`, so a non-ASCII letter counts as punctuation here. `IsSpace` lists Python's whitespace characters in full.
- Tokenizer.CleanData: the source overwrites each string of the list with its token list, so the list changes element type. Dafny arrays have one element type, so the tokens go into a new array of the same length. That the caller's list object is reused is not modelled.
- ShingleBuilder.CreateShingleLists: `list(set)` orders elements by hash, so the model leaves the order of the universal list open. The shingle size is a `nat`; a negative shingle size, which Python would accept, is not modelled.
- CharMatrix.CreateCharMatrix: requires the keys `0 .. len(shingle_docs)-1`, which every result of `CreateShingleLists` has (`ShingleDocsFitCharMatrix`). Without them the source raises `KeyError` as soon as `shingle_list` is non-empty, and with an empty `shingle_list` it returns `{}` for any keys; neither case is modelled.
- Jaccard.JaccardSimilarity: the exact rational ratio replaces Python's floating-point division. The `ZeroDivisionError` raised for two empty sets is returned as a value.
