# Wordcrawler, verified

A Dafny model of `Wordcrawler`, a cursor over a private copy of a
`std::string` that moves one word at a time, and of the four routines that
walk a line of text with it: `word_count`, `the_count`, `every_other_in` and
`print_in_reverse`.

A word is a maximal run of non-space characters. The space character `' '`
is the only delimiter, and a run of several spaces separates two words just
as one space does.

- `Text.dfy` (module `Text`) defines words independently of the cursor.
  `Words(t)` splits `t` left to right. `Starts(t)` lists the word-start
  offsets in increasing order. `WordEnd(t, i)` is the offset of the next
  space, or `|t|` when there is none. The lemmas tie these together and
  give `Words` two partners: space-joined words split back into the same
  list, and a run of spaces splits like a single space.
- `WordCrawler.dfy` (module `WordCrawler`) holds the class
  `Wordcrawler`. The character pointers become integer offsets: `beginning`
  is offset 0, `ending` is the `const` offset `|text| - 1`, and
  `charPointer` is the field `pos`. The text is a `const` copy.
  - The ghost field `index` is the number of the word under the cursor.
  - `Valid()` is the object invariant. The text is non-empty and has no
    leading or trailing space. The cursor is on `Starts(text)[index]`.
  - Every operator is a method that keeps the source's loops. Each one
    states its effect on `index` and `pos`.
  - The four routines are methods. Each returns the count, or the words,
    that `word_count` and the others print. Their contracts state the
    result in terms of `Words(s)`.
  - Four client methods use only these contracts to derive concrete
    results. On `"the cat sat"` the results are 3 words, one `"the"`,
    `["the", "sat"]` and `["sat", "cat", "the"]`. On `"hello"` the cursor is
    on the first and the last word at once, and no word is `"the"`. On
    `"the the the"` all three words are counted. On `"a  b"` the cursor
    steps over the double space and back, and word 1 is `"b"`.

The model covers the texts that have no leading and no trailing space.
`Valid()` requires this. The C++ class behaves differently on other texts:
- A leading space gives defined but wrong results. The cursor starts on the
  space at offset 0, and `++` counts that space as a word, so `word_count`
  returns 3 on `" a b"`. `*` there returns the empty string. `Valid()`
  excludes such texts on purpose.
- A single trailing space is defined. `word_count("a b ")` returns 2. The
  only difference is that `*` on the last word returns it with the space
  attached.
- Two or more trailing spaces, or a text of two or more spaces only, are
  undefined. `isLastWord` then stops on `ending`, which holds a space and
  is no word start, so the routines keep calling `++` past the last word. The `++` at line 126 moves onto
  the terminator, and the next `++` reads past it at lines 109-113.

Three more states are undefined or never terminate. Each is excluded by a
precondition:
- Empty text: the constructor requires a non-empty text.
- `++` on the last word: the loop at lines 109-115 never ends, so
  `Increment` requires a next word.
- `--` on the first word: line 142 starts before the buffer, so
  `Decrement` requires `pos > 0`.

## Model

| member | source | states |
|---|---|---|
| `WordCrawler.Wordcrawler.constructor` | WordCrawler.cpp:92-97 | for a non-empty text: the text is copied, `pos` is 0 and `ending` is `length-1`; for a well-formed text the crawler is valid, on word 0, and `IsFirstWord()` holds |
| `WordCrawler.Wordcrawler.Increment` | WordCrawler.cpp:106-128 | on a word that is not the last, `++` moves to the start of the next word (`index + 1`); the new position is larger, is a non-space preceded by a space, and everything from the end of the old word up to it is a space |
| `WordCrawler.Wordcrawler.Decrement` | WordCrawler.cpp:137-160 | for `pos > 0`, `--` moves to the start of the previous word (`index - 1`); the new position is smaller, is a non-space, and is 0 or preceded by a space; so `++` then `--` returns to the same word |
| `WordCrawler.Wordcrawler.AdvanceBy` | WordCrawler.cpp:171-179 | `+= n` is n steps forward: `index` grows by n when that many words follow |
| `WordCrawler.Wordcrawler.RetreatBy` | WordCrawler.cpp:189-197 | `-= n` is n steps back: `index` shrinks by n when that many words precede |
| `WordCrawler.Wordcrawler.Current` | WordCrawler.cpp:204-237 | `*` returns the word under the cursor, `Words(text)[index]`: the text from `pos` up to the next space or through `ending`, non-empty and free of spaces; the cursor does not move |
| `WordCrawler.Wordcrawler.WordAt` | WordCrawler.cpp:247-252 | `[n]` returns `Words(text)[n]` and leaves the cursor on word n |
| `WordCrawler.Wordcrawler.IsFirstWord` | WordCrawler.cpp:354-363 | true exactly when the cursor is on word 0 |
| `WordCrawler.Wordcrawler.IsLastWord` | WordCrawler.cpp:370-383 | the backward scan from `ending` stops at the start of the last word, so the result is true exactly when the cursor is on the last word |
| `WordCrawler.WordCount` | WordCrawler.cpp:259-269 | the count is the number of words of the text |
| `WordCrawler.TheCount` | WordCrawler.cpp:276-296 | the count is the number of words equal to `"the"`, the last word included |
| `WordCrawler.EveryOtherIn` | WordCrawler.cpp:327-348 | the output is the words at indices 0, 2, 4, ..., in order, and nothing else |
| `WordCrawler.PrintInReverse` | WordCrawler.cpp:302-321 | the output is all words, last to first |
| `Text.WordEnd` | WordCrawler.cpp:223-232 | the scan from a word start stops at the first space, or at the end of the text; every character before it is a non-space |
| `Text.StartsFromSorted` | WordCrawler.cpp:100-128 | the offsets the cursor can stand on are exactly the word starts, each once and in increasing order |
| `Text.WordsFromAreWords` | WordCrawler.cpp:117-124 | every word is non-empty and holds no space: runs of spaces yield no empty word |
| `Text.WordsAtStarts` | WordCrawler.cpp:222-234 | there are as many words as word starts, and word k runs from the k-th start to the next space |
| `Text.FirstStart` | WordCrawler.cpp:94-95 | a text that begins with a non-space has its first word at offset 0 |
| `Text.WordEndBeforeNext` | WordCrawler.cpp:108-115 | when another word follows, the scan over the current word meets a space before the next word: the loop ends |
| `Text.NextStart` | WordCrawler.cpp:117-126 | a word start after start k with no word start in between is start k+1 |
| `Text.PrevStart` | WordCrawler.cpp:141-157 | a word start before start k with no word start in between is start k-1 |
| `Text.LastStart` | WordCrawler.cpp:372-373 | a word start with no word start after it is the last one |
| `Text.SpaceRunsCollapse` | WordCrawler.cpp:117-124 | any run of one or more spaces between two texts gives the same words as a single space |
| `Text.JoinWords` | WordCrawler.cpp:313-320 | words joined with single spaces split back into the same list; from it `TheTheTheExample` derives that `the_count` gives 3 on `"the the the"`, the last word included |
| `Text.DoubleSpace` | WordCrawler.cpp:117-124 | `"a  b"` has the two words `"a"` and `"b"` |
| `Text.ThreeWords` | WordCrawler.cpp:259-348 | `"the cat sat"` has the three words `"the"`, `"cat"`, `"sat"`; from it `ThreeWordsExample` derives the results 3, 1, `["the", "sat"]` and `["sat", "cat", "the"]` |
| `Text.Hello` | WordCrawler.cpp:354-383 | `"hello"` has the one word `"hello"`; from it `OneWordExample` derives that the cursor is on the first and the last word at once, and the results 1, 0, `["hello"]` and `["hello"]` |

## Left out

- `main` (WordCrawler.cpp:64-84) only prompts, reads one line with `std::getline` and prints. This console I/O is not modelled.
- The writes to `std::cout` in the four routines become return values: a count, or the sequence of printed words. The `" "` printed after each word is formatting and is not modelled.
- Raw `char*` addresses become integer offsets into the text. The null terminator at `ending + 1`, which the loop at line 118 may read, is never read in the model.
- Texts with a leading or trailing space are excluded by `Valid()`. With a leading space the C++ code gives defined but wrong results (the space at offset 0 counts as a word). With a single trailing space it is defined. With two or more trailing spaces it reads past the terminator.
- The states in which the C++ code is undefined or does not terminate become preconditions: empty input, `++` on the last word, and `--` on the first word.
- WordCrawler.Wordcrawler.Current: a text with a trailing space makes `*` on the last word include that space (lines 229-232 count `ending` even when it holds a space). Such texts are excluded by `Valid()`, so this behaviour is not modelled.
- WordCrawler.Wordcrawler.AdvanceBy: the `int` argument is compared with a `size_t` counter (line 173), so a negative argument becomes a huge count. The model takes a `nat`. `RetreatBy` (line 191) does the same.
- WordCrawler.Wordcrawler.WordAt: its `int` argument (line 247) goes through the same `size_t` loop of `+=` (line 173). The model takes a `nat`.
- The `unsigned int` counters of `word_count` and `the_count`, and the `unsigned int` offset and length counters of `operator*` (lines 207-210), are unbounded integers in the model. Their wrap-around at 2^32 is not modelled.
- WordCrawler.EveryOtherIn: the `int indexPosition` (line 331) is an unbounded integer. Its overflow after 2^31 - 1 words is undefined behaviour in C++ and is not modelled.
