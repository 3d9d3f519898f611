# Case formatter and rating filter

A Dafny model of the two utilities in `index.ts`:

- `formatString(input, toUpper?)` returns `input` in upper case when the flag
  is `true` or left out, and in lower case when the flag is an explicit
  `false` (module `CaseFormat`, file `case_format.dfy`). The optional flag is an
  `Option<bool>`, so that "left out" (`None`) stays distinct from `false`.
  Case mapping is per character over ASCII letters: `a`–`z` and `A`–`Z` map to
  each other and every other character is unchanged. The predicates
  `UpperCaseOf` and `LowerCaseOf` define "the upper/lower-case form of a
  string" independently of the mapping: each character is a case variant of
  the input's character, and no letter of the other case remains. The lemmas
  prove that the mapping is the only string meeting that definition.
- `filterByRating(items)` loops over `{ title, rating }` records and pushes
  every item whose rating is at least 4 onto a fresh result list (module
  `RatingFilter`, file `rating_filter.dfy`). The method `FilterByRating` keeps
  the loop. It takes the input as an array without a `modifies` clause, so the
  input cannot change. Its result list is a sequence value grown by appending,
  as the source grows its array with `push`. It is proved equal to the
  recursive specification `Filtered`, and the lemmas characterise `Filtered`:
  it selects exactly the qualifying positions, in increasing order.

## Model

| member | source | states |
|---|---|---|
| CaseFormat.UpperChar | index.ts:3 | the upper-case mapping of one character is a case variant of it with no lower-case letter left, and changes the character exactly when it is a lower-case letter |
| CaseFormat.LowerChar | index.ts:5 | the lower-case mapping of one character is a case variant of it with no upper-case letter left, and changes the character exactly when it is an upper-case letter |
| CaseFormat.ToUpperCase | index.ts:3 | `toUpperCase()` yields a string of the same length that meets `UpperCaseOf`: each character a case variant of the input's, no lower-case letter left |
| CaseFormat.ToLowerCase | index.ts:5 | `toLowerCase()` yields a string of the same length that meets `LowerCaseOf`: each character a case variant of the input's, no upper-case letter left |
| CaseFormat.FormatString | index.ts:1-7 | with the flag `true` or absent the result is the upper-case form of the input; with the flag `false` it is the lower-case form |
| CaseFormat.UpperCaseOfIsToUpperCase | index.ts:3 | a string is the upper-case form of the input if and only if it equals the upper-case mapping (the mapping is the unique such string) |
| CaseFormat.LowerCaseOfIsToLowerCase | index.ts:5 | a string is the lower-case form of the input if and only if it equals the lower-case mapping |
| CaseFormat.AbsentFlagMeansUpper | index.ts:2-3 | leaving the flag out gives the same result as passing `true`, namely the upper-case mapping |
| CaseFormat.FormatStringIdempotent | index.ts:2-5 | formatting a result again with the same flag returns it unchanged |
| CaseFormat.FormatStringPreservesLetters | index.ts:2-5 | formatting only changes case: result and input have the same lower-case form, whatever the flag |
| CaseFormat.FormatStringExamples | index.ts:1-7 | `"Hello"` with no flag gives `"HELLO"`, with `false` gives `"hello"`; non-letters are kept |
| RatingFilter.Filtered | index.ts:12-16 | the filtered list is no longer than the input and every item in it has rating at least 4 |
| RatingFilter.FilterByRating | index.ts:10-18 | the loop's result list equals `Filtered` of the input; the input array is not modified |
| RatingFilter.FilteredIsSelection | index.ts:11-17 | the output is the input's items at strictly increasing positions, and those positions are exactly the ones whose item has rating at least 4 (order preserved, nothing qualifying dropped, nothing else kept) |
| RatingFilter.FilteredMembership | index.ts:12-16 | an item is in the output if and only if it is in the input and its rating is at least 4 |
| RatingFilter.FilteredAppend | index.ts:12-16 | filtering a concatenation is the concatenation of the filtered parts |
| RatingFilter.FilteredKeepsAllIff | index.ts:13-14 | the output equals the input if and only if every item has rating at least 4 |
| RatingFilter.FilteredEmptyIff | index.ts:13-14 | the output is empty if and only if no item has rating at least 4 (in particular, empty input gives empty output) |
| RatingFilter.FilteredIdempotent | index.ts:13-14 | filtering the output again changes nothing |
| RatingFilter.FilteredExamples | index.ts:13-14 | ratings 5 and 3 keep only the first item; a rating of exactly 4 is kept (the threshold is inclusive) and 3.9 is dropped; empty input gives empty output |

## Left out

- Unicode case mapping: JavaScript's `toUpperCase`/`toLowerCase` use the Unicode tables and can change a string's length (`ß` becomes `SS`); the model maps ASCII letters only and leaves every other character unchanged.
- The difference between passing `undefined` explicitly and leaving the argument out: both are `None`, as both take the upper-case branch in the source.
- IEEE-754 numbers: `rating` is a real, so NaN, infinities and signed zero are not modelled.
- Object identity: the source pushes the same record objects into the result; the model keeps equal record values. The result list is a sequence value rather than a freshly allocated array, so it cannot alias the input.
- The other utilities described for the repository (array concatenation, the Vehicle/Car classes, the string/number dispatcher, the most-expensive-product finder) are not part of this model: their source is not among the files modelled here.
