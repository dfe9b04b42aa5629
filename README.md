# Search API Spellcheck: the "did you mean" views area

This project models the string and list logic of the `search_api_spellcheck`
views area plugin (`SpellCheck`). When a search view is shown, the plugin reads
the search backend's (Solr's) response from a cache. It reads the response
under a key derived from the view's results cache key. It takes every
misspelled word of the response's `spellcheck.suggestions` list together with
that word's first candidate. It replaces each misspelling in the submitted
search text, one after the other. Finally it renders "Did you mean: <link>?".
The link points back to the current page with the corrected text in its `keys`
parameter.

Drupal objects are replaced by plain inputs:

- the view's results cache key is a string;
- the two options (`filter_name`, `hide_on_result`) are fields of the area;
- the view's exposed input is a `map<string, string>`;
- the view's filters are a sequence of `ViewFilter` values;
- the "result is empty" flag is a parameter of `Render`;
- the cache bin is a `map<string, Payload>` passed to `Render`.

Files:

- `php_strings.dfy`, module `PhpStrings`, covers the PHP built-ins the plugin
  calls. `Replace` is `str_replace` with one search string: it scans left to
  right, replaces non-overlapping occurrences, and an empty search string
  changes nothing. `ToLower` is `strtolower` on ASCII. `Empty` is `empty()` on
  a string.
- `spellcheck.dfy`, module `SpellCheck`, covers the cache key, the visibility
  test, extraction of the corrections, the substitution fold, the link, the
  full-text filter map, and the class `SpellCheckArea` with the `Render` and
  `GetFilters` methods.

The two loops of `render()` are the methods `CollectCorrections` and
`ApplyCorrections`. Each is proved equal to a specification function
(`Corrections`, `Corrected`), and the properties are proved about those
functions. The loop of `getFilters()` is `SpellCheckArea.GetFilters`. It
memoizes into the field `filters`, and it is proved equal to `FilterState`.

Edge cases of the code that the model keeps:

- Truthy cached data whose suggestions list is empty or missing still renders
  the link, with the query text unchanged (SpellCheck.php:128-170).
- A null backend response is still written to the cache
  (SpellCheck.php:101-103). It reads back as falsy data, so `Null` renders
  nothing, just like a cache miss.
- A candidates entry whose `suggestion` list is empty gives PHP null for
  `['suggestion'][0]` (SpellCheck.php:142). `str_replace` takes that null as
  the empty string, so `FirstSuggestion` yields `""` and the misspelling is
  replaced by `""` (SpellCheck.php:149).

## Model

| member | source | states |
|---|---|---|
| SpellCheck.CacheKey | src/Plugin/views/area/SpellCheck.php:111-114 | the spellcheck key is the results key followed by exactly ":spellcheck" |
| SpellCheck.CacheKeyInjective | src/Plugin/views/area/SpellCheck.php:22 | two results keys give the same spellcheck key if and only if they are equal |
| SpellCheck.Visible | src/Plugin/views/area/SpellCheck.php:126 | output is attempted exactly when hide_on_result is off or the result is empty; with the option on and a non-empty result it is not |
| SpellCheck.CorrectionsUpTo | src/Plugin/views/area/SpellCheck.php:136-146 | the first n entries contribute at most n corrections |
| SpellCheck.CorrectionsFromMisspellings | src/Plugin/views/area/SpellCheck.php:138-145 | the corrections come one for one, in ascending index order, from exactly the string entries; the one from index k is (entry k, first candidate of entry k+1) |
| SpellCheck.NoMisspellingsNoCorrections | src/Plugin/views/area/SpellCheck.php:136-146 | a suggestions list without string entries, including the empty list, yields no corrections |
| SpellCheck.CollectCorrections | src/Plugin/views/area/SpellCheck.php:134-146 | the foreach that fills $new_data returns exactly the corrections of the list, in index order |
| SpellCheck.CorrectedAppend | src/Plugin/views/area/SpellCheck.php:148-150 | applying corrections in two runs equals applying their concatenation (the rewrite is a left fold) |
| SpellCheck.CorrectedSkipsAbsent | src/Plugin/views/area/SpellCheck.php:149 | a correction whose misspelling is absent from the text at its turn can be dropped without changing the result |
| SpellCheck.CorrectedNothingFound | src/Plugin/views/area/SpellCheck.php:148-150 | when no misspelling occurs in the query text, the text is returned unchanged (in particular with no corrections) |
| SpellCheck.ApplyCorrections | src/Plugin/views/area/SpellCheck.php:148-150 | the loop that rewrites $keys returns the fold of str_replace over the corrections in order |
| SpellCheck.LinkTitleSpec | src/Plugin/views/area/SpellCheck.php:160 | the link title has the text's length, every '+' becomes a space, every other character is kept, and no '+' remains |
| SpellCheck.KeysParamSpec | src/Plugin/views/area/SpellCheck.php:161 | the keys parameter has the text's length, every space becomes '+', every other character is kept, and no space remains |
| SpellCheck.TitleAndKeysAgree | src/Plugin/views/area/SpellCheck.php:160-161 | decoding '+' in the keys parameter gives the title, and encoding spaces in the title gives the keys parameter |
| SpellCheck.Suggestion | src/Plugin/views/area/SpellCheck.php:152-168 | the output has three parts in order: the "Did you mean: " span, the link whose title is the text with '+' as spaces and whose keys parameter is the text with spaces as '+' (so no '+' in the title and no space in the keys), and the "?" span |
| SpellCheck.SpellingExampleCorrections | src/Plugin/views/area/SpellCheck.php:136-146 | the list [speling, {suggestion: [spelling, spieling]}] gives the single correction speling to spelling |
| SpellCheck.SpellingExampleText | src/Plugin/views/area/SpellCheck.php:148-150 | "speling test" is corrected to "spelling test" |
| SpellCheck.SpellingExampleKeys | src/Plugin/views/area/SpellCheck.php:161 | the keys parameter for "spelling test" is "spelling+test" |
| SpellCheck.KeysParamOfTwoWords | src/Plugin/views/area/SpellCheck.php:161 | two words without spaces, joined by a space, give the keys parameter with the words joined by '+' |
| SpellCheck.FilterStateSpec | src/Plugin/views/area/SpellCheck.php:195-210 | the filter map has one key for each full-text filter (its identifier if non-empty, else its filter key) and no other; each value is the lower-cased input for that key, or false |
| SpellCheck.FilterValuesLowered | src/Plugin/views/area/SpellCheck.php:205 | a value is a string exactly when the input for its key is non-empty; the string is non-empty and holds no ASCII capital |
| SpellCheck.SpellCheckArea.constructor | src/Plugin/views/area/SpellCheck.php:27-41 | a new area holds its options and the view's data, with no filter map memoized yet |
| SpellCheck.SpellCheckArea.GetFilters | src/Plugin/views/area/SpellCheck.php:195-210 | the first call builds the filter map of the view's filters and memoizes it; every call returns that map |
| SpellCheck.SpellCheckArea.Render | src/Plugin/views/area/SpellCheck.php:125-174 | empty output when hidden, on a cache miss or on falsy cached data; otherwise the three-part suggestion for the query text with all corrections applied in order |
| PhpStrings.ToLower | src/Plugin/views/area/SpellCheck.php:205 | strtolower keeps the length, maps each ASCII capital to its lower-case letter, keeps every other character, and leaves no ASCII capital |
| PhpStrings.ToLowerIdempotent | src/Plugin/views/area/SpellCheck.php:205 | lower-casing twice is lower-casing once |
| PhpStrings.ReplaceAbsent | src/Plugin/views/area/SpellCheck.php:149 | str_replace with a search string that does not occur returns the subject unchanged |
| PhpStrings.ReplaceBySelf | src/Plugin/views/area/SpellCheck.php:149 | replacing a string by itself returns the subject unchanged |
| PhpStrings.ReplaceLength | src/Plugin/views/area/SpellCheck.php:149 | a longer replacement never shortens the subject, a shorter one never lengthens it, and the length changes when the search string occurs and the lengths differ |
| PhpStrings.ReplaceUnchangedIff | src/Plugin/views/area/SpellCheck.php:149 | for a non-empty search string, the subject comes back unchanged if and only if the search string is absent or equals its replacement |
| PhpStrings.ReplaceAtFirstOccurrence | src/Plugin/views/area/SpellCheck.php:149 | at the first occurrence the subject splits: the text before it is kept, that occurrence becomes the replacement, and the scan resumes after it (left to right, non-overlapping) |
| PhpStrings.ReplaceChar | src/Plugin/views/area/SpellCheck.php:160-161 | replacing one character by another maps the subject character by character and keeps its length |

## Left out

- `defineOptions` and `buildOptionsForm` (option defaults and the options form) are configuration UI. `filter_name` and `hide_on_result` are plain fields of the area.
- `preQuery` only sets the `search_api_spellcheck` option on an opaque query object.
- `postExecute` and the cache bin's `set`/`get` are not modelled. The cache bin, its tags and `Cache::PERMANENT` belong to the host. The bin is an input map to `Render`, and tag invalidation is not modelled.
- `getCache` (including the live-preview `none` cache plugin) and `generateResultsKey` are host plugin internals. The results key is an input string, so preview isolation is not modelled.
- `getCurrentQuery` reads the HTTP request. `getFilterMatch` is private and never called.
- `Url::fromRoute`, `$this->t()` translation and the render-array types are host rendering. A link is its title plus the `keys` parameter, and the spans are their untranslated texts.
- SpellCheck.Render: requires strict alternation of the suggestions list under its key when the area is visible, because the code reads entry k+1 without a guard. The outcome for a trailing misspelling, or for a misspelling followed by another string, is not modelled.
- `Render`'s `empty` flag is always passed; PHP's default `$empty = FALSE` (SpellCheck.php:125) is not modelled. The PHP warnings on a cache miss or a missing filter key (SpellCheck.php:127-128, 133) are not modelled either: those cases give empty output or `""`.
- Backends that return candidates as objects with a word and a frequency ("extended results") are not modelled. A candidate is a string.
- Exposed input values that are arrays are not modelled. Input values are strings.
- PhpStrings.ToLower: models the ASCII-only `strtolower` of PHP 8.2 and later. Earlier PHP versions lower-case by the current locale.
- Concurrent access to the cache bin belongs to the host store. Strings are sequences of characters with no byte encoding.
