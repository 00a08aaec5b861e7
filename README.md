# Content utilities of a blog front-end, in Dafny

The site reads blog posts from a content collection. Each post has front matter: a draft flag, a featured flag, a homepage-slider flag, a publication date, and optional lists of tags and authors.

This project models the utilities that query and summarise those posts:

- **the slug formatter** `slugify` (`src/utils/presentation.ts`). It turns free text into a URL-safe token.
- **the post queries** `getSortedPosts`, `getPostsByTag` and `getPostsByAuthor` (`src/utils/content.ts`). Each one filters the collection, sorts newest first, counts the filtered posts, and truncates to an optional limit.
- **the sibling lookup** `getPostWithSiblings` (`src/utils/content.ts`). It reads the posts at `index + 1` and `index - 1` of a given list, and gives `null` where that index is out of range.
- **the taxonomy listings** `getTags` and `getAuthors`, and the counters `getUniqueTagsWithCount` and `getUniqueAuthorsWithCount` (`src/utils/content.ts`). The counters group entries by slug in a `Map`. Each group keeps the first original text it saw and counts every occurrence. The tag counter then sorts the groups by original text.
- **the asset helpers** `getImage` and `resolveImagePath` (`src/utils/assets.ts`). `getImage` returns the `default` export of the first glob entry whose path contains a name, or `null` when no path does. `resolveImagePath` turns a CMS path `/assets/<file>` into the `default` export of the module loaded from `/src/assets/<file>`. It returns `null` when that key is missing or its export is falsy. Objects and every other value pass through unchanged.

The model has seven modules. Each module lives in its own file.

- `Common` (`common.dfy`): `Option` and `Result` wrappers.
- `Presentation` (`presentation.dfy`): the slug pipeline, one function per chained rewrite, and its properties. `PresentationExamples` (`presentation_examples.dfy`) evaluates concrete slugs.
- `Sorting` (`sorting.dfy`): `Array.prototype.sort` with a comparator.
  - `SortBy` is the stable order, defined by insertion.
  - `SortInPlace` is an in-place insertion sort on an `array`, proved to produce that order.
  - Lemmas prove that `SortBy` is a permutation, is sorted under a total preorder, leaves sorted input unchanged, and is idempotent.
- `Content` (`content.dfy`): the post queries.
  - The content collection is an input sequence in the order the collection yields it.
  - A filter callback that can throw is modelled with `Result`. The whole query then fails with the first error, as `getCollection` would.
  - The in-place `posts.sort(...)` is a method that copies the posts into an array and calls `SortInPlace`.
- `Taxonomies` (`taxonomy.dfy`): the listings and counters.
  - `CountBySlug` is the `forEach` over a `Map`. The map is a `map` from slug to entry plus a `seq` of keys in insertion order, and both are updated step by step.
  - The method is proved equal to `Tally`, a recursive specification. Lemmas then prove what `Tally` means.
- `Assets` (`assets.dfy`): JavaScript values as a tagged union with truthiness. `getImage` is a loop proved against a recursive first-match function. `resolveImagePath` is a three-way case split over a given module map.

## Model

| member | source | states |
|---|---|---|
| Presentation.Slugify | src/utils/presentation.ts:10-20 | every character of a slug is `a`-`z`, `0`-`9` or `-`, and no two hyphens are adjacent |
| Presentation.SlugifyFixesSlugs | src/utils/presentation.ts:10-20 | a string that already has slug form is its own slug |
| Presentation.SlugifyIdempotent | src/utils/presentation.ts:10-20 | slugifying a slug changes nothing |
| Presentation.SlugifyIgnoresSurroundingWhitespace | src/utils/presentation.ts:16-18 | whitespace before and after the text does not change its slug |
| Presentation.SlugifyIgnoresSurroundingSpaces | src/utils/presentation.ts:16 | `slugify(" " + t + " ") == slugify(t)` |
| Presentation.SlugifyKeepsAlnums | src/utils/presentation.ts:13-19 | deleting the hyphens of a slug leaves exactly the letters and digits of the decomposed, mark-free, lower-cased text, in order |
| Presentation.SlugifyAscii | src/utils/presentation.ts:15-19 | for ASCII text, the slug without hyphens is the lower-cased text's letters and digits |
| Presentation.SlugifyTwoWords | src/utils/presentation.ts:8-19 | two alphanumeric words joined by a space and followed by punctuation become `word1-word2`, lower-cased |
| Presentation.TrimShape | src/utils/presentation.ts:16 | `trim` returns a slice of the text, everything outside the slice is whitespace, and a non-empty result starts and ends with a non-whitespace character |
| Presentation.TrimIgnoresSurroundingWhitespace | src/utils/presentation.ts:16 | adding whitespace before and after a text does not change what `trim` returns |
| Presentation.FilterSelects | src/utils/presentation.ts:14-17 | every character left by a regex-class `replace(..., '')` is a character of the input outside the class |
| Presentation.HyphenateSpacesAlphabet | src/utils/presentation.ts:18 | after `replace(/\s+/g, '-')` every character is a hyphen or a non-whitespace character of the input |
| Presentation.HyphenateSpacesFixes | src/utils/presentation.ts:18 | text without whitespace is left unchanged |
| Presentation.CollapseHyphensShape | src/utils/presentation.ts:19 | after `replace(/-+/g, '-')` no two hyphens are adjacent, every character comes from the input, and the result starts with a hyphen exactly when the input does |
| Presentation.CollapseHyphensFixes | src/utils/presentation.ts:19 | text without a double hyphen is left unchanged |
| Presentation.NfdFixes | src/utils/presentation.ts:13 | text in which no character is a key of the decomposition table is unchanged by the decomposition |
| PresentationExamples.SlugifyDocumentedExample | src/utils/presentation.ts:8 | `slugify("Hello World!") == "hello-world"` |
| PresentationExamples.SlugifyStripsAccent | src/utils/presentation.ts:13-14 | `slugify("é") == "e"` |
| PresentationExamples.SlugifyTrailingHyphen | src/utils/presentation.ts:16-19 | `slugify("a !") == "a-"`: trimming runs before punctuation is dropped |
| Sorting.SortInPlace | src/utils/content.ts:33-35 | the in-place sort leaves the array in the stable order `SortBy` of its old contents |
| Sorting.InsertInPlace | src/utils/content.ts:33-35 | moving one element back into the sorted prefix yields the insertion of that element, and the rest of the array is unchanged |
| Sorting.SortByPermutes | src/utils/content.ts:33 | sorting keeps the same elements with the same multiplicities |
| Sorting.SortBySorts | src/utils/content.ts:33-35 | under a total preorder every element may stay before every later one |
| Sorting.SortByKeepsSorted | src/utils/content.ts:33 | already-sorted input is returned unchanged |
| Sorting.SortByStable | src/utils/content.ts:33 | the sort is stable: under a total preorder, the elements that tie with any `x` keep their input order |
| Sorting.InsertKeepsTies | src/utils/content.ts:33 | one insertion puts the inserted element after every element it ties with and keeps the order of the tied elements |
| Sorting.SortByIdempotent | src/utils/content.ts:33 | sorting twice is sorting once |
| Sorting.InsertPermutes | src/utils/content.ts:33 | one insertion adds exactly the inserted element |
| Sorting.InsertSorted | src/utils/content.ts:33 | inserting into a sorted sequence keeps it sorted |
| Content.NewerOrSameIsTotalPreorder | src/utils/content.ts:33-35 | the publication-date comparator is total and transitive |
| Content.NewestFirstKeepsSameDateOrder | src/utils/content.ts:33-35 | the comparator ties exactly the posts with the same publication date, and the newest-first sort keeps such posts in collection order |
| Content.Truncate | src/utils/content.ts:40 | `limit ? posts.slice(0, limit) : posts` is a prefix, is the whole list for a missing or zero limit, and has the length slicing gives otherwise |
| Content.PageOrdered | src/utils/content.ts:33-40 | the returned posts are sorted newest first and are a prefix of the stable sort of the filtered posts, which is a permutation of them |
| Content.PageSelects | src/utils/content.ts:33-40 | the returned posts are a sub-multiset of the filtered posts |
| Content.PageCounts | src/utils/content.ts:37-41 | `total_posts` is the filtered count before truncation and bounds the page; a missing or zero limit returns everything |
| Content.SortAndPage | src/utils/content.ts:33-42 | sorting in place, counting and truncating produce the page |
| Content.ListedSelects | src/utils/content.ts:23-31 | the filter keeps each post exactly as often as it occurs, when it is not a draft and meets the featured and slider flags |
| Content.GetSortedPosts | src/utils/content.ts:18-43 | `getSortedPosts` computes the filtered, sorted, truncated page |
| Content.SortedPostsContract | src/utils/content.ts:18-43 | every returned post is in the collection and is not a draft; it is featured and on the slider when asked; posts are sorted newest first; `total_posts` counts every listed post and bounds the page |
| Content.GetPostWithSiblings | src/utils/content.ts:51-56 | `previous_post` is `posts[index + 1]` exactly when that index is in range and `null` otherwise; `next_post` is `posts[index - 1]` likewise |
| Content.SiblingsAreMutual | src/utils/content.ts:51-56 | the previous post of post `i` is the post whose next post is post `i` |
| Content.SiblingsAtTheEnds | src/utils/content.ts:52-53 | the newest post has no next post and the oldest has no previous post |
| Content.QueryByTerm | src/utils/content.ts:104-124 | filtering by a term, then sorting, counting and truncating, gives the query's value or its error |
| Content.GetPostsByTag | src/utils/content.ts:104-124 | `getPostsByTag` is the term query over tags |
| Content.GetPostsByAuthor | src/utils/content.ts:153-173 | `getPostsByAuthor` is the term query over authors |
| Content.SomeEntryMatchesPresent | src/utils/content.ts:112 | over entries that are all present, `some` succeeds and answers whether some lower-cased entry equals the needle |
| Content.SomeEntryMatchesThrows | src/utils/content.ts:112 | `some` throws exactly when a null entry comes before every match |
| Content.SelectByTermThrows | src/utils/content.ts:108-114 | the query throws exactly when the callback throws for some post |
| Content.SelectByTermSelects | src/utils/content.ts:108-114 | without an error, each post is kept as often as it occurs exactly when the callback accepts it |
| Content.SelectWithoutNeedle | src/utils/content.ts:109-111 | without a term, the callback keeps exactly the non-draft posts |
| Content.PostsByTermWithoutTerm | src/utils/content.ts:107-112 | a missing or empty term gives the same result as `getSortedPosts` with the same limit |
| Content.PostsByTermIgnoresCase | src/utils/content.ts:109-112 | two terms with the same lower-case form give the same result |
| Content.PostsByTermContract | src/utils/content.ts:104-124 | every returned post is in the collection and accepted by the callback; posts are sorted newest first; `total_posts` counts the selected posts and bounds the page |
| Content.MatchesTermAccepts | src/utils/content.ts:111-112 | an accepted post is not a draft and, for a non-empty term, has an entry whose lower-case form equals the lower-cased term, with no null entry before it |
| Content.MatchFound | src/utils/content.ts:112 | a successful `some` has a present matching entry with no null before it |
| Content.MatchNoNullBefore | src/utils/content.ts:112 | a present entry equal to the needle with no null entry before it makes `some` answer true |
| Content.NoMatchFound | src/utils/content.ts:112 | a `some` that answers false has seen every entry present and none equal to the needle |
| Content.MatchesTermKeeps | src/utils/content.ts:111-112 | the filter keeps a non-draft post when, for a non-empty term, an entry equals the term case-insensitively and no null entry comes before it, as with tags `["Go", null]` and tag `"go"` |
| Content.MatchesTermRejects | src/utils/content.ts:111-112 | the filter drops a non-draft post only for a non-empty term when its entries are missing, or all present and none equal to the term case-insensitively |
| Taxonomies.GetTags | src/utils/content.ts:62-77 | `getTags` maps each present tag of the sorted non-draft posts to its original and slug |
| Taxonomies.GetAuthors | src/utils/content.ts:130-145 | `getAuthors` maps each present author of the sorted non-draft posts to its original and slug |
| Taxonomies.TermsOfSlugs | src/utils/content.ts:65-72 | each listed term's slug is the slug of its original, and the original is an entry of one of the posts |
| Taxonomies.TermsOfKeepsDuplicates | src/utils/content.ts:65-74 | each entry is listed once per occurrence across the posts: the `Set` of fresh objects removes nothing |
| Taxonomies.ListedTermsContract | src/utils/content.ts:62-77 | every listed term comes from a non-draft post of the collection, with its slug; each entry is listed as often as it occurs across those posts |
| Taxonomies.BumpShape | src/utils/content.ts:87-93 | one `forEach` step keeps every existing slug and original in place, and appends the new slug with count 1 |
| Taxonomies.BumpAt | src/utils/content.ts:88-89 | a slug already in the map has its count incremented in place |
| Taxonomies.BumpAppends | src/utils/content.ts:90-91 | a new slug is appended with its original and count 1 |
| Taxonomies.CountOfBump | src/utils/content.ts:87-93 | one step adds 1 to the count of the term's slug and changes no other count |
| Taxonomies.TotalBump | src/utils/content.ts:87-93 | one step adds 1 to the sum of the counts |
| Taxonomies.TallyDistinct | src/utils/content.ts:85-93 | the grouped entries have pairwise different slugs |
| Taxonomies.TallyCounts | src/utils/content.ts:85-93 | each slug's count is the number of input terms with that slug |
| Taxonomies.TallyPositive | src/utils/content.ts:85-93 | every count is at least 1 |
| Taxonomies.TallySum | src/utils/content.ts:85-93 | the counts add up to the number of input terms |
| Taxonomies.TallyCovers | src/utils/content.ts:85-93 | a slug is grouped exactly when some input term has it |
| Taxonomies.TallyFirstOccurrence | src/utils/content.ts:87-93 | each group keeps the original of its slug's first occurrence, and groups come in order of first occurrence, the `Map`'s insertion order |
| Taxonomies.CountBySlug | src/utils/content.ts:85-93 | the `forEach` over the `Map`, then `Array.from(map.values())`, yields the grouped entries |
| Taxonomies.LexLeTotal | src/utils/content.ts:95 | any two strings are ordered one way or the other |
| Taxonomies.LexLeTransitive | src/utils/content.ts:95 | the string order is transitive |
| Taxonomies.OriginalOrderIsTotalPreorder | src/utils/content.ts:95 | the by-original comparator is total and transitive |
| Taxonomies.GetUniqueTagsWithCount | src/utils/content.ts:84-96 | the tag counts are the grouped entries stably sorted by original |
| Taxonomies.UniqueTagsContract | src/utils/content.ts:84-96 | the tag counts are sorted by original and are exactly the grouped entries, with their multiplicities |
| Taxonomies.GetUniqueAuthorsWithCount | src/utils/content.ts:180-192 | the author counts are the grouped entries, unsorted |
| Taxonomies.UniqueAuthorsContract | src/utils/content.ts:180-192 | the author counts have distinct slugs, count every occurrence, are all at least 1, add up to the input length, and keep first originals in first-occurrence order |
| Assets.IncludesIff | src/utils/assets.ts:23 | `includes` holds exactly when the needle is the slice of the path at some position |
| Assets.IncludesEmpty | src/utils/assets.ts:23 | every path includes the empty name |
| Assets.GetImage | src/utils/assets.ts:13-28 | the loop returns the default export of the first entry whose path contains the name, or `null` |
| Assets.ImageOfFirstMatch | src/utils/assets.ts:22-25 | an entry that matches, with no earlier entry matching, supplies the result |
| Assets.ImageOfNoMatch | src/utils/assets.ts:27 | with no matching entry the result is `null` |
| Assets.ImageOfFound | src/utils/assets.ts:22-25 | a non-null result is the default export of some matching entry |
| Assets.ImageOfNullIff | src/utils/assets.ts:13-28 | when no default export is `null`, the result is `null` exactly when no path contains the name |
| Assets.ImageOfEmptyName | src/utils/assets.ts:23-24 | an empty name yields the first entry's default export |
| Assets.ReplaceFirst | src/utils/assets.ts:44 | `replace` with a string pattern that is a prefix replaces that prefix; with no occurrence the string is unchanged |
| Assets.DefaultOrNull | src/utils/assets.ts:48-49 | `imageModule?.default \|\| null` is the stored default export when the key is present and the export is truthy, and `null` otherwise |
| Assets.ResolveImagePath | src/utils/assets.ts:36-58 | objects come back unchanged; a CMS path resolves to `null` or a truthy value; every other value comes back unchanged |
| Assets.ResolveCmsPath | src/utils/assets.ts:43-49 | `"/assets/" + name` resolves to the truthy default export stored under `"/src/assets/" + name`, or `null` |
| Assets.ResolveKeepsOtherStrings | src/utils/assets.ts:43-57 | a string without the `/assets/` prefix comes back unchanged |
| Assets.ResolveIdempotent | src/utils/assets.ts:36-58 | resolving twice is resolving once, as long as no stored default export is itself a CMS path |

## Left out

- Unicode in `slugify`: `normalize('NFD')` is modelled by a table of the precomposed letters U+00C0 to U+00FF. Combining marks U+0300 to U+036F are removed as the source does. `toLowerCase` lower-cases ASCII letters only. Full Unicode decomposition and case mapping are data tables that are not modelled.
- Case-insensitive matching in `getPostsByTag` and `getPostsByAuthor` uses the same ASCII lower-casing.
- `localeCompare` in `getUniqueTagsWithCount` is replaced by code-point lexicographic order, `LexLe`. Locale collation is outside the model. What is proved holds for any total preorder.
- Publication dates are integers, standing for `new Date(...).getTime()`. Invalid dates, where the comparator returns `NaN`, are not modelled. `limit` is an integer; fractional and `NaN` limits are not modelled. The `index` of `getPostWithSiblings` is an integer; a fractional index, for which `posts[index + 1] || null` is `null`, is not modelled.
- `getCollection`, the framework call, is represented by its input sequence, in the order the collection yields it. `async`/`await` and the fetch failing are left out.
- `formatDate` in `src/utils/presentation.ts` and the autoplay script in `src/scripts/autoplay-video-handler.ts` are not part of this model. Neither belongs to the modelled utilities.
- The `console.error` logging and the `try`/`catch` around `import.meta.glob` in `resolveImagePath` are left out. The glob is given as a map, so the lookup cannot throw.
- JavaScript values are restricted to `undefined`, `null`, booleans, integers, strings and objects. Functions, symbols, `NaN` and big integers are not modelled. An object is only its identity and its property names.
- The glob record of `getImage` is a sequence of entries in `for...in` order. Integer-like keys, which JavaScript visits first, are not reordered.
- The order in which `Array.prototype.sort` calls its comparator is not modelled. Only the stable result order, which the ECMAScript specification requires, is modelled.

## Code notes

- **Slugs can start or end with a hyphen.** `slugify` trims at `src/utils/presentation.ts:16` before it removes other characters at line 17. So `"a !"` becomes `"a-"`, and an input that starts with `-` keeps that hyphen. `PresentationExamples.SlugifyTrailingHyphen` proves the first case. `Presentation.Slugify` guarantees the alphabet and the absence of double hyphens, not the absence of leading or trailing hyphens.
- **`getTags` and `getAuthors` do not remove duplicates.** Their comments promise "all unique tags" and "all unique authors" (`src/utils/content.ts:59`, `src/utils/content.ts:127`). But the `Set` at lines 67-74 and 135-142 holds freshly built objects, which are never equal to each other. `Taxonomies.TermsOfKeepsDuplicates` proves that each entry is listed once per occurrence.
- **The counters count entries, not posts.** Each `forEach` step at `src/utils/content.ts:87-93` counts one entry, so a post that lists the same tag twice counts twice.
- **Tag and author queries can throw.** `postTag.toLowerCase()` at `src/utils/content.ts:112` and `postAuthor.toLowerCase()` at line 161 throw when they reach a `null` entry before any match. The queries return `Err` in that case.
