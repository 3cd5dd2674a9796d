# WordPress.com Related Posts — relevance query logic in Dafny

This project models the query logic of the `WPCOM_Related_Posts` WordPress
plugin class, which finds posts related to a given post. The class has two
modes. With an Elasticsearch index it extracts keywords from the post's
title and content and sends a query string to the index. Without one it
falls back to a `WP_Query` for recent posts in the post's first category.

The model has four modules:

- `Php` (`php.dfy`): the PHP built-ins the class relies on, stated over byte
  strings. A PHP string is a `seq<Byte>`, where a `Byte` is a character
  below 256, so `strlen` is the sequence length. It covers `explode(' ', …)`
  and `implode(' ', …)` with both round trips, `trim` with the character
  list `?.;,"`, the array union operator `+` on 0-indexed lists, and
  `array_unique` (first occurrence wins, order kept). It also covers the
  `(int)` cast and truthiness of null, booleans, integers, floats, strings,
  arrays and objects, and `wp_parse_args`.
- `Tokenizer` (`tokenizer.dfy`): `get_keywords`. It is a method with the
  source's `foreach` loop, `continue` and `break`, proved equal to the
  specification function `Keywords`. `Keywords` takes the first `word_count`
  trimmed tokens longer than four bytes.
- `Query` (`query.dfy`): the arrays `get_related_posts` builds. These are the
  options merged with their defaults, the Elasticsearch request (query
  string, site name, size, type filter) and the fallback `WP_Query`
  arguments.
- `Service` (`service.dfy`): the object itself. `Plugin.Instance` is the
  singleton slot. `RelatedPosts.ActionInit` makes the one-time mode
  decision. `RelatedPosts.GetRelatedPosts` dispatches to the backend picked
  by the mode.

The code has these properties, which the model keeps:

- The search request asks for exactly `posts_per_page` results, not one
  more.
- Neither path removes the source post from its results.
- The fallback query has no exclusion argument.
- Title and body keywords are combined with PHP's key-wise `+`, not by
  concatenation. A body keyword at a position the title list already
  occupies is dropped, even when it differs from every title keyword.
  `Query.KeyUnionExample` shows that "plugins" and "extend" never reach the
  query for the title "Exploring Wordpress Plugins".

## Model

| member | source | states |
|---|---|---|
| `Php.Explode` | wpcom-related-posts.php:137 | `explode(' ', $text)` always yields at least one piece, and no piece contains a space |
| `Php.ImplodeExplode` | wpcom-related-posts.php:137 | joining the pieces of any text with single spaces gives the text back, so the tokenizer loses no byte except at the cut points |
| `Php.ExplodeImplode` | wpcom-related-posts.php:99 | splitting the `implode(' ', …)` of a non-empty list of space-free words gives back exactly that list |
| `Php.TrimLeftCut` | wpcom-related-posts.php:139 | the left half of `trim($word, '?.;,"')` leaves a suffix of the word, everything it cut is in the set, and what remains does not start with a character of the set |
| `Php.TrimRightCut` | wpcom-related-posts.php:139 | the right half of the trim leaves a prefix of the word, everything it cut is in the set, and what remains does not end with a character of the set |
| `Php.TrimEnds` | wpcom-related-posts.php:139 | neither end of a trimmed word is a character of the set |
| `Php.TrimKeepsOut` | wpcom-related-posts.php:139 | a byte the word lacks is not in the trimmed word either, so trimming never brings in a space |
| `Php.TrimIsSlice` | wpcom-related-posts.php:139 | a trimmed word is a contiguous slice of the original, and everything cut off on either side is in the set |
| `Php.TrimIdempotent` | wpcom-related-posts.php:139 | trimming twice is the same as trimming once |
| `Php.ArrayUnion` | wpcom-related-posts.php:98 | on 0-indexed lists, `$left + $right` has every key of either side, and each key takes the left value when the left has that key |
| `Php.ArrayUnique` | wpcom-related-posts.php:99 | `array_unique` keeps exactly the values of its input, each once |
| `Php.ArrayUniqueOrder` | wpcom-related-posts.php:99 | the survivors of `array_unique` keep the order of their first occurrences |
| `Php.ArrayUniqueOfDistinct` | wpcom-related-posts.php:99 | `array_unique` leaves a list without repeats unchanged |
| `Php.IntCastOfDecimalText` | wpcom-related-posts.php:105 | `(int)` of the decimal text of a number, optionally with a minus sign and trailing non-digits, is that number |
| `Php.IntCastOfFloat` | wpcom-related-posts.php:105 | `(int)` of a float truncates toward zero: the result lies between zero and the float and is less than one away from it |
| `Php.IntCastOfIntString` | wpcom-related-posts.php:105 | `(int)` of the text PHP gives for an integer is that integer, negative ones included |
| `Php.ParseArgs` | wpcom-related-posts.php:90 | for string keys, `wp_parse_args` keeps every key of either array, and the caller's value wins over the default |
| `Tokenizer.QualifyingShape` | wpcom-related-posts.php:137-143 | there are no more kept tokens than pieces; every token that survives trimming and the length test is longer than four bytes, and neither end is in the trim set; when the pieces hold no space, neither do the tokens |
| `Tokenizer.Keywords` | wpcom-related-posts.php:135-148 | the keywords are well formed (longer than 4 bytes, no space, no trim character at either end); there are at most `word_count` of them when `word_count` is at least 1; they are a prefix of the text's qualifying-token stream; and they fall short of the whole stream only when the cap is at least 1 and was reached, so a cap below 1 returns the whole stream |
| `Tokenizer.QualifyingAppend` | wpcom-related-posts.php:137-146 | the qualifying tokens of two token lists placed end to end are the qualifying tokens of the first list followed by those of the second |
| `Tokenizer.GetKeywords` | wpcom-related-posts.php:135-148 | the loop with its `continue` and its early `break` returns exactly `Keywords(text, word_count)` |
| `Tokenizer.KeywordsOfEmptyText` | wpcom-related-posts.php:137-147 | empty text yields no keywords, whatever the cap |
| `Tokenizer.KeywordsCapMonotone` | wpcom-related-posts.php:144-145 | a smaller cap gives a prefix of a larger cap, of length min(cap, stream length) |
| `Tokenizer.ExplodeAppend` | wpcom-related-posts.php:137 | exploding two texts joined by one space gives the pieces of the first followed by those of the second |
| `Tokenizer.KeywordsIgnoreRest` | wpcom-related-posts.php:144-145 | once the first part of a text has yielded `word_count` keywords, nothing after it affects the result |
| `Query.ResolvedOptions` | wpcom-related-posts.php:86-90 | after the merge, `posts_per_page` and `post_type` are present, holding the caller's values or else 5 and the post's own type, and every string-keyed option the caller passed is kept |
| `Query.CombinedKeywords` | wpcom-related-posts.php:98 | the combined list has every title keyword at its own position, then the body keywords from the title count onward, so its length is max(\|title\|, \|body\|) ≤ 5, and every entry is well formed |
| `Query.QueryWords` | wpcom-related-posts.php:99 | the query string splits back into the combined keywords without repeats, in first-occurrence order, one space apart, with no empty word; it is empty exactly when there are no keywords |
| `Query.TitleKeywordsInQuery` | wpcom-related-posts.php:98-99 | every title keyword of the post is a word of the query string |
| `Query.KeywordsOfPlainWords` | wpcom-related-posts.php:137-147 | a text of one to five well-formed words separated by single spaces yields exactly those words |
| `Query.QueryOfPlainWords` | wpcom-related-posts.php:98-99 | for such title and body texts whose key-wise union has no repeats, the query string is that union joined by spaces |
| `Query.KeyUnionExample` | wpcom-related-posts.php:98-99 | for the title "Exploring Wordpress Plugins" and the body "Wordpress plugins extend functionality significantly", the query is "Exploring Wordpress Plugins functionality significantly" |
| `Query.SearchSize` | wpcom-related-posts.php:105 | the request `size` is `posts_per_page` exactly, for any integer, negative ones such as -1 included, whether given as an integer or as its text, and 5 by default; no extra result is requested |
| `Query.SearchTypeFilter` | wpcom-related-posts.php:107-111 | `filters.type.value` is present exactly when the effective post type is a single registered string other than 'all', and then it holds that string |
| `Query.FallbackArguments` | wpcom-related-posts.php:115-120 | the fallback arguments carry `(int)posts_per_page` (5 by default), and `cat` is present exactly when the post has a category and then holds the first category's `term_id` |
| `Service.RelatedPosts.constructor` | wpcom-related-posts.php:43-45 | a new object is in fallback mode, with no index and no notice hooked |
| `Service.RelatedPosts.ActionInit` | wpcom-related-posts.php:52-72 | Elasticsearch mode is on exactly when the plugin file exists and the index lookup is truthy; the index is stored only when the file exists; the no-index notice is hooked whenever the mode is off |
| `Service.RelatedPosts.GetRelatedPosts` | wpcom-related-posts.php:81-126 | the post id defaults to the current post; in Elasticsearch mode the result is the index's answer to the request built from `Keywords(title, 5)`, `Keywords(content, 5)` and the merged options, otherwise it is `WP_Query`'s answer to the fallback arguments, in both cases unfiltered |
| `Service.Plugin.constructor` | wpcom-related-posts.php:33 | the static slot starts empty |
| `Service.Plugin.Instance` | wpcom-related-posts.php:35-41 | the first call creates a fresh object and runs setup_actions once; later calls return the same object and run nothing |
| `Service.StartUp` | wpcom-related-posts.php:35-72 | after instance(), action_init and instance() again, both calls gave the same object, setup_actions ran once, the mode follows the two facts action_init saw, and the notice is hooked exactly when the mode is off |
| `Service.RepeatedCalls` | wpcom-related-posts.php:81-126 | get_related_posts changes no state, so two identical calls return the same list |

## Left out

- Hook registration with `add_action` (lines 49, 70, 155) is framework plumbing. It appears only as the `setupRuns` counter and the `noticeHooked` flag.
- `admin_notice_no_index` (lines 74-76) only prints HTML.
- `file_exists` and `require_once` of the search plugin (lines 55-57) are file-system I/O. The file check is the boolean `pluginFileExists`.
- `es_api_get_index` (line 60) is a foreign call. Its return value, `get_current_blog_id` and `site_url`/`parse_url` (line 59) are folded into the `indexLookup` input.
- `es_api_query_index`, `getResults` and hydrating the ids with `get_post` (lines 112-113) are foreign calls. The model returns the ids the `search` parameter gives, unchanged.
- `WP_Query` (lines 122-123) is replaced by the `query` parameter.
- `get_the_ID`, `get_post`, `get_post_type`, `get_the_category`, `get_post_types` and the site host are WordPress calls. They are fields of the `Site` input. A missing post reads as an empty title and content, post type `false`, and no categories.
- The array `post_type` branch (lines 107-108) is an empty `@todo`. It attaches no filter.
- `Query.SearchTypeFilter`: `in_array` and `'all' !=` are modelled as exact string comparison. PHP's loose comparison would also match numeric strings of equal value and some non-string values (for example `true`). Registered post type names are not numeric, so this is left out.
- `Php.IntCastOfDecimalText`: `(int)` on strings handles leading whitespace, a sign and leading digits. It does not model exponent notation (`"1e3"`), saturation at `PHP_INT_MAX`, or 64-bit wrap-around, because integers are unbounded here.
- `Php.IntCastOfFloat`: floats are modelled as exact reals. NaN, the infinities, rounding of float literals and the result of casting a float outside the 64-bit integer range are not modelled.
- `Php.ParseArgs`: `wp_parse_args` also accepts objects and query strings. Only arrays are modelled, as the class passes them.
- `Php.ParseArgs`: option keys are byte strings. PHP stores a decimal-integer key such as `"7"` as the integer 7, and `array_merge` inside `wp_parse_args` renumbers integer keys from 0. The model keeps such keys as given, so its promise that the caller's keys are kept holds in PHP only for keys that are not integers.
- `Query.ResolvedOptions`: "every option the caller passed is kept" likewise holds in PHP only for keys that are not integers; integer keys are renumbered by `array_merge`. The class reads only `posts_per_page` and `post_type`, which are not integer keys.
- Concurrency around the static `$instance` is not modelled. PHP runs a request single-threaded.
