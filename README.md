# Autun Infos reader: a Dafny model of the feed list and the article reader

Autun Infos is a small Next.js client for a local news site. Its two
client components are modelled here:

- **The feed list** (`components/RSSFeed.tsx`) shows the feed items.
  - Favourites are kept in a JavaScript `Set` of item ids and written to local storage under the key `Favorites`.
  - A search box filters items by a case-insensitive substring match on the title.
  - A second tab shows the favourites among the filtered items.
  - Dates are formatted, or replaced by the placeholder `Date inconnue`.
- **The article reader** (`components/Reader.tsx`) cleans up the article HTML in two stages:
  - a chain of eight global regular-expression replacements;
  - three loops over the resulting DOM:
    - anchors whose text asks to "cliquez ici pour" get an in-app fetch handler;
    - every other anchor is meant to become a button that opens the link in a new tab, but the loop skips the anchor after each one it replaces (see "## Findings");
    - every image is restyled.

The project is organised into these modules:

| module | file | what it holds |
|---|---|---|
| `Wrappers` | `wrappers.dfy` | `Option` |
| `Text` | `text.dfy` | `toLowerCase` and `includes` |
| `Lists` | `lists.dfy` | `Array.prototype.filter` and the subsequence relation |
| `OrderedSets` | `ordered_sets.dfy` | a `Set<string>` as a duplicate-free sequence in insertion order, as `Array.from` iterates it; `add`, `delete` and `new Set(list)` |
| `Storage` | `storage.dfy` | local storage, as a class over a map from keys to stored lists |
| `Feed` | `feed.dfy` | the feed list: the pure derivations as functions, and the component state as the class `FeedView` whose methods update the favourites and the storage |
| `Patterns` | `patterns.dfy` | the fragment of ECMAScript regular expressions the cleanup uses, described below, and global replacement by the empty string (`Strip`) |
| `Cleanup` | `cleanup.dfy` | the eight expressions of the cleanup chain and its composition |
| `ArticleDom` | `article_dom.dfy` | the DOM passes over the article content, as the class `ArticleContent` |

The regular-expression fragment in `Patterns` has:
- character classes `\d`, a literal character, `[^<>]`, and `.`;
- quantifiers: exactly once, greedy `+` and greedy `?`;
- a backtracking matcher that tries alternatives in ECMAScript's priority order.

How the DOM is modelled:
- The article content is the sequence of its anchor and button elements in document order.
- `getElementsByTagName('a')` returns a live collection. Its `i`-th entry is `LinkPos(nodes, i)`, the position of the `i`-th element that is still an anchor, and its length is `LinkCount(nodes)`.
- `replaceChild` therefore shrinks the collection under the running loop.

Two facts about the code shape the model:
- The replacements overlap, so their order matters: `**IMPRIMER L'ARTICLE` (components/Reader.tsx:48) must go before the bare `IMPRIMER L'ARTICLE` (components/Reader.tsx:53), or `**` is left behind (`Cleanup.PrintButtonBeforeLabel`).
- `formatDate` is called with `item.date_published` and `item.content_html` (components/RSSFeed.tsx:124, 147), so its second argument is the item's HTML content.

## Model

| member | source | states |
|---|---|---|
| Text.LowerChar | components/RSSFeed.tsx:83 | an ASCII or Latin-1 capital maps to its lower-case form (+32); every other character maps to itself; the result is never upper case |
| Text.Lower | components/RSSFeed.tsx:83 | `toLowerCase` keeps the length and lowers each character independently |
| Text.LowerIdempotent | components/RSSFeed.tsx:83 | lowering twice is lowering once |
| Text.ContainsIff | components/RSSFeed.tsx:83 | `includes(w)` holds exactly when `w` occurs at some index as a contiguous block |
| Text.ContainsEmpty | components/RSSFeed.tsx:82-84 | every string includes the empty string |
| Text.Contains | components/RSSFeed.tsx:83 | `includes(w)` holds when `s` starts with `w`, and only when `w` is no longer than `s`; `ContainsIff` gives the exact occurrence condition |
| Lists.Filter | components/RSSFeed.tsx:82-86 | `filter` never lengthens the list |
| Lists.FilterIsSubsequence | components/RSSFeed.tsx:82-86 | `filter` keeps the survivors in their original order |
| Lists.FilterMembership | components/RSSFeed.tsx:82-86 | an element survives exactly when it was present and passes the test |
| Lists.FilterCounts | components/RSSFeed.tsx:82-86 | every copy of a passing element is kept, and every copy of a failing one is dropped |
| Lists.FilterKeepsAll | components/RSSFeed.tsx:82-84 | a test passed by every element keeps the whole list |
| Lists.FilterFilter | components/RSSFeed.tsx:82-86 | filtering twice equals filtering once by the conjunction |
| Lists.FilterCongruent | components/RSSFeed.tsx:82-84 | tests that agree everywhere filter alike |
| OrderedSets.Add | components/RSSFeed.tsx:47 | `set.add`: membership gains exactly `x`, no duplicate appears, and an existing element leaves the set as it was |
| OrderedSets.Delete | components/RSSFeed.tsx:45 | `set.delete`: membership loses exactly `x` and no duplicate appears |
| OrderedSets.Build | components/RSSFeed.tsx:61 | `new Set(list)` has no duplicates and exactly the list's elements |
| OrderedSets.DeleteAbsent | components/RSSFeed.tsx:45 | deleting an absent id changes nothing |
| OrderedSets.DeleteAfterAdd | components/RSSFeed.tsx:45-47 | deleting a freshly added id restores the previous set, order included |
| OrderedSets.BuildOfDistinct | components/RSSFeed.tsx:55-61 | a set built from a repeat-free list iterates in that list's order |
| Storage.LocalStorage.GetItem | components/RSSFeed.tsx:59 | `getItem` returns the stored value, or null exactly when the key is absent |
| Storage.LocalStorage.SetItem | components/RSSFeed.tsx:55 | `setItem` replaces the value of that key and of no other |
| Feed.IsFavorite | components/RSSFeed.tsx:65 | `favorites.has(item.id)`; `FilteredFavoritesExact` states which items it lets through |
| Feed.TitleMatches | components/RSSFeed.tsx:83 | the lower-cased title includes the lower-cased search; `SearchIgnoresCase` and `EmptySearchKeepsAll` state its laws |
| Feed.FilteredItems | components/RSSFeed.tsx:82-84 | never longer than the items; `FilteredItemsExact` pins it down as the matching items in feed order, every copy |
| Feed.FilteredFavorites | components/RSSFeed.tsx:86 | never longer than `filteredItems`; `FilteredFavoritesExact` pins it down as the matching favourites in feed order |
| Feed.Toggled | components/RSSFeed.tsx:43-48 | after a toggle the id is a member exactly when it was not; every other id keeps its membership; the set stays duplicate-free |
| Feed.FormatDate | components/RSSFeed.tsx:67-80 | `Date inconnue` when either argument is empty; otherwise the rendering of the date |
| Feed.ToggleTwice | components/RSSFeed.tsx:41-52 | toggling the same id twice restores the membership; an id that was absent leaves the set exactly as it was |
| Feed.FilteredItemsExact | components/RSSFeed.tsx:82-84 | `filteredItems` keeps, in feed order and with every copy, exactly the items whose lower-cased title includes the lower-cased search |
| Feed.EmptySearchKeepsAll | components/RSSFeed.tsx:82-84 | an empty search shows every item |
| Feed.SearchIgnoresCase | components/RSSFeed.tsx:83 | two searches that agree after lowering show the same items |
| Feed.SearchLowered | components/RSSFeed.tsx:83 | searching for the lowered text is the same as searching for the text itself |
| Feed.FilteredFavoritesExact | components/RSSFeed.tsx:86 | `filteredFavorites` is an ordered sub-list of `filteredItems` and of the items; it holds exactly the matching favourites; it equals searching among the favourites |
| Feed.SaveThenLoad | components/RSSFeed.tsx:54-63 | saving a set with `saveFavorites` and reading it back with `loadFavorites` gives the same set in the same order; only the `Favorites` key changes |
| Feed.FeedView.constructor | components/RSSFeed.tsx:21-23 | the initial state has no items, no favourites and an empty search |
| Feed.FeedView.SaveFavorites | components/RSSFeed.tsx:54-56 | the list is stored under `Favorites`, and no other key changes |
| Feed.FeedView.LoadFavorites | components/RSSFeed.tsx:58-63 | no stored value leaves the favourites unchanged; a stored list becomes the set of its elements; the set stays duplicate-free |
| Feed.FeedView.ToggleFavorite | components/RSSFeed.tsx:41-52 | the new set is `Toggled` of the previous one and becomes the state; it is exactly what is stored under `Favorites`; items and search are untouched |
| Feed.ToggleThenReload | components/RSSFeed.tsx:41-63 | loading right after a toggle yields the toggled set, and the storage holds exactly that set |
| Patterns.RunEnd | components/Reader.tsx:47-49 | a greedy run ends at the first character outside the class |
| Patterns.MatchEnd | components/Reader.tsx:45-53 | a match found at `i` ends within the string, not before `i` |
| Patterns.Backtrack | components/Reader.tsx:47-49 | a `+` gives back characters one at a time but keeps at least one |
| Patterns.Strip | components/Reader.tsx:45-53 | `replace(re, '')` never lengthens the string |
| Patterns.StripWithoutMatch | components/Reader.tsx:45-53 | a string where the expression matches nowhere comes back unchanged |
| Patterns.StripIsSubsequence | components/Reader.tsx:45-53 | the replacement only deletes characters; it never adds or reorders any |
| Patterns.FirstAtomFails | components/Reader.tsx:45-53 | an expression cannot match where its mandatory first character class fails |
| Patterns.NoStartNoMatch | components/Reader.tsx:45-53 | a string with no character that can start a match comes back unchanged |
| Patterns.LiteralThen | components/Reader.tsx:48-53 | a literal prefix consumes exactly its own characters, or the match fails |
| Patterns.StripLiteral | components/Reader.tsx:48-53 | a literal expression deletes the word's occurrences left to right, without overlap |
| Patterns.FixedMatch | components/Reader.tsx:46 | an expression without quantifiers matches exactly where the string fits it character by character |
| Patterns.RunEndExact | components/Reader.tsx:47-49 | the longest run is the run that cannot be extended |
| Patterns.RepeatAlone | components/Reader.tsx:49 | a trailing `[^<>]+` takes the whole longest run |
| Patterns.RepeatUpTo | components/Reader.tsx:49 | a trailing `[^<>]+` over a run that stops at `j` matches exactly up to `j` |
| Patterns.RepeatThen | components/Reader.tsx:47 | when the rest of the expression matches right after the longest run, that is the match; nothing is given back |
| Patterns.DeleteWordWhole | components/Reader.tsx:48 | a word deletes itself completely |
| Patterns.DeleteWordAfterStars | components/Reader.tsx:53 | for a word that does not start with `*`, deleting it from `**` followed by that word leaves `**` |
| Cleanup.CleanUp | components/Reader.tsx:45-53 | the cleaned HTML is never longer than the original |
| Cleanup.CleanUpWithoutFurniture | components/Reader.tsx:45-53 | HTML matching none of the eight expressions comes back unchanged |
| Cleanup.DateStamp | components/Reader.tsx:46 | the date expression; `DateStampMatch` states where it matches and how much it takes |
| Cleanup.ReadCount | components/Reader.tsx:47 | the counter expression; `ReadCountMatch` states what it removes |
| Cleanup.PrintButton | components/Reader.tsx:48 | the print-button expression; `PrintButtonDeleted` states that it deletes the button whole |
| Cleanup.Breadcrumb | components/Reader.tsx:49 | the breadcrumb expression; `BreadcrumbMatch` states what it removes |
| Cleanup.JoinUs | components/Reader.tsx:50 | the literal `Pour nous rejoindre.`; `StripLiteral` states that its occurrences are deleted left to right |
| Cleanup.HomeImage | components/Reader.tsx:51 | the literal home-image URL; `StripLiteral` states that its occurrences are deleted left to right |
| Cleanup.PrintIcon | components/Reader.tsx:52 | the print-icon URL with an unescaped `.`; `PrintIconAnyChar` and `PrintIconNotAstral` state which characters it accepts there |
| Cleanup.PrintLabel | components/Reader.tsx:53 | the bare label; `PrintLabelLeavesStars` states what it leaves of the print button |
| Cleanup.DateStampFits | components/Reader.tsx:46 | a `dd/dd/dddd dd:dd` prefix fits the date expression |
| Cleanup.FitsDateStamp | components/Reader.tsx:46 | whatever fits the date expression is such a prefix |
| Cleanup.DateStampMatch | components/Reader.tsx:46 | the date expression matches exactly 16 characters, and only at a date stamp |
| Cleanup.StripDateStamps | components/Reader.tsx:46 | the first step deletes the date stamps left to right, without overlap, keeping everything else |
| Cleanup.ReadCountWord | components/Reader.tsx:47 | after the digits, ` lecture` matches, followed by one `s` when one is present |
| Cleanup.ReadCountMatch | components/Reader.tsx:47 | a counter is removed whole: all its digits, ` lecture`, and one following `s` if present |
| Cleanup.BreadcrumbFirstRun | components/Reader.tsx:49 | the first `[^<>]+` first runs over `a` and its trailing space |
| Cleanup.BreadcrumbNoMiddleAtEnd | components/Reader.tsx:49 | at the end of that run, ` > ` cannot follow, so the run must give back |
| Cleanup.BreadcrumbMiddle | components/Reader.tsx:49 | one character back, ` > b` matches up to the next angle bracket |
| Cleanup.BreadcrumbSecondRun | components/Reader.tsx:49 | the second `[^<>]+` runs to the end of `b` |
| Cleanup.BreadcrumbMatch | components/Reader.tsx:49 | a breadcrumb `> a > b`, with `a` and `b` non-empty and free of angle brackets, is removed up to the next angle bracket or the end |
| Cleanup.PrintIconAnyChar | components/Reader.tsx:52 | the unescaped `.` lets any BMP character except a line break stand before `png` |
| Cleanup.PrintIconNotAstral | components/Reader.tsx:52 | a character outside the BMP cannot stand for the `.`, since it takes one UTF-16 code unit and `p` cannot follow the first half of a pair |
| Cleanup.PrintButtonHasNoCounter | components/Reader.tsx:46-47 | the date and counter expressions leave `**IMPRIMER L'ARTICLE` alone |
| Cleanup.PrintButtonDeleted | components/Reader.tsx:48 | the print-button expression deletes `**IMPRIMER L'ARTICLE` whole |
| Cleanup.PrintLabelLeavesStars | components/Reader.tsx:53 | the bare label alone would turn `**IMPRIMER L'ARTICLE` into `**` |
| Cleanup.PrintButtonBeforeLabel | components/Reader.tsx:48-53 | the chain removes `**IMPRIMER L'ARTICLE` entirely; with the two steps swapped, `**` would remain |
| ArticleDom.TestsAreComplements | components/Reader.tsx:59-70 | the second loop's test is exactly the negation of the first loop's test |
| ArticleDom.IsInAppText | components/Reader.tsx:59 | the first loop's test on the lower-cased text; `TestsAreComplements` relates it to the second loop's test |
| ArticleDom.IsExternalText | components/Reader.tsx:70 | the second loop's test, with its own two negations; `TestsAreComplements` shows it is the negation of the first |
| ArticleDom.LinkCount | components/Reader.tsx:57 | `links.length` is at most the number of elements; `LinkPosInRange` ties it to the entries of the collection |
| ArticleDom.LinkPos | components/Reader.tsx:56-58 | `links[i]` is a position within the content |
| ArticleDom.LinkPosInRange | components/Reader.tsx:57-58 | `links[i]` exists exactly when `i < links.length`, and it is an anchor |
| ArticleDom.LinkPosFirstGap | components/Reader.tsx:56-58 | no anchor comes before `links[0]` |
| ArticleDom.LinkPosGap | components/Reader.tsx:56-58 | `links[i + 1]` comes after `links[i]`, with no anchor between them |
| ArticleDom.LinkPosAfterReplace | components/Reader.tsx:78 | replacing `links[i]` shortens the collection by one and moves every later entry down one place |
| ArticleDom.LinkPosSameKinds | components/Reader.tsx:60-63 | setting a handler leaves the collection unchanged |
| ArticleDom.InAppLink | components/Reader.tsx:60-63 | the hooked anchor keeps its text, HTML and `href`, and a click fetches `href` in the application |
| ArticleDom.Hooked | components/Reader.tsx:59-64 | hooking an element never changes whether it is an anchor |
| ArticleDom.HookAllExact | components/Reader.tsx:56-65 | the first loop gives exactly the in-app anchors the in-app fetch of their `href` and changes nothing else |
| ArticleDom.HookAll | components/Reader.tsx:56-65 | the first loop keeps the number of elements; `HookAllExact` states its effect on each one |
| ArticleDom.AsButton | components/Reader.tsx:71-77 | the button keeps the anchor's HTML, has class `styled-button`, and a click opens `href` in a new tab |
| ArticleDom.ButtonPass | components/Reader.tsx:67-80 | the second loop keeps the number of elements and never touches the elements before the walk's start |
| ArticleDom.SkipPlain | components/Reader.tsx:67-80 | elements that are not anchors pass through unchanged |
| ArticleDom.ButtonPassChanges | components/Reader.tsx:67-80 | every element either stays as it was, or is an external anchor that becomes its button |
| ArticleDom.InAppLinksKept | components/Reader.tsx:70 | an in-app anchor is never replaced |
| ArticleDom.FirstLinkReplaced | components/Reader.tsx:68-79 | the first anchor, if external, becomes a button that opens its `href` in a new tab |
| ArticleDom.ExternalLinksAlternate | components/Reader.tsx:68-80 | in a run of external anchors at adjacent elements, wherever it ends, only every second one is replaced, starting with the one the loop visits |
| ArticleDom.InAppLinkAfterRewrite | components/Reader.tsx:56-80 | after both loops, an in-app anchor is still an anchor whose click fetches its target in the application |
| ArticleDom.Converted | components/Reader.tsx:70-79 | after the intended conversion, an anchor is left only if it is in-app; non-anchors and in-app anchors stay as they were |
| ArticleDom.ConvertAllLeavesInAppOnly | components/Reader.tsx:67-80 | the intended pass leaves only in-app anchors and turns every external anchor into its button |
| ArticleDom.SecondExternalLinkSkipped | components/Reader.tsx:68-80 | for two adjacent external anchors the loop as written leaves the second one an anchor, unlike the intended pass |
| ArticleDom.WalkStart | components/Reader.tsx:56-58 | the walk over the whole content may start at `links[0]` |
| ArticleDom.KeepStep | components/Reader.tsx:68-70 | a visit that keeps `links[i]` hands the rest of the walk to `links[i + 1]` |
| ArticleDom.ReplaceWalkMiddle | components/Reader.tsx:68-80 | after a replacement, the next anchor is passed over and the walk goes on at the one after it |
| ArticleDom.ReplaceWalkLast | components/Reader.tsx:68-80 | replacing the last anchor ends the walk |
| ArticleDom.ReplaceStep | components/Reader.tsx:68-79 | a visit that replaces `links[i]` shrinks the collection by one and hands the rest of the walk to the old `links[i + 2]`, now at index `i + 1` |
| ArticleDom.ArticleContent.constructor | components/Reader.tsx:42 | the content in the state in which the cleanup left it |
| ArticleDom.ArticleContent.HookInAppLinks | components/Reader.tsx:56-65 | the first loop visits every anchor, and its result is `HookAll` of the content |
| ArticleDom.ArticleContent.ReplaceExternalLinks | components/Reader.tsx:67-80 | the loop as written terminates, and its result is `ButtonPass` of the content |
| ArticleDom.ArticleContent.ReplaceExternalLinksFixed | components/Reader.tsx:67-80 | the corrected loop terminates, and its result is the intended conversion of every element |
| ArticleDom.ArticleContent.StyleImages | components/Reader.tsx:83-88 | every image gets the class `rounded-lg shadow-lg my-4 mx-auto` and `maxWidth = '100%'`; its source is untouched |
| ArticleDom.ArticleContent.RewriteAndStyle | components/Reader.tsx:56-88 | the three loops in order: the buttons pass over the hooked content, and every image restyled |

## Findings

| source | as written | input that shows it | evidently intended | confidence | as-written member | corrected member |
|---|---|---|---|---|---|---|
| components/Reader.tsx:68-80 | `i++` runs after `replaceChild` has removed `links[i]` from the live collection, so the next anchor shifts into slot `i` and is never visited | content with two adjacent anchors whose lower-cased texts contain neither "cliquez ici pour" nor "cliquez-ici pour": the second stays a navigating anchor | every anchor that fails the in-app test becomes a button | high; not executed | ArticleDom.SecondExternalLinkSkipped | ArticleDom.ArticleContent.ReplaceExternalLinksFixed |

`ArticleDom.ArticleContent.ReplaceExternalLinks` is the loop as written, and it is proved equal to `ButtonPass`. `ExternalLinksAlternate` then shows that only every second external anchor in a run is converted. The corrected loop advances `i` only past an anchor it keeps, and `ConvertAllLeavesInAppOnly` states what it achieves. The model still composes the passes in the order the code runs them (`RewriteAndStyle` uses the loop as written).

## Left out

- The API routes (`app/api/...`) and the page files: outside the two components. The network I/O inside the components (`fetchRSS`, `fetchArticle`, components/RSSFeed.tsx:31-39 and components/Reader.tsx:23-34) is left out as well.
- `fetchArticle` and the in-app re-fetch: a click handler is recorded as the tag `FetchInApp(href)`, not run.
- The click handlers' `e.preventDefault()` and `window.open(link.href, '_blank')`: these are recorded as the handler tags `FetchInApp` and `OpenInNewTab`.
- React state scheduling (`useState`, `useEffect`, the `setFavorites(prev => ...)` updater), rendering and JSX: the updater is taken to run once on the current state.
- JSON encoding in local storage: a stored value is the list itself. `JSON.stringify` of an array is never the empty string, so the `if (savedFavorites)` test is read as "a value is stored".
- Feed.FormatDate: the `Date` parsing, the comparison with today and the `fr-FR` rendering depend on the clock and the locale, so they are the parameter `dated`. Only the empty-argument guard is modelled.
- Text.LowerChar: only ASCII `A`–`Z` and the Latin-1 capitals `À`–`Þ` (except `×`) are lowered. The rest of Unicode case mapping is left out.
- The HTML parse behind `innerHTML`: the cleanup works on the HTML text, and the DOM passes work on the element sequence. The link between re-parsing the cleaned text and the elements is not modelled.
- `textContent` being `null`: element text is always a string in the model, which is what the DOM gives for elements.
- The image collection is an array of records with a class and a `maxWidth`, not the full `style` object.
- Cleanup.CleanUp: states only a length bound for the whole chain. Each step is proved to delete without reordering (`StripIsSubsequence`), but the composition over the eight steps is not stated.
- Strings are sequences of Unicode scalar values, not UTF-16 code units. The one place this could change a result is the unescaped `.` of components/Reader.tsx:52, which in JavaScript takes a single code unit. `AnyButLineBreak` therefore rejects a character outside the BMP; since `.` is followed there by `p`, the match fails in both readings. `\d`, the literals, `[^<>]+` and `includes` give the same results on scalars as on the code units of well-formed strings.
