# GCP release-notes tracker — a verified Dafny model of its core

The tracker is a single-page dashboard of Google Cloud products and their dated
changes. It comes with a persisted user-settings service and context provider,
an AI question-answering service and three build-time scripts. This project
models the logic of those pieces in Dafny and proves what they promise.

- **The dashboard's view state** (`App.tsx`) is the class
  `Dashboard.Dashboard`:
  - its state cells are products, favorites, "favorites only", the active
    change-type filters and the sort option;
  - it has the favorite and filter toggles;
  - its displayed-products pipeline has three steps: scope to favorites, narrow
    each product's changes to the active types and drop products left empty,
    then a stable sort.
  - The pipeline is the function `Dashboard.View`. The method
    `DisplayedProducts` computes it on a copied array sorted in place.
  - `Array.prototype.sort` is stable by the ECMAScript standard. It is modelled
    as an insertion sort (`StableSort.Sort`). `StableSort.SortUnique` shows
    that for a total preorder this is the one output every stable sort gives.
  - `localeCompare` is the parameter `nameLe` and `new Date(d).getTime()` is
    the parameter `ts`.
- **The settings service** (`services/userSettingsService.ts`) is the class
  `SettingsService.SettingsService`:
  - one JSON record lives under one key of the browser store;
  - a read or write that throws is swallowed;
  - the shared module-level `defaultSettings` object is handed out whenever
    nothing usable is stored. Callers then mutate that very object, and the
    model keeps this aliasing.
- **The settings provider** (`contexts/UserSettingsContext.tsx`) is the class
  `SettingsContext.SettingsProvider`. It holds a settings object that each
  operation replaces and persists.
- **The AI service** (`services/geminiService.ts`) is pure functions: the
  prompt context format, the prompt, and the three outcomes of
  `getAiAssistedAnswer`. The model call is the parameter `generate`.
- **The scripts:**
  - the catalog scraper's line loop (`scraper.ts`) is `Scraper.Scrape`;
  - the feed grouper's entry loop (`rss_parser.ts`) is `RssParser.Group`;
  - the icon updater's `map` (`icon_updater.ts`) is `IconUpdater.UpdateIcons`.
  - Each loop is a method proved equal to a specification function. The
    properties are proved as lemmas about those functions.
- **JavaScript string operations** (`split`, `join`, `trim`, `indexOf`,
  `includes`, `toLowerCase`) are modelled in `Text`. `\s` and `trim` use the
  exact ECMAScript white-space and line-terminator set.

Two behaviours of the code are modelled exactly as written:

- **`recent` sort and early dates.** A product without changes gets the
  timestamp 0 (`App.tsx:118-119`). Under `recent` it therefore sorts after
  products with a positive timestamp and before any dated before 1970
  (`Dashboard.UndatedAtZero`).
- **The icon slug.** The icon updater's slug pattern `/\\s/g`
  (`icon_updater.ts:29`) matches a backslash followed by `s`, not white space.
  It is modelled as written: `IconUpdater.SpaceStaysInSlug` and
  `IconUpdater.HyphenatedFileMissed` show that "Cloud Storage" keeps its space
  and so misses an icon file named `cloud-storage.svg`.

The entity field `type` of a change is named `kind` in the model, because
`type` is a Dafny keyword.

## Model

| member | source | states |
|---|---|---|
| Dashboard.Toggled | App.tsx:70-92 | the element is in the result exactly when it was not in the set; no other element changes |
| Dashboard.ToggledTwice | App.tsx:82-92 | toggling the same filter twice restores the set exactly |
| Dashboard.Dashboard.ToggleFavorite | App.tsx:70-80 | the favorites become the old favorites with the product id toggled; no other state cell changes |
| Dashboard.Dashboard.ToggleFilter | App.tsx:82-92 | the active filters become the old ones with the type toggled; nothing else changes |
| Dashboard.Dashboard.ClearFilters | App.tsx:94-96 | the active filters become empty; nothing else changes |
| Dashboard.Dashboard.constructor | App.tsx:12-28 | initial state: the given products and stored favorites, favorites-only off, no filters, sort `recent` |
| Dashboard.Dashboard.SetShowFavoritesOnly | App.tsx:26 | only the favorites-only flag changes, to the given value |
| Dashboard.Dashboard.SetSortOption | App.tsx:28 | only the sort option changes, to the given value |
| Dashboard.FavoritesStep | App.tsx:101-103 | off: the list is unchanged; on: exactly the products whose id is a favorite, in input order |
| Dashboard.KeepTypes | App.tsx:109 | exactly the changes of an active type, as an order-preserving subsequence |
| Dashboard.KeepTypesCount | App.tsx:109 | each change of an active type is kept as often as it occurs; every other change is dropped |
| Dashboard.NarrowAll | App.tsx:107-110 | one narrowed copy per product, in order, with only the changes replaced |
| Dashboard.TypeFilterStep | App.tsx:105-112 | no active type: the list is unchanged; otherwise every narrowed product with a change survives, none without one, in order |
| Dashboard.FavoritesStepCount | App.tsx:101-103 | with favorites-only on, each favorite product is kept as often as it occurs and every other product is dropped; off, every count is kept |
| Dashboard.TypeFilterStepCount | App.tsx:105-112 | with an active type, each narrowed product that still has a change is kept as often as it occurs, and no product without one |
| Dashboard.Filtered | App.tsx:100-112 | the list the sort receives is no longer than the input; with favorites-only on it holds only favorites; with an active type each product has a change and every change is of an active type |
| Dashboard.RecentKey | App.tsx:118-119 | the timestamp of the product's first remaining change, or 0 when none remains |
| Dashboard.Precedes | App.tsx:114-121 | `alphabetical`: a product may come first when its name collates no later; `recent`: when its key is no smaller, so the newest come first |
| Dashboard.UndatedAtZero | App.tsx:116-121 | under `recent` a product without changes comes after one with a positive timestamp and before one dated before 1970 |
| Dashboard.View | App.tsx:98-125 | the displayed products are exactly the filtered ones, as many of them |
| Dashboard.PrecedesPreorder | App.tsx:114-121 | both comparators are total preorders when the collation is, so the sort is well defined |
| Dashboard.Dashboard.DisplayedProducts | App.tsx:98-125 | the result equals the view of the current state (favorites scoping, type filter, then the sort) |
| Dashboard.ViewPermutation | App.tsx:98-125 | the displayed list is a rearrangement of the filtered list |
| Dashboard.ViewOnlyFavorites | App.tsx:101-103 | with favorites-only on, every displayed product is a favorite |
| Dashboard.ViewWithoutTypeFilter | App.tsx:105-112 | with no active type, the products are displayed with their changes untouched, each as often as it survives scoping |
| Dashboard.ViewAlphabetical | App.tsx:114-115 | `alphabetical`: names ascend under the collation, and products with equal names keep their input order |
| Dashboard.ViewRecent | App.tsx:116-121 | `recent`: first-change timestamps descend (0 for no change), and ties keep their input order |
| Dashboard.RecentExample | App.tsx:116-121 | dates 2024-01-01, none and 2024-05-01 are displayed third, first, second |
| Dashboard.AlphabeticalExample | App.tsx:114-115 | "Zeta", "alpha", "Beta" are displayed as "alpha", "Beta", "Zeta" under a collation ordering them so |
| Dashboard.FavoritesExample | App.tsx:101-103 | favorites-only with favorite p2 over p1, p2, p3 displays exactly p2 |
| Dashboard.NarrowedToGA | App.tsx:105-112 | filtering to GA keeps only the GA change of each product and keeps both products |
| Dashboard.FilterBeforeSortMatters | App.tsx:105-121 | sorting before the type filter orders the products differently from the code's order of steps |
| StableSort.SortInPlace | App.tsx:115-121 | the array ends as the stable sort of its old contents |
| StableSort.InsertInPlace | App.tsx:115-121 | one insertion step: the prefix becomes the old prefix with the next element inserted; the rest is untouched |
| StableSort.SortPermutation | App.tsx:115-121 | the sort neither loses nor invents elements |
| StableSort.SortSorted | App.tsx:115-121 | with a total preorder, adjacent elements end in comparator order |
| StableSort.SortStable | App.tsx:115-121 | elements that compare equal keep their relative input order |
| StableSort.SortUnique | App.tsx:115-121 | any sorted sequence that keeps every class of equal elements of the input in input order is the sort's output, so every stable sort agrees with this one |
| SettingsService.Load | services/userSettingsService.ts:13-21 | a record is read exactly when the read does not throw and the key holds parsable text; otherwise the default is used |
| SettingsService.AfterSave | services/userSettingsService.ts:23-29 | only the settings key changes, to the record's text; a throwing write leaves the store unchanged |
| SettingsService.WithFavorite | services/userSettingsService.ts:31-37 | the id is present afterwards; the old favorites are kept as a prefix, in order, followed by the id only when it was missing; the other fields are unchanged |
| SettingsService.WithFavoriteCount | services/userSettingsService.ts:33-34 | a missing id gains exactly one occurrence; every other count is unchanged |
| SettingsService.WithFavoriteNoDuplicates | services/userSettingsService.ts:33-34 | adding a favorite never introduces a duplicate |
| SettingsService.WithFavoriteIdempotent | services/userSettingsService.ts:33 | adding the same favorite twice equals adding it once |
| SettingsService.WithoutFavorite | services/userSettingsService.ts:39-43 | the id is absent afterwards, every other favorite is kept in order, and the other fields are unchanged |
| SettingsService.WithoutFavoriteCount | services/userSettingsService.ts:41 | every other id keeps exactly its number of occurrences |
| SettingsService.Storage.GetItem | services/userSettingsService.ts:15 | either the read throws, or it returns the stored text when the key is present |
| SettingsService.Storage.SetItem | services/userSettingsService.ts:25 | either the write throws and nothing changes, or the key now holds the text |
| SettingsService.SettingsService.Current | services/userSettingsService.ts:13-21 | the record a read returns now: the one stored under the key, or the shared default object's value when nothing usable is stored |
| SettingsService.Settings.constructor | services/userSettingsService.ts:5-11 | a fresh settings object holding the given record |
| SettingsService.SettingsService.constructor | services/userSettingsService.ts:3-11 | the shared default object is created holding favorites [], sortBy "name", category null |
| SettingsService.SettingsService.GetSettings | services/userSettingsService.ts:13-21 | returns a fresh parsed object, or the shared default object itself when nothing usable is stored; never throws |
| SettingsService.SettingsService.SaveSettings | services/userSettingsService.ts:23-29 | the store becomes the store after saving the object's record |
| SettingsService.SettingsService.AddFavorite | services/userSettingsService.ts:31-37 | saves only when the id was missing; when nothing usable is stored the shared default is the object updated; after a successful write a later read sees the id |
| SettingsService.SettingsService.RemoveFavorite | services/userSettingsService.ts:39-43 | always saves the filtered record; the shared default is updated when it was the one read; after a successful write a later read lacks the id |
| SettingsService.DefaultAliasing | services/userSettingsService.ts:16-19 | with an empty store whose writes fail, a favorite added through the service still shows in the next read, through the shared default |
| SettingsContext.SettingsProvider.constructor | contexts/UserSettingsContext.tsx:15 | the state starts as the settings the service returns, the shared default included |
| SettingsContext.Appended | contexts/UserSettingsContext.tsx:19-22 | the new favorites are the old ones followed by the id; the other fields are unchanged |
| SettingsContext.AppendedCount | contexts/UserSettingsContext.tsx:21 | the provider adds one more occurrence every time, so a present id is duplicated |
| SettingsContext.AppendThenRemove | contexts/UserSettingsContext.tsx:17-37 | adding an absent favorite, then removing it, restores the record |
| SettingsContext.SettingsProvider.AddFavorite | contexts/UserSettingsContext.tsx:17-26 | the state becomes a new object with the id appended, and that record is saved |
| SettingsContext.SettingsProvider.RemoveFavorite | contexts/UserSettingsContext.tsx:28-37 | the state becomes a new object without the id, and that record is saved |
| SettingsContext.SettingsProvider.UpdateSettings | contexts/UserSettingsContext.tsx:39-42 | the given object is saved and becomes the state itself |
| Gemini.DatePart | services/geminiService.ts:9 | the prefix of the date before its first `T`, or the whole date when it has none |
| Gemini.ChangeLine | services/geminiService.ts:9 | the line is exactly `- (`, the date part, `, `, the type name, `): ` and the description: it opens with that prefix, ends with the description, and is as long as the two together |
| Gemini.ProductBlock | services/geminiService.ts:8-11 | the block opens with the product's name line; a product without changes gives that line followed by an empty line |
| Gemini.FormatProductData | services/geminiService.ts:6-13 | no products give empty text; one product gives exactly its block |
| Gemini.ProductBlockSingle | services/geminiService.ts:8-11 | a product with one change gives its name line followed by that change's line |
| Gemini.ProductBlockSnoc | services/geminiService.ts:8-11 | one more change appends a line break and that change's line, so the change lines appear once each, in order |
| Gemini.FormatSnoc | services/geminiService.ts:6-13 | one more product appends a blank line and its block, so the blocks appear once each, in input order |
| Gemini.FormatContainsEveryProduct | services/geminiService.ts:6-13 | every product's block occurs in the prompt context |
| Gemini.ProductBlockLines | services/geminiService.ts:8-11 | split on newlines, a block reads back as its name line then its change lines, when no text holds a newline |
| Gemini.MockAnswer | services/geminiService.ts:19 | the canned answer quotes the query |
| Gemini.Prompt | services/geminiService.ts:24-36 | the prompt contains both the product context and the query |
| Gemini.GetAiAssistedAnswer | services/geminiService.ts:16-48 | no key: resolves with the mock quoting the query; otherwise resolves with the model's text, or rejects with the fixed message when the call fails |
| Gemini.MockIgnoresModel | services/geminiService.ts:17-20 | without a key the answer does not depend on the model at all |
| Scraper.IdOf | scraper.ts:17 | the id has the name's length, with every white-space character replaced by `-` and the rest lower-cased |
| Scraper.EntryOf | scraper.ts:12-23 | the record of a product line: a non-empty name from the first column, its id, the category, the joined trimmed description, an empty url |
| Scraper.LastHeading | scraper.ts:24-25 | the position of the last heading line, with no heading after it, or none at all |
| Scraper.CategoryAfter | scraper.ts:24-26 | the category is empty exactly until the first heading, and afterwards is a non-empty trimmed heading |
| Scraper.Entries | scraper.ts:10-27 | at most one record per line, each with a non-empty name, the id made from that name, and an empty url |
| Scraper.CategorySnoc | scraper.ts:11-26 | a heading sets the category to its trimmed text; any other line leaves the category unchanged |
| Scraper.IndentedKeepsCategory | scraper.ts:11-24 | an indented line never changes the category |
| Scraper.EntriesSnoc | scraper.ts:11-26 | a product line adds its record at the end; any other line adds none |
| Scraper.EntriesCount | scraper.ts:10-27 | one record per product line |
| Scraper.EntriesPrefix | scraper.ts:10-27 | the records of earlier lines come first |
| Scraper.EntriesAt | scraper.ts:10-27 | each product line's record, under the category then in force, comes right after the records of the lines before it |
| Scraper.Scrape | scraper.ts:5-27 | the loop over the content's lines produces exactly the records of those lines |
| RssParser.GroupEndSpec | rss_parser.ts:18 | the lazy group ends at the nearest `</h2>` with no line terminator before it, and fails only when every `</h2>` lies past one |
| RssParser.FindTitleNone | rss_parser.ts:18 | the search fails only when the pattern matches nowhere |
| RssParser.FindTitleSome | rss_parser.ts:18 | a found span follows an opening tag and ends at the nearest closing tag on its line |
| RssParser.FindTitleLeftmost | rss_parser.ts:18 | no match starts before the one found |
| RssParser.ProductNameFound | rss_parser.ts:18-19 | an entry has a product title exactly when the pattern matches somewhere in its content |
| RssParser.ProductNameOneLine | rss_parser.ts:18-20 | the title, when there is one, holds no line terminator |
| RssParser.ProductNameBetweenTags | rss_parser.ts:18-20 | the content holds the opening tag, the title and the closing tag, in a row |
| RssParser.ProductNameLazy | rss_parser.ts:18 | the title holds no `</h2>` |
| RssParser.ProductNameLeftmost | rss_parser.ts:18-20 | the title is the group of the leftmost match |
| RssParser.NotesForCount | rss_parser.ts:19-28 | a title's group holds exactly as many notes as there are entries whose title it is |
| RssParser.NotesForSnoc | rss_parser.ts:24-28 | a new entry appends its note to its own title's group only |
| RssParser.Names | rss_parser.ts:21-23 | the keys in order of first appearance, without duplicates |
| RssParser.NamesMembers | rss_parser.ts:19-23 | a title is a key exactly when some entry carries it |
| RssParser.NamesSnoc | rss_parser.ts:21-23 | a new title becomes the last key; a known title or no title leaves the keys unchanged |
| RssParser.NotesForAbsent | rss_parser.ts:21-23 | a title that no entry carries has no notes |
| RssParser.Group | rss_parser.ts:15-30 | keys in order of first appearance, each key holding exactly its entries' notes (date, title, content) in feed order |
| RssParser.GroupsPartitionRecorded | rss_parser.ts:15-30 | with all titles as keys, the groups together hold one note per recorded entry |
| RssParser.GroupTotal | rss_parser.ts:15-30 | the total note count over all keys equals the number of entries with a title |
| IconUpdater.FirstMatch | icon_updater.ts:30 | the first file, in listing order, whose lower-cased name contains the slug, or none when no file does |
| IconUpdater.FindIcon | icon_updater.ts:30 | the loop returns exactly the first matching file, or none |
| IconUpdater.Slug | icon_updater.ts:29 | the global replacement leaves no backslash-`s` pair in the slug |
| IconUpdater.SlugCuts | icon_updater.ts:29 | the slug is the lower-cased name cut at its backslash-`s` pairs and rejoined with `-` |
| IconUpdater.SlugReplacesPairs | icon_updater.ts:29 | every such cutting of the lower-cased name gives the slug: each pair becomes `-` and every other character is kept |
| IconUpdater.WithIcon | icon_updater.ts:30-34 | only the icon may change: with no matching file the product is unchanged, otherwise the icon is the prefixed path of the first match |
| IconUpdater.UpdatedProducts | icon_updater.ts:28-35 | one product per input product, in order, each as the callback leaves it |
| IconUpdater.UpdateIcons | icon_updater.ts:28-35 | each array element becomes its product as the callback leaves it |
| IconUpdater.WithIconSpec | icon_updater.ts:31-34 | only the icon may change: it becomes the prefixed path of the first match, or stays when no file matches |
| IconUpdater.UpdateKeepsOrder | icon_updater.ts:28-35 | the products keep their number and order, and everything but the icon |
| IconUpdater.UpdateIdempotent | icon_updater.ts:28-35 | running the update again changes nothing |
| IconUpdater.EmptySlugTakesFirstFile | icon_updater.ts:30 | an empty slug matches the first file of any non-empty listing |
| IconUpdater.SlugExamples | icon_updater.ts:29 | an empty name gives an empty slug; a backslash followed by `s` becomes `-` |
| IconUpdater.SlugWithoutBackslash | icon_updater.ts:29 | a name without a backslash has its lower-cased name as its slug, spaces included |
| IconUpdater.SpaceStaysInSlug | icon_updater.ts:29 | "Cloud Storage" has the slug "cloud storage" |
| IconUpdater.HyphenatedFileMissed | icon_updater.ts:29-30 | so the file "cloud-storage.svg" is not found for it |
| Text.Split | scraper.ts:5 | at least one piece, and no piece contains the separator |
| Text.JoinSplit | scraper.ts:5 | joining the pieces of a split with its separator gives back the text |
| Text.SplitLeftmost | scraper.ts:12 | every cut is at the leftmost match: no match starts inside a piece that a separator follows |
| Text.SplitUnique | scraper.ts:12 | the pieces are determined: any pieces free of the separator, cut at leftmost matches, that join back to the text are its split |
| Text.SplitMany | scraper.ts:13 | a split yields more than one piece exactly when the separator occurs |
| Text.Trim | scraper.ts:12 | the result neither starts nor ends with white space, is no longer than the text, and is the text itself when the text holds no white space |
| Text.TrimSpec | scraper.ts:12 | the result is the text with one run of leading and one run of trailing white space cut off, and nothing removed in between |
| Text.IndexOfFrom | icon_updater.ts:30 | the first occurrence at or after the start, or none when there is none |

## Left out

- Rendering: the React components, the dark-mode flag, and its effect on the
  page and the store (`App.tsx:13-18`, `App.tsx:35-43`).
- The reading and writing of the `favorites` key in `App.tsx:19-25` and
  `App.tsx:45-47`. The stored favorites are the constructor's argument.
- The asynchronous AI flow in `App.tsx:49-68`: loading and error state, and the
  race between overlapping queries. This is concurrency; the model is sequential.
- Gemini.GetAiAssistedAnswer:
  - the one-second mock delay is not modelled, since time is not modelled;
  - the SDK call is the parameter `generate`;
  - a reply whose `text` is undefined is not modelled;
  - the API key is a parameter read once.
- The `fs` reads and writes of the scripts, `fast-xml-parser`, and the
  extraction and `JSON.parse` of `initialProducts` in `icon_updater.ts:5-20`.
  All of these are file I/O or foreign code.
- The entry list of `RssParser.Group` is taken as already parsed from the XML
  feed.
- `RssParser.Group`: the key type of the result map is any string. The
  prototype-key behaviour of a plain JavaScript object (`releaseNotes[name]`
  for names such as `constructor`) is not modelled. Neither is its key order
  for titles that are array indices (such as "2024"): a plain object lists
  those first, in numeric order, and only then the other keys in order of
  insertion. The model's `order` is insertion order throughout. The
  difference is visible only in the JSON written at `rss_parser.ts:32`.
- `IconUpdater.UpdateIcons`: the directory listing is a parameter, in the
  order `readdirSync` returns it. `path.join` normalisation of unusual file
  names (`..`, slashes) is not modelled; the icon is the prefix followed by
  the name.
- Console logging is not modelled, because it is output only and changes
  no result. This covers the `console.error` calls for swallowed storage
  read and write failures (`services/userSettingsService.ts:18`, `:27`), the
  missing key and the failed call (`services/geminiService.ts:18`, `:45`),
  the failed AI search (`App.tsx:58`), and the messages of
  `icon_updater.ts:10`, `:18` and `:46`.
- Text.ToLower: lower-cases ASCII letters only. Full Unicode case mapping is
  not modelled.
- Dashboard.RecentKey and Dashboard.ViewRecent: the timestamp function
  returns an integer for every date text. An invalid date, for which
  `getTime` gives NaN and the comparator is inconsistent, is not modelled.
- Dashboard.ViewAlphabetical: locale-aware comparison is the abstract
  parameter `nameLe`, assumed to be a total preorder. The concrete collation
  tables are not modelled.
- SettingsService.Load: JSON is not modelled character by character. Stored
  text is either a serialized record, empty, or unparsable, and a parsed
  value is assumed to have the record's shape.
- The category free-text filter of the settings record is stored and carried,
  but no dashboard step reads it, just as in the code.
- `services/dataService.ts`, `constants.ts`, `final_integration.ts` and
  `backend/` are not part of this model.
