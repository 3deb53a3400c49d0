# Pogo catcher, modelled in Dafny

Pogo is a small podcast catcher. Its `catcher` package keeps a list of subscribed
feeds (`PodFeed`), each with an ordered list of episodes (`PodEpisode`). Four
operations run on that list:

- Subscribing to a feed URL adds one feed, built from the decoded RSS document. Only
  its first episode is flagged for download.
- Refreshing a feed merges newly published episodes in, deduplicated by URL. It then
  hands every flagged episode whose file is not yet in `downloads/` to the
  downloader.
- Each feed is named by an acronym of its title. Its ID is that acronym, suffixed by
  one more than the number of held feeds sharing the acronym when there are any.
- The feed list can be sorted by name through `sort.Sort`.

This project models that deterministic core of `catcher/catcher.go` and
`catcher/sorter.go`. It proves what those operations promise.

Modules, in dependency order:

| module | contents |
|---|---|
| `Wrappers` | `Option` |
| `GoLib` | the Go library functions the package relies on, written out as functions |
| `CatcherTypes` | the decoded document, `PodEpisode` and `PodFeed` as datatypes |
| `Episodes` | the download path, `IsAudio`/`IsVideo`, `PlainTextDescription`, `ParseDuration`, the item-to-episode mapping |
| `Feeds` | the merge loop and the download loop of `PodFeed.Refresh` |
| `Naming` | `Acronym`, `UniqueIDForPodcast`, the category paths |
| `Sorter` | `podcastSorter` as a class over an array, with `Len`, `Less`, `Swap` and the sort |
| `Catcher` | the `Catcher` class and `Refresh` |

The Go library functions in `GoLib` are:

- `strings.Split` and `strings.Join`;
- `strings.HasPrefix`;
- the file part of `path.Split`;
- `strings.ToUpper` on one byte;
- string `<`;
- `%d`;
- `strconv.ParseInt(s, 0, 0)`;
- int64 wrap-around.

The imperative code keeps its form. The merge, the download selection, the category
and item loops, `UniqueIDForPodcast`, `Acronym` and the tag-removal scan are methods
with loops. `ParseDuration` is a method that accumulates the duration step by step in
int64. Each method is proved equal to a specification function, and the properties
are proved about those functions. The `Catcher` class holds the feed
list as a field, which `AddPodcast`, `AddPodcastFeed` and `SortPodcastsByName`
update. `PodcastSorter` works in place on an array through `Len`, `Less` and `Swap`.

Environment inputs become parameters:

- **Fetching and decoding a document:** an `Option<Fetched>` (`None` when the HTTP
  request or the XML decode fails), or a map from feed URL to document.
- **The file system:** the set of paths present.
- **Downloads:** a returned sequence of `Download(url, saveFile)` requests.

## Behaviour of the source worth knowing

The model follows the code in each case below.

- **Flags are not cleared.** The download loop ranges over the episodes by value, and
  the clear of `ShouldDownloadIfNotDownloaded` at catcher/catcher.go:154 writes only
  that copy. The stored flag stays set, so every refresh dispatches the same downloads
  again until the file exists. `Catcher.RefreshAgainRepeatsDownloads` proves the
  repetition.
- **Refreshing all feeds changes nothing stored.** `RefreshAllPodcasts` ranges over
  the feeds by value (catcher/catcher.go:115-116), so merged episodes are not written
  back. The model's `RefreshAllPodcasts` has no `modifies` clause.
- **IDs come from a count.** The suffix is one more than the number of held feeds with
  the same acronym (catcher/catcher.go:256-267). IDs can therefore collide across
  acronyms (`Naming.UniqueIDCanCollide`). IDs of feeds sharing one acronym are
  distinct (`Naming.SameAcronymDistinctIDs`).
- **Acronyms split on a single space.** `strings.Split(original, " ")` at
  catcher/catcher.go:274 gives an empty word for a leading, trailing or doubled space,
  or for an empty title, and `word[0]` then panics. So `Acronym` requires
  `AcronymDefined`. `Naming.AcronymDefinedIff` shows that this holds exactly on
  well-spaced titles.
- **A new subscription flags item 0.** `mostRecentEpisode := podcast.PodcastEpisodes[0]`
  at catcher/catcher.go:203 takes the document's first item, whatever its date, and
  panics when the document has no item.
- **Two URLs can share one file.** The download path keeps only the text after the
  last `/` (catcher/catcher.go:374-377). Two URLs that differ before it share one
  path (`Episodes.DownloadPathsCanCoincide`).
- **The duration comment disagrees with the code.** The comment above `ParseDuration`
  (catcher/catcher.go:282-283) gives `10:20:30` as 10 hours, 20 minutes and 10
  seconds. The code yields 30 seconds, as `Episodes.DurationOfClock` states.

## Model

| member | source | states |
|---|---|---|
| GoLib.Split | catcher/catcher.go:285 | strings.Split on a one-character separator: at least one piece, and no piece contains the separator |
| GoLib.JoinSplit | catcher/catcher.go:285 | joining the pieces of strings.Split with the separator gives the original string back |
| GoLib.SplitJoin | catcher/catcher.go:285 | splitting a join of separator-free pieces gives the pieces back |
| GoLib.SplitNoSep | catcher/catcher.go:285 | a string without the separator splits into itself alone |
| GoLib.SplitAppend | catcher/catcher.go:285 | splitting at one separator concatenates the pieces of the two sides |
| GoLib.HasPrefix | catcher/catcher.go:360 | strings.HasPrefix: true exactly when s is the prefix followed by the rest of s |
| GoLib.PathFile | catcher/catcher.go:375 | the file part of path.Split holds no '/', is a suffix of the path, and is the whole path or follows a '/' |
| GoLib.PathFileAfterSlash | catcher/catcher.go:375 | the file part of dir + "/" + file is file, for any dir |
| GoLib.ToUpperByte | catcher/catcher.go:276 | ToUpper of one ASCII character: a-z map to A-Z at the same offset, every other character is unchanged |
| GoLib.Less | catcher/sorter.go:34 | string < : never true of equal strings, and a proper prefix sorts before the longer string |
| GoLib.LessIrreflexive | catcher/sorter.go:34 | no name is < itself |
| GoLib.LessAsymmetric | catcher/sorter.go:34 | a < b excludes b < a |
| GoLib.LessTransitive | catcher/sorter.go:34 | a < b and b < c give a < c |
| GoLib.LessTotal | catcher/sorter.go:34 | two different strings are ordered by < one way or the other |
| GoLib.FormatDecimal | catcher/catcher.go:264 | %d of a count: at least one digit, all decimal digits, a leading '0' exactly for 0 |
| GoLib.FormatDecimalInjective | catcher/catcher.go:264 | different counts give different numerals |
| GoLib.ScanDigits | catcher/catcher.go:290 | strconv's digit loop never yields a value above 2^64-1 |
| GoLib.ParseUintBase0 | catcher/catcher.go:290 | base 0: a value is read only from a numeral starting with a decimal digit, at most 2^64-1, and after a leading '0' without 'x' only from octal digits 0-7 |
| GoLib.ParseInt | catcher/catcher.go:290 | strconv.ParseInt(s, 0, 0) with the error dropped: always an int64, and 0 after a syntax error |
| GoLib.ScanFormatDecimal | catcher/catcher.go:290 | the decimal digit loop reads %d of n back as n |
| GoLib.ParseIntFormatDecimal | catcher/catcher.go:290 | ParseInt of the decimal numeral of an int64 n is n |
| GoLib.Wrap64 | catcher/catcher.go:291 | int64 arithmetic: the result is in int64 range and congruent to the exact value modulo 2^64 |
| GoLib.Wrap64Congruent | catcher/catcher.go:291 | values congruent modulo 2^64 wrap to the same int64 |
| Episodes.DownloadedFilename | catcher/catcher.go:374-377 | the path starts with "downloads/", the rest holds no '/', and the rest is the URL's text after its last '/' (or the whole URL) |
| Episodes.DownloadedFilenameOfURL | catcher/catcher.go:374-377 | an episode at dir + "/" + file is stored at "downloads/" + file |
| Episodes.DownloadPathsCanCoincide | catcher/catcher.go:374-377 | two different URLs with the same last segment share one download path |
| Episodes.Downloaded | catcher/catcher.go:369-371 | the file-existence check: true exactly when some present path is "downloads/" followed by the URL's text after its last '/' |
| Episodes.IsAudio | catcher/catcher.go:359-361 | true exactly when the MIME type is "audio" followed by anything |
| Episodes.IsVideo | catcher/catcher.go:364-366 | true exactly when the MIME type is "video" followed by anything, and then the episode is not audio |
| Episodes.AudioIsNotVideo | catcher/catcher.go:359-366 | no episode is both audio and video, and types "audio..." and "video..." are classified as such |
| Episodes.StripTags | catcher/catcher.go:307-310 | removing the <...> spans never lengthens the text, and never introduces a '>' |
| Episodes.StripTagsIsTagFree | catcher/catcher.go:307-310 | the result contains no '<' followed later by '>', so no tag is left |
| Episodes.StripTagsKeepsTagFree | catcher/catcher.go:307-310 | text with no tag is returned unchanged |
| Episodes.StripTagsIdempotent | catcher/catcher.go:307-310 | stripping twice equals stripping once |
| Episodes.StripTagsOneTag | catcher/catcher.go:307-310 | text before a tag is kept, the tag is dropped, the rest is stripped on its own |
| Episodes.StripTagsLeadingTag | catcher/catcher.go:308-309 | a leading tag up to the first '>' is removed |
| Episodes.StripTagsKeepsText | catcher/catcher.go:308-309 | a character that opens no closed tag is kept |
| Episodes.StripTagsDropsTag | catcher/catcher.go:308-309 | a span from a '<' to the first '>' after it is removed |
| Episodes.IndexOfUnique | catcher/catcher.go:308 | the first '>' is the only position with no '>' before it |
| Episodes.FindTagEnd | catcher/catcher.go:308 | the end of a tag is the first '>' after the '<', or the end of the text when none |
| Episodes.StripTagsStepOverTag | catcher/catcher.go:308-309 | skipping a closed tag keeps the scan's result equal to StripTags |
| Episodes.StripTagsStepOverText | catcher/catcher.go:308-309 | keeping a character outside a tag keeps the scan's result equal to StripTags |
| Episodes.PlainTextDescription | catcher/catcher.go:307-310 | the description with every <...> span removed, equal to StripTags, which has the properties above |
| Episodes.ComponentOfTail | catcher/catcher.go:289-302 | pieces further left do not change the last three components |
| Episodes.DurationOf | catcher/catcher.go:284-304 | the parsed duration is an int64 |
| Episodes.DurationFromSmall | catcher/catcher.go:291-301 | with components below a million, the duration is exactly hours, minutes and seconds in nanoseconds |
| Episodes.AddInt64 | catcher/catcher.go:291 | `d += t * unit` stays an int64 |
| Episodes.AddInt64Zero | catcher/catcher.go:294-301 | a missing component adds nothing |
| Episodes.AccumulateStep | catcher/catcher.go:291-301 | each int64 accumulation stays congruent to the exact sum modulo 2^64 |
| Episodes.AccumulateThree | catcher/catcher.go:286-302 | accumulating seconds, minutes and hours in int64 gives the int64 wrap of the exact sum |
| Episodes.ParseDuration | catcher/catcher.go:284-304 | the duration is DurationOf: last component as seconds, second-last as minutes, third-last as hours, each read by ParseInt |
| Episodes.ComponentsOf | catcher/catcher.go:289-302 | component k is ParseInt of the k-th piece from the right, or 0 when there is none |
| Episodes.DurationIgnoresLeftComponents | catcher/catcher.go:289-302 | components further left than the third from the right do not change the duration |
| Episodes.SplitThree | catcher/catcher.go:285 | "a:b:c" splits into a, b, c |
| Episodes.DurationOfClock | catcher/catcher.go:282-304 | "h:m:s" in decimal is h hours + m minutes + s seconds (so "10:20:30" ends in 30 seconds) |
| Episodes.DurationOfMinutesSeconds | catcher/catcher.go:282-304 | "m:s" in decimal is m minutes + s seconds, as in the 13:37 example |
| Episodes.DurationLeadingZeroIsOctal | catcher/catcher.go:290 | base 0 reads a leading zero as octal: "010" is 8 seconds |
| Episodes.DurationEightIsNotOctal | catcher/catcher.go:290 | "08" is a syntax error in octal, so it counts as 0 |
| Episodes.EpisodeFromItem | catcher/catcher.go:241-249 | the episode made of an item has the enclosure URL, its parsed duration and the flag clear |
| Feeds.Flagged | catcher/catcher.go:144 | a merged-in episode has the download flag set and keeps its URL |
| Feeds.URLsSingleton | catcher/catcher.go:137 | the URLs of one episode are its URL |
| Feeds.URLsAppend | catcher/catcher.go:145 | appending episodes adds their URLs |
| Feeds.NewEpisodesURLs | catcher/catcher.go:134-147 | the appended episodes carry exactly the fetched URLs not already seen |
| Feeds.NewEpisodesFlagged | catcher/catcher.go:144 | every appended episode is flagged |
| Feeds.NewEpisodesDistinct | catcher/catcher.go:136-145 | the appended episodes have distinct URLs, none of them already seen |
| Feeds.NewEpisodesNoneUnseen | catcher/catcher.go:136-142 | when every fetched URL is already present, nothing is appended |
| Feeds.NewEpisodesSnoc | catcher/catcher.go:134-147 | one more fetched episode is appended exactly when its URL is neither seen nor earlier in the fetched list |
| Feeds.MergeStep | catcher/catcher.go:135-146 | one pass of the outer loop: appending iff the URL is absent from the growing list keeps the list equal to the merge |
| Feeds.MergedProperties | catcher/catcher.go:134-147 | existing episodes keep their indices; every fetched URL is present afterwards; distinct URLs stay distinct; appended episodes are flagged and new |
| Feeds.MergedIdempotent | catcher/catcher.go:134-147 | merging the same fetched list again appends nothing |
| Feeds.HasURL | catcher/catcher.go:135-141 | the inner scan finds the URL exactly when some episode in the list has it |
| Feeds.MergeEpisodes | catcher/catcher.go:134-147 | the loop's result is the merge: existing list plus the fetched episodes not yet present, in order, flagged |
| Feeds.DispatchesSound | catcher/catcher.go:151-157 | every download request is for a flagged episode whose file is absent, into its download path |
| Feeds.DispatchesComplete | catcher/catcher.go:151-157 | every flagged episode whose file is absent is requested |
| Feeds.DispatchesExactly | catcher/catcher.go:151-157 | a request is made iff it is for a flagged episode whose file is absent |
| Feeds.DispatchPaths | catcher/catcher.go:151-157 | every request saves under "downloads/", with no '/' after it, at a path not present |
| Feeds.DispatchDownloads | catcher/catcher.go:151-157 | the download loop makes exactly the requests of Dispatches, and the episode list is left as it is |
| Naming.Words | catcher/catcher.go:274 | a title has at least one word |
| Naming.NoEmptyWordCons | catcher/catcher.go:275-276 | a list of words has no empty word iff its head is non-empty and its tail has none |
| Naming.WordTailCons | catcher/catcher.go:274-276 | the character-level condition for non-empty words, one character at a time |
| Naming.WordsNonEmpty | catcher/catcher.go:274-276 | the words are all non-empty iff the text is well spaced |
| Naming.AcronymDefinedIff | catcher/catcher.go:274-276 | Acronym does not panic exactly when the title is non-empty, has no leading or trailing space and no double space |
| Naming.HeadsAt | catcher/catcher.go:275-278 | with no empty word there is one initial per word, its first character upper-cased |
| Naming.HeadsLength | catcher/catcher.go:275-278 | with no empty word there are as many initials as words |
| Naming.InitialsAreHeads | catcher/catcher.go:272-280 | the character-by-character acronym equals the word-by-word one |
| Naming.Acronym | catcher/catcher.go:272-280 | one character per space-separated word, the upper case of that word's first character |
| Naming.AcronymOfCons | catcher/catcher.go:272-280 | a leading word contributes its upper-cased first character ahead of the rest |
| Naming.AcronymOfWord | catcher/catcher.go:272-280 | one word gives its upper-cased first character |
| Naming.AcronymProgrammingThomas | catcher/catcher.go:269 | "Programming Thomas" gives "PT" |
| Naming.AcronymILikeGoogle | catcher/catcher.go:269 | "I like Google" gives "ILG" |
| Naming.CountAcronymZero | catcher/catcher.go:258-262 | the count is zero iff no held feed has the acronym |
| Naming.CountAcronymGrows | catcher/catcher.go:258-262 | a later feed with the acronym counts strictly more feeds before it |
| Naming.UniqueIDShape | catcher/catcher.go:256-267 | the ID starts with the acronym and equals it iff no held feed has the acronym |
| Naming.SuffixedIDsDiffer | catcher/catcher.go:263-265 | an acronym with a numeric suffix differs from the bare acronym and from other suffixes |
| Naming.SameAcronymDistinctIDs | catcher/catcher.go:256-267 | feeds registered with the same acronym receive distinct IDs |
| Naming.UniqueIDCanCollide | catcher/catcher.go:256-267 | after feeds "PT" and "PT2", a feed with acronym "PT2" also gets ID "PT2": IDs are not unique across acronyms |
| Naming.CategoryPathSplit | catcher/catcher.go:229-233 | a category path splits back into text and sub-category text, or text alone when there is no sub-category |
| Sorter.NameLessStrictWeakOrder | catcher/sorter.go:33-35 | ordering feeds by name with < is a strict weak order, as sort.Sort requires |
| Sorter.SortedByNameOrdersNames | catcher/sorter.go:32-37 | sorted by name means names are in non-decreasing byte-wise order |
| Sorter.PodcastSorter.constructor | catcher/sorter.go:8-11 | the sorter holds the slice and the ordering |
| Sorter.PodcastSorter.Len | catcher/sorter.go:20-22 | Len is the number of feeds being sorted |
| Sorter.PodcastSorter.Less | catcher/sorter.go:28-30 | Less(i, j) is the ordering applied to feeds i and j |
| Sorter.PodcastSorter.Swap | catcher/sorter.go:24-26 | Swap exchanges feeds i and j and leaves every other position unchanged |
| Sorter.PodcastSorter.Sort | catcher/sorter.go:7-13 | sort.Sort through Len, Less and Swap leaves a permutation of the feeds, sorted by the ordering |
| Sorter.PodcastSorter.Insert | catcher/sorter.go:12 | one insertion pass keeps the permutation, extends the sorted prefix by one, and leaves every feed after position k where it was |
| Sorter.SwapKeepsSortedAround | catcher/sorter.go:12 | swapping the moving feed past a neighbour it goes before keeps the insertion invariant and the multiset |
| Sorter.InsertionDone | catcher/sorter.go:12 | when the moving feed stops, the prefix through it is sorted |
| Catcher.FeedFromXMLShape | catcher/catcher.go:213-253 | the built feed has one unflagged episode per item in order with the enclosure URL, and one category path per category in order |
| Catcher.CategoryPaths | catcher/catcher.go:226-235 | the category loop yields "Text/Sub", or "Text" when Sub is empty, per category in order |
| Catcher.EpisodesFromItems | catcher/catcher.go:238-251 | the item loop yields one episode per item, in order |
| Catcher.NewSubscriptionFlagsFirst | catcher/catcher.go:201-206 | in a new subscription exactly episode 0 is flagged, and episode URLs are the enclosure URLs |
| Catcher.SubscribeAppendsOne | catcher/catcher.go:178-206 | an already subscribed URL or a failed fetch leaves the feeds unchanged; otherwise exactly one feed, for that URL, is appended at the end |
| Catcher.SubscribeIdempotent | catcher/catcher.go:180-184 | subscribing twice to one URL is subscribing once |
| Catcher.SubscribeKeepsInvariants | catcher/catcher.go:178-206 | subscribing keeps feed URLs distinct and every ID derived from the feeds registered before it |
| Catcher.RefreshDownloadsNewEpisodes | catcher/catcher.go:134-157 | a refresh keeps earlier episodes in place, and every appended episode whose file is absent is new by URL and is downloaded |
| Catcher.RefreshAgainRepeatsDownloads | catcher/catcher.go:151-157 | refreshing again with the same document adds nothing and dispatches the same downloads again, because flags are never cleared |
| Catcher.Refresh | catcher/catcher.go:123-158 | the feed's episodes become the merge with the document's episodes (or stay when there is none), and the requests are Dispatches of the result |
| Catcher.AllDispatchesSound | catcher/catcher.go:113-117 | every request of a full refresh goes to an absent path under "downloads/", for an episode of a held feed after its merge |
| Catcher.Catcher.constructor | catcher/catcher.go:69 | a new catcher holds no feeds |
| Catcher.Catcher.UniqueIDForPodcast | catcher/catcher.go:256-267 | the ID is the acronym iff no held feed has it, otherwise acronym + decimal(count + 1), and the feeds are unchanged |
| Catcher.Catcher.GetPodcastFromXML | catcher/catcher.go:213-253 | the feed built is FeedFromXML of the held feeds and the document |
| Catcher.Catcher.AddPodcast | catcher/catcher.go:201-206 | exactly the new subscription, with only episode 0 flagged, is appended |
| Catcher.Catcher.AddPodcastFeed | catcher/catcher.go:178-198 | the feeds become Subscribe of the old feeds: unchanged for a known URL or failed fetch, else one feed appended |
| Catcher.Catcher.RefreshAllPodcasts | catcher/catcher.go:113-120 | the requests are those of refreshing each feed's copy in registration order; the held feeds are not changed |
| Catcher.Catcher.SortPodcastsByName | catcher/sorter.go:32-37 | afterwards the feeds are a permutation of the previous feeds, sorted by name |

## Left out

- Concurrency is not modelled. That covers the `Refresher` goroutine, the ticker, the
  `addFeed` and `updatedPodcasts` channels, the channel sends in `RefreshAllPodcasts`
  and `AddPodcast`, and `UpdateAll`. These are goroutine and channel plumbing.
- The `Refresher` runs on `StartCatcher`'s own `Catcher` (catcher/catcher.go:88),
  while callers hold the copy returned at catcher/catcher.go:89. `AddPodcast` appends
  to the caller's copy. The `Refresher` appends the same feed to its own list
  (catcher/catcher.go:104), refreshes it, and publishes that list through
  `updatedPodcasts`. This is part of the same plumbing and is not modelled.
- HTTP fetching and XML decoding are inputs, not modelled. A document is
  `Option<Fetched>` in `AddPodcastFeed` and `Refresh`, and a map from feed URL to
  document in `RefreshAllPodcasts`. `catcher/catcherxml.go` only supplies the field
  layout of `Fetched`.
- Persistence and startup (`SaveData`, `StartCatcher`) are JSON and file I/O, and are
  not modelled.
- Dates and the clock are not modelled: `ReleaseDate`, `PubDateText`,
  `SortEpisodesByDate` and `LastRefreshed = time.Now()`. They depend on RFC 822/1123
  date parsing and the wall clock, and `PodFeed` has no `LastRefreshed` field.
- `PlainTextDescriptionBeginning` is not modelled. It is a presentation helper that
  slices 50 bytes and panics on shorter text.
- The file system and the downloader (`pogoutils/fileio.go`) are not modelled. The
  files present are a set of paths, and downloads are returned as requests.
- Feeds.DispatchesExactly: `present` is one snapshot of the files, taken before the
  download loop. In the source, each download goroutine creates its file at once, so
  a later check in the same loop or refresh cycle can see a file an earlier request
  has just created. `DispatchesExactly` and `DispatchesComplete` describe the
  interleaving in which no download has started yet. For two URLs that share one file,
  the model always makes both requests, while the source makes one or both depending
  on scheduling.
- The HTTP server (`server/server.go`) is not modelled.
- GoLib.ParseInt: follows the base-0 rules of Go before 1.13 (`0x` hex, a leading
  `0` octal, otherwise decimal). The `0b` and `0o` prefixes and `_` digit separators
  that later Go versions accept are not modelled. With bit size 0, Go uses the
  platform's `int` size; the model fixes it at 64 bits, and the 32-bit range is not
  modelled.
- Naming.Acronym: characters stand for bytes, and ToUpper maps only ASCII a-z. The
  multi-byte UTF-8 first characters of words, and the Unicode case mapping that
  `strings.ToUpper(string(word[0]))` applies to a lone byte, are not modelled.
- GoLib.Less: compares characters rather than UTF-8 bytes. The two orders agree on
  valid UTF-8 text.
- Sorter.PodcastSorter.Sort: modelled as the insertion sort that `sort.Sort` uses on
  short slices. Its contract is what `sort.Sort` promises for every length, a sorted
  permutation, and says nothing about stability. The exact final order of equal names
  for longer slices (pdqsort) is not modelled.
- Naming.Acronym: the `word[0]` panic on an empty word is modelled as the precondition
  `AcronymDefined`. A title with a leading, trailing or doubled space, or an empty
  title, is outside the model.
- Catcher.Refresh: the acronym panic of `getPodcastFromXML` on the fetched title is
  modelled as the precondition `AcronymDefined`. A fetched document whose title is not
  well spaced, which crashes the source on every refresh, is outside the model.
- Catcher.Catcher.RefreshAllPodcasts: the same panic, for any held feed's document, is
  modelled as the precondition `TitlesDefined`.
- Catcher.Catcher.AddPodcastFeed: the panics of `AddPodcast` are modelled as the
  precondition `CanAdd` on a fetched document for a new URL. A document with no item
  (the `PodcastEpisodes[0]` index at catcher/catcher.go:203) or with a title that is
  not well spaced crashes the source on subscribe, and is outside the model.
- Catcher.Catcher.AddPodcast: the same two panics are modelled as the precondition
  `CanAdd`.
- Catcher.Refresh: works on a `PodFeed` value and returns the updated value, because
  every caller in the source passes a copy. Slices shared between copies (aliasing of
  the episode array) are not modelled.
- Catcher.Catcher.RefreshAllPodcasts: returns the downloads it hands out and leaves
  the publishing of the feed list and the save to the left-out concurrency and
  persistence.
