# LDF artifact acquisition: a verified model

LDF's server `ldfd` finds out which versions of its components exist upstream, chooses among them,
and downloads, throttles and caches their archives. This project models the parts of that pipeline whose
behaviour does not depend on HTTP or SQL, and the two small services beside it that keep state of the same
kind: the API rate limiter and refresh-token rotation. SQL tables are maps or sequences of rows, the storage
backend is a map from key to object.

`dafny verify dfyconfig.toml` checks the whole project.

| module | what it models |
|---|---|
| `Wrappers`, `Sequences`, `Arithmetic` | an optional value, lists without repeats, two facts about products |
| `Text`, `Int64`, `Versions` | Go's string functions on ASCII text, 64-bit arithmetic, a discovered version |
| `Glob` | the glob matcher, against a declarative meaning: a way to cut the text into one piece per pattern byte |
| `VersionFilters` | parsing, printing and applying version filters (file `VersionFilter.dfy`) |
| `Prereleases` | prerelease markers and the exclude filter built from observed prereleases |
| `KernelVersions` | split-and-lookup of long-term kernels against the `kernel-lts` glob preset |
| `VersionOrder`, `Discovery` | comparing versions in 64-bit arithmetic; merging, sorting, the default version |
| `Throttle` | shared token buckets: any interleaving of callers, one waiting caller, the throttled reader |
| `UrlTemplates` | nine sequential replacements against one simultaneous substitution |
| `CachePaths`, `ArtifactCache`, `CacheRuns` | the artifact cache, its eviction in batches of five, and whole runs |
| `DownloadJobs`, `DownloadWorker` | deduplicated job creation; the retry loop with backoff |
| `RateLimit` | the per-key rate limiter, with cleanup ticks anywhere |
| `SourceVersions` | the bulk upsert of discovered versions |
| `RefreshTokens` | refresh-token rotation over whole runs |

Where the original updates something step by step, the model is a class or a method with a loop, proved
against a specification function or predicate; what the code is for is then proved about that specification.

## Premises

- Text is ASCII, one byte per character.
- Clocks do not go back in the order in which a lock is taken (`Clocked`). The throttle reads the clock
  while it holds its lock; the API rate limiter reads it before (src/ldfd/api/ratelimit.go:61-63, 95-96), so
  for that one the order is an extra premise: two calls could swap between reading and locking.
- The floating-point seconds of the throttle are exact integer nanoseconds, and products are floored.
- Table and storage operations succeed, except where a parameter says otherwise (`BulkUpsert`, a missing
  object in the cache, failed copies in job creation).
- The order in which a Go map is iterated is arbitrary.
- Tokens are distinct opaque values, and no two creations of a token read the same time.
- Times of last use in the cache may coincide; only `EvictionIsDetermined` asks for distinct ones.

## What turned out to hold only under a condition

Each is proved with the exact condition, and with an input that breaks the plain statement.

- Printing and re-parsing a filter restores it if and only if no item is a `+` followed by `+`, `!` or a
  blank. `+!x` includes `!x` at first and excludes `x` after the round trip (`RoundTripOfText`,
  `RoundTripCounterexample`).
- The kernel-type lookup and the `kernel-lts` preset agree on a version if and only if it is not one of
  the eight bare series such as `6.12`, which the lookup calls long-term and no pattern reaches
  (`KernelLtsAgrees`).
- `compareVersions` is the intended order on versions whose numbers fit in 63 bits, and ranks every other
  version below some smaller one that fits (`RepresentableIsExact`, `OverflowCounterexample`). Eighteen
  digits always fit.
- `compareVersions` is an order at all, intended or not, on versions with no number that is held as a negative
  one: `18446744073709551621` is held as 5 and does no harm. A version with such a number is above the
  largest that fits and below 0, a cycle (`NonNegativeIsExact`, `NegativeMakesCycle`), and of
  9223372036854775808 and 0 each is below the other (`AntisymmetryFails`).
- Among artifacts whose file name comes from the original path, or whose version has no slash, a cache path
  belongs to one (source, version) only. An artifact outside that condition always shares its path
  with one inside it: the made-up name `<source>-<version>.tar.gz` of a version with a slash can be reached
  by another version (`NamedIsExact`, `FallbackCollides`). It takes an original path whose base is `.`; the
  paths that downloads and copies build, which are those Store is called with, never have one
  (`ArtifactsAreNamed`).
- Three undisturbed sleeps satisfy every wait if and only if the rate is at most 10^9 bytes per second;
  above that the last sleep is rounded down to nothing (`ThreeSleepsSuffice`, `FastLimiterSpins`). At any rate
  a wait for n bytes passes by the time that could have earned 2n - 1 (`WaitPassesInTime`).
- The backoff delays do not overflow if and only if the last one fits in 63 bits (`DelaysExact`).
- `src/ldfd/api/ratelimit.go:36` speaks of a sliding window; the code keeps fixed windows that start at the
  first request. A minute can therefore see more than the limit: at most 2L - 1, and a run in clock order
  reaches that (`AnyMinute`, `WorstCase`). No minute of any run sees more than L if and only if L is 1
  (`SlidesOnlyForOne`).
- The nine replacements in any order are one simultaneous substitution on templates in which no brace opens
  inside another, for base URLs and versions without an opening brace. Of two substitutions, the
  value of the first never makes the two ways differ if and only if it has no opening brace (`NoOpeningIsExact`): with the version `{`, the template `{version}patch}`
  becomes `0` where one pass gives `{patch}` (`OpeningVersion`).

## Model

| member | source | states |
|---|---|---|
| Glob.GlobMatchInternal | src/ldfd/forge/filter.go:136-178 | true exactly when the text can be cut into one piece per pattern byte, a star standing for any piece, `?` for one byte, any other byte for itself; terminates through loop and recursion |
| Glob.StarsCollapse | src/ldfd/forge/filter.go:143-145 | a further star after a star changes nothing about what some suffix can match |
| Glob.DenotesStar | src/ldfd/forge/filter.go:151-156 | a star matches exactly when the rest of the pattern matches some suffix |
| Glob.DenotesByte | src/ldfd/forge/filter.go:159-174 | a byte other than a star consumes exactly one byte, equal to it or any for `?` |
| Glob.GlobMatch | src/ldfd/forge/filter.go:127-133 | the same meaning on the lower-cased texts |
| Text.LowerAlphabet | src/ldfd/forge/filter.go:129-132 | lower-casing maps the twenty-six letters one by one and nothing else |
| Glob.PrefixPattern | src/ldfd/forge/filter.go:238-245 | `w*` accepts exactly the texts that start with w |
| Glob.InfixPattern | src/ldfd/forge/filter.go:238-245 | `*w*` accepts exactly the texts that contain w |
| VersionFilters.VersionFilter.Parse | src/ldfd/forge/filter.go:24-61 | the pattern lists are those the comma-separated items contribute, in order |
| VersionFilters.ItemForms | src/ldfd/forge/filter.go:34-57 | whatever blanks surround an item, a plain pattern and one after a plus are included, one after an exclamation mark is excluded |
| VersionFilters.VersionFilter.Matches | src/ldfd/forge/filter.go:65-88 | true exactly when some include matches (or there is none) and no exclude does |
| VersionFilters.VersionFilter.String | src/ldfd/forge/filter.go:96-105 | the text of all includes, then all excludes with `!` |
| VersionFilters.VersionFilter.FilterVersions | src/ldfd/forge/filter.go:108-121 | the selection of the accepted versions, for the empty filter too |
| VersionFilters.SelectedKeepsAccepted | src/ldfd/forge/filter.go:108-121 | every accepted version as often as it was listed, no other |
| VersionFilters.SelectedInOrder | src/ldfd/forge/filter.go:108-121 | selection distributes over concatenation, so order is kept |
| VersionFilters.SelectedIdempotent | src/ldfd/forge/filter.go:108-121 | selecting again changes nothing |
| VersionFilters.VersionFilter.FilterWithReasons | src/ldfd/forge/filter.go:188-228 | for each version the verdict of Matches, and the first pattern that decided it as the reason |
| VersionFilters.BangReadsBack | src/ldfd/forge/filter.go:40-45 | printed excludes are always read back as themselves |
| VersionFilters.RoundTrip | src/ldfd/forge/filter.go:24-105 | parse, print, parse restores the filter exactly when every include reads back |
| VersionFilters.RoundTripOfText | src/ldfd/forge/filter.go:24-105 | the same condition on the text: no item is a plus sign followed by a plus, an exclamation mark or a blank; every text without plus items qualifies |
| VersionFilters.RoundTripCounterexample | src/ldfd/forge/filter.go:24-105 | the text `+!x` comes back as another filter, and the version `y` is rejected before and accepted after |
| Prereleases.PrereleaseCarries | src/ldfd/forge/forge.go:203-214 | the nine substring tests hold exactly when the version carries a marker of one of five families |
| Prereleases.ItemsForMeaning | src/ldfd/forge/forge.go:233-260 | one prerelease contributes exactly the exclude items of the families it carries |
| Prereleases.ExtractExcludePatterns | src/ldfd/forge/forge.go:225-268 | exactly the items of the families observed among flagged prereleases, each once, in some order |
| Prereleases.JoinedItemsReject | src/ldfd/forge/github.go:308-329 | the items joined in any order and parsed reject exactly the versions containing one of their markers |
| Prereleases.DiscoveredFilter | src/ldfd/forge/github.go:308-329 | the discovered filter rejects a version exactly when it carries a marker of an observed family |
| Prereleases.DefaultVersionFilter | src/ldfd/forge/github.go:308-329 | the text produced by discovery, extraction and joining has that meaning for every version |
| Prereleases.DefaultFilterSeparates | src/ldfd/forge/forge.go:203-268 | every listed version flagged and recognised as a prerelease is rejected; every version without a marker is kept |
| KernelVersions.TypeMeaning | src/ldfd/forge/generic.go:195-224 | long-term exactly when there is no -rc and the version is a listed series or extends one by a dot |
| KernelVersions.OtherTypes | src/ldfd/forge/generic.go:195-206 | linux-next exactly for `next-*`, mainline exactly for `*-rc*` otherwise |
| KernelVersions.FirstTwoParts | src/ldfd/forge/generic.go:209-221 | the first two parts are a.b exactly on a.b itself and on what continues a.b with a dot |
| KernelVersions.PresetParses | src/ldfd/forge/filter.go:244 | the preset text parses to eight includes and one exclude |
| KernelVersions.PresetMeaning | src/ldfd/forge/filter.go:244 | the parsed preset accepts exactly the versions of a listed series without -rc |
| KernelVersions.KernelLtsAgrees | src/ldfd/forge/generic.go:195-224 | lookup and preset agree on a version exactly when it is not one of the eight bare series |
| KernelVersions.KernelLtsAgreesOnFullVersions | src/ldfd/download/discovery.go:912-944 | on every version with at least two dots they agree |
| KernelVersions.KernelStableAgrees | src/ldfd/forge/filter.go:243 | the kernel-stable preset accepts exactly the versions typed as long-term or stable |
| VersionOrder.SplitVersionPart | src/ldfd/forge/github.go:406-422 | the value of the longest digit prefix modulo 2^64 as a signed number, and the rest as suffix |
| VersionOrder.ThreeDigits | src/ldfd/forge/github.go:406-422 | digits are read in base ten, most significant first, and the rest is the suffix |
| VersionOrder.CompareVersions | src/ldfd/forge/github.go:366-403 | the 64-bit comparison function, parts missing at the end read as (0, empty) |
| VersionOrder.CompareMeaning | src/ldfd/forge/github.go:366-403 | on versions whose numbers fit, the sign says which version is smaller at the first part that differs, padding both for ever |
| VersionOrder.NumbersAreCompared | src/ldfd/forge/github.go:386-388 | in the last part numbers are compared as numbers, whatever follows them: 1.9 before 1.10 |
| VersionOrder.ReleaseComesLast | src/ldfd/forge/github.go:390-398 | a release comes after everything that only adds a suffix to it: 1.0-rc1 before 1.0 |
| VersionOrder.SuffixesAreTexts | src/ldfd/forge/github.go:390-398 | suffixes of the same number are compared as texts, at their first difference |
| VersionOrder.TrailingZero | src/ldfd/forge/github.go:370-384 | a further part of zero makes no difference |
| VersionOrder.CompareIsTotalPreorder | src/ldfd/download/discovery.go:955-995 | on versions with no number held as a negative one, signs are antisymmetric and the comparison is transitive across any lengths |
| VersionOrder.NonNegativeIsExact | src/ldfd/forge/github.go:366-422 | the laws hold between a version and all others of that kind exactly when none of its own numbers is held as a negative one |
| VersionOrder.NegativeMakesCycle | src/ldfd/forge/github.go:366-422 | a version with such a number is on a cycle with two versions whose numbers fit, which the lemma constructs |
| VersionOrder.Canonical | src/ldfd/forge/github.go:366-422 | any other version compares exactly like one whose numbers fit |
| VersionOrder.BelowTransitive | src/ldfd/forge/github.go:366-403 | the order itself is transitive for versions of different lengths, without a bound on numbers |
| VersionOrder.EighteenDigitsFit | src/ldfd/forge/github.go:406-422 | numeric parts of at most eighteen digits never overflow |
| VersionOrder.RepresentableIsExact | src/ldfd/forge/github.go:366-422 | a version is compared correctly with every version that fits exactly when its own numbers fit |
| VersionOrder.Unrepresentable | src/ldfd/forge/github.go:366-422 | a version that does not fit is ranked below a smaller one that does, which the lemma constructs |
| VersionOrder.OverflowCounterexample | src/ldfd/forge/github.go:411-414 | every number from 2^63 to 2^64 - 1 ranks below 0 |
| VersionOrder.AntisymmetryFails | src/ldfd/forge/github.go:386-388 | of 2^63 and 0 each is ranked below the other |
| Discovery.MergeVersions | src/ldfd/forge/github.go:93-99 | under each version the last release entry, or the last tag entry when no release mentions it |
| Discovery.ToSlice | src/ldfd/forge/github.go:102-105 | exactly the map's values, every version once, whatever the iteration order |
| Discovery.SortVersionsDescending | src/ldfd/forge/github.go:359-363 | a permutation in place; descending when no number is held as a negative one |
| Discovery.DiscoverVersions | src/ldfd/download/discovery.go:112-128 | every version once, with the data that wins, in descending order when no number is held as a negative one |
| Discovery.FindFirstStableVersion | src/ldfd/download/discovery.go:751-762 | the first stable version, else the first; on a sorted list none of the stable ones (of all, if none is stable) is greater |
| Discovery.DetectDefaultVersion | src/ldfd/download/discovery.go:682-703 | through merge, sort and choice: the published latest release, else a newest stable version, else a newest one |
| Throttle.RateLimiter.constructor | src/ldfd/download/throttle.go:31-43 | a full bucket holding the larger of the rate and 65536 |
| Throttle.FirstBurst | src/ldfd/download/throttle.go:31-43 | a new limiter grants at once exactly what one second of its rate, or 65536 bytes, covers |
| Throttle.RateLimiter.Attempt | src/ldfd/download/throttle.go:53-76 | one locked section: refill by whole tokens, then grant, or refuse with the sleep that SleepMatchesDeficit measures |
| Throttle.SleepMatchesDeficit | src/ldfd/download/throttle.go:74-76 | a refused caller sleeps exactly as many nanoseconds as its missing tokens take to be earned, rounded down |
| Throttle.RateLimiter.Wait | src/ldfd/download/throttle.go:47-86 | the whole waiting loop, for given ends of its sleeps; charges the bucket exactly when it passes |
| Throttle.Conservation | src/ldfd/download/throttle.go:47-86 | over every interleaving tokens stay in [0, max], and bytes granted plus tokens left are covered by the start plus what elapsed time earned |
| Throttle.TokensSuffice | src/ldfd/download/throttle.go:66-72 | nobody is charged more than was granted: what the tokens at hand cover is granted in full to every caller at once |
| Throttle.GrantedSinceCreation | src/ldfd/download/throttle.go:31-86 | bytes granted by time t are at most burst + rate * elapsed |
| Throttle.GrantedInWindow | src/ldfd/download/throttle.go:53-66 | in any later window, less than one token more than burst + rate * length |
| Throttle.WaitEnds | src/ldfd/download/throttle.go:47-86 | a request that fits the bucket passes after at most three undisturbed sleeps for rates up to 10^9 |
| Throttle.WaitIsShort | src/ldfd/download/throttle.go:47-86 | when timers fire on time such a request passes within the time that earns n + 2 tokens |
| Throttle.WaitPassesInTime | src/ldfd/download/throttle.go:47-86 | at any rate, and however often and early its sleeps end, a request that fits the bucket passes by the time that could have earned 2n - 1 tokens |
| Throttle.GrantedAfterOthers | src/ldfd/download/throttle.go:53-72 | among other callers, whatever they were granted, an attempt finds n tokens once that much time went by since the last refill |
| Throttle.GrantedAfterPause | src/ldfd/download/throttle.go:53-72 | in particular once that much time went by since anybody last tried |
| Throttle.ThreeSleepsSuffice | src/ldfd/download/throttle.go:73-84 | three sleeps suffice for all requests exactly for those rates |
| Throttle.FastLimiterSpins | src/ldfd/download/throttle.go:73-84 | above them, any number of wake-ups at the same instant leaves the wait unfinished |
| Throttle.WaitNeverEnds | src/ldfd/download/throttle.go:47-86 | a request larger than the bucket never passes |
| Throttle.ReadsAlwaysPass | src/ldfd/download/throttle.go:112-134 | the read cap lies below the floor of every bucket, so every wait that Read starts passes, at any rate, by the time that could have earned 2n - 1 tokens |
| Throttle.ReadsPassInThree | src/ldfd/download/throttle.go:112-134 | after at most three undisturbed sleeps for rates up to 10^9 |
| Throttle.ThrottledReader.WaitForAll | src/ldfd/download/throttle.go:124-131 | passes exactly when every limiter that limits lets the bytes pass, and then all were charged; otherwise the first that does not decides between interrupted and still sleeping |
| Throttle.ThrottledReader.Read | src/ldfd/download/throttle.go:112-134 | at most 32768 bytes; a nil error exactly when the source gave none and all limiters let the bytes pass, and then all were charged; an interrupted wait is an error, an unfinished one blocks |
| UrlTemplates.ParseVersionComponents | src/ldfd/download/url_builder.go:134-152 | first three parts, "0" for missing or empty ones |
| UrlTemplates.CompactIsParts | src/ldfd/download/url_builder.go:159-162 | removing the dots runs the dot-separated parts together |
| UrlTemplates.ApplyTemplate | src/ldfd/download/url_builder.go:81-109 | the nine replacements, one after the other in the code's order |
| UrlTemplates.FlatSegments | src/ldfd/download/url_builder.go:81-109 | a template in which no brace opens inside another is text and placeholders, with at most one unclosed brace at the end |
| UrlTemplates.SequentialMeaning | src/ldfd/download/url_builder.go:81-109 | on such pieces sequential replacement by values that open no brace maps each placeholder to its value and leaves unknown ones |
| UrlTemplates.SimultaneousMeaning | src/ldfd/download/url_builder.go:81-109 | one left-to-right pass that never looks at what it inserted does the same |
| UrlTemplates.SequentialIsSimultaneous | src/ldfd/download/url_builder.go:81-109 | on flat templates and values that open no brace, sequential replacement in any order equals the one pass |
| UrlTemplates.TemplateMeaning | src/ldfd/download/url_builder.go:81-109 | in particular for the nine placeholders in any order, any base URL and version without an opening brace |
| UrlTemplates.FullVersion | src/ldfd/download/url_builder.go:84-106 | for a version a.b.c the placeholders major, minor, patch, major_x, tag_short and tag_compact become a, b, c, a.x, va.b and vabc |
| UrlTemplates.PartsOfVersion | src/ldfd/download/url_builder.go:84-106 | the same for any number of parts, "0" for the missing and the empty ones |
| UrlTemplates.WholeVersion | src/ldfd/download/url_builder.go:87-90 | base_url and version become themselves, tag the version after a v |
| UrlTemplates.BecomesInTurn | src/ldfd/download/url_builder.go:81-109 | the nine replacements turn a placeholder into the same |
| UrlTemplates.KernelURL | src/ldfd/forge/generic.go:306 | the default kernel template puts the archive of a.b.c under va.x of the base URL |
| UrlTemplates.UnknownPlaceholdersStay | src/ldfd/download/url_builder.go:81-109 | under the nine replacements and in one pass alike, an unknown placeholder stays as it is wherever it stands in a flat template, and what surrounds it is substituted as if alone |
| UrlTemplates.NoOpeningIsExact | src/ldfd/download/url_builder.go:87-106 | in no list of two does the first value make sequential and simultaneous substitution differ, whatever the names and the flat template, exactly when that value has no opening brace |
| UrlTemplates.OpeningVersion | src/ldfd/download/url_builder.go:87-106 | for one version with an opening brace the nine replacements and the one pass differ on a flat template |
| UrlTemplates.BuildURL | src/ldfd/download/url_builder.go:23-45 | fails exactly on a missing source, component or version; else the base URL or the substituted template |
| UrlTemplates.TemplateChoice | src/ldfd/download/url_builder.go:48-69 | the template of the source, else for GitHub the component's for it, else the component's default |
| UrlTemplates.BaseURLs | src/ldfd/download/url_builder.go:112-120 | one slash and then one `.git` are taken off the end of the base URL |
| CachePaths.CachePathInjective | src/ldfd/download/cache.go:209-217 | equal cache paths mean equal keys, for slash-free sources and named artifacts |
| CachePaths.BaseMeaning | src/ldfd/download/cache.go:212 | the base of a path is the name after its last slash, whatever slashes follow it |
| CachePaths.NamedIsExact | src/ldfd/download/cache.go:209-217 | the path of an artifact is its key's alone among the artifacts that meet the condition exactly when it meets the condition itself |
| CachePaths.FallbackCollides | src/ldfd/download/cache.go:211-215 | for one that does not, another version with the same path is constructed |
| CachePaths.ArtifactsAreNamed | src/ldfd/download/downloader.go:422-452 | the paths that downloads and copies build for artifacts, whatever the version, always meet the condition |
| ArtifactCache.Cache.Lookup | src/ldfd/download/cache.go:48-82 | miss, stale entry removed, or hit whose row is then last used at the given time and once more than before; nothing else changes |
| ArtifactCache.Cache.Store | src/ldfd/download/cache.go:86-136 | the row of an existing key is then last used at the given time and once more than before, nothing else changes; else the object is copied, the row created and the cache evicted |
| ArtifactCache.Cache.ListLRU | src/ldfd/db/artifact_cache.go:95-120 | at most the limit of rows, in order of last use, none of the others older |
| ArtifactCache.Cache.EvictBatch | src/ldfd/download/cache.go:167-192 | a batch keeps being the simple policy's next removals, and stops at the first total that fits |
| ArtifactCache.Cache.Evict | src/ldfd/download/cache.go:144-194 | terminates; each removed entry was least recently used while the total was too large; removes exactly its row and object; afterwards the total is within maxSizeGB times 2^30, and nothing goes if it was before |
| ArtifactCache.TotalWithout | src/ldfd/db/artifact_cache.go:123-133 | taking a row away takes its bytes, and only those, off the total |
| ArtifactCache.NextOfBatch | src/ldfd/download/cache.go:167-192 | after the first n of a batch, the next is still a least recently used one of what is left |
| CacheRuns.EvictsShortestPrefix | src/ldfd/download/cache.go:144-194 | a list of entries is an eviction exactly when it is a shortest prefix of some order of last use of all rows whose removal brings the total to the limit; entries used at the same time may come in any order |
| CacheRuns.EvictionIsDetermined | src/ldfd/download/cache.go:144-194 | with distinct times of use there is one outcome, so batching makes no difference |
| CacheRuns.UsedGoesLast | src/ldfd/db/artifact_cache.go:73-79 | an entry looked up or stored again after all others were used is evicted only when all others are |
| CacheRuns.NewGoesLast | src/ldfd/db/artifact_cache.go:37-59 | a new entry, too, goes last when the others were used before |
| CacheRuns.StoredIsFresh | src/ldfd/download/cache.go:110-122 | what a store of a new key leaves is the artifact given, used once, at the given time |
| CacheRuns.StoredContent | src/ldfd/download/cache.go:104-107 | the new entry's path holds the content of the artifact stored |
| CacheRuns.EvictionKeeps | src/ldfd/download/cache.go:144-194 | deleting the evicted objects takes no survivor's object |
| CacheRuns.StoreKeeps | src/ldfd/download/cache.go:86-136 | storing keeps one entry per key and every entry backed, and a stored object is no longer missing |
| CacheRuns.StepKeeps | src/ldfd/download/cache.go:48-136 | every step, with losses and uploads elsewhere, keeps index and storage in agreement up to what was lost and not stored anew |
| CacheRuns.StepKeepsContents | src/ldfd/download/cache.go:48-136 | a surviving entry keeps its path and its object's content |
| CacheRuns.RunKeeps | src/ldfd/download/cache.go:48-194 | over every run: one entry per key, no path shared, and an object for every entry unless it was lost after the last store that copied an object to its path |
| CacheRuns.StaleLookup | src/ldfd/download/cache.go:62-71 | a lookup that finds its object missing removes that entry and no other |
| DownloadJobs.Manager.GetBySourceAndVersion | src/ldfd/db/download_jobs.go:70-75 | a job of the distribution, source and version, if there is one |
| DownloadJobs.Manager.GetCompletedBySourceAndVersion | src/ldfd/db/download_jobs.go:78-82 | a completed job of any distribution for the source and version, if there is one |
| DownloadJobs.Manager.AddComponentToJob | src/ldfd/db/download_jobs.go:442-475 | appends the component unless the job lists it |
| DownloadJobs.Manager.NewJob | src/ldfd/download/manager.go:415-543 | completed exactly on a copied cache hit, or failing that a copied artifact of a completed job; else pending |
| DownloadJobs.ResolveMeaning | src/ldfd/download/manager.go:361-382 | a name is needed under a key exactly when component, effective source and specified version say so |
| DownloadJobs.Manager.CreateOrReuseJobForComponent | src/ldfd/download/manager.go:354-559 | a component with source and version is then listed in the one job of its key; nothing else is added; the local map keeps pointing at matching rows |
| DownloadJobs.Manager.CreateJobsForDistribution | src/ldfd/download/manager.go:312-347 | one job per distribution, source and version; every resolvable component listed exactly once in its job and no other; the returned list is exactly the new jobs, each created for the first name of its key with the status the answers for that name call for; others' jobs untouched |
| DownloadJobs.AddServes | src/ldfd/db/download_jobs.go:442-475 | joining a job keeps the table sound and serves the component |
| DownloadJobs.CreateServes | src/ldfd/download/manager.go:527-556 | a job for a key that had none keeps the table sound and serves the component |
| DownloadJobs.ServedLater | src/ldfd/download/manager.go:312-347 | a component once served stays served by whatever follows |
| DownloadJobs.RightFromOld | src/ldfd/download/manager.go:415-513 | whether a new job is complete at once depends only on jobs that were there before the run |
| DownloadJobs.FirstToNeed | src/ldfd/download/manager.go:386-413 | a job is only created for the first name that needs its key |
| DownloadJobs.OneMore | src/ldfd/download/manager.go:325-344 | one more name keeps all of this, whatever cache and copies do |
| DownloadWorker.Worker.ProcessJob | src/ldfd/download/worker.go:50-161 | at most MaxRetries + 1 attempts; completed exactly when some attempt succeeded, else failed; retry count and total backoff exact and bounded |
| DownloadWorker.Worker.RunAttempt | src/ldfd/download/worker.go:76-150 | one attempt succeeds by a mirror copy or by verification and download, and leaves the status it reached |
| DownloadWorker.DelaysExact | src/ldfd/download/worker.go:58-60 | no delay of a run overflows exactly when the last one fits in 63 bits |
| RateLimit.RateLimiter.Allow | src/ldfd/api/ratelimit.go:57-82 | the answer and the new window table, by the window's age and count; a new window lasts a minute |
| RateLimit.RateLimiter.CleanupTick | src/ldfd/api/ratelimit.go:85-104 | removes exactly the expired windows |
| RateLimit.CleanupInvisible | src/ldfd/api/ratelimit.go:57-104 | cleanup ticks anywhere in a run change no answer |
| RateLimit.RefusedOnlyIfFull | src/ldfd/api/ratelimit.go:57-104 | in every run a request is refused only under a positive limit, and only if that many limited requests of its key got through in the minute ending with it |
| RateLimit.FreeAfterAMinute | src/ldfd/api/ratelimit.go:66-73 | a key of which nothing got through for a minute is free, however often it was refused |
| RateLimit.OneWindow | src/ldfd/api/ratelimit.go:57-82 | one window lets at most L requests made under L through, whatever other limits share the key |
| RateLimit.AnyMinute | src/ldfd/api/ratelimit.go:57-104 | any closed minute of any run, at most 2L - 1 |
| RateLimit.WorstCase | src/ldfd/api/ratelimit.go:57-82 | a run in clock order reaches 2L - 1 |
| RateLimit.SlidesOnlyForOne | src/ldfd/api/ratelimit.go:36-82 | the promise of a sliding window, no minute of any run above the limit, holds exactly for a limit of one |
| SourceVersions.SourceVersionTable.BulkUpsert | src/ldfd/db/source_versions.go:193-259 | all of the batch or, on any error, nothing; returns the growth of the key set |
| SourceVersions.AppliedAll | src/ldfd/db/source_versions.go:212-252 | keys grow by the batch's; present keys keep id and discovery time; the last element wins the other columns, a missing type becoming stable; the first names a new row; other rows stay |
| SourceVersions.UpsertedIsDetermined | src/ldfd/db/source_versions.go:212-252 | these clauses leave only one table |
| SourceVersions.WriteTwice | src/ldfd/db/source_versions.go:193-259 | the same batch again changes nothing, so it counts 0 |
| RefreshTokens.TokenStore.CreateRefreshToken | src/ldfd/auth/tokens.go:30-58 | one fresh active row of the user for seven days |
| RefreshTokens.TokenStore.ValidateRefreshToken | src/ldfd/auth/tokens.go:62-94 | accepted exactly when known, not revoked and not expired, with the reason otherwise |
| RefreshTokens.TokenStore.CleanupExcessTokens | src/ldfd/auth/tokens.go:209-227 | with distinct creation times: at most max active tokens of the user remain, as many as there were if fewer, each newer than every one dropped; every other row is untouched |
| RefreshTokens.TokenStore.CleanupExpiredTokens | src/ldfd/auth/tokens.go:230-249 | drops exactly the expired and the revoked rows, and at no later time is any token accepted or active that was not before, or the reverse |
| RefreshTokens.ExpiredUnmissed | src/ldfd/auth/tokens.go:62-94 | from the cleanup on, validation accepts the same tokens for the same users and the same tokens are active |
| RefreshTokens.TokenStore.RefreshAccessToken | src/ldfd/auth/jwt.go:136-184 | validate, revoke, look up, issue, trim: result and table in every outcome |
| RefreshTokens.KeptAreNewest | src/ldfd/auth/tokens.go:209-227 | the kept tokens are as many as allowed and newer than every dropped one |
| RefreshTokens.RefreshBounds | src/ldfd/auth/jwt.go:136-184 | after a success the user has between 1 and max active tokens, the new one among them, the old one not |
| RefreshTokens.BoundedAfterRefresh | src/ldfd/auth/jwt.go:136-184 | the same after every successful refresh of every run |
| RefreshTokens.AcceptedOnce | src/ldfd/auth/jwt.go:136-184 | in every run a token is accepted at most once, with logouts and cleanups anywhere between |
| RefreshTokens.AcceptedForAWeek | src/ldfd/auth/tokens.go:30-94 | in every run an active token that is not presented, logged out or crowded out is accepted up to a week after it was issued, and no longer |
| RefreshTokens.LogoutMeaning | src/ldfd/auth/tokens.go:112-165 | logging out ends the token, logging out everywhere all of the user's, and no other |

## Left out

- HTTP fetching and JSON, HTML and regular-expression parsing in discovery: the lists of releases and tags are arbitrary inputs.
- SQL text, row scanning, migrations and loading from disk; a table is a map or a sequence with its key constraints.
- Storage backends, normalisation of storage paths and errors of storage calls; total sizes as 64-bit sums, and the cache's statistics.
- Cryptography: signing, hashing and generating tokens; access tokens and their revocation list.
- ldfctl, the web UI, routes, settings, branding, board and toolchain profiles.
- Goroutines, channels, contexts and the dispatcher. That a cancelled job stays cancelled, or that one worker at a time has a job, is not claimed: the worker overwrites the status (src/ldfd/download/worker.go:81) and the dispatcher can enqueue a pending job again (src/ldfd/download/manager.go:225-229).
- The mirror prefix choice, the version override ladder and component priorities: settled by reading one branch.
- Discovery.SortVersionsDescending: an insertion sort stands for the library's sort; only the sorted permutation is relied on.
- Discovery.DiscoverVersions: failing fetches, which the code answers with an error or with the other list alone, are an empty list here.
- Throttle.RateLimiter.Attempt: the float conversion, and 64-bit saturation of the token sum after very long idle times, are not modelled.
- DownloadJobs.Manager.CreateJobsForDistribution: required components, their sources and versions are given; priorities, names, URLs and retrieval methods of a job, and storing a reused artifact in the cache, are not modelled.
- DownloadWorker.Worker.ProcessJob: the text of the last error, progress, and the transfer itself are not modelled; how each attempt goes is a parameter.
- RefreshTokens.TokenStore.CleanupExcessTokens: its two clock readings are one, ties in creation time are excluded by premise, and a negative maximum, which no caller passes, keeps nothing here.
- RefreshTokens.TokenStore.CleanupExpiredTokens: the table of revoked access tokens is not modelled.
- RefreshTokens.AcceptedOnce: concurrent refreshes of one token are not modelled; runs are sequential.
- Prereleases.DefaultVersionFilter: fetching the releases, skipping drafts and normalising tags are not modelled; the list with its prerelease flags is given.
- KernelVersions.PresetParses: the preset text is written as the concatenation of its items.
