# UAE labour-law registry sync, modelled in Dafny

`sync-laws.mjs` builds a registry of UAE labour-law instruments in five steps:
- It discovers instruments from the links on the ministry's index pages.
- It merges the configured seed instruments and enriches each from its government-portal page.
- It infers which instruments amend or repeal which.
- It derives each instrument's lifecycle status.
- It writes a dated snapshot, the in-force view and a diff against the previous snapshot.

This project models that pipeline and proves what each step guarantees. The page fetches, the
file system and the clock are left outside.

The modules follow the source's parts:

| file | models |
|---|---|
| `text.dfy` | The JavaScript character classes, regular expressions and string methods the pipeline uses: `\s`, ASCII `toLowerCase`, `/i` literals, `indexOf`, string `<`. |
| `slug.dfy` | `slugFromTitle`. |
| `instruments.dfy` | The instrument record and the insertion-ordered map keyed by id. This map stands for the JavaScript `Map` (`byId`, `keyBy`) and the plain object `uniq`. `keyBy` itself is a method here. |
| `portal.dfy` | `textBetween`, `normaliseDate` and the decision logic of `enrichFromPortal`. |
| `discovery.dfy` | `parseMohreIndex` after the page is fetched and its links extracted. |
| `inference.dfy` | The amendment and repeal linking loop. |
| `lifecycle.dfy` | Status derivation and the in-force filter. |
| `snapshot_diff.dfy` | `computeDiff`. |
| `sync.dfy` | `main`. The mutable `byId` map and the records it holds are the class `Registry`, whose methods are the loops of `main`. `RunSync` runs the whole pipeline. |

## How the model represents the source

- **Fields.** A record field that is `undefined` or `null` is `None`. JavaScript truthiness of a string field is `Truthy` (present and not `""`), and `v || null` is `OrNull`.
- **Maps.** A JavaScript `Map` and the object `uniq` are both a sequence of records with distinct ids, in insertion order.
  - Setting an existing key replaces the value where it stands; a new key goes last (`Put`).
  - The object behaves like this because a slug is never an array index. An array-index key has at most ten characters. A label that passes the keyword filter has the keyword's ASCII letters, and a slug of ten characters or fewer was not truncated, so it still holds those letters.
  - A slug has no `_`, so it is never `__proto__`.
- **Case-insensitive regular expressions.** A `/i` expression with an ASCII pattern and no `u` flag folds case only between ASCII letters. `ContainsIgnoringCase` models it as a search in the ASCII-lower-cased text.
- **Inference.** The loop at sync-laws.mjs:109-121 is a fold (`InferPrefix`) of one step per item.
  - `InferredPointwise` proves the result equals `LinkedAfter`, a per-record description computed from the input alone.
  - Each record's amender list is the old list with every amending id appended once (`AppendMissing`), if it is the first "33 of 2021" target.
  - Its repealer is the first truthy value among the old one and the ids of the repealers that pick it (`FirstWins`).
  - This is possible because no step changes what a step reads: titles, topics, ids and effective dates.
- **Repeal candidates.** The candidate (filter, stable descending sort, `[0]`) is `BestIn`. It is the earliest of the candidates with the greatest date.
  - Both `<` and `localeCompare` are modelled as code-unit order (`LexLess`), because the two agree on ISO dates.
  - `LexLess` is proved a strict total order.
- **External behaviour is passed in.**
  - `Host` supplies five functions:
    - `absolute` (URL resolution);
    - the SHA-1 hex digest;
    - `Date.parse` followed by `toISOString().slice(0,10)`, as a partial function;
    - the outcome of fetching and link-extracting an index page;
    - the outcome of fetching a portal page.
  - `runDate` stands for `today`, and `generatedAt` for the clock reading in `computeDiff`.
  - The previous snapshot is `Option`. `None` means no snapshot file exists.
  - An unreadable file, which `readJSON` turns into `[]`, is `Some([])`.

## Where the code and the design differ

The model follows the code in each case.
- **Amendment trigger.** It is `/(33|9)\/?20(21|22|23|24)/` (sync-laws.mjs:110), so the year must follow "33" or "9" directly or after one `/`.
  - A title citing "Decree-Law No. 33 of 2021" does not trigger it, so the worked example of an amending resolution with that wording links nothing.
  - `Inference.LawReferenceNeedsAdjacentYear` states this: a title containing none of "/20", "3320" or "920" has no law reference.
  - `Inference.AmendedByAfterInference` shows that only triggering titles are linked.
- **Seed hints.** The design lets the discovered record supply the title and source URL only where the seed lacks them. The code does the reverse (sync-laws.mjs:100): a seed's `titleHint` and `mohreRef` are used only when no discovered record has its id. Otherwise the discovered record keeps its own title and source URL, even missing ones, and the seed's are ignored. `Sync.MergedRecord` states this.
- **Self-amendment.** An instrument may amend itself. It is only the first title matching "33 of 2021" or "33/2021" (sync-laws.mjs:112) that is amended, whatever the amending title cites, and that target may be the amender.
- **Repealed without a repealer.** `status == "repealed"` from enrichment survives status derivation without `repealedBy` (`Lifecycle.RepealedWithoutRepealer`). Repealed does not imply `repealedBy`.
- **Empty ids.** An id of `""` is falsy. A repealer with an empty id therefore does not block later repealers (`Inference.RepealFirstWins` states the first non-empty id wins).
- **Already-repealed candidates.** The best candidate is not skipped because it is already repealed. The later repealer then links nothing.
- **U+FEFF.** It is already whitespace for `\s` (sync-laws.mjs:49), so the whitespace pass turns it into a space before the zero-width pass runs.
- **Label keyword list.** "emiratisation" appears twice in the list (sync-laws.mjs:45); the duplicate changes nothing.
- **Run sequencing.** The snapshot listing calls `f.endswith` (sync-laws.mjs:91) and the diff file name uses Python `f"..."` syntax (sync-laws.mjs:138). As written the first throws when the directory holds a file and the second does not parse. `RunSync` follows the evidently intended sequence: the diff is computed always and written exactly when a previous snapshot exists.

## Model

| member | source | states |
|---|---|---|
| Text.ReplaceSpaceRuns | sync-laws.mjs:49 | every character of the result is the separator, or a non-whitespace character of the input |
| Text.ReplaceSpaceRunsAppend | sync-laws.mjs:49 | replacing runs works part by part when the cut is not inside a whitespace run |
| Text.ReplaceSpaceRunsOfSpaces | sync-laws.mjs:49 | a non-empty all-whitespace text becomes the single separator |
| Text.ReplaceSpaceRunsIdentity | sync-laws.mjs:49 | a text without whitespace is unchanged |
| Text.ReplaceSpaceRunsSplit | sync-laws.mjs:49 | a whitespace run between two parts that do not touch it becomes exactly one separator, and each part is replaced on its own |
| Text.Lower | sync-laws.mjs:60 | `toLowerCase` keeps the length and lower-cases each character, ASCII letters only |
| Text.ContainsIgnoringCase | sync-laws.mjs:45 | a literal pattern with the `i` flag matches exactly when it occurs at some position of the lower-cased text |
| Text.ContainsSpaced | sync-laws.mjs:73 | `/a\s*b/` occurs in the text |
| Text.SpacedAfterSkipsSpaces | sync-laws.mjs:73 | `\s*` before the next part consumes some whitespace characters, possibly none, and the rest matches from there |
| Text.ContainsSpacedSomewhere | sync-laws.mjs:112 | the spaced pattern occurs exactly when it matches from some position of the text |
| Text.IndexOf | sync-laws.mjs:25-27 | the result is the first position at or after `from` where the pattern occurs, or none if it occurs nowhere there |
| Text.LexLessIrreflexive | sync-laws.mjs:117-118 | no string is less than itself under the string order used for dates |
| Text.LexLessTransitive | sync-laws.mjs:117-118 | the string order is transitive |
| Text.LexLessTotal | sync-laws.mjs:117-118 | any two distinct strings are ordered one way or the other |
| Slug.KeepSlugChars | sync-laws.mjs:60 | after deleting characters outside `[a-z0-9/ ]` only characters of the input from that class remain, and an input made only of them is unchanged |
| Slug.KeepSlugCharsAppend | sync-laws.mjs:60 | deletion works part by part, so together with the two cases above it keeps exactly the class's characters, in order |
| Slug.HyphenateSpaces | sync-laws.mjs:60 | replacing whitespace runs by `-` over kept characters leaves only slug characters |
| Slug.HyphenateSpacesJoinsWords | sync-laws.mjs:60 | the whitespace run between two words without whitespace becomes exactly one `-` |
| Slug.CollapseHyphensShape | sync-laws.mjs:60 | the result has no two consecutive hyphens, only characters of the input, is empty only for an empty input, and starts with `-` exactly when the input does |
| Slug.CollapseHyphensAppend | sync-laws.mjs:60 | collapsing works part by part when the cut is not inside a hyphen run |
| Slug.CollapseHyphensOfHyphens | sync-laws.mjs:60 | a non-empty run of hyphens becomes one hyphen |
| Slug.CollapseHyphensSplit | sync-laws.mjs:60 | a hyphen run between two parts that do not touch it becomes exactly one hyphen |
| Slug.CollapseHyphensIdentity | sync-laws.mjs:60 | a text without two consecutive hyphens is unchanged |
| Slug.SlugFromTitle | sync-laws.mjs:59-61 | a slug has at most 60 characters, all from `[a-z0-9/-]`, and no two consecutive hyphens |
| Slug.SlugKeepsTitleWords | sync-laws.mjs:59-61 | the slug's letters, digits and slashes are a prefix of the lower-cased title's, and all of them when the slug is shorter than 60 |
| Slug.SlugIsNotIdempotent | sync-laws.mjs:59-61 | the slug of "a b" is "a-b", whose own slug is "ab": slugging twice differs from slugging once |
| Slug.SlugTwiceHasNoHyphen | sync-laws.mjs:59-61 | the slug of a slug contains no hyphen, because the first pass keeps only the hyphens and the second deletes them. So a slug that contains a hyphen is never its own slug |
| Instruments.OrNull | sync-laws.mjs:156 | `v \|\| null` is null exactly when `v` is falsy, and `v` otherwise |
| Instruments.FindId | sync-laws.mjs:97 | the position of the first entry with the key, or none exactly when the key is absent |
| Instruments.Lookup | sync-laws.mjs:100 | `get` finds an entry with the key, or nothing exactly when the key is absent |
| Instruments.Put | sync-laws.mjs:97 | after `set`, the keys are the old keys plus the new one, none twice, the key holds the new record and every other key holds what it held |
| Instruments.PutFresh | sync-laws.mjs:97 | `set` with a new key appends the record at the end of the insertion order |
| Instruments.PutInPlace | sync-laws.mjs:103 | `set` with a present key keeps the size and the insertion order, replaces that key's entry where it stands and leaves every other entry |
| Instruments.PutAllKeys | sync-laws.mjs:54 | setting every record of a list leaves the union of the keys, none twice |
| Instruments.PutAllLookup | sync-laws.mjs:54 | after setting every record of a list, each of its keys holds the list's last record with that key and every other key is unchanged |
| Instruments.KeyedByContents | sync-laws.mjs:147 | `keyBy` holds exactly the ids of the list, each once, each with the last record carrying it |
| Instruments.KeyedByDistinct | sync-laws.mjs:147 | `keyBy` of a list with distinct ids holds the records in the order given |
| Instruments.KeyedByMembers | sync-laws.mjs:147 | `keyBy` holds only records of the list |
| Instruments.KeyBy | sync-laws.mjs:147 | the loop of `keyBy` builds the keyed map: distinct ids, the list's id set, each id with its last record |
| Portal.TextBetween | sync-laws.mjs:24-29 | "" when `start` never occurs or no `end` follows its first occurrence; otherwise the text between the first `start` and the first `end` after it |
| Portal.TextBetweenStopsAtEnd | sync-laws.mjs:24-29 | the result never contains `end`, and a non-empty result is delimited by the first `start` and the next `end` |
| Portal.NormaliseDate | sync-laws.mjs:80-87 | a falsy date gives null, an ISO-shaped date passes through unchanged, any other is what date parsing makes of it |
| Portal.NormaliseDateIsIso | sync-laws.mjs:80-87 | when parsing yields ISO dates, every result is ISO-shaped and normalising twice equals normalising once |
| Portal.FirstIsoAt | sync-laws.mjs:70 | the first position at or after `from` where `\d{4}-\d{2}-\d{2}` matches, or none |
| Portal.DayMonthYearAt | sync-laws.mjs:71 | a `\d{1,2}\s+\w+\s+\d{4}` match starts with a digit and stays inside the text |
| Portal.DayMonthYearAtSound | sync-laws.mjs:71 | what is found at a position is one or two digits, whitespace, word characters, whitespace and four digits |
| Portal.DayMonthYearAtComplete | sync-laws.mjs:71 | any way the pattern matches at a position is the one found there, so the match at a position is unique |
| Portal.DayMonthYearAtMatches | sync-laws.mjs:71 | the search at a position finds a match exactly when the pattern matches there, and with its length |
| Portal.FirstDayMonthYearFinds | sync-laws.mjs:71 | the search from a position finds nothing exactly when no later position holds a match, and otherwise the first position that does |
| Portal.FirstDayMonthYearLeftmost | sync-laws.mjs:71 | the result is the text of the leftmost match, and nothing exactly when the pattern matches nowhere |
| Portal.EffectiveDateText | sync-laws.mjs:70-71 | a found date is non-empty, and when the block holds an ISO date the result is the first ISO date |
| Portal.EffectiveDateTextFallback | sync-laws.mjs:70-71 | without an ISO date the result is the leftmost day-month-year match, and there is no date exactly when neither pattern matches |
| Portal.IsIsoDate | sync-laws.mjs:82 | `/^\d{4}-\d{2}-\d{2}$/`: ten characters, digits with hyphens at positions 4 and 7 |
| Portal.PageStatus | sync-laws.mjs:72-74 | the page status is one of the four statuses |
| Portal.PageStatusPrecedence | sync-laws.mjs:69-74 | "repealed" iff a repeal cue; "in_force" iff no repeal cue and an in-force cue in the Status block; "amended" iff neither and an amend cue; "unknown" iff none |
| Portal.Prefix | sync-laws.mjs:75 | `slice(0, n)` is the first `n` characters, or the whole text when it is shorter |
| Portal.Enrich | sync-laws.mjs:63-79 | without a URL the item is returned as is. Otherwise `uaePortal` is set. Every field other than the portal URL, status, effective date and hash is kept. A failed fetch keeps `status \|\| "unknown"`, the date and the hash. A fetched page gives the page status, the normalised effective date and the 12-character hash prefix. |
| Portal.EnrichedStatusIsValid | sync-laws.mjs:72-77 | enrichment with a URL always leaves one of the four statuses, given a valid or unset one before |
| Discovery.IsInstrumentLabel | sync-laws.mjs:45 | the label contains one of the keywords, ignoring case |
| Discovery.InstrumentLinks | sync-laws.mjs:44-46 | exactly the links whose label passes the keyword filter are kept |
| Discovery.InstrumentLinksAppend | sync-laws.mjs:44-46 | the filter keeps order and repetitions: filtering a concatenation filters each part |
| Discovery.RemoveZeroWidth | sync-laws.mjs:49 | the result has no zero-width characters and only characters of the input, and a text without them is unchanged |
| Discovery.RemoveZeroWidthAppend | sync-laws.mjs:49 | removal works part by part, so it deletes exactly the zero-width characters and keeps the rest in order |
| Discovery.Trim | sync-laws.mjs:49 | the result neither starts nor ends with whitespace and holds only characters of the input |
| Discovery.TrimIsInfix | sync-laws.mjs:49 | the result is a contiguous middle part of the input, and everything cut off before and after it is whitespace |
| Discovery.TrimIdentity | sync-laws.mjs:49 | a text with no whitespace at either end is unchanged |
| Discovery.CleanLabel | sync-laws.mjs:49 | whitespace runs become one space, zero-width characters go, then the edges are trimmed |
| Discovery.CleanLabelOfVisible | sync-laws.mjs:49 | a label without whitespace or zero-width characters is its own title |
| Discovery.CleanLabelJoinsWords | sync-laws.mjs:49 | two visible words separated by any whitespace run become the words joined by one space |
| Discovery.CleanLabelFacts | sync-laws.mjs:49-50 | cleaning keeps every visible character in order, removes edge whitespace and zero-width characters, leaves only plain spaces, and is empty exactly when the label has nothing visible |
| Discovery.IndexItemsMembers | sync-laws.mjs:48-52 | an item is built exactly for each link whose cleaned label is non-empty |
| Discovery.DiscoveredRecords | sync-laws.mjs:48-55 | discovered records have distinct ids and come from a kept link with a non-empty label, titled by its cleaned label and keyed by its slug |
| Discovery.DiscoveredComplete | sync-laws.mjs:53-55 | every kept link with a non-empty label has its slug discovered, holding the last item with that slug |
| Discovery.ParseIndex | sync-laws.mjs:42-55 | `parseMohreIndex` after the fetch: the collected records, keyed by id so that a later duplicate replaces an earlier one in its place |
| Discovery.CollectItems | sync-laws.mjs:48-52 | the item loop of `parseMohreIndex` collects, in link order, one record per kept link whose cleaned label is non-empty. Each record has the slug as id, the cleaned label as title and the resolved link as source URL |
| Inference.HasLawReference | sync-laws.mjs:110 | the title contains one of the sixteen literals that `(33\|9)\/?20(21\|22\|23\|24)` can match |
| Inference.LawReferenceForms | sync-laws.mjs:110 | those literals are exactly a law number 33 or 9, an optional slash, "20" and a year from 21 to 24 |
| Inference.AmendTrigger | sync-laws.mjs:110-111 | a title with a law reference that contains "amend", ignoring case; a missing title never triggers |
| Inference.IsLaw33Title | sync-laws.mjs:112 | the title matches `33\s*of\s*2021` or `33/2021`, ignoring case; a missing title does not |
| Inference.RepealTrigger | sync-laws.mjs:115 | the title contains "repeal" or "replaced", ignoring case; a missing title does not |
| Inference.IsCandidate | sync-laws.mjs:117 | same topic, both dates truthy and the candidate's strictly smaller |
| Inference.LawReferenceNeedsAdjacentYear | sync-laws.mjs:110 | a title without "/20", "3320" or "920" never matches the amendment trigger's law reference |
| Inference.FirstTargetFrom | sync-laws.mjs:112 | `find` returns the first instrument whose title matches "33 of 2021" or "33/2021", or none if none does |
| Inference.BestIn | sync-laws.mjs:116-118 | the chosen candidate has the repealer's topic and a strictly smaller date. No candidate has a greater date, and every earlier candidate has a smaller one. There is none exactly when no instrument qualifies, and always none for a repealer without a date. |
| Inference.InferredPointwise | sync-laws.mjs:109-121 | after the loop each record's amender list and repealer are those computed from the input alone, as if amendment and repeal ran as two passes |
| Inference.AmendedByAfterInference | sync-laws.mjs:109-114 | amendment linking only appends; only the first "33 of 2021" target changes; its list gains exactly the ids of the amending titles; no id appears twice if none did |
| Inference.RepealedByAfterInference | sync-laws.mjs:115-120 | a truthy repealer is never overwritten and an instrument without a date is never repealed. A new repealer is a repealing item whose chosen candidate this is: same topic, a smaller date, maximal among candidates. |
| Inference.RepealFirstWins | sync-laws.mjs:119 | the first repealing item with a non-empty id that picks an unrepealed instrument becomes its repealer |
| Inference.AppendMissingFacts | sync-laws.mjs:113 | pushing ids that are not yet present keeps the old list as prefix, holds exactly the old and the new ids, and adds no duplicate |
| Inference.FirstWinsFacts | sync-laws.mjs:119 | assigning only into a falsy field keeps a truthy value, takes its value from the assigned ids, and stays falsy only if all were empty |
| Inference.InferenceKeepsOtherFields | sync-laws.mjs:109-121 | the loop changes nothing but the amender lists and repealers |
| Inference.InferenceIdempotent | sync-laws.mjs:109-121 | running the loop again adds nothing |
| Lifecycle.Derive | sync-laws.mjs:124-127 | the status rule for one record |
| Lifecycle.DeriveAll | sync-laws.mjs:123-128 | the status rule applied to every record, in place and order |
| Lifecycle.DerivePrecedence | sync-laws.mjs:124-127 | a repealer makes the status "repealed" with the run date as end; else amenders make it "amended" unless already "repealed"; else a truthy status is kept; else "in_force". The end date is otherwise untouched and nothing else changes. |
| Lifecycle.DeriveStatus | sync-laws.mjs:124-127 | the derived status is always truthy, and one of the four statuses when the old one was valid or unset |
| Lifecycle.DeriveIdempotent | sync-laws.mjs:124-127 | applying the rule twice equals applying it once |
| Lifecycle.RepealedWithoutRepealer | sync-laws.mjs:125-127 | a record marked repealed without a repealer stays repealed, with no repealer and no end date |
| Lifecycle.InForceView | sync-laws.mjs:133 | the view holds exactly the records not repealed, is no longer than the snapshot, and is the snapshot when nothing is repealed |
| Lifecycle.InForceViewAppend | sync-laws.mjs:133 | the filter keeps order: the view of a concatenation is the concatenation of the views |
| SnapshotDiff.FieldChangesExact | sync-laws.mjs:154-156 | a field is reported exactly when its `\|\|null` values differ, from the previous and to the current value, each field once; falsy on both sides is never a change |
| SnapshotDiff.CompareFields | sync-laws.mjs:154-156 | the field loop computes the field changes |
| SnapshotDiff.DiffOf | sync-laws.mjs:148-160 | the diff of two snapshots: the added, removed and changed records of their keyed maps |
| SnapshotDiff.ComputeDiff | sync-laws.mjs:148-160 | the loops of `computeDiff` compute the diff |
| SnapshotDiff.AddedAndChanged | sync-laws.mjs:151-158 | the loop over the current keys reports, in order, each record that has no previous entry as added and each record with a differing shallow field as changed |
| SnapshotDiff.Removed | sync-laws.mjs:159 | the loop over the previous keys reports, in order, each record that has no current entry as removed |
| SnapshotDiff.DiffAdded | sync-laws.mjs:151-152 | `added` holds exactly the ids in current but not previous, once each, with the last current record |
| SnapshotDiff.DiffRemoved | sync-laws.mjs:159 | `removed` holds exactly the ids in previous but not current, once each, with the last previous record |
| SnapshotDiff.DiffChanged | sync-laws.mjs:153-157 | `changed` holds an id once exactly when it is in both and some tracked field differs, with exactly those field changes |
| SnapshotDiff.DiffOfSelfIsEmpty | sync-laws.mjs:148-160 | a snapshot compared with itself has nothing added, removed or changed |
| SnapshotDiff.ScenarioDiff | sync-laws.mjs:148-160 | `a` in force, then repealed by a new `b` on 2024-01-01: `b` is added, nothing removed, `a` changed in status, end date and repealer |
| Sync.MergedTopic | sync-laws.mjs:101 | the seed's topic when truthy, else the existing record's when truthy, else "labour"; so always truthy |
| Sync.Merged | sync-laws.mjs:100-103 | the record a seed leaves under its id |
| Sync.MergedAll | sync-laws.mjs:99-104 | the registry after merging each seed in order |
| Sync.Registry.Get | sync-laws.mjs:100 | `byId.get` returns the record under the id, or nothing |
| Sync.Registry.Set | sync-laws.mjs:103 | `byId.set` puts the record under its id and keeps the map's ids distinct |
| Sync.Registry.AddAll | sync-laws.mjs:96-97 | the registry after setting every discovered record |
| Sync.Registry.MergeSeeds | sync-laws.mjs:99-104 | the registry after the seed loop is the sequential merge of every seed |
| Sync.Registry.DefaultLinks | sync-laws.mjs:106-107 | every record gets its amender list and repealer defaulted; the ids stay distinct |
| Sync.Registry.InferRelationships | sync-laws.mjs:109-121 | the in-place loop leaves the records the inference fold describes; the ids stay distinct |
| Sync.Registry.InferAt | sync-laws.mjs:109-121 | one iteration reads the item once, then links it as an amender and as a repealer. This is one step of the inference fold; the ids stay distinct |
| Sync.Registry.LinkAmender | sync-laws.mjs:110-114 | one item's amendment linking, done in place; the ids stay distinct |
| Sync.Registry.LinkRepealer | sync-laws.mjs:115-120 | one item's repeal linking, done in place; the ids stay distinct |
| Sync.Registry.DeriveStatuses | sync-laws.mjs:123-128 | every record gets its derived status; the ids stay distinct |
| Sync.DiscoverPages | sync-laws.mjs:94-95 | the discovery loop gives every page's records in order, or nothing when a page fails |
| Sync.BuildSnapshot | sync-laws.mjs:96-128 | the registry steps in order produce the snapshot |
| Sync.RunSync | sync-laws.mjs:89-140 | a run produces the snapshot, the in-force view and the diff, or aborts |
| Sync.DiscoverAllFails | sync-laws.mjs:94-95 | a run's discovery fails exactly when some index page cannot be fetched |
| Sync.DiscoverAllFresh | sync-laws.mjs:51 | discovered records carry no status |
| Sync.MergedRecord | sync-laws.mjs:100-103 | the record a seed leaves has the seed's id. It has the registered record's title, source URL, links and end date, or the seed's title hint and reference with no links when nothing is registered. It has the merged topic. Without a portal URL it is the base record with that topic alone |
| Sync.MergedFacts | sync-laws.mjs:99-104 | a merged record has the seed's id, a truthy topic and a valid or unset status |
| Sync.MergedAllDistinct | sync-laws.mjs:99-104 | merging seeds keeps the ids distinct |
| Sync.MergedAllStep | sync-laws.mjs:99-104 | one more seed leaves the merged record under its id, in the existing record's place or appended when there was none, and every other id keeps its record |
| Sync.MergedAllOthers | sync-laws.mjs:99-104 | an id that no seed names keeps the record it had before the merge |
| Sync.MergedAllValid | sync-laws.mjs:99-104 | the seed merge keeps ids distinct and statuses valid or unset |
| Sync.MergedAllSeeds | sync-laws.mjs:99-104 | after the seed merge every seed's id is present with a truthy topic |
| Sync.SnapshotFacts | sync-laws.mjs:96-128 | the snapshot has distinct ids. Every seed is in it with a truthy topic, and every record has one of the four statuses. Every record with a repealer is repealed with the run date as end. |
| Sync.SnapshotHasSeeds | sync-laws.mjs:96-128 | the snapshot has distinct ids and holds every seed with a truthy topic |
| Sync.SnapshotStatuses | sync-laws.mjs:96-128 | every record of the snapshot has one of the four statuses |
| Sync.SnapshotRepealed | sync-laws.mjs:96-128 | every snapshot record with a repealer is repealed and ends on the run date |
| Sync.SyncFacts | sync-laws.mjs:89-140 | a run aborts exactly when an index page fails. Otherwise the snapshot has distinct ids and valid statuses, the in-force view holds exactly its unrepealed records, the diff is against the previous snapshot or `[]`, and it is written exactly when a previous snapshot exists. |

## Left out

- Network and file I/O are not modelled: `get`, `fetch`, `mkdirp`, `readJSON`, `writeJSON` and `readdirSync` (sync-laws.mjs:12-21, 90-92, 130-139). Page outcomes and the previous snapshot are inputs, and what would be written is returned.
- `extractLinks` (sync-laws.mjs:30-40) is a regular-expression scrape of HTML. An index page's fetch outcome is its list of (href, label) links.
- `absolute` (WHATWG URL resolution) and `hash` (SHA-1) are foreign library code and are opaque functions in `Host`.
- The `Date.parse` branch of `normaliseDate` is a locale-dependent parser and is an opaque partial function.
- The clock values `today` and `generatedAt` are parameters.
- Console output and `process.exit` (sync-laws.mjs:142-144, 163) are not modelled. A failed index fetch is the `Aborted` result.
- The asynchronous sequencing of `main` is not modelled. Its steps run in program order.
- Text is a sequence of Unicode characters, not UTF-16 code units.
  - `toLowerCase` is modelled on ASCII letters only, so the slug and the `/i` tests of non-ASCII titles may differ from the engine's.
  - `localeCompare` is modelled as code-unit order.
- Previous snapshots whose fields hold JSON values other than strings are not modelled. They would compare by reference in `computeDiff`.
- Records are values in a sequence, so aliasing between the `discovered` array, `byId` and `all` is not modelled. Each record sits under one key, so no update is seen through two names.
- sources.mjs is configuration data, passed in as `Sources`.
- The title of the amending-resolution worked example is not evaluated character by character. `Inference.LawReferenceNeedsAdjacentYear` covers it as a general statement.
