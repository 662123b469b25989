# Herbal encyclopedia: a verified model of its data logic

The site is a herbal encyclopedia. Nearly all of it renders pages. This project models the parts that make decisions about data, and proves what those parts promise:

- **Reference-data builder** (`scripts/build-duke-reference.js`), in `csv.dfy`, `names.dfy` and `assembler.dfy`. It parses the CSV tables of the Duke phytochemical database. It normalises names (`slugify`, `baseGenusSpecies`, `cleanChemName`). It indexes the parts, common-name, chemical and ethnobotany tables by plant number or taxon. Finally it folds the taxonomy rows into one entry per base-name slug: rows without useful data are skipped, and later rows for the same slug are merged in.
- **Reference lookup** (`scripts/extract-duke-entry.js`), in `extract.dfy`. It resolves a query in three stages:
  1. exact slug;
  2. base-name slug;
  3. the first entry, in file order, with a matching common or Latin name.

  It then filters nutritional noise and amino acids out of each part's compound list, keeps at most 30 per part, and shapes the printed summary. The tool's outcome and exit code are modelled as values.
- **Site data layer** (`src/lib/data.ts`), in `site_data.dfy`:
  - slug look-up, substring search and the conjunctive filter of the browse page;
  - scoring of related plants and teas, with a stable descending sort and a `limit` cut;
  - the site's own `slugify` and `formatLabel`.

  The plant and tea lists are parameters.
- **Prose utilities** (`src/lib/content-utils.ts`), in `content.dfy`:
  - paragraph splitting, on blank lines or by grouping the regular-expression sentences into at most three paragraphs;
  - the pull-quote choice.
- **Gather queue** (`src/lib/gather-queue.ts`), in `gather_queue.dfy`:
  - the queue is a `Queue` object whose item list `Add` and `Remove` change in place;
  - item status (merged > staged > queued), computed from indexes of the main data files and the staging directories;
  - the sorted summary index of the reference store.

  The file system is given as abstract state.
- **Oxidation meter** (`parseOxidationPercent` in `src/components/detail/OxidationMeter.tsx`), in `oxidation.dfy`. The leftmost match of `(\d+)\s*[-–]\s*(\d+)|(\d+)\s*%`, with a keyword fallback. Results are counted in half percents, so the midpoint of a range is an integer.

`text.dfy` holds the JavaScript string operations the core uses, on `seq<char>`:
- `trim` and `\s`, with JavaScript's white-space set;
- ASCII `toLowerCase`;
- `split` on a character and on `/\s+/`;
- `join` and `includes`.

`collections.dfy` holds generic sequence facts: filtering, first match, insertion-ordered dedup, sorted sets and the code-point string order.

Where the code is a loop that updates variables, the model is a `method` with a loop (`while` or `for`) and the invariants it keeps. Each such method is proved equal to a specification function, and the promised properties are lemmas about that function. Where the code is an expression chain, the model is a function.

## Model

| member | source | states |
|---|---|---|
| Csv.ParseLine | scripts/build-duke-reference.js:20-49 | the character loop, with its quote state and the skipped second quote of a `""` pair, returns exactly the fields the scan `Fields` defines |
| Csv.ScanEscaped | scripts/build-duke-reference.js:27-37 | inside quotes, `""` contributes one literal quote and a comma does not end the field; the closing quote returns to the unquoted state with the field's text appended |
| Csv.QuotedRoundTrip | scripts/build-duke-reference.js:20-49 | quoting every field (doubling its quotes) and joining with commas parses back to exactly those fields |
| Csv.UnquotedIsSplit | scripts/build-duke-reference.js:38-47 | a line without quote characters is split at every comma, so it has one field more than it has commas |
| Csv.QuotesOnlyFromDoubled | scripts/build-duke-reference.js:27-45 | when the line contains no `""` pair, no field contains a quote character |
| Csv.FieldCount | scripts/build-duke-reference.js:20-49 | the number of fields is the number of commas outside quotes plus one |
| Csv.RowOf | scripts/build-duke-reference.js:63-66 | a row has exactly the header names as keys, and every value is trimmed |
| Csv.RowOfValue | scripts/build-duke-reference.js:64-66 | the value under the last header of a name is the trimmed field at that header's position, and `""` when the line has fewer fields |
| Csv.BuildRow | scripts/build-duke-reference.js:63-66 | the `forEach` over the headers builds that row |
| Csv.HeadersOf | scripts/build-duke-reference.js:56 | every header name is trimmed |
| Csv.ParseCsv | scripts/build-duke-reference.js:51-71 | parsing the content gives the table: the header line's fields, then one row per data line |
| Csv.ReadRows | scripts/build-duke-reference.js:57-70 | the loop over the lines after the header builds the data rows |
| Csv.DataRowsAreNonBlankLines | scripts/build-duke-reference.js:59-68 | there is one row per non-blank line, in line order; blank and white-space-only lines give none |
| Csv.TableRowsShape | scripts/build-duke-reference.js:56-67 | every row of the table has exactly the trimmed header keys and only trimmed values |
| Names.CleanChemNameShape | scripts/build-duke-reference.js:75-82 | a cleaned chemical name has no hyphen, no outer white space, and capitals exactly at word starts |
| Names.CapitaliseWordsShape | scripts/build-duke-reference.js:80 | upper-casing each `\b[a-z]` of a lower-case string puts capitals exactly at word starts |
| Names.CleanChemNameIdempotent | scripts/build-duke-reference.js:76-82 | cleaning a cleaned name changes nothing |
| Names.CleanChemNameExample | scripts/build-duke-reference.js:75 | "BORNYL-ACETATE" becomes "Bornyl Acetate" |
| Names.SlugifyIsSlug | scripts/build-duke-reference.js:84-90 | a slug has only `[a-z0-9-]`, no hyphen at either end, and never two hyphens in a row |
| Names.SlugifyOfSlug | scripts/build-duke-reference.js:85-90 | a string that is already a slug is its own slug |
| Names.SlugifyIdempotent | scripts/build-duke-reference.js:85-90 | slugifying twice is slugifying once |
| Names.BaseGenusSpecies | scripts/build-duke-reference.js:98-115 | the loop over the words returns the base key: the first two words that are not rank or hybrid markers, joined by one space |
| Names.FirstTwoKept | scripts/build-duke-reference.js:100-113 | the push-and-break loop keeps the first two words that are not `x`, `var.`, `subsp.`, `nothosubsp.`, `f.` or `cv.` |
| Names.BasePartsShape | scripts/build-duke-reference.js:98-115 | at most two parts are kept, none a marker, each lower-case without white space; either all are non-empty or the blank taxon's single empty part remains |
| Names.BaseKeyNormal | scripts/build-duke-reference.js:98-115 | the base key is trimmed and lower-case |
| Names.BaseKeyShape | scripts/build-duke-reference.js:98-115 | the base key is lower-case and splits into at most two words, none a marker |
| Names.BaseKeyIdempotent | scripts/build-duke-reference.js:98-115 | taking the base key of a base key changes nothing |
| Names.AlliumExample | scripts/build-duke-reference.js:96 | "Allium sativum var. sativum" gives "allium sativum" |
| Names.MenthaExample | scripts/build-duke-reference.js:95 | "Mentha x piperita subsp. nothosubsp. piperita" gives "mentha piperita" |
| Assembler.Field | scripts/build-duke-reference.js:163 | `row.X ? row.X.trim() : ""`: trimmed, and `""` when the column is missing |
| Assembler.BuildPartsMap | scripts/build-duke-reference.js:141-144 | the loop over the PARTS rows builds the parts map |
| Assembler.PartsOfMember | scripts/build-duke-reference.js:141-144 | a code is in the parts map iff some PARTS row has that non-empty code and a non-empty name |
| Assembler.PartsOfLastWins | scripts/build-duke-reference.js:141-144 | a code is in the parts map iff some row has that non-empty code and a non-empty name; its name is the one in the last such row |
| Assembler.NamesFor | scripts/build-duke-reference.js:161-167 | the common names of a plant number are non-empty and trimmed |
| Assembler.IndexCommonNames | scripts/build-duke-reference.js:160-167 | the loop builds the common-name index, appending in row order |
| Assembler.CommonNamesGrouped | scripts/build-duke-reference.js:160-167 | a plant number has an index entry iff it has a non-empty common name, and the entry lists its names in row order, duplicates included |
| Assembler.AddToGroup | scripts/build-duke-reference.js:182-183 | adding a value to a group of sorted sets keeps them sorted, adds the key, and adds exactly that value under that key |
| Assembler.PartName | scripts/build-duke-reference.js:181 | the part name is never empty; it is `partsMap[ppco]` when that is present and non-empty |
| Assembler.AddChem | scripts/build-duke-reference.js:180-183 | storing a chemical puts it into the set of its number and part |
| Assembler.IndexChemicals | scripts/build-duke-reference.js:173-184 | the loop over the FARMACY_NEW rows builds the chemical index |
| Assembler.ChemsOfMembers | scripts/build-duke-reference.js:173-184 | the index holds chemical `c` under a number and part iff some row has a non-empty CHEM whose cleaned name is `c`, with that number and part name; rows with an empty CHEM add nothing |
| Assembler.StoredChemsAreClean | scripts/build-duke-reference.js:183 | every stored chemical has no hyphen, no outer white space, and capitals exactly at word starts |
| Assembler.IndexEthnobotany | scripts/build-duke-reference.js:193-208 | the loop over the ETHNOBOT rows builds the by-taxon and by-base indexes |
| Assembler.AddEthnoRowMembers | scripts/build-duke-reference.js:195-207 | one row adds its activity under its lower-cased taxon, and under its base key only when that base is non-empty and differs from the taxon |
| Assembler.EthnoOfMembers | scripts/build-duke-reference.js:193-208 | an activity is under a taxon (or base) iff some row with non-empty taxon and activity lists it there; every set is sorted and duplicate-free |
| Assembler.Lookup | scripts/build-duke-reference.js:233-238 | the look-up returns the uses of the exact lower-cased taxon, else of the base in the base index, else of the base in the taxon index |
| Assembler.EthnoLookupExact | scripts/build-duke-reference.js:233-236 | when some row has the exact lower-cased taxon, the uses are exactly that taxon's activities |
| Assembler.EthnoLookupFallback | scripts/build-duke-reference.js:236-238 | with no row for the exact taxon, the uses are the base's activities from the base index, or else from the taxon index |
| Assembler.SortedParts | scripts/build-duke-reference.js:250-254 | every part list becomes sorted and duplicate-free, with the same parts and chemicals |
| Assembler.MergeParts | scripts/build-duke-reference.js:267-279 | merged constituents have the parts of both sides and, per part, the chemicals of both, sorted and duplicate-free |
| Assembler.RowContribution | scripts/build-duke-reference.js:218-254 | one taxonomy row yields its slug, taxon, family, names, sorted parts and uses, or a skip |
| Assembler.ContributionOfValid | scripts/build-duke-reference.js:222-248 | a row that is not skipped has a slug key, a non-empty trimmed taxon, and at least one of common names, constituents or uses |
| Assembler.Merged | scripts/build-duke-reference.js:257-286 | the merge updates the existing entry as `MergeEntry` does |
| Assembler.MergeEntryFields | scripts/build-duke-reference.js:256-286 | a merge keeps `latinName` and `family` (also a missing family); common names become an insertion-ordered duplicate-free union extending the old list; constituents and ethnobotany become sorted unions; an empty contribution leaves a field unchanged |
| Assembler.Created | scripts/build-duke-reference.js:287-294 | a new entry takes the row's taxon, its family when non-empty, its common-name list as it is, and its sorted uses |
| Assembler.MergeEntryUseful | scripts/build-duke-reference.js:256-286 | merging into a useful entry gives a useful entry |
| Assembler.NewEntryUseful | scripts/build-duke-reference.js:244-248 | a created entry has at least one of common names, constituents and ethnobotany |
| Assembler.ApplyContribution | scripts/build-duke-reference.js:244-295 | a skip increments `skipped`; otherwise the slug's entry is merged, or created and appended to the key order |
| Assembler.AddRow | scripts/build-duke-reference.js:217-296 | one turn of the assembly loop is the row's contribution applied to the store |
| Assembler.Assemble | scripts/build-duke-reference.js:214-296 | the assembly loop builds the store that folding every row gives; what that store holds is stated by `AssembleKeys`, `UnionOfContributors` and `SameRowsSameUnions` |
| Assembler.BuildReference | scripts/build-duke-reference.js:139-296 | the whole build (parts map, indexes, assembly) gives the reference of the five tables |
| Assembler.ApplyWellFormed | scripts/build-duke-reference.js:244-295 | applying a contribution keeps keys and order in step, keys slugs, and entries useful |
| Assembler.AssembleAllWellFormed | scripts/build-duke-reference.js:214-296 | in the output every key is a slug, listed once in key order, and every entry has at least one of the three data fields; entries plus skipped rows never exceed the taxonomy rows |
| Assembler.SkippedCount | scripts/build-duke-reference.js:222-248 | every taxonomy row is either counted in `skipped` or contributes one slug |
| Assembler.OrderIsFirstAppearance | scripts/build-duke-reference.js:257-295 | the output keys are the contributed slugs in order of first appearance |
| Assembler.ApplyEntry | scripts/build-duke-reference.js:256-295 | after one row, a slug has an entry iff it had one or the row targets it; an existing entry keeps its Latin name and family |
| Assembler.FirstRowWins | scripts/build-duke-reference.js:217-296 | a slug has an entry iff some row makes it, and that entry's `latinName` and `family` come from the first such row |
| Assembler.GivesFromIndexes | scripts/build-duke-reference.js:222-248 | a row gives a slug a common name, a use, a part or a chemical iff it makes that slug and the name, use, part or chemical is in its index look-ups |
| Assembler.AssembleKeys | scripts/build-duke-reference.js:217-296 | a slug is in the output iff some taxonomy row makes it |
| Assembler.UnionOfContributors | scripts/build-duke-reference.js:256-295 | an entry's common names, uses, parts and per-part chemicals are exactly those that the rows making its slug bring, in both directions |
| Assembler.SameRowsSameUnions | scripts/build-duke-reference.js:256-295 | two row lists with the same members give the same slugs, the same ethnobotany and constituents, and the same set of common names |
| Assembler.ReversedRowsSameUnions | scripts/build-duke-reference.js:256-295 | reversing the taxonomy rows changes no slug, ethnobotany, constituents or set of common names |
| Extract.IsNoiseName | scripts/extract-duke-entry.js:124-132 | the noise test holds exactly when the lower-cased name is in the exact-noise list or the amino-acid list, or starts with "kilocalor" or "total dietary fiber" |
| Extract.IsNoiseIgnoresCase | scripts/extract-duke-entry.js:125 | the noise test does not depend on letter case |
| Extract.NoiseExamples | scripts/extract-duke-entry.js:47-95 | "Water", "Kilocalories (kcal)" and "LYSINE" are noise; "Allicin" is not |
| Extract.FilterCompoundsShape | scripts/extract-duke-entry.js:134-137 | the filtered list is an order-keeping subsequence, at most 30 long, with no noise; it is all the non-noise compounds when there are at most 30 of them, and exactly 30 otherwise |
| Extract.FilterCompoundsIdempotent | scripts/extract-duke-entry.js:134-137 | filtering a filtered list changes nothing |
| Extract.Get | scripts/extract-duke-entry.js:150 | a key is found iff the store lists it, and the value found is listed under it |
| Extract.FindEntry | scripts/extract-duke-entry.js:145-183 | the search with early returns computes the three-stage resolution `Find` |
| Extract.MatchesName | scripts/extract-duke-entry.js:163-179 | the inner loop matches a common name (case-insensitively), else the lower-cased Latin name, else its base key |
| Extract.ScanEntries | scripts/extract-duke-entry.js:161-182 | the scan loop computes the first name match in store order |
| Extract.ScanNamesFirst | scripts/extract-duke-entry.js:160-182 | the scan finds nothing iff no entry matches; otherwise it returns the first matching entry in store order |
| Extract.FindBySlug | scripts/extract-duke-entry.js:149-152 | a stored key that is a slug resolves to itself and its entry without scanning |
| Extract.FindNothing | scripts/extract-duke-entry.js:145-183 | nothing is found iff the query's slug is not a key, the base slug equals it or is not a key, and no entry's names match the trimmed lower-cased query |
| Extract.FindIsEntry | scripts/extract-duke-entry.js:145-183 | whatever is found is a key and entry of the store |
| Extract.PublishedEntriesAreFound | scripts/extract-duke-entry.js:149-152 | every key of a well-formed built reference is found by its own slug |
| Extract.FilterParts | scripts/extract-duke-entry.js:224-230 | the printed compounds keep exactly the parts whose filtered list is non-empty, each with its filtered list |
| Extract.SummaryShape | scripts/extract-duke-entry.js:213-235 | the summary keeps slug, Latin name and uses; common names default to `[]`; compounds are present iff constituents are, each part a non-empty noise-free subsequence of at most 30 |
| Extract.RunSucceeds | scripts/extract-duke-entry.js:187-239 | the exit code is 0 iff the joined, trimmed query is non-empty, the reference exists and the query resolves; the printed slug names a stored entry |
| SiteData.SiteSlugifyIdempotent | src/lib/data.ts:244-246 | the site slug has no white space and no capitals, and slugifying it again changes nothing |
| SiteData.FormatLabelChars | src/lib/data.ts:237-242 | the label has the input's length and no hyphen: each hyphen becomes a space |
| SiteData.FormatLabelOfWord | src/lib/data.ts:237-242 | a word without hyphens only has its first character upper-cased |
| SiteData.FormatLabelConcat | src/lib/data.ts:237-242 | "a-b" is labelled as the capitalised `a`, a space, and the label of `b` |
| SiteData.GetPlantBySlugFirst | src/lib/data.ts:27-33 | the plant returned is the first whose id is the slug or whose slugified common name is the lower-cased slug; none is returned iff no plant matches |
| SiteData.EveryPlantHasASlug | src/lib/data.ts:27-33 | a look-up by any listed plant's id or by the slug of its common name returns some plant (the first that slug addresses, which need not be that plant) |
| SiteData.OnlyPlantForSlug | src/lib/data.ts:27-33 | when a slug addresses exactly one listed plant, through its id or its common-name slug, the look-up returns that plant |
| SiteData.SearchPlantsMembers | src/lib/data.ts:39-55 | the search keeps, in order, exactly the plants whose common, Latin or other names, actions or conditions contain the lower-cased query |
| SiteData.SearchEmptyQuery | src/lib/data.ts:39-55 | the empty query keeps every plant |
| SiteData.FilterPlants | src/lib/data.ts:57-96 | the step-by-step narrowing keeps exactly the plants that pass every active filter, in order |
| SiteData.Narrow | src/lib/data.ts:66-93 | one filter step adds its condition, and an inactive step keeps the list |
| SiteData.FilterPlantsMembers | src/lib/data.ts:57-96 | a plant is kept iff it is listed and passes the search and, for each non-empty list, shares at least one value with it; the result is a subsequence |
| SiteData.EmptyFilterKeepsAll | src/lib/data.ts:57-96 | an empty filter keeps every plant |
| SiteData.SortByScoreCorrect | src/lib/data.ts:206-207 | the descending sort is a permutation with non-increasing scores that keeps the original order among equal scores |
| SiteData.SortByScoreMembers | src/lib/data.ts:206-207 | the sorted list has the same length and the same elements |
| SiteData.TopScoredBest | src/lib/data.ts:230-233 | no scored item left out of the top list scores above any item kept in it |
| SiteData.TopScoredShape | src/lib/data.ts:230-233 | the top list is the first `limit` items of the score-sorted list (all of them when fewer, `slice` semantics for a negative `limit`), taken from the scored ones, in non-increasing score, and no item left out scores above any item kept |
| SiteData.ScorePlant | src/lib/data.ts:219-228 | the two counting loops give twice the body systems shared plus the actions shared |
| SiteData.ScorePlants | src/lib/data.ts:219-228 | every other plant is paired with its score, in order |
| SiteData.GetRelatedPlants | src/lib/data.ts:212-234 | the related plants are those `RelatedPlants` defines |
| SiteData.RelatedPlantsShape | src/lib/data.ts:212-234 | an unknown id gives `[]`; otherwise the first `limit` of the other plants (all of them when fewer), listed plants, never the current one, in non-increasing score, none left out scoring higher |
| SiteData.ScoreTeas | src/lib/data.ts:199-204 | every other tea is paired with 2 for the same type plus 1 for the same country |
| SiteData.RelatedTeasShape | src/lib/data.ts:192-210 | an unknown id gives `[]`; otherwise the first `limit` of the other teas (all of them when fewer), listed teas, never the current one, in non-increasing score, none left out scoring higher |
| Text.Utf16Length | src/lib/content-utils.ts:18 | `length` counts UTF-16 code units: at least one and at most two per character, exactly one per character when none lies outside the Basic Multilingual Plane |
| Text.Utf16LengthConcat | src/lib/content-utils.ts:46 | the code units of a concatenation are the sum of the code units of its parts |
| Content.SplitIntoParagraphs | src/lib/content-utils.ts:8-39 | the function returns the paragraphs `Paragraphs` defines |
| Content.BlankLineParagraphs | src/lib/content-utils.ts:10-15 | with a blank line, every paragraph is non-empty, trimmed and free of blank lines |
| Content.ShortTextOneParagraph | src/lib/content-utils.ts:17-24 | without a blank line, a text shorter than `minLength` UTF-16 code units, or one of at most two sentences, is one trimmed paragraph |
| Content.SentenceParagraphs | src/lib/content-utils.ts:22-38 | in the sentence branch there are at most three paragraphs, and grouping loses and reorders no sentence text |
| Content.GroupSentences | src/lib/content-utils.ts:27-36 | the accumulate-and-flush loop gives the trimmed concatenations of consecutive groups of `targetSize` sentences, the last possibly shorter |
| Content.SentencesShape | src/lib/content-utils.ts:23 | every match is a non-empty run of non-terminators, then a non-empty run of `.`, `!` or `?`, then (in the paragraph splitter's pattern, not the pull quote's) the white space after them |
| Content.SentencesConcat | src/lib/content-utils.ts:23 | the sentences of two texts split after a terminator are the sentences of each |
| Content.TrailingTextDropped | src/lib/content-utils.ts:23 | text after the last `.`, `!` or `?` gives no sentence |
| Content.ChunksConcat | src/lib/content-utils.ts:30-36 | concatenating the groups gives back the sentences' text |
| Content.ChunksAtMost | src/lib/content-utils.ts:26-36 | sentences that fit into `k` groups of the target size are flushed as at most `k` paragraphs |
| Content.TargetSizeCovers | src/lib/content-utils.ts:26 | at most three groups of `targetSize` cover all the sentences |
| Content.SplitBlankPieces | src/lib/content-utils.ts:12 | no piece of the split on `\n\n+` contains a blank line |
| Content.CountWords | src/lib/content-utils.ts:69-71 | the loop counts the evocative words the lower-cased sentence contains |
| Content.ScoreSentence | src/lib/content-utils.ts:63-73 | the sentence is trimmed and eligible iff 40 to 200 UTF-16 code units long; its score is twice the words counted plus one when it differs from the first sentence |
| Content.BestSentence | src/lib/content-utils.ts:59-81 | a quote is found iff some eligible sentence scores above 0; it is the trimmed earliest sentence with the strictly greatest score |
| Content.ScannedAll | src/lib/content-utils.ts:75-81 | the best score is positive iff some eligible sentence scores above 0 |
| Content.ExtractPullQuote | src/lib/content-utils.ts:45-82 | texts under 150 UTF-16 code units or with fewer than 3 sentences give none; otherwise the quote is the earliest best-scoring eligible sentence, trimmed, and none when the best score is 0 |
| Content.PullQuoteLength | src/lib/content-utils.ts:63-65 | a chosen quote is trimmed and 40 to 200 UTF-16 code units long |
| GatherQueue.PluralDirsDistinct | src/lib/gather-queue.ts:20-29 | different content types have different staging directories |
| GatherQueue.MainIdsOf | src/lib/gather-queue.ts:45-64 | a type without a main data file has no main ids; with a readable file, its ids are those of the file's items |
| GatherQueue.GetMainDataIds | src/lib/gather-queue.ts:40-69 | the loop over the types builds the main-id index |
| GatherQueue.FileIds | src/lib/gather-queue.ts:88-101 | a staged file contributes its basename, plus `id` and the slugified `latinName` when present; an unparsable file contributes the basename only |
| GatherQueue.Basename | src/lib/gather-queue.ts:90 | the basename with ".json" appended is the file name |
| GatherQueue.StagedIdsMembers | src/lib/gather-queue.ts:81-108 | an id is staged for a directory iff one of its `.json` files contributes it |
| GatherQueue.DirectoryIds | src/lib/gather-queue.ts:82-102 | the loop over one directory's files collects its staged ids |
| GatherQueue.GetStagedIds | src/lib/gather-queue.ts:76-113 | the loop over the types builds the staged-id index |
| GatherQueue.StatusFromFiles | src/lib/gather-queue.ts:118-133 | an item is merged if its id is among its type's main ids, else staged if a staged file of its type contributes it, else queued |
| GatherQueue.NeverMergedWithoutMainData | src/lib/gather-queue.ts:45-49 | items of a type without a main data file are never merged |
| GatherQueue.StagedByFileName | src/lib/gather-queue.ts:88-91 | an item not merged whose id names a staged file of its type is staged |
| GatherQueue.WithStatus | src/lib/gather-queue.ts:168-172 | the listing has the queue's length and order, each item with its status |
| GatherQueue.ByTypeIsListingOfType | src/lib/gather-queue.ts:178-180 | filtering the listing by type is listing the items of that type |
| GatherQueue.RemovedItems | src/lib/gather-queue.ts:204 | removal keeps, in order, exactly the items without that id and type |
| GatherQueue.RemovedShorter | src/lib/gather-queue.ts:204-208 | removal leaves the length unchanged iff nothing matched, and then the list is unchanged |
| GatherQueue.RemovedUnique | src/lib/gather-queue.ts:204 | removing keeps the queue free of duplicate (id, type) pairs |
| GatherQueue.RemoveOneOfUnique | src/lib/gather-queue.ts:202-212 | in a queue without duplicates, a successful removal drops exactly one item |
| GatherQueue.InQueueAppend | src/lib/gather-queue.ts:188-196 | after appending an item, an (id, type) pair is queued iff it was before or is the item's |
| GatherQueue.AddedUnique | src/lib/gather-queue.ts:185-197 | adding keeps the queue free of duplicate (id, type) pairs |
| GatherQueue.AddThenRemove | src/lib/gather-queue.ts:185-212 | adding a new item and removing it gives back the queue |
| GatherQueue.Queue.constructor | src/lib/gather-queue.ts:138-150 | the queue starts with the items read |
| GatherQueue.Queue.Add | src/lib/gather-queue.ts:185-197 | it fails with an error and changes nothing when (id, type) is queued; otherwise it appends the item and succeeds; no duplicates arise |
| GatherQueue.Queue.Remove | src/lib/gather-queue.ts:202-212 | it succeeds iff (id, type) was queued, then removes every such item and keeps the rest in order; otherwise it fails with the error `Item "<id>" of type "<type>" not found in queue` and changes nothing; no duplicates arise |
| GatherQueue.Queue.Listing | src/lib/gather-queue.ts:163-173 | the listing has the queue's length and order, each item with its status |
| GatherQueue.Queue.ListingByType | src/lib/gather-queue.ts:178-180 | the listing by type is an order-keeping subsequence of the listing: the items of that type with their status |
| GatherQueue.PartsTotalBounds | src/lib/gather-queue.ts:238-240 | the constituent count is at least every part's length, and 0 iff every part is empty |
| GatherQueue.CountConstituents | src/lib/gather-queue.ts:238-240 | the reduce over the parts sums their lengths |
| GatherQueue.Summarize | src/lib/gather-queue.ts:233-241 | an entry's summary defaults the Latin name to the slug, the family to `''`, the common names to `[]`, and the count to 0 |
| GatherQueue.InsertByName | src/lib/gather-queue.ts:244 | inserting into a list sorted by Latin name keeps it sorted and adds exactly that summary |
| GatherQueue.SortByName | src/lib/gather-queue.ts:244 | the sort is a permutation sorted by Latin name |
| GatherQueue.GetDukePlantIndex | src/lib/gather-queue.ts:220-252 | the index is the sorted summaries of a readable store, and empty otherwise |
| GatherQueue.DukeIndexShape | src/lib/gather-queue.ts:233-244 | the index has one summary per store entry, exactly those summaries, sorted by Latin name |
| Oxidation.OxidationHalves | src/components/detail/OxidationMeter.tsx:8-25 | with no numeric match, the result is the keyword fallback on the lower-cased text: 5 for minimal or none, 30 for light or partial, 100 for full or complete, else 50 |
| Oxidation.FirstMatchLeftmost | src/components/detail/OxidationMeter.tsx:10 | the match used is the one at the leftmost position that has one; there is none iff no position has one |
| Oxidation.FirstMatchSkips | src/components/detail/OxidationMeter.tsx:10 | text without digits before a match does not change the match |
| Oxidation.NoDigitsKeywords | src/components/detail/OxidationMeter.tsx:19-24 | text without digits is read by the keywords only |
| Oxidation.RangeReading | src/components/detail/OxidationMeter.tsx:10-14 | a range `a-b` or `a–b`, with optional spaces, after digit-free text gives its midpoint: `a + b` half percents |
| Oxidation.PercentReading | src/components/detail/OxidationMeter.tsx:10-17 | a number followed by optional spaces and `%`, after digit-free text, gives that number (twice it in half percents) |
| Oxidation.RangeExample | src/components/detail/OxidationMeter.tsx:9-14 | "60-80%" gives 70 (140 half percents) |
| Oxidation.PercentExample | src/components/detail/OxidationMeter.tsx:9-17 | "15%" gives 15 (30 half percents) |
| Oxidation.RangeInTextExample | src/components/detail/OxidationMeter.tsx:9-14 | "Minimal (0-5%)" gives 2.5 (5 half percents): the range wins over the keyword |
| Oxidation.NoneExample | src/components/detail/OxidationMeter.tsx:21 | "None" gives 5 (10 half percents) |
| Oxidation.FullExample | src/components/detail/OxidationMeter.tsx:23 | "Full" gives 100 (200 half percents) |

## Left out

- File and process I/O is not modelled. This covers reading and writing files, `process.argv`, `process.exit` and console output, as well as the statistics, spot checks and size report of the builder (scripts/build-duke-reference.js:298-340). File contents are parameters. The extraction tool's outcome and exit code are values (`Extract.Run`, `Extract.ExitCode`).
- `JSON.parse` and `JSON.stringify` are not modelled. The reference store is an ordered sequence of (slug, entry) pairs. JavaScript's key order for integer-like keys, and keys inherited from `Object.prototype`, are not modelled.
- Constituents and compounds are maps, so the key order of those objects in the written JSON is not modelled.
- The `taxByNum` table (scripts/build-duke-reference.js:151-154) is built but never read, so it is not modelled.
- Assembler.SameRowsSameUnions: the order of common names and an entry's `latinName` and `family` follow the row order, as in the source (insertion-ordered `Set`, first writer wins), so only the set of names is order-independent.
- `toLowerCase` and `toUpperCase` are modelled on ASCII letters only.
- `localeCompare` in `getDukePlantIndex` and the default sort order of JavaScript strings are both modelled as code-point order.
- GatherQueue.DukeIndexShape: states sortedness and the summaries present, not the relative order of summaries with equal Latin names; under a locale order that order is implementation-defined.
- Content.ExtractPullQuote: scores are counted in halves (twice the word count, plus 1 for the 0.5 bonus), which orders sentences as the source does.
- Oxidation.OxidationHalves: the result is twice the percentage, because a midpoint may end in .5. Every other reading is exact, because integers are unbounded. `parseInt` precision on very long digit strings is not modelled.
- The module-level caches of src/lib/gather-queue.ts (`mainDataIdCache`, `stagedIdCache`, `dukePlantIndexCache`) are not modelled. The id indexes are given state, built from the files by `GetMainDataIds` and `GetStagedIds`.
- The other getters of src/lib/data.ts (`getAllPlants`, `getFeaturedPlants`, `searchTeas`, the category, condition and remedy accessors) are not part of this model. `getPlantById` and `getTeaById` appear inside the related-item functions as first-match look-ups.
- src/lib/staging.ts, scripts/split-data.js and the React pages and components are not part of this model.
