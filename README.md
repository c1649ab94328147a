# ChekMate scripts: a verified model

This project models in Dafny the parts of the ChekMate repository that carry precise logic.
These live in its developer scripts, its web service worker and its end-to-end test helpers.

- **Colour tools.** The screenshot colour checker `analyze_screenshot_colors.py` does the following:
  - converts between `#rrggbb` text and RGB triples;
  - filters out neutral pixels;
  - counts each coloured pixel for the first palette colour within distance 30;
  - reports a palette colour as found above 100 pixels;
  - prints a four-way verdict.

  The palette extractor `extract_colors.py` counts colours and keeps the most common ones that are neither near-white nor near-black. It then clusters them greedily around seeds and prints the highest-count colour of each cluster as a Flutter `0xFF…` constant.
- **Assistant scripts.**
  - `create_openai_assistant.py` loads the API key and writes `.assistant_config`.
  - Three scripts read that file back with the same `key=value` reader.
  - `use_assistant.py` and `use_assistant_functionality.py` build message content, wait for a run, list the thread oldest first and show the last assistant message. `use_assistant_functionality.py` also saves it.
  - `convert_figma_components.py` reads only the newest message of a thread.
  - `convert_figma_components.py` converts a fixed list of 21 components and counts each as converted or failed.
- **Service worker.** `flutter_service_worker.js` routes fetches to no answer, to cache-first on the image cache or to network-first on the runtime cache. It also does the following:
  - falls back to stored responses when offline;
  - deletes old caches on activation;
  - precaches its assets on install;
  - caches URLs sent to it by message.

  The cache storage is a class with a map field that the strategies update.
- **Test helpers.** `firebase-helpers.ts` provides:
  - generated e-mail addresses, usernames and user records;
  - the URL test for being signed in;
  - the read-back check of `fillFormField`;
  - the two error-message probes.

The inputs are parameters of the model:
- the clock, the random numbers and the file system;
- the OpenAI service (as run statuses and message lists);
- the network (one fetch outcome per request);
- the browser page (probe results per selector).

Python's `sqrt(d) < t` is compared as `d < t*t` on integers. `response.ok` is a status in 200..299.

## Model

| member | source | states |
|---|---|---|
| Strings.StripLeft | flutter_chekmate/scripts/python/use_assistant.py:32 | the result is a suffix of the input, everything dropped is whitespace, and it does not start with whitespace |
| Strings.StripRight | flutter_chekmate/scripts/python/use_assistant.py:32 | the result is a prefix of the input, everything dropped is whitespace, and it does not end with whitespace |
| Strings.Strip | flutter_chekmate/scripts/python/use_assistant.py:32 | `str.strip()`: the result is a slice of the input with only whitespace outside it, and neither end of it is whitespace |
| Strings.StripBlank | flutter_chekmate/scripts/python/create_openai_assistant.py:16 | text made only of whitespace strips to the empty string |
| Strings.StripKeeps | flutter_chekmate/scripts/python/use_assistant.py:32 | a non-space character of the text survives stripping |
| Strings.StripLine | flutter_chekmate/scripts/python/use_assistant.py:31-32 | a line with no edge whitespace, read with its newline, strips back to itself |
| Strings.StripIndentedLine | flutter_chekmate/scripts/python/use_assistant.py:31-32 | leading indentation and the trailing newline are both removed by the strip |
| Strings.IndexOf | flutter_chekmate/test/e2e/helpers/firebase-helpers.ts:32 | the index is the first occurrence of the character, or the length when it does not occur |
| Strings.IndexOfFirst | flutter_chekmate/test/e2e/helpers/firebase-helpers.ts:32 | any index holding the character with no earlier occurrence is what IndexOf returns |
| Strings.Lines | flutter_chekmate/scripts/python/use_assistant.py:30 | iterating a file: the lines concatenate back to the text, and every line but the last ends with its newline |
| Strings.LinesOfConcat | flutter_chekmate/scripts/python/use_assistant.py:30 | text written as newline-terminated lines is read back as exactly those lines |
| Strings.ContainsAt | flutter_chekmate/test/e2e/helpers/firebase-helpers.ts:65 | `includes` holds iff the pattern occurs at some position |
| Strings.NatToString | flutter_chekmate/test/e2e/helpers/firebase-helpers.ts:15 | a number's decimal text is non-empty and made of digits only |
| Strings.NatToStringRoundTrip | flutter_chekmate/test/e2e/helpers/firebase-helpers.ts:15 | reading the decimal text back gives the number |
| Strings.NatToStringInjective | flutter_chekmate/test/e2e/helpers/firebase-helpers.ts:15 | different numbers have different decimal text |
| ColorCodes.HexDigit | flutter_chekmate/scripts/python/analyze_screenshot_colors.py:14 | `{:02x}` writes a lower-case hex digit |
| ColorCodes.HexValue | flutter_chekmate/scripts/python/analyze_screenshot_colors.py:19 | a hex digit (either case) has a value in 0..15 |
| ColorCodes.HexDigitValue | flutter_chekmate/scripts/python/analyze_screenshot_colors.py:12-19 | reading back a written digit gives its value |
| ColorCodes.HexValueDigit | flutter_chekmate/scripts/python/analyze_screenshot_colors.py:12-19 | writing a read digit gives the digit lower-cased |
| ColorCodes.RgbToHex | flutter_chekmate/scripts/python/analyze_screenshot_colors.py:12-14 | `rgb_to_hex` always gives `#` and six lower-case hex digits |
| ColorCodes.StripHashes | flutter_chekmate/scripts/python/analyze_screenshot_colors.py:18 | `lstrip('#')` removes exactly the leading `#` characters |
| ColorCodes.ParseHexPair | flutter_chekmate/scripts/python/analyze_screenshot_colors.py:19 | `int(p, 16)` on a slice of at most two characters succeeds iff the slice is non-empty and all hex digits |
| ColorCodes.HexToRgbAccepts | flutter_chekmate/scripts/python/analyze_screenshot_colors.py:16-19 | `hex_to_rgb` succeeds iff, after the leading `#` are removed, at least five characters remain and the first six (or five) are hex digits; the third slice may be one digit |
| ColorCodes.HexToRgb | flutter_chekmate/scripts/python/analyze_screenshot_colors.py:16-19 | `hex_to_rgb`: the three two-character slices after the leading `#`, each read base 16; which inputs it accepts is the contract of `ColorCodes.HexToRgbAccepts`, and its inverse is `ColorCodes.HexRoundTrip` |
| ColorCodes.ByteRoundTrip | flutter_chekmate/scripts/python/analyze_screenshot_colors.py:12-19 | a channel written as two hex digits parses back to itself |
| ColorCodes.HexRoundTrip | flutter_chekmate/scripts/python/analyze_screenshot_colors.py:12-19 | `hex_to_rgb(rgb_to_hex(c)) == c` for every colour with channels in 0..255 |
| ColorCodes.HashDropped | flutter_chekmate/scripts/python/analyze_screenshot_colors.py:18 | the leading `#` does not change what `hex_to_rgb` reads |
| ColorCodes.HexCanonical | flutter_chekmate/scripts/python/analyze_screenshot_colors.py:16-19 | for `#`s followed by six hex digits, `hex_to_rgb` succeeds and `rgb_to_hex` of the result is `#` and those digits lower-cased |
| ColorCodes.WithinSymmetric | flutter_chekmate/scripts/python/analyze_screenshot_colors.py:21-23 | the distance test does not depend on argument order |
| ColorCodes.Within | flutter_chekmate/scripts/python/analyze_screenshot_colors.py:21-23 | `sqrt(d) < t` as `d < t*t` for positive t (never true otherwise); symmetry is `ColorCodes.WithinSymmetric` |
| ColorCodes.NeutralIffChannelsClose | flutter_chekmate/scripts/python/analyze_screenshot_colors.py:25-28 | max minus min channel below t iff every pair of channels differs by less than t |
| ColorCodes.IsNeutral | flutter_chekmate/scripts/python/analyze_screenshot_colors.py:25-28 | largest minus smallest channel below t; the pairwise characterisation is `ColorCodes.NeutralIffChannelsClose` |
| ScreenshotColors.ColoredIffNotNeutral | flutter_chekmate/scripts/python/analyze_screenshot_colors.py:56-66 | the near-white and near-black tests are subsumed: a pixel is kept iff it is not neutral at 20 |
| ScreenshotColors.IsColored | flutter_chekmate/scripts/python/analyze_screenshot_colors.py:56-66 | the filter of the colour checker: not near-white, not near-black, not neutral at 20; simplified by `ScreenshotColors.ColoredIffNotNeutral` |
| ScreenshotColors.Colored | flutter_chekmate/scripts/python/analyze_screenshot_colors.py:56-66 | the coloured list holds exactly the input pixels that pass the filter, each with its full multiplicity, and no others |
| ScreenshotColors.ColoredConcat | flutter_chekmate/scripts/python/analyze_screenshot_colors.py:56-66 | the filter keeps image order: the coloured pixels of two stretches of the image are those of the first followed by those of the second, and a single pixel is kept iff it passes |
| ScreenshotColors.FirstMatch | flutter_chekmate/scripts/python/analyze_screenshot_colors.py:74-81 | the index returned is the first palette colour within distance 30; no index means none is within it |
| ScreenshotColors.FirstMatchIs | flutter_chekmate/scripts/python/analyze_screenshot_colors.py:74-81 | a palette colour within range with none before it is the match |
| ScreenshotColors.Unmatched | flutter_chekmate/scripts/python/analyze_screenshot_colors.py:110-118 | the unexpected pixels are the coloured ones within distance 30 of no palette colour, each with its full multiplicity |
| ScreenshotColors.ParseAll | flutter_chekmate/scripts/python/analyze_screenshot_colors.py:71 | parsing a palette succeeds with one value per entry iff every entry parses |
| ScreenshotColors.Analyze | flutter_chekmate/scripts/python/analyze_screenshot_colors.py:145-149 | the analysis fails iff the image has no pixels or a palette entry is not hex; otherwise result k carries palette entry k's name and is found iff its count exceeds 100 |
| ScreenshotColors.AnalyzeScreenshot | flutter_chekmate/scripts/python/analyze_screenshot_colors.py:56-132 | the loops of `analyze_screenshot` compute the specified analysis |
| ScreenshotColors.MatchPixels | flutter_chekmate/scripts/python/analyze_screenshot_colors.py:74-81 | after the matching loop, bucket k holds the pixels whose first match is palette colour k |
| ScreenshotColors.UnexpectedPixels | flutter_chekmate/scripts/python/analyze_screenshot_colors.py:110-118 | the second loop collects exactly the unmatched pixels |
| ScreenshotColors.BuildResults | flutter_chekmate/scripts/python/analyze_screenshot_colors.py:89-101 | the results loop builds the specified result list |
| ScreenshotColors.Results | flutter_chekmate/scripts/python/analyze_screenshot_colors.py:89-101 | one result per palette entry, in order: its name and hex, the number of pixels whose first match it is, found iff that number exceeds 100 |
| ScreenshotColors.MatchedByMembers | flutter_chekmate/scripts/python/analyze_screenshot_colors.py:74-81 | a pixel is counted for colour k iff it is coloured and k is its first match |
| ScreenshotColors.MatchedBy | flutter_chekmate/scripts/python/analyze_screenshot_colors.py:74-81 | the pixels credited to palette colour k; membership and multiplicity are `ScreenshotColors.MatchedByMembers` and `ScreenshotColors.MatchedByCounts` |
| ScreenshotColors.MatchedByCounts | flutter_chekmate/scripts/python/analyze_screenshot_colors.py:74-81 | colour k is credited with every copy of each coloured pixel whose first match is k, and with nothing else |
| ScreenshotColors.MatchExclusive | flutter_chekmate/scripts/python/analyze_screenshot_colors.py:74-81 | no pixel is counted for two palette colours |
| ScreenshotColors.MatchPartition | flutter_chekmate/scripts/python/analyze_screenshot_colors.py:77-81 | matched pixels plus unexpected pixels number exactly the coloured pixels |
| ScreenshotColors.SumCountsResults | flutter_chekmate/scripts/python/analyze_screenshot_colors.py:89-101 | the reported counts add up to the number of matched pixels |
| ScreenshotColors.AnalysisPartition | flutter_chekmate/scripts/python/analyze_screenshot_colors.py:110-132 | summed pixel counts plus unexpected pixels equal the total coloured pixels |
| ScreenshotColors.FinalVerdict | flutter_chekmate/scripts/python/analyze_screenshot_colors.py:199-211 | no verdict without a non-empty brand analysis; SUCCESS iff a brand colour was found and no wrong colour was; WARNING iff both were found; FAILURE iff only a wrong colour was; UNCLEAR iff neither (a missing wrong analysis counts as none found) |
| ScreenshotColors.VerdictDeterminesFindings | flutter_chekmate/scripts/python/analyze_screenshot_colors.py:199-211 | the four verdicts are distinct outcomes: the verdict determines both findings |
| ScreenshotColors.CheckScreenshot | flutter_chekmate/scripts/python/analyze_screenshot_colors.py:185-211 | `main` on the two built-in palettes gives a verdict iff the image has pixels |
| ScreenshotColors.BrandColorsParse | flutter_chekmate/scripts/python/analyze_screenshot_colors.py:159-170 | every built-in palette entry is valid hex, so only an empty image makes the analysis fail |
| PaletteExtraction.ColorsOf | flutter_chekmate/scripts/python/extract_colors.py:74-77 | the colours of a tally list, position by position |
| PaletteExtraction.CountOne | flutter_chekmate/scripts/python/extract_colors.py:74-77 | counting one pixel raises its colour's tally by one, or appends a tally of 1 for a new colour, leaving the others |
| PaletteExtraction.CountOneColors | flutter_chekmate/scripts/python/extract_colors.py:74-77 | counting keeps the colours distinct and adds exactly the pixel's colour |
| PaletteExtraction.Tallies | flutter_chekmate/scripts/python/extract_colors.py:74-77 | `Counter`: one tally per distinct pixel colour, each holding that colour's number of occurrences |
| PaletteExtraction.Insert | flutter_chekmate/scripts/python/extract_colors.py:77 | inserting adds the one tally and nothing else |
| PaletteExtraction.InsertSorted | flutter_chekmate/scripts/python/extract_colors.py:77 | insertion keeps the list ordered by non-increasing count |
| PaletteExtraction.SortByCount | flutter_chekmate/scripts/python/extract_colors.py:77 | the sorted tallies are a permutation of the input in non-increasing count order |
| PaletteExtraction.SortHead | flutter_chekmate/scripts/python/extract_colors.py:77 | the sort is stable at the top: the first tally of largest count comes first |
| PaletteExtraction.Prefix | flutter_chekmate/scripts/python/extract_colors.py:159 | slicing `[:n]` gives the first min(n, length) elements |
| PaletteExtraction.MostCommonTallies | flutter_chekmate/scripts/python/extract_colors.py:74-77 | `most_common(n)`: at most n entries, distinct colours from the pixels, each with its true positive count, in non-increasing order |
| PaletteExtraction.MostCommon | flutter_chekmate/scripts/python/extract_colors.py:77 | `most_common(n)` has min(n, number of distinct colours) entries, none when n is not positive |
| PaletteExtraction.SortedDistinct | flutter_chekmate/scripts/python/extract_colors.py:74-77 | the counted colours, sorted by count, are pairwise distinct |
| PaletteExtraction.MostCommonTop | flutter_chekmate/scripts/python/extract_colors.py:77 | a pixel colour left out of a non-empty `most_common(n)` occurs no more often than the last entry kept |
| PaletteExtraction.KeptMembers | flutter_chekmate/scripts/python/extract_colors.py:84-89 | an entry survives the filter iff it is neither near-white nor near-black |
| PaletteExtraction.Kept | flutter_chekmate/scripts/python/extract_colors.py:84-89 | the filter loop keeps no more entries than it reads; which survive is `PaletteExtraction.KeptMembers` |
| PaletteExtraction.Extracted | flutter_chekmate/scripts/python/extract_colors.py:57-100 | `extract_colors` returns at most `num_colors` entries, each one of the `num_colors*5` most common and neither near-white nor near-black |
| PaletteExtraction.KeptSubsequence | flutter_chekmate/scripts/python/extract_colors.py:80-91 | the kept entries are an order-preserving subsequence of the input |
| PaletteExtraction.ExtractedProperties | flutter_chekmate/scripts/python/extract_colors.py:57-100 | `extract_colors` returns at most `num_colors` entries, a subsequence of the `num_colors*5` most common, none near-white or near-black, each with its true count |
| PaletteExtraction.KeptStops | flutter_chekmate/scripts/python/extract_colors.py:93-94 | stopping at the `num_colors`-th kept entry gives the first `num_colors` of all kept entries |
| PaletteExtraction.ExtractColors | flutter_chekmate/scripts/python/extract_colors.py:57-100 | the method computes the specified extraction |
| PaletteExtraction.FilterCommon | flutter_chekmate/scripts/python/extract_colors.py:80-94 | the filtering loop with its early `break` yields the first n kept entries |
| PaletteExtraction.JoinIndex | flutter_chekmate/scripts/python/extract_colors.py:108-117 | the cluster joined is the first whose seed lies within the threshold; none means every seed is too far |
| PaletteExtraction.AddColorWellClustered | flutter_chekmate/scripts/python/extract_colors.py:108-120 | adding a colour keeps every member within its seed's distance and farther from every earlier seed |
| PaletteExtraction.ClustersWellClustered | flutter_chekmate/scripts/python/extract_colors.py:106-120 | every member is within the threshold of its own seed and beyond it from all earlier seeds |
| PaletteExtraction.SeedsApart | flutter_chekmate/scripts/python/extract_colors.py:108-120 | seeds are pairwise at distance at least the threshold |
| PaletteExtraction.ClustersPartition | flutter_chekmate/scripts/python/extract_colors.py:106-120 | every input colour lands in exactly one cluster: the clusters together are a permutation of the input |
| PaletteExtraction.FlattenSize | flutter_chekmate/scripts/python/extract_colors.py:106-120 | there are no more clusters than clustered colours |
| PaletteExtraction.RepresentativesAt | flutter_chekmate/scripts/python/extract_colors.py:123-127 | representative k is the one picked from cluster k |
| PaletteExtraction.FirstMaxIndex | flutter_chekmate/scripts/python/extract_colors.py:124-125 | the picked index holds a largest count, earlier entries all smaller (stable sort, first wins ties) |
| PaletteExtraction.ClusterSimilarProperties | flutter_chekmate/scripts/python/extract_colors.py:102-129 | one output per cluster, each its cluster's highest-count member and an input element, no more outputs than inputs |
| PaletteExtraction.ClusterSimilar | flutter_chekmate/scripts/python/extract_colors.py:102-129 | clustering never returns more colours than it was given |
| PaletteExtraction.ClusterSimilarMembers | flutter_chekmate/scripts/python/extract_colors.py:102-129 | non-empty input gives non-empty output, and every output comes from the input |
| PaletteExtraction.ClusterSimilarColors | flutter_chekmate/scripts/python/extract_colors.py:102-129 | the nested loops compute the specified clustering and representatives |
| PaletteExtraction.FindCluster | flutter_chekmate/scripts/python/extract_colors.py:108-117 | the inner search finds a cluster iff one has a seed within range, and then the first such |
| PaletteExtraction.PickRepresentatives | flutter_chekmate/scripts/python/extract_colors.py:123-127 | the representatives loop computes one pick per cluster |
| PaletteExtraction.FlutterHex | flutter_chekmate/scripts/python/extract_colors.py:189 | the constant is `0xFF` and six lower-case hex digits |
| PaletteExtraction.FlutterHexDecodes | flutter_chekmate/scripts/python/extract_colors.py:12-14 | the six digits after `0xFF` decode back to the colour |
| PaletteExtraction.SortedPrefixMembers | flutter_chekmate/scripts/python/extract_colors.py:154-159 | the shown colours come from the sorted list |
| PaletteExtraction.PaletteEmpty | flutter_chekmate/scripts/python/extract_colors.py:144-148 | an image with no pixels stops without a palette |
| PaletteExtraction.PaletteProperties | flutter_chekmate/scripts/python/extract_colors.py:144-159 | the shown palette has at most 8 entries, is sorted by count, each a real pixel colour with its true count, neither near-white nor near-black |
| PaletteExtraction.Palette | flutter_chekmate/scripts/python/extract_colors.py:144-159 | `main` reports no palette iff extraction found no colour; otherwise it shows at most 8 |
| PaletteExtraction.ExtractPalette | flutter_chekmate/scripts/python/extract_colors.py:184-194 | `main` prints one `0xFF…` constant per shown colour, and none when no colour was extracted |
| PaletteExtraction.FlutterConstants | flutter_chekmate/scripts/python/extract_colors.py:184-194 | the printing loop writes constant j for colour j |
| AssistantConfig.SplitFirst | flutter_chekmate/scripts/python/use_assistant.py:32 | `split('=', 1)` cuts at the first `=`: the parts rejoin to the input and the key has no `=` |
| AssistantConfig.LineEntry | flutter_chekmate/scripts/python/use_assistant.py:31-32 | a line gives an entry iff it contains `=` and its first character is not `#` |
| AssistantConfig.LineEntrySplits | flutter_chekmate/scripts/python/use_assistant.py:32 | the entry is the stripped line cut at its first `=` |
| AssistantConfig.BuildHasKey | flutter_chekmate/scripts/python/use_assistant.py:33 | a key is defined iff some entry sets it |
| AssistantConfig.BuildLastWins | flutter_chekmate/scripts/python/use_assistant.py:33 | a key takes the value of its last entry |
| AssistantConfig.Build | flutter_chekmate/scripts/python/use_assistant.py:33 | the dictionary built entry by entry; characterised by `AssistantConfig.BuildHasKey` and `AssistantConfig.BuildLastWins` |
| AssistantConfig.Entries | flutter_chekmate/scripts/python/use_assistant.py:30-32 | one entry per line |
| AssistantConfig.ConfigHasKey | flutter_chekmate/scripts/python/use_assistant.py:28-34 | the config has a key iff some line defines it |
| AssistantConfig.ConfigOf | flutter_chekmate/scripts/python/use_assistant.py:28-34 | the reader over the lines of the file; characterised by `AssistantConfig.ConfigHasKey` and `AssistantConfig.ConfigLastWins` |
| AssistantConfig.ConfigLastWins | flutter_chekmate/scripts/python/use_assistant_functionality.py:32-33 | a later line with the same key overwrites the earlier value |
| AssistantConfig.LoadAssistantConfig | flutter_chekmate/scripts/python/use_assistant.py:20-35 | no file stops the script; otherwise the loop yields the config read from the file's lines |
| AssistantConfig.AssistantAndThread | flutter_chekmate/scripts/python/convert_figma_components.py:174-176 | the two ids are found iff both keys are present, and are their values |
| AssistantConfig.VectorStoreField | flutter_chekmate/scripts/python/create_openai_assistant.py:123 | `none` is written iff the store id is missing, empty or itself `none`; otherwise the id itself |
| AssistantConfig.Lined | flutter_chekmate/scripts/python/create_openai_assistant.py:125-134 | each body becomes one newline-terminated line |
| AssistantConfig.EntryOfStripped | flutter_chekmate/scripts/python/use_assistant.py:31-33 | a line that strips to `key=value` gives that entry when the key has no `=` |
| AssistantConfig.KeyLine | flutter_chekmate/scripts/python/create_openai_assistant.py:128-130 | a written `KEY=value` line is read back as that key and value |
| AssistantConfig.IndentedHashLineParsed | flutter_chekmate/scripts/python/use_assistant.py:31 | the `#` test is on the unstripped line: an indented `# key=value` line is parsed as an entry |
| AssistantConfig.SpacesAroundEqualsKept | flutter_chekmate/scripts/python/use_assistant.py:32 | only the line is stripped, so spaces around `=` stay in the key and the value |
| AssistantConfig.ValueKeepsEquals | flutter_chekmate/scripts/python/use_assistant.py:32 | the value may contain `=` |
| AssistantConfig.NoEntry | flutter_chekmate/scripts/python/use_assistant.py:31 | a line without `=` or starting with `#` is ignored |
| AssistantConfig.CommentsNoEntry | flutter_chekmate/scripts/python/create_openai_assistant.py:125-133 | the comment lines of the saved file are ignored by the reader |
| AssistantConfig.BlankNoEntry | flutter_chekmate/scripts/python/create_openai_assistant.py:127 | blank lines are ignored |
| AssistantConfig.ConfigTextLines | flutter_chekmate/scripts/python/create_openai_assistant.py:125-134 | the saved text reads back as its nine lines |
| AssistantConfig.ConfigText | flutter_chekmate/scripts/python/create_openai_assistant.py:125-134 | the saved text; its lines are `AssistantConfig.ConfigTextLines` and reading it back is `AssistantConfig.ConfigRoundTrip` |
| AssistantConfig.ConfigCommentEntries | flutter_chekmate/scripts/python/create_openai_assistant.py:125-134 | every line but the three key lines gives no entry |
| AssistantConfig.ConfigKeyEntries | flutter_chekmate/scripts/python/create_openai_assistant.py:128-130 | lines 4-6 give the ASSISTANT_ID, THREAD_ID and VECTOR_STORE_ID entries, in that order |
| AssistantConfig.ConfigRoundTrip | flutter_chekmate/scripts/python/create_openai_assistant.py:120-134 | reading the saved file with the reader gives exactly the three keys with the saved ids, the store as `none` when missing, provided the ids have no line breaks (`\n` or `\r`) or edge whitespace |
| AssistantSetup.LoadApiKey | flutter_chekmate/scripts/python/create_openai_assistant.py:11-17 | the key file's text, stripped, when the file exists; otherwise the environment variable |
| AssistantSetup.KeyFileStripped | flutter_chekmate/scripts/python/create_openai_assistant.py:16 | a key read from the file neither starts nor ends with whitespace |
| AssistantSetup.BlankKeyFileHidesEnv | flutter_chekmate/scripts/python/create_openai_assistant.py:14-17 | a blank key file gives no key, even with the environment variable set |
| AssistantSetup.CreateVectorStore | flutter_chekmate/scripts/python/create_openai_assistant.py:90-97 | no vector store is ever created |
| AssistantSetup.UploadFiles | flutter_chekmate/scripts/python/create_openai_assistant.py:99-107 | no files are uploaded |
| AssistantSetup.Setup | flutter_chekmate/scripts/python/create_openai_assistant.py:141-172 | the config is saved iff there is a key, and then with no vector store |
| AssistantSetup.SetupSavesNoVectorStore | flutter_chekmate/scripts/python/create_openai_assistant.py:162-172 | setup always saves `VECTOR_STORE_ID=none` |
| AssistantSession.ImageItems | flutter_chekmate/scripts/python/use_assistant.py:56-61 | one image item per file id, in order |
| AssistantSession.MessageContent | flutter_chekmate/scripts/python/use_assistant_functionality.py:53-60 | the content is the text item followed by the image items in order |
| AssistantSession.Settled | flutter_chekmate/scripts/python/use_assistant.py:82-88 | polling stops at the first status that is neither queued nor in progress |
| AssistantSession.RunOutcome | flutter_chekmate/scripts/python/convert_figma_components.py:115-129 | the run succeeds iff some status is `completed` with only pending statuses before it, and fails iff the first non-pending status is another one; otherwise it does not end |
| AssistantSession.RunAssistant | flutter_chekmate/scripts/python/use_assistant.py:71-97 | the loop polls while pending and reports true iff the settled status is `completed` |
| AssistantSession.SettledIsFirst | flutter_chekmate/scripts/python/use_assistant.py:82-88 | the first non-pending status is where polling stops |
| AssistantSession.SettledUnique | flutter_chekmate/scripts/python/use_assistant.py:82-88 | no other position is a first non-pending status: polling stops at exactly one place |
| AssistantSession.Pending | flutter_chekmate/scripts/python/use_assistant.py:82-88 | a status is pending iff it is `queued` or `in_progress`; where polling stops is `AssistantSession.SettledIsFirst` |
| AssistantSession.LaterStatusesIgnored | flutter_chekmate/scripts/python/use_assistant.py:82-97 | statuses after the run settles do not change the outcome |
| AssistantSession.TextParts | flutter_chekmate/scripts/python/use_assistant.py:119-121 | the texts printed are the text parts of the content in order; a one-item content gives its text or nothing |
| AssistantSession.TextPartsConcat | flutter_chekmate/scripts/python/use_assistant.py:119-121 | the text parts of joined content are the text parts of each half, joined |
| AssistantSession.TextPartsLast | flutter_chekmate/scripts/python/use_assistant_functionality.py:127-131 | the last text part is a text item of the content with no text item after it |
| AssistantSession.LastAssistant | flutter_chekmate/scripts/python/use_assistant.py:117-118 | the message shown is the last one by the assistant, or none when there is none |
| AssistantSession.LastAssistantIs | flutter_chekmate/scripts/python/use_assistant.py:117-123 | an assistant message with none after it is the one shown |
| AssistantSession.NoAssistant | flutter_chekmate/scripts/python/use_assistant.py:117-123 | with no assistant message nothing is shown |
| AssistantSession.CollectTexts | flutter_chekmate/scripts/python/use_assistant.py:119-122 | the inner loop collects the text parts |
| AssistantSession.Displayed | flutter_chekmate/scripts/python/use_assistant.py:117-123 | every text shown is a text item of an assistant message after which no assistant message follows |
| AssistantSession.DisplayResponse | flutter_chekmate/scripts/python/use_assistant_functionality.py:107-120 | `display_response` prints the text parts of the last assistant message only |
| AssistantSession.DisplayedIgnoresUserMessages | flutter_chekmate/scripts/python/use_assistant.py:117-123 | user messages after the last assistant reply do not change what is shown |
| AssistantSession.OldestFirst | flutter_chekmate/scripts/python/use_assistant.py:99-107 | the oldest-first listing with a page size gives the first min(size, length) messages of the thread in order |
| AssistantSession.DisplayedFirstPage | flutter_chekmate/scripts/python/use_assistant.py:102-105 | with the default page of 20, a thread of 20 or more messages shows the same reply however many messages follow |
| AssistantSession.SaveAnalysis | flutter_chekmate/scripts/python/use_assistant_functionality.py:122-133 | the file ends as specified: header and the last text part of the last assistant message, or unchanged |
| AssistantSession.SavedAnalysis | flutter_chekmate/scripts/python/use_assistant_functionality.py:122-133 | the file is left as it was iff nothing is shown; otherwise it starts with the report header |
| AssistantSession.WriteTexts | flutter_chekmate/scripts/python/use_assistant_functionality.py:127-131 | rewriting the file once per text part leaves the header and the last part |
| AssistantSession.SavedIsLastText | flutter_chekmate/scripts/python/use_assistant_functionality.py:125-133 | when there is a text to show, a last assistant message exists and the saved file is the header followed by a text item of it that has no text item after it |
| AssistantSession.FirstAssistantText | flutter_chekmate/scripts/python/convert_figma_components.py:140-146 | none iff no message is an assistant message with a text item; otherwise the first text item of the first such message |
| AssistantSession.GetLatestMessage | flutter_chekmate/scripts/python/convert_figma_components.py:131-146 | `get_latest_message` returns the first assistant text of the one-message newest-first page |
| AssistantSession.FirstText | flutter_chekmate/scripts/python/convert_figma_components.py:142-145 | the inner loop returns the first text item, none iff there is none |
| AssistantSession.TextPartsFirst | flutter_chekmate/scripts/python/convert_figma_components.py:142-144 | the first text part is the first item of type text |
| AssistantSession.NewestFirst | flutter_chekmate/scripts/python/convert_figma_components.py:134-138 | the newest-first listing with a limit gives the last min(limit, length) messages, newest first |
| AssistantSession.LatestMessage | flutter_chekmate/scripts/python/convert_figma_components.py:131-146 | with `order=desc, limit=1` a text is returned iff the newest message is an assistant message with a text item, and it is that item's text |
| FigmaConversion.ConvertAll | flutter_chekmate/scripts/python/convert_figma_components.py:227-266 | each component counts as exactly one of converted or failed; the loop saves exactly the replies of the converting components, in list order, one per component |
| FigmaConversion.SavedReplies | flutter_chekmate/scripts/python/convert_figma_components.py:251-260 | one saved reply per converting component, so as many as are converted, and each the name and reply of a component that read code, completed and replied |
| FigmaConversion.SavedRepliesComplete | flutter_chekmate/scripts/python/convert_figma_components.py:251-260 | every component that converts has its name and reply saved |
| FigmaConversion.PausesWhenNoneSkipped | flutter_chekmate/scripts/python/convert_figma_components.py:268-271 | with no skipped components there is one pause between consecutive components and none after the last |
| FigmaConversion.Pauses | flutter_chekmate/scripts/python/convert_figma_components.py:268-271 | there is at most one pause per component attempted, and none after the last component of the list |
| FigmaConversion.NoRunNoConversion | flutter_chekmate/scripts/python/convert_figma_components.py:251-266 | without a completed run nothing converts |
| FigmaConversion.AllConverted | flutter_chekmate/scripts/python/convert_figma_components.py:251-264 | all convert iff each read code, completed and got a text reply |
| FigmaConversion.Converts | flutter_chekmate/scripts/python/convert_figma_components.py:251-264 | a component converts iff it read code, its run completed and the reply has text; the count is `FigmaConversion.ConvertAll` |
| FigmaConversion.ConvertComponents | flutter_chekmate/scripts/python/convert_figma_components.py:188-222 | the list has 21 components and converted + failed = 21 |
| ServiceWorker.Route | flutter_chekmate/web/flutter_service_worker.js:67-87 | no answer iff not GET or the protocol does not start with `http`; images go cache-first on the image cache; all else network-first on the runtime cache |
| ServiceWorker.RouteIgnoresOrigin | flutter_chekmate/web/flutter_service_worker.js:81-87 | same-origin and external requests are handled alike |
| ServiceWorker.HttpPrefixOnly | flutter_chekmate/web/flutter_service_worker.js:73-75 | a GET is skipped iff its protocol does not begin with `http` |
| ServiceWorker.Opened | flutter_chekmate/web/flutter_service_worker.js:92 | `caches.open` adds the named cache empty if missing and changes nothing else |
| ServiceWorker.StoredIfStorable | flutter_chekmate/web/flutter_service_worker.js:104-106 | a response is stored under its URL iff it arrived, is `ok` and is not partial (206), which `put` refuses; other caches are untouched |
| ServiceWorker.Kept | flutter_chekmate/web/flutter_service_worker.js:43-51 | activation keeps exactly the caches whose names are current, unchanged |
| ServiceWorker.ActivationKeepsCurrent | flutter_chekmate/web/flutter_service_worker.js:46-50 | a cache survives activation iff its name is one of the three |
| ServiceWorker.StoreAll | flutter_chekmate/web/flutter_service_worker.js:28 | after `addAll` the cache holds the old URLs and the listed ones |
| ServiceWorker.StoreAllValues | flutter_chekmate/web/flutter_service_worker.js:28 | entries not listed are unchanged, and each listed URL holds the response fetched for its last occurrence |
| ServiceWorker.StoreAllOk | flutter_chekmate/web/flutter_service_worker.js:28 | `addAll` of `ok` responses leaves only `ok` responses |
| ServiceWorker.FetchedOr | flutter_chekmate/web/flutter_service_worker.js:100-120 | the answer is the fetched response whatever its status, or the 503 when fetch fails |
| ServiceWorker.OfflineFallbackAsWritten | flutter_chekmate/web/flutter_service_worker.js:139-160 | the code as written: the cached response for the request if any, else for a navigation the `/index.html` of the same cache if cached, else the 503 |
| ServiceWorker.OfflineFallback | flutter_chekmate/web/flutter_service_worker.js:139-160 | corrected fallback: a cached response for the request wins |
| ServiceWorker.OfflineNavigationServed | flutter_chekmate/web/flutter_service_worker.js:145-151 | corrected: after install, an offline navigation is always answered with an `ok` stored page |
| ServiceWorker.OfflinePageMissed | flutter_chekmate/web/flutter_service_worker.js:145-151 | as written: with `/index.html` only in the main cache an offline navigation gets the 503 |
| ServiceWorker.CacheStorage.constructor | flutter_chekmate/web/flutter_service_worker.js:1-6 | storage starts with no caches |
| ServiceWorker.CacheStorage.Open | flutter_chekmate/web/flutter_service_worker.js:92 | the storage after `caches.open` is Opened of the storage before |
| ServiceWorker.CacheStorage.Put | flutter_chekmate/web/flutter_service_worker.js:105 | `cache.put` replaces one URL's entry and nothing else, and stores nothing for a partial (206) response |
| ServiceWorker.CacheStorage.CacheFirstStrategy | flutter_chekmate/web/flutter_service_worker.js:91-121 | a hit is answered from the cache without the network; a miss returns the fetched response, stores it only if `ok` and not partial, and gives the 503 when fetch fails |
| ServiceWorker.CacheStorage.NetworkFirstStrategy | flutter_chekmate/web/flutter_service_worker.js:124-162 | the fetched response is returned whatever its status and stored only if `ok` and not partial; on failure the fallback as written answers from the given cache |
| ServiceWorker.CacheStorage.HandleFetch | flutter_chekmate/web/flutter_service_worker.js:63-88 | no answer and no change for skipped requests; network-first answers with the fetched response or the fallback as written; cache-first answers a hit from the image cache unchanged, a miss with the fetched response or the offline image; both store a fetched response only if `ok` and not partial |
| ServiceWorker.CacheStorage.Activate | flutter_chekmate/web/flutter_service_worker.js:38-60 | the storage afterwards is exactly the current caches of before |
| ServiceWorker.CacheStorage.AddAll | flutter_chekmate/web/flutter_service_worker.js:28 | `addAll` succeeds iff every fetch arrived `ok` and not partial and no URL is listed twice; the storage after it is AddedAll of the storage before |
| ServiceWorker.AddedAll | flutter_chekmate/web/flutter_service_worker.js:28 | the named cache exists and other caches are unchanged; on success each listed URL holds its fetched response, on failure nothing is stored |
| ServiceWorker.PrecacheUrls | flutter_chekmate/web/flutter_service_worker.js:9-18 | the eight precache assets, resolved against the worker origin, in order |
| ServiceWorker.PrecacheUrlsDistinct | flutter_chekmate/web/flutter_service_worker.js:9-18 | the precache list names no asset twice, so install can succeed |
| ServiceWorker.CacheStorage.Install | flutter_chekmate/web/flutter_service_worker.js:21-35 | install succeeds iff every precache fetch arrived `ok` and not partial; the storage after it is the main cache opened and filled by `addAll` of the precache URLs |
| ServiceWorker.CacheStorage.CacheUrls | flutter_chekmate/web/flutter_service_worker.js:228-234 | only a `CACHE_URLS` message changes storage; it runs `addAll` of its URLs (default none) on the runtime cache, which succeeds iff each arrived `ok` and not partial and none repeats |
| ServiceWorker.MessageUrls | flutter_chekmate/web/flutter_service_worker.js:229 | the URLs of a `CACHE_URLS` message, empty when absent |
| TestData.TestUsername | flutter_chekmate/test/e2e/helpers/firebase-helpers.ts:21-25 | `testuser_{ts}_{r}` contains no `@` |
| TestData.TestUsernameInjective | flutter_chekmate/test/e2e/helpers/firebase-helpers.ts:18-25 | the generated username is unique: different clock readings or random numbers give different usernames |
| TestData.TestEmail | flutter_chekmate/test/e2e/helpers/firebase-helpers.ts:12-16 | the e-mail ends in `@test.com` with no other `@` before it |
| TestData.BeforeAt | flutter_chekmate/test/e2e/helpers/firebase-helpers.ts:32 | `split('@')[0]` is the longest `@`-free prefix |
| TestData.LocalPartNoAt | flutter_chekmate/test/e2e/helpers/firebase-helpers.ts:12-16 | the local part of the test e-mail contains no `@` |
| TestData.UserDataFields | flutter_chekmate/test/e2e/helpers/firebase-helpers.ts:30-39 | the username is the e-mail before its `@`, the e-mail is the username plus `@test.com`, and password and phone are the fixed values |
| TestData.TestUserData | flutter_chekmate/test/e2e/helpers/firebase-helpers.ts:30-39 | the generated user record; its fields are stated by `TestData.UserDataFields` |
| TestData.JoinedDigitsSplit | flutter_chekmate/test/e2e/helpers/firebase-helpers.ts:15 | two digit strings joined by a separator can be split back uniquely |
| TestData.TestEmailInjective | flutter_chekmate/test/e2e/helpers/firebase-helpers.ts:12-16 | different (timestamp, random) pairs give different e-mails |
| TestData.AuthenticatedIffNoAuthPath | flutter_chekmate/test/e2e/helpers/firebase-helpers.ts:61-66 | signed in iff neither `/login` nor `/signup` occurs anywhere in the URL |
| TestData.IsUserAuthenticated | flutter_chekmate/test/e2e/helpers/firebase-helpers.ts:61-66 | signed in iff the URL contains neither `/login` nor `/signup`; stated by `TestData.AuthenticatedIffNoAuthPath` |
| TestData.FillFormField | flutter_chekmate/test/e2e/helpers/firebase-helpers.ts:96-102 | an error is raised iff the read-back value differs from the value written |
| TestData.FillFormFieldMessage | flutter_chekmate/test/e2e/helpers/firebase-helpers.ts:101 | the error message names the selector and ends with the value read back |
| TestData.FirstProbe | flutter_chekmate/test/e2e/helpers/firebase-helpers.ts:144-149 | the first selector whose probe is not hidden decides; none when all are hidden |
| TestData.HasErrorMessage | flutter_chekmate/test/e2e/helpers/firebase-helpers.ts:133-155 | true iff the first decisive probe is a visible element; a throwing probe gives false |
| TestData.GetErrorMessage | flutter_chekmate/test/e2e/helpers/firebase-helpers.ts:160-181 | the text of the first visible selector, or null when none is or a probe throws |
| TestData.NoThrowFound | flutter_chekmate/test/e2e/helpers/firebase-helpers.ts:144-149 | without throwing probes, found iff some selector is visible |
| TestData.ErrorHelpersAgree | flutter_chekmate/test/e2e/helpers/firebase-helpers.ts:133-181 | without throwing probes both helpers agree on whether an error is shown, despite their different selector orders |

## Left out

- `get_color_name` in both colour scripts uses HSV from `colorsys` and floating point. It only names colours for printing, so it is not modelled.
- Percentages, the printed reports and the `json` output of the colour checker are floating-point or I/O and are not modelled. Only the counts, the found flags and the verdict are.
- Image loading with PIL (`Image.open`, `convert('RGB')`, `getdata`) is not modelled. The pixels are an input sequence.
- `ColorCodes.ParseHexPair` accepts only two plain hex digits. Python's `int(p, 16)` also accepts a sign, surrounding whitespace and `_` separators, and these are not modelled. The palettes in the source use plain digits only.
- `Strings.Lines` splits text only at `\n`. Python's universal-newline translation of `\r\n` and `\r` is assumed to have happened already.
- All OpenAI calls are not modelled:
  - creating the assistant, the thread, messages and runs;
  - uploading images;
  - fetching message pages from the service.

  Their results are inputs: the run statuses polled, the whole thread and the file ids. The two listings are modelled on the thread: oldest first with the default page of 20 (`AssistantSession.OldestFirst`), and newest first with limit 1 (`AssistantSession.NewestFirst`). Page cursors are not modelled.
- `time.sleep` and the polling delays are not modelled. The pauses are counted instead.
- `run_assistant` prints `last_error`, but this is output only.
- `sys.exit` on a missing config or key is modelled as a `None` result.
- Reading the component files, `save_conversion` and the file writes of `save_assistant_config` are not modelled. Their contents are inputs and outputs of the model.
  - `create_openai_assistant.py` writes `.assistant_config` in the working directory.
  - `use_assistant.py` reads `../../config/.assistant_config`.

  The round trip is stated on the text, not on the paths.
- The service worker's remaining handlers are not modelled because they have no state of the worker's own:
  - the `sync`, `push` and `notificationclick` handlers;
  - the `SKIP_WAITING` message;
  - `skipWaiting` and `clients.claim`;
  - the console logging.
- `response.clone()` is not modelled. `cache.put` is not awaited in the source; the model applies it before the response is returned.
- Request matching (`cache.match`) is modelled as lookup by absolute URL. Vary headers and query options are not modelled.
- The fetch handler follows the code as written: `ServiceWorker.CacheStorage.NetworkFirstStrategy` uses `ServiceWorker.OfflineFallbackAsWritten`. The corrected fallback is `ServiceWorker.OfflineFallback`, proved in `ServiceWorker.OfflineNavigationServed` (see Findings).
- `addAll` is modelled as all or nothing: a response that is not `ok`, a partial (206) response or a URL listed twice makes it store nothing. Which error is raised is not modelled.
- `AssistantConfig.ConfigRoundTrip`: ids containing `\r` are excluded. The reader splits at `\n` only, and a text-mode read would also split at `\r`.
- `Date.now()` and `Math.random()` in the test helpers are parameters.
- The test helpers that only wait or act on the browser are not modelled:
  - `waitForAuthComplete`;
  - `waitForElement`;
  - `takeScreenshot`;
  - `waitForNetworkIdle`;
  - `clearBrowserStorage`.
- `page.fill` and `page.inputValue` are not modelled. The value read back is an input.
- Probing one selector is modelled as a `Probe` result per selector: visible with text, hidden, or throwing. The one-second visibility timeout is not modelled.
- `AssistantSetup.SetupSavesNoVectorStore` states only the `VECTOR_STORE_ID` field. The other two ids are covered by `AssistantConfig.ConfigRoundTrip`.
- Some loops are written as a helper method called from the method that models the source function:
  - `PaletteExtraction.FilterCommon`;
  - `PaletteExtraction.FindCluster`;
  - `PaletteExtraction.PickRepresentatives`;
  - `PaletteExtraction.FlutterConstants`;
  - `AssistantSession.WriteTexts`;
  - `AssistantSession.CollectTexts`.

  The source keeps these loops inline.

## Findings

| source | as written | input that shows it | evidently intended | confidence | as-written member | corrected member |
|---|---|---|---|---|---|---|
| flutter_chekmate/web/flutter_service_worker.js:145-151 | when the network fails on a navigation, the offline page `/index.html` is looked up in the runtime cache that `networkFirstStrategy` was given, but install put it in `chekmate-cache-v1` | after a complete install, with an empty runtime cache, an offline navigation to `/feed` gets the 503 although `/index.html` is precached | the offline page is also looked up in the main cache, so a navigation is answered with the precached page | medium; not executed | ServiceWorker.OfflinePageMissed | ServiceWorker.OfflineNavigationServed |
