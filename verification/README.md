# paper_vis figure/table linking core, in Dafny

This project models the core of `paper_vis`, a pipeline that turns a parsed
research paper into four summary "lanes" with their figures attached.
The modelled code does six things:

- **Merging** (`merge_data.py`): joins each content-list entry with the
  block of the PDF layout data that best matches it. It scores candidates
  by text similarity and caption similarity, and falls back to figure or
  table numbers.
- **Linking** (`FigureTextMatchingPipeline.py`, `FigureReferenceExtractor.py`,
  `EnhancementModules.py`): finds the figures and tables of the merged
  document. It extracts the sentences that mention "Figure N" or "Table N"
  and links each figure to its mentions, ranked by page distance.
- **Placing** (`FigureMapGenerator.py`): places every linked figure in the
  first lane whose text mentions it, and builds the lane-to-figures map.
- **Headings** (`paper_vis/NormalizeHeadings.py`,
  `paper_vis/extractContentByHeading.py`): recovers heading levels from
  numbering and collects the level-1 headings. It also cuts the section
  under a heading out of the markdown text.
- **Key-point validation** (`Conclusion.py`, `ContextRelatedWork.py`,
  `paper_vis/ResultsAnalysis.py`, `paper_vis/MethodologySetup.py`): checks
  the JSON answer of the language model: 3 to 5 key points, short titles,
  summaries of at most 60 words.
- **Structure sketch** (`json_structure_analyzer.py`): renders the shape of
  a JSON value.

Files under `paper_vis/` that are byte-identical to a top-level file share
one model. The table below cites either copy.

Values are modelled as follows:

- JSON values are the datatype `Json.Json`.
- Dictionaries read with `.get` are `map<string, Json>`. An absent key and
  `null` both read as `JNull`.
- Python's whitespace set and `str.split`/`str.strip` are written out in
  `Text`.
- The regular expressions of the reference extractor are a small regex
  language with a backtracking matcher (`Regex`). It has Python's
  leftmost-first, non-overlapping `finditer` semantics.
- The keyword-then-number searches used elsewhere are hand-written scanners
  (`Scan`).
- `difflib.SequenceMatcher.ratio` is a parameter: any function into [0, 1]
  (`SimilarityScore.Ratio`). Every property about similarity therefore
  holds for every such function.
- Floating-point numbers are reals (see "Left out").

A Python exception is modelled in one of two ways. Where the model proves
something about the failure, it returns `None`: `KeyPoints.Validate`,
`HeadingLevels.Tally`, `Lanes.FinalMap` and `Reconcile.MergeAsWritten`. For content-list
records, the type demands that would cause the exception become the
member's precondition. The layout data of `middle.json` has its shape built
into the types of `MiddleIndex` instead, so its ill-typed forms are not
modelled at all (see "Left out").

Where the description of the system and its code differ, the model follows
the code:

- `normalize_headings` returns a rewritten `# N. title` line only when the
  whole line contains no `##` (paper_vis/NormalizeHeadings.py:76-80). One
  example is a title that itself holds `##`.
- `extract_h1_headings` keeps every stripped line that starts with `#` and
  whose title `_is_unnumbered_h1` accepts, including `## Background`
  (paper_vis/NormalizeHeadings.py:181-187).
- `_clean_figure_caption` removes only one `Figure N:` prefix
  (FigureMapGenerator.py:215).
- The validators of the Conclusion and Context lanes exempt a summary of
  exactly `N/A` from the word limit. The exemption never changes a verdict,
  because `N/A` is one word (`KeyPoints.ExemptionIsMoot`).

## Model

| member | source | states |
|---|---|---|
| Enhancement.PositionWeight | EnhancementModules.py:5-16 | the weight is 1.0 exactly on the same page, 0.8 exactly one page away, 0.6 exactly two or three pages away and 0.3 exactly beyond that |
| Enhancement.PositionWeightSymmetric | paper_vis/EnhancementModules.py:5-16 | the weight does not depend on which page is the figure's |
| Enhancement.PositionWeightMonotone | EnhancementModules.py:5-16 | a nearer reference never weighs less than a farther one |
| Enhancement.CaptionNumber | EnhancementModules.py:19-33 | the number is a digit run inside the caption. The figure search wins whenever it matches, and the table search is used only otherwise. There is no number exactly when neither search matches |
| Enhancement.CaptionKind | EnhancementModules.py:36-45 | the kind is table exactly when a table keyword starts a word, and figure exactly when no table keyword does but a figure keyword does |
| Enhancement.OppositePrecedence | paper_vis/EnhancementModules.py:19-45 | worked example: the number prefers figures while the kind prefers tables, so `Fig 1 Table 2` gets number 1 and kind table |
| Scan.Search | EnhancementModules.py:24 | `re.search` for keyword-then-digits: a hit is a real match, and no position before it (none at all when there is no hit) matches |
| Scan.FirstNumber | EnhancementModules.py:24-26 | the captured group is a non-empty digit run inside the text, and there is one exactly when the search hits |
| Scan.SearchFromLeftmost | EnhancementModules.py:29-31 | scanning from a position reports the leftmost match at or after it |
| Scan.FirstDigits | FigureMapGenerator.py:186-188 | `re.search(r'(\d+)')` gives the first maximal digit run, and nothing exactly when the text has no digit |
| Regex.EndsMatch | FigureReferenceExtractor.py:7-57 | the backtracking matcher's end positions are exactly the ends at which the pattern matches from a start |
| Regex.Run | FigureReferenceExtractor.py:9 | a greedy repetition consumes a maximal run of matching characters, capped by the maximum |
| Regex.AttemptsComplete | FigureReferenceExtractor.py:128 | every match that starts at a position is among the attempts tried there |
| Regex.MatchShape | FigureReferenceExtractor.py:128-130 | every match lies in the sentence with its number group between start and end, and the group is a digit run |
| Regex.FindFromSound | FigureReferenceExtractor.py:128-129 | every match `finditer` reports is a real match, the first one tried at its start, and they come left to right without overlap |
| Regex.FindFromCovers | FigureReferenceExtractor.py:128-129 | every position where some match starts lies inside a reported match: nothing is skipped except what an earlier match consumed |
| References.PatternRefsMembers | FigureReferenceExtractor.py:127-137 | one pattern yields exactly one reference per match in the sentence |
| References.KindRefsMembers | FigureReferenceExtractor.py:127-150 | the patterns of one kind yield exactly the references some pattern of the list makes |
| References.SentenceRefsMembers | FigureReferenceExtractor.py:121-150 | a sentence yields references only when it has at least ten characters once stripped, and then exactly those its kind's patterns make |
| References.LoopMembers | FigureReferenceExtractor.py:121 | the loop over sentences reports a reference exactly when the sentence at its index yields it |
| References.ExtractWithSpec | FigureReferenceExtractor.py:116-152 | a reference is extracted exactly when it names a sentence of the split text that is long enough and in which a pattern of its type makes it |
| References.ExtractWithOrdered | FigureReferenceExtractor.py:121-152 | references come out sentence by sentence, and within one sentence every figure reference comes before every table reference |
| References.SentenceSorted | FigureReferenceExtractor.py:126-150 | within one sentence's references, a table reference is followed only by table references |
| References.KindRefsCount | FigureReferenceExtractor.py:127-137 | a pattern list makes exactly one reference per match of each of its patterns, repeated matches included |
| References.SentenceRefsCount | FigureReferenceExtractor.py:121-150 | a sentence of at least ten stripped characters yields exactly as many references as its figure and table patterns have matches, and a shorter one none |
| References.ReferenceShape | FigureReferenceExtractor.py:131-149 | every reference has a sentence of at least ten characters, the type figure or table, a digit-run number inside its match text, and a match text inside its sentence |
| References.MadeShape | FigureReferenceExtractor.py:130-136 | a reference made from a match records the stripped sentence, its index and type, and a number inside the match text |
| References.ExtractBlank | FigureReferenceExtractor.py:116-123 | blank text yields no references |
| References.ExtractSpec | FigureReferenceExtractor.py:116-152 | the same exact characterisation for the extractor with the repository's own figure and table pattern lists |
| Sentences.ProtectComplete | FigureReferenceExtractor.py:160-167 | after the three protection passes no `Fig.`, `Table.` or `Tab.` followed by a number is left to protect, whatever the text |
| Sentences.PassPreserves | FigureReferenceExtractor.py:166-167 | a later protection pass never creates work for an earlier one |
| Sentences.PassNoop | FigureReferenceExtractor.py:167 | a pass over text with nothing to protect changes nothing |
| Sentences.NoMatchAfterPass | FigureReferenceExtractor.py:161-167 | after a pass no protectable keyword for any of the three keywords is left in the rewritten part |
| Sentences.RewriteShape | FigureReferenceExtractor.py:161 | one rewrite replaces the keyword, its spaces and its digits with keyword, sentinel and digits, and ends inside a word so the next match cannot start there |
| Sentences.CutFrom | FigureReferenceExtractor.py:170 | `re.split(r'[.!?]\s+')` yields at least one piece and no piece holds a separator |
| Sentences.CutGaps | FigureReferenceExtractor.py:170 | every separator the split cuts at is a `.`, `!` or `?` followed by a non-empty whitespace run |
| Sentences.CutRejoin | FigureReferenceExtractor.py:170 | there is one more piece than separator, and the pieces with the separators put back between them give the text again |
| Sentences.CutPiecesStart | FigureReferenceExtractor.py:170 | the whitespace after a stop is consumed whole: no piece after the first starts with whitespace |
| Sentences.Restore | FigureReferenceExtractor.py:175-177 | a restored piece is stripped and holds no sentinel |
| Sentences.RestoreAll | FigureReferenceExtractor.py:174-177 | restoring keeps only non-empty, stripped, sentinel-free sentences |
| Sentences.RestoreAllKept | FigureReferenceExtractor.py:174-177 | the sentences are, in order, the restored text of each piece whose restored text is not blank |
| Sentences.RestoreAllAppend | FigureReferenceExtractor.py:174-177 | restoring two runs of pieces gives the two results one after the other |
| Sentences.RestoreAllMembers | FigureReferenceExtractor.py:174-177 | a text is kept exactly when it is non-empty and the restored text of some piece |
| Sentences.SplitSentences | FigureReferenceExtractor.py:154-179 | every sentence is non-empty, stripped and free of the sentinel |
| Sentences.SplitSentencesSpec | FigureReferenceExtractor.py:154-179 | the protected text is the pieces with the separators between them, and the sentences are the non-blank restored pieces in order |
| Sentences.CutJoin | FigureReferenceExtractor.py:170 | sentences joined with `. ` are cut back into exactly those sentences |
| Sentences.SplitJoin | FigureReferenceExtractor.py:154-179 | sentences joined with `. ` split back into the same sentences when no `Fig.`, `Table.` or `Tab.` before a number needs protecting |
| Sentences.SplitBlank | FigureReferenceExtractor.py:176 | blank text splits into no sentences |
| Sentences.StripKeepsAbsence | FigureReferenceExtractor.py:177 | stripping cannot create an occurrence of the sentinel |
| Text.ReplaceRemovesAll | FigureReferenceExtractor.py:175 | replacing every sentinel with characters foreign to it leaves no sentinel behind |
| Text.StripSlice | FigureReferenceExtractor.py:177 | `strip()` keeps a slice of the text with whitespace-only margins on both sides |
| Text.StripUnique | merge_data.py:172 | the stripped text is the only slice between whitespace margins that neither starts nor ends with whitespace |
| Text.StripIdempotent | merge_data.py:218 | stripping twice is stripping once |
| Text.NormalizeSpaceIdempotent | merge_data.py:477 | `' '.join(s.split())` is idempotent |
| Text.WordsOfJoin | merge_data.py:477 | splitting a space-joined list of words gives the words back |
| Text.SplitOnJoin | paper_vis/extractContentByHeading.py:197-222 | joining the lines of `split('\n')` with newlines gives the text back |
| Distinct.DedupIsKeepFirst | FigureTextMatchingPipeline.py:150-159 | the seen-set loop keeps exactly the first item of each key, in order |
| Distinct.KeepFirstMembers | FigureTextMatchingPipeline.py:154-159 | an item survives exactly when it is the first with its key |
| Distinct.KeepFirstDistinct | FigureTextMatchingPipeline.py:188-199 | no two surviving items share a key |
| Distinct.KeepFirstKeys | FigureTextMatchingPipeline.py:150-159 | de-duplication loses no key |
| Pipeline.LastIndex | FigureTextMatchingPipeline.py:171 | the position of the last occurrence of a character, or -1 when it does not occur |
| Pipeline.IdFromPath | FigureTextMatchingPipeline.py:164-172 | an empty path gives `unknown`, and an id never holds a slash |
| Pipeline.IdFromPathRoundTrip | FigureTextMatchingPipeline.py:164-172 | the id of `dir/name.ext` is `name` |
| Pipeline.IdFromPathNoExtension | FigureTextMatchingPipeline.py:171-172 | a name without a dot is its own id |
| Pipeline.BaseNameAfterDir | FigureTextMatchingPipeline.py:171 | `basename` drops exactly the directory part |
| Pipeline.StemOfNameExt | FigureTextMatchingPipeline.py:171 | `splitext` drops exactly the last extension |
| Pipeline.ItemFigure | FigureTextMatchingPipeline.py:82-121 | a record gives a figure exactly when it is an image or a table with a truthy caption, with its id, page, box, kind and joined caption |
| Pipeline.FiguresMembers | FigureTextMatchingPipeline.py:78-123 | the figures are exactly those of the figure records |
| Pipeline.FiguresInOrder | FigureTextMatchingPipeline.py:82-123 | figures come in record order |
| Pipeline.ImageCaptionKey | FigureTextMatchingPipeline.py:84 | an image is read from `image_caption`, so an image record without one gives no figure |
| Pipeline.ItemRefs | FigureTextMatchingPipeline.py:129-145 | a text record contributes its extracted references, each tagged with its page and box, and other records contribute nothing |
| Pipeline.RawRefsMembers | FigureTextMatchingPipeline.py:125-145 | the collected references are exactly those of the text records, with their positions |
| Pipeline.UniqueRefsSpec | FigureTextMatchingPipeline.py:150-162 | de-duplication by sentence, number and type keeps the first of each key and loses no key |
| Pipeline.PositionWeightIsDistance | FigureTextMatchingPipeline.py:218-251 | the pipeline's own weight equals the page-distance weight, because both same-page branches return 1.0 |
| Pipeline.MatchOf | FigureTextMatchingPipeline.py:204-210 | a match records the page distance, the weight as both weight and confidence, and the reference's sentence and match text |
| Pipeline.Qualifying | FigureTextMatchingPipeline.py:190-193 | exactly the references with the figure's number and type qualify |
| Pipeline.ChosenSpec | FigureTextMatchingPipeline.py:187-199 | a qualifying reference is kept exactly when no earlier one has the same sentence |
| Pipeline.ChosenDistinct | FigureTextMatchingPipeline.py:195-199 | no two kept references share a sentence |
| Pipeline.NoNumberNoMatches | FigureTextMatchingPipeline.py:181-183 | a caption without a number gets no matches |
| Pipeline.MatchFigureSpec | FigureTextMatchingPipeline.py:174-216 | the matches are a permutation of the chosen references' matches, sorted by weight descending, and equal weights keep their discovery order (the sort is stable) |
| Pipeline.SortSpec | FigureTextMatchingPipeline.py:213 | the sort is a permutation, descending by weight, and stable |
| Pipeline.CountsSplit | FigureTextMatchingPipeline.py:263-264 | every figure is counted once, with matches or without |
| Pipeline.Format | FigureTextMatchingPipeline.py:253-269 | the output counts all figures and all their matches. The with and without counts are the numbers of results with and without matches, and they add up to the total. The average times the number of figures is the match total (0 for no figures). The id defaults to `unknown` |
| Pipeline.TotalMatchesAppend | FigureTextMatchingPipeline.py:255 | the match total of two runs of results is the sum of their totals |
| Pipeline.TotalMatchesOne | FigureTextMatchingPipeline.py:255 | one result contributes the number of its matches |
| Pipeline.CountMatchedAppend | FigureTextMatchingPipeline.py:263-264 | the with and without counts of two runs of results add up |
| Pipeline.CountMatchedCard | FigureTextMatchingPipeline.py:263-264 | each count is the number of positions whose result has, or lacks, matches |
| Pipeline.MatchedWithinTotal | FigureTextMatchingPipeline.py:255-264 | no more results have matches than there are matches, and the total is 0 exactly when no result has matches |
| Pipeline.ResultOf | FigureTextMatchingPipeline.py:29-35 | a result carries the figure's id, caption, type and page |
| Pipeline.ProcessWith | FigureTextMatchingPipeline.py:9-37 | there is one result per extracted figure, in order, each matched against the de-duplicated references |
| DictFigures.DictKind | FigureTextMatchingPipeline.py:44-54 | the kind read from a file name is `image` or `table` |
| DictFigures.DictKindSpec | FigureTextMatchingPipeline.py:45-54 | a name is an image exactly when it mentions `fig`, or mentions no `tab` and has an image extension |
| DictFigures.DictNumber | FigureTextMatchingPipeline.py:57-59 | the number is the first digit run of the name, or `1` when it has no digit |
| DictFigures.FiguresFromDict | FigureTextMatchingPipeline.py:39-76 | one figure per entry, in order, with the file name as id and the entry's data |
| DictFigures.EntryFigure | FigureTextMatchingPipeline.py:67-74 | the figure is on page 0 with no box, and its kind is image or table |
| DictFigures.EntryReadBack | FigureTextMatchingPipeline.py:61-65 | the generated caption reads back through the caption helpers as the name's number and a kind that agrees with the type |
| Lanes.FirstPassing | FigureMapGenerator.py:163-170 | the lane found is the first non-empty lane that passes the test |
| Lanes.DetermineLane | FigureMapGenerator.py:143-199 | an empty caption gets no lane, and a lane given is a non-empty lane of the input |
| Lanes.PassSpec | FigureMapGenerator.py:163-181 | a pass names the first passing lane, and none exactly when no lane passes |
| Lanes.CaptionPassWins | FigureMapGenerator.py:160-170 | a lane mentioning the cleaned caption wins, and the first such lane is chosen |
| Lanes.IdPassNext | FigureMapGenerator.py:172-181 | otherwise the first lane mentioning the file name, case-insensitively, is chosen |
| Lanes.NumberPassLast | FigureMapGenerator.py:183-196 | otherwise the first lane that names `figure N` or `table N`, for the first number of the file name, is chosen |
| Lanes.NoPassNoLane | FigureMapGenerator.py:198-199 | when no pass finds a lane the figure gets none |
| Lanes.EmptyIdTakesFirstLane | paper_vis/FigureMapGenerator.py:179 | an empty file name occurs in every text, so the first non-empty lane takes the figure |
| Lanes.EntryOf | FigureMapGenerator.py:118-129 | an entry carries the id, caption, reference sentences and the image data, or an empty string when there is none |
| Lanes.FinalMap | FigureMapGenerator.py:97-131 | the map has exactly the four lane keys, all empty when `results` is missing. It fails, as `figure_map[assigned_lane]` raises `KeyError`, exactly when some figure is placed in a lane that is not one of the four keys; a lane named `""` counts as no lane (`if assigned_lane:`) |
| Lanes.FinalMapDefined | FigureMapGenerator.py:114-131 | lanes with an empty text or an empty name never make the map fail, whatever they are called; only lanes that can be chosen need to be among the four keys |
| Lanes.FinalMapSpec | paper_vis/FigureMapGenerator.py:108-134 | whenever the map is built, each lane lists, in result order, the entries of exactly the figures assigned to it. The lanes together hold one entry per placed figure |
| Grouping.GroupSpec | FigureMapGenerator.py:131 | appending to a bucket per item gives each bucket exactly its items' entries, in order |
| Grouping.GroupCount | FigureMapGenerator.py:108-134 | the buckets together hold one entry per item that has a bucket |
| LaneText.StripPrefix | FigureMapGenerator.py:215 | a caption without a leading `Figure/Fig/Table/Tab N` is kept unchanged |
| LaneText.CleanCaption | FigureMapGenerator.py:201-220 | the cleaned caption is single-spaced and stripped |
| LaneText.CleanPrefixed | FigureMapGenerator.py:215-218 | `Figure 3: body` and its variants clean to the body, space-normalised |
| LaneText.OnePrefixOnly | FigureMapGenerator.py:215 | only the first prefix is removed |
| LaneText.FigDotKept | FigureMapGenerator.py:215 | every caption opening with `Fig.` keeps its prefix and only has its whitespace collapsed, because the pattern has no optional dot after the keyword |
| LaneText.CaptionInContent | FigureMapGenerator.py:222-237 | a hit needs a non-empty caption and content |
| LaneText.CaptionInContentCaseless | paper_vis/FigureMapGenerator.py:237 | the test ignores case on both sides |
| LaneText.VerbatimFound | FigureMapGenerator.py:233-237 | a caption that occurs verbatim is found |
| LaneText.WordRuns | FigureMapGenerator.py:254-255 | `\b\w+\b` finds non-empty runs of word characters |
| LaneText.Jaccard | FigureMapGenerator.py:239-263 | the word-overlap score lies in [0, 1] and is 0 when either side has no word |
| LaneText.JaccardSymmetric | paper_vis/FigureMapGenerator.py:239-263 | the score is symmetric |
| LaneText.JaccardOne | FigureMapGenerator.py:257-263 | the score is 1 exactly when both sides have the same non-empty word set |
| SimilarityScore.Similarity | merge_data.py:427-469 | the similarity lies in [0, 1], is 0 when either text is empty, and is at least 0.98 when the prefix ratio reaches 0.8 |
| SimilarityScore.SimilarityReflexive | merge_data.py:441-448 | a non-empty text is at least 0.98 similar to itself |
| SimilarityScore.SimilaritySymmetric | merge_data.py:427-469 | the similarity is symmetric whenever the ratio is |
| SimilarityScore.PrefixLen | merge_data.py:438-439 | the prefix length is `max(10, int(0.8 * min_len))` |
| SimilarityScore.Jaccard | merge_data.py:460-465 | the word overlap lies in [0, 1], is 0 exactly when the sets are disjoint, and is 1 exactly when they are equal and non-empty |
| SimilarityScore.CleanShape | merge_data.py:471-478 | the cleaned text is single-spaced and holds only word characters and spaces |
| SimilarityScore.TypeMatchReflexive | merge_data.py:480-492 | every type matches itself |
| SimilarityScore.TypeMatchStrings | merge_data.py:480-492 | between two type names, matching is equality or one of `text`→`paragraph`, `text`→`para`, `image`→`figure`, `title`→`heading` |
| SimilarityScore.TypeMatchAntisymmetric | merge_data.py:480-492 | two type names that match each other both ways are equal |
| SimilarityScore.TypeMatchAsymmetric | merge_data.py:482-490 | worked example: `text` matches `paragraph` but not the other way round |
| MiddleIndex.SpanParts | merge_data.py:171-174 | only non-empty stripped span texts are kept |
| MiddleIndex.SpanPartsEach | merge_data.py:171-174 | the parts are, in order, the stripped content of each span that is not blank |
| MiddleIndex.SpanPartsAppend | merge_data.py:171-174 | two runs of spans give their parts one after the other |
| MiddleIndex.SpanPartsOne | merge_data.py:172-174 | one span gives its stripped content, or nothing when it is blank |
| MiddleIndex.SpanPartsMembers | merge_data.py:171-174 | a text is a part exactly when it is non-empty and the stripped content of some span |
| MiddleIndex.SpanPartsNone | merge_data.py:171-176 | a line has no parts exactly when all its spans are blank |
| MiddleIndex.LineTextSpec | merge_data.py:169-182 | a line gives no text exactly when all its spans are blank. Otherwise the text is the parts joined with single spaces, less the final character exactly when the last part ends in a dash |
| MiddleIndex.DropDash | merge_data.py:179-181 | a trailing dash is dropped and nothing else changes |
| MiddleIndex.JoinLines | merge_data.py:185-195 | the joining loop computes the reference fold `Joined` |
| MiddleIndex.JoinedOnlyAddsSpaces | merge_data.py:184-197 | joining inserts nothing but spaces |
| MiddleIndex.JoinedLength | merge_data.py:184-197 | joining adds at most one space per seam |
| MiddleIndex.FirstSpanBbox | merge_data.py:199-209 | the box of the first span of the first line, or none when either list is empty |
| MiddleIndex.FirstSpanBboxOfBlankSpan | merge_data.py:205-209 | for any block whose first span is blank, the first span's box is still taken, while the span adds nothing to the line's parts |
| MiddleIndex.CaptionSubs | merge_data.py:131-132 | exactly the caption sub-blocks are lifted, in order |
| MiddleIndex.FlattenMembers | merge_data.py:120-139 | every indexed entry is a top-level block or one of its caption sub-blocks |
| MiddleIndex.BuildIndexKeys | merge_data.py:78-90 | the index has exactly the page keys of the dictionary pages, and string pages are skipped |
| MiddleIndex.BuildIndexLastWins | merge_data.py:84-87 | a later page with the same key replaces an earlier one |
| Select.PickBestSpec | merge_data.py:243-271 | the strict-improvement scan picks the first candidate of best score, and none exactly when no candidate is eligible |
| Select.FirstBestUnique | merge_data.py:259 | there is only one first best candidate |
| Select.FirstWhere | merge_data.py:320-346 | the fallback loop stops at the first passing candidate |
| Reconcile.Candidates | merge_data.py:247-248 | candidates are the preproc blocks, then the para blocks, each tagged with its source |
| Reconcile.TextMatch | merge_data.py:242-271 | a text match has confidence above 0.6, a `*_similarity` method, and a type flag saying whether the types match |
| Reconcile.TextMatchSpec | merge_data.py:242-271 | there is no match exactly when no block's similarity exceeds 0.6, otherwise the first block of best score wins |
| Reconcile.CaptionText | merge_data.py:275-279 | a caption list is joined with spaces, a string is kept, and a missing field gives the empty string |
| Reconcile.CaptionMatch | merge_data.py:273-348 | a blank caption gets no match, and a match is a caption block of the right kind with confidence above 0.2 |
| Reconcile.CaptionMatchSpec | merge_data.py:287-346 | when some caption block scores above 0.2, the record is the first best block's: its boxes and content, its similarity as confidence, and method `<type>_<list>`. Otherwise the record is the first block in search order whose number agrees, with confidence 0.8 and method `figure_number_<list>` or `table_number_<list>`. There is no record exactly when no block's number agrees |
| Reconcile.CaptionSimilarityCase | merge_data.py:287-313 | the similarity pass's record is built from the first best caption block, with its similarity as confidence |
| Reconcile.CaptionFallbackCase | merge_data.py:318-346 | the fallback's record is built from the first block whose number agrees, with confidence 0.8; there is none when no number agrees |
| Reconcile.CaptionNeedsBlockType | merge_data.py:350-425 | without a caption block of the right kind there is no match |
| Reconcile.NumbersAgreeSimplified | merge_data.py:399-409 | the keyword tests are implied by equal first numbers, so agreement is equal numbers on a block of the right kind |
| Reconcile.FindMatchingBbox | merge_data.py:211-271 | a page not in the index gives no match, and images and tables only match their caption blocks |
| Reconcile.MergeRecord | merge_data.py:43-59 | the merged record keeps every field that matching does not set, and adds the match fields or the no-match fields |
| Reconcile.NoMatchMarker | merge_data.py:48-59 | the method is `no_match` exactly when nothing matched, and then the box and the middle type are none and the confidence is 0 |
| Reconcile.Merge | merge_data.py:33-62 | one record per entry, every record carries `match_method`, `bbox` and `middle_type`, and a dictionary entry keeps all its keys |
| Reconcile.MergeKeepsFields | merge_data.py:43-49 | fields other than the match fields pass through unchanged |
| Reconcile.MergeAsWritten | merge_data.py:10-70 | the code as written raises exactly on an empty list or a string entry |
| Reconcile.MergeAsWrittenAgrees | merge_data.py:33-70 | where the code as written returns, it agrees with the corrected merge |
| Reconcile.StringEntryRaises | merge_data.py:35-60 | a string entry makes the code raise, while the corrected merge gives it a text record with no match |
| Reconcile.EmptyListRaises | merge_data.py:64-67 | an empty content list makes the code divide by zero, while the corrected merge returns the empty list |
| Headings.NormalizeHeading | paper_vis/extractContentByHeading.py:23-46 | the normal form is stripped, empty for an empty heading, and starts with `#` exactly when the stripped heading does |
| Headings.NormalizeIdempotent | paper_vis/extractContentByHeading.py:23-46 | normalising twice is normalising once |
| Headings.CoreInHeading | paper_vis/extractContentByHeading.py:48-75 | the core without `#` and numbering is part of the heading |
| Headings.HeadingContent | paper_vis/extractContentByHeading.py:48-75 | the core content is single-spaced |
| Headings.HeadingContentChars | paper_vis/extractContentByHeading.py:58-75 | every character of the core is a space or a non-space character of the heading |
| Headings.NumberedCore | paper_vis/extractContentByHeading.py:62-70 | the core of `# N. body` is the body |
| Headings.CleanWords | paper_vis/extractContentByHeading.py:77-107 | clean words are single-spaced, hold no upper-case ASCII letter, and consist only of word characters, CJK ideographs, spaces and dashes |
| Headings.KeepOnlyFixed | paper_vis/extractContentByHeading.py:102 | removing foreign characters leaves clean text unchanged |
| Headings.NumberedHeadingMatches | paper_vis/extractContentByHeading.py:94-129 | `# N. body` matches `body` |
| Headings.HeadingMatchClasses | paper_vis/extractContentByHeading.py:109-129 | matching is symmetric and transitive, and reflexive exactly on headings with clean words |
| Headings.FirstMatch | paper_vis/extractContentByHeading.py:229-259 | the search returns the first matching index, or -1 exactly when nothing matches |
| Headings.ExtractFromContent | paper_vis/extractContentByHeading.py:195-218 | a target not in the list, a target not in the content, or a next heading not in the content gives the matching error text |
| Headings.NextMissing | paper_vis/extractContentByHeading.py:209-218 | when the next heading is missing from the content, the error names it |
| Headings.FoundSection | paper_vis/extractContentByHeading.py:209-224 | a found section is the stripped newline-join of the lines from the first line matching the target up to the first line matching the next listed heading, or up to the end for the last listed heading; the run is empty when the next heading's line comes first |
| Headings.SectionInDocument | paper_vis/extractContentByHeading.py:183-224 | an extracted section is part of the document |
| Headings.NextBeforeTarget | paper_vis/extractContentByHeading.py:216-224 | when the next heading comes first in the content, the section is empty |
| Headings.LastSectionToEnd | paper_vis/extractContentByHeading.py:210-212 | the last heading's section runs to the end of the content |
| HeadingLevels.HeadingOpening | paper_vis/NormalizeHeadings.py:67 | `^\s*#\s+` is recognised exactly: indentation, one `#`, at least one whitespace |
| HeadingLevels.FindDotted | paper_vis/NormalizeHeadings.py:138-142 | `\d+\.\d+` is found exactly when some position starts a dotted number |
| HeadingLevels.UnnumberedSpec | paper_vis/NormalizeHeadings.py:108-146 | a line is level 1 exactly when its title is a keyword or holds no dotted number |
| HeadingLevels.DemotedNotCollected | paper_vis/NormalizeHeadings.py:69-79 | lines rewritten to `##` or `###` are never collected |
| HeadingLevels.NumberedCollected | paper_vis/NormalizeHeadings.py:76-85 | `# N. title` (the pattern of line 29) without `##` in it is collected stripped |
| HeadingLevels.NamedCollected | paper_vis/NormalizeHeadings.py:76-89 | a keyword heading (the pattern of line 32) is collected exactly when its title is a keyword or holds no dotted number |
| HeadingLevels.FallbackH1Of | paper_vis/NormalizeHeadings.py:95-99 | a heading no pattern matches is collected exactly when the level-1 test accepts it |
| HeadingLevels.H1Shape | paper_vis/NormalizeHeadings.py:85-99 | every collected heading is stripped and starts with `#` |
| HeadingLevels.CollectedFromLine | paper_vis/NormalizeHeadings.py:49-106 | every collected heading comes from some line |
| HeadingLevels.LineCollected | paper_vis/NormalizeHeadings.py:62-106 | every line that yields a heading has it collected |
| HeadingLevels.NormalizeAppend | paper_vis/NormalizeHeadings.py:49-62 | collecting over two texts joined by a newline concatenates their lists |
| HeadingLevels.ExtractH1Line | paper_vis/NormalizeHeadings.py:181-187 | a line contributes at most its stripped self, and only when that starts with `#` |
| HeadingLevels.ExtractH1Members | paper_vis/NormalizeHeadings.py:168-189 | a heading is extracted exactly when it is a stripped line starting with `#` whose title passes the level-1 test |
| HeadingLevels.FallbackAgrees | paper_vis/NormalizeHeadings.py:95-99 | on lines no pattern matches, `normalize_headings` collects what `extract_h1_headings` (lines 181-187) collects |
| HeadingLevels.HeadingLine | paper_vis/NormalizeHeadings.py:163-164 | a line contributes its stripped self exactly when it opens with hashes and whitespace |
| HeadingLevels.HeadingsMembers | paper_vis/NormalizeHeadings.py:149-166 | the headings are exactly the stripped heading lines |
| HeadingLevels.HeadingsShape | paper_vis/NormalizeHeadings.py:159-166 | every heading is stripped and has level at least 1 |
| HeadingLevels.Level | paper_vis/NormalizeHeadings.py:216 | the level is the length of the leading run of `#` |
| HeadingLevels.TallyDefined | paper_vis/NormalizeHeadings.py:214-217 | counting succeeds exactly when every level lies between 1 and 6, since a key `h7_count` does not exist |
| HeadingLevels.TallySpec | paper_vis/NormalizeHeadings.py:214-221 | each count is the number of headings of its level, and each level's list holds exactly its headings in order |
| HeadingLevels.TallySum | paper_vis/NormalizeHeadings.py:203-221 | the six counts add up to the number of headings |
| HeadingLevels.AnalyzeSpec | paper_vis/NormalizeHeadings.py:191-223 | the analysis succeeds exactly when no heading is deeper than 6, and then the total is the number of headings and equals the sum of the counts |
| KeyPoints.StripFence | Conclusion.py:91-95 | the cleaned answer is stripped and no longer than the raw one |
| KeyPoints.FenceRoundTrip | paper_vis/Conclusion.py:91-95 | a fenced answer gives back its body, stripped |
| KeyPoints.OpenOnly | ContextRelatedWork.py:91-95 | an answer with only an opening fence loses just that fence |
| KeyPoints.Validate | Conclusion.py:129-165 | a falsy value fails, and a dictionary never raises. An accepted value is a dictionary of 3 to 5 points |
| KeyPoints.ValidateSpec | paper_vis/ResultsAnalysis.py:129-165 | a value is accepted exactly when it is a dictionary of 3 to 5 points, each with a string summary, a title of at most 4 words and a summary of at most 60 (or `N/A` where exempt) |
| KeyPoints.CheckPointsAll | paper_vis/MethodologySetup.py:148-163 | the loop fails exactly when some point fails, wherever it stands |
| KeyPoints.BadPointRejects | ContextRelatedWork.py:165-180 | any bad point rejects the whole answer |
| KeyPoints.ExemptionIsMoot | ContextRelatedWork.py:176-180 | all four validators accept and reject the same values |
| KeyPoints.OutputAgrees | Conclusion.py:184-197 | the wrapper's own falsiness test never changes the verdict |
| StructureAnalyzer.Analyze | json_structure_analyzer.py:21-73 | after the call the key counter has grown by the number of object entries visited and the depth record is the deepest depth visited |
| StructureAnalyzer.RenderIndependentOfState | paper_vis/json_structure_analyzer.py:21-73 | the rendered text depends only on the value, not on the depth or the counters |
| StructureAnalyzer.OnlyFirstElementShown | json_structure_analyzer.py:50-58 | only a list's first element shapes the text |
| StructureAnalyzer.EllipsisIffLong | json_structure_analyzer.py:55-56 | a list's text ends in `...` exactly when it has more than one element |
| StructureAnalyzer.NeverBoolean | json_structure_analyzer.py:60-67 | the text is never `boolean`, because `isinstance(True, int)` catches booleans first. `{}` and `[]` come exactly from the empty containers |
| StructureAnalyzer.ClosesWithBracketOrWord | paper_vis/json_structure_analyzer.py:34-73 | the text is non-empty and never ends in a dot |

## Left out

- File and network I/O, all of it: `process_markdown_file`, `extractContentByHeading` reading a file, `extractContentByHeadingWithDebug`, `analyze_file`, and `generate_figure_map`, whose only extra work is calling the merge and the pipeline. The language-model calls (`call_deepseek_api`, `analyze_*_sync`) and their retries are left out too, as are `print` and logging.
- Unicode: `lower()` is ASCII lower-casing and `\d` is ASCII digits. `\w` is approximated as ASCII letters, digits and `_`, plus every non-ASCII character that is neither whitespace nor in a listed punctuation range: the Latin-1 symbols, General Punctuation, CJK punctuation and brackets, and full-width punctuation (`Text.IsWidePunct`). The approximation is still wrong for other non-ASCII symbols and marks: U+20AC (euro sign), the arrows, mathematical operators and box drawing, and emoji count as word characters in the model but not in Python; non-ASCII digits and letters outside the listed ranges are word characters in both. The CJK range of `_extractCleanWords` lies inside the approximation.
- `re.IGNORECASE` in the reference and caption patterns is modelled by ASCII case folding of keywords.
- `difflib.SequenceMatcher.ratio` is a parameter, not an implementation.
- Binary floating point: scores, weights and thresholds are exact reals. Rounding in the similarity scores (merge_data.py:427-469), in the threshold comparisons `> 0.6` and `> 0.2` (merge_data.py:259, :302, :379), and in `average_matches_per_figure` (FigureTextMatchingPipeline.py:265) is not modelled, so a score that lands within rounding distance of a threshold may be classified differently than Python does.
- `str()` of floats and dictionaries: a caption given as a float or a dictionary is excluded by `Reconcile.ItemOk`.
- Python dictionaries with duplicate keys: JSON objects are lists of pairs in insertion order, so the key-point count is the number of pairs.
- The statistics counters of `normalize_headings` (`stats`) are never returned and are not modelled.
- `_extract_figures_from_dict` is modelled (`DictFigures`) but its caller is not: `process_merged_document` never calls it.
- Pipeline.ProcessWith: requires integer page numbers, numeric boxes and string-or-list captions in figure and text records. Python only fails on other types where the value is actually used (subtraction, `len`, comparison, `join`).
- MiddleIndex: the layout data is modelled as typed pages, blocks, lines and spans. Ill-typed layout JSON, and the exceptions Python raises on it, are not modelled. Examples are a span whose `content` is not a string (merge_data.py:172), or a missing `pdf_info` (merge_data.py:24, 78).
- Sentences.CutFrom: its own contract gives only the shape of the pieces. The round trip with the text is stated by Sentences.CutRejoin, and the separators by Sentences.CutGaps.
- Sentences.RestoreAll: its own contract gives only the shape of the sentences. Which sentences are kept, and in what order, is stated by Sentences.RestoreAllKept and Sentences.RestoreAllMembers.
- Sentences.SplitSentences: its own contract gives only the shape of the sentences. Their contents are stated by Sentences.SplitSentencesSpec and Sentences.SplitJoin.
- MiddleIndex.SpanParts: its own contract gives only the shape of the parts. Which parts are kept, and in what order, is stated by MiddleIndex.SpanPartsEach and MiddleIndex.SpanPartsMembers.
- Reconcile.Merge: requires the type, page and caption fields to have the types `_find_matching_bbox` uses without raising (hashable keys, string text, captions that are strings or lists of strings). Other types make Python raise and are not modelled.

## Findings

| source | as written | input that shows it | evidently intended | confidence | as-written member | corrected member |
|---|---|---|---|---|---|---|
| merge_data.py:35-60 | a string entry is turned into a text record, but the no-match message calls `item.get` on the string itself | content list `["x"]` | the string entry gets a text record with the no-match fields | not executed | Reconcile.StringEntryRaises | Reconcile.Merge |
| merge_data.py:64-67 | the match rate divides by `len(merged_data)` | empty content list `[]` | an empty list merges to an empty list | not executed | Reconcile.EmptyListRaises | Reconcile.Merge |
