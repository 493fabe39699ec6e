# Shiroyaku retrieval core in Dafny

Shiroyaku downloads the MedlinePlus health-topic catalogue, keeps the
disease-like topics, and cuts each topic's summary into four sections:
description, etiology, manifestations and treatments. It embeds three of
these sections into one vector table per facet. For a query it searches each
table by cosine similarity and fuses the three hit lists into the five most
likely conditions.

This project models the pure logic of that pipeline and proves what it
guarantees:

- `text.dfy` (module `Text`): the Rust `str` operations the extractor relies
  on. `trim` uses Unicode White_Space. `find` returns the first occurrence.
  `lines` splits on "\n", drops one "\r" before it, and opens no empty last
  line. `join` and ASCII `to_lowercase` complete the set.
- `fetch.dfy` (module `Fetch`): the language skip, the disease-topic filter,
  `extract_sections` and `extract_section`.
- `sorting.dfy` (module `Sorting`): the stable descending sort that
  `sort_by(partial_cmp)` performs, and take-`k`. It is specified by
  sortedness, permutation and stability, and realised by insertion sort.
- `embedding.dfy` (module `Embedding`): the guard branches of
  `cosine_similarity`, and the scoring, ranking and truncation of
  `search_table`. It also covers the field filter of `embed_conditions` and
  the append-or-create writes of `create_and_insert_embeddings` over a store
  modelled as a map from table name to rows.
- `search.dfy` (module `Search`): the rank fusion of
  `cross_reference_search`, plus the end-to-end search over the store.
- `wrappers.dfy` and `seqs.dfy`: `Option`/`Result`, and small sequence facts.

Modelling choices:

- Fusion scores are integer tenths. The weights 1.0, 1.2 and 1.5 become 10, 12
  and 15, so 3.7 is 37.
- Similarities are reals. The cosine quotient `dot / (|a| |b|)` is a function
  parameter `ratio`. Only the two guards that return 0 are fixed by the model.
- Vector JSON encoding (`encode`), vector parsing (`parse`) and the embedding
  model (`embed`) are function parameters.
- Rust's `HashSet` iteration order is unspecified. `Search.Fuse` therefore
  takes the enumeration of names as a parameter and is proved for every
  enumeration without repeats. `Search.CrossReferenceSearch` fixes one such
  enumeration: order of first appearance across the three hit lists.
- Per-facet texts: the code writes `entry.k = Some(text)` for every hit, so the
  last hit's text for a name wins (`Search.LastText`, `Search.RecordTextsSpec`).
- The facet tag: `search_table` returns hits with an empty `embedding_type`,
  and the caller writes the facet name into it. The model follows the code
  (`Embedding.SearchTable`, `Search.Tag`).

## Model

| member | source | states |
|---|---|---|
| `Text.Trim` | src/fetch/mod.rs:178 | the result is an infix of the input with only whitespace before and after it; it is empty exactly when the input is all whitespace, and otherwise starts and ends with non-whitespace |
| `Text.TrimUnique` | src/fetch/mod.rs:178 | any infix with only whitespace around it that is empty or has non-whitespace at both ends is the trimmed text, so trimming removes exactly the surrounding whitespace |
| `Text.TrimIdempotent` | src/fetch/mod.rs:178 | trimming a trimmed text changes nothing |
| `Text.Find` | src/fetch/mod.rs:201 | finds a match exactly when the pattern occurs; the offset is an occurrence and no earlier offset is one |
| `Text.ToLower` | src/fetch/mod.rs:187 | lowercasing keeps the length, so offsets in the lowercased text index the original; each capital becomes the small letter at its place in the alphabet, no capital is left, and every other character is unchanged |
| `Text.LowerCharAlphabet` | src/fetch/mod.rs:187 | the character map sends the 26 capitals, in order, onto the 26 small letters |
| `Text.Lines` | src/fetch/mod.rs:188 | no line holds a newline, and a text has no lines exactly when it is empty |
| `Text.LinesCrLf` | src/fetch/mod.rs:188 | a line ended by "\r\n" is the text before the "\r": the carriage return is removed with the newline |
| `Text.LinesLf` | src/fetch/mod.rs:188 | a line ended by "\n" without a carriage return before it is kept as it is |
| `Text.LinesOfOneLine` | src/fetch/mod.rs:188 | a non-empty text without a newline is a single line, kept whole |
| `Text.LinesRoundTrip` | src/fetch/mod.rs:188 | without carriage returns, `join("\n")` of the lines gives the text back, less a final newline |
| `Text.FirstLinesShape` | src/fetch/mod.rs:207 | without carriage returns, `lines().take(k)` re-joined is the text cut after its `k`-th line, without that line's newline, or the whole text (less a final newline) when it has fewer lines |
| `Text.FirstLinesNewlines` | src/fetch/mod.rs:188 | the first `k` lines re-joined with "\n" hold fewer than `k` newlines, so they are at most `k` lines |
| `Text.FirstLinesArePrefix` | src/fetch/mod.rs:207 | without carriage returns, the first `k` lines re-joined are a prefix of the text |
| `Fetch.GroupsOf` | src/fetch/mod.rs:101-106 | the topic's groups are exactly the trimmed texts of its `group` children that have text |
| `Fetch.GroupsOfAppend` | src/fetch/mod.rs:101-106 | the groups of consecutive runs of children are each run's groups in order, so the document order of the children is kept |
| `Fetch.GroupsOfOne` | src/fetch/mod.rs:102-105 | one child gives its trimmed text when it has text, and nothing otherwise |
| `Fetch.Collect` | src/fetch/mod.rs:78-114 | a node becomes a topic iff it has a title and either no language attribute or "English"/"en"; the topic keeps its title and summary, takes the `url` attribute or "" when it is missing, and its groups are those of its `group` children |
| `Fetch.LanguageSkip` | src/fetch/mod.rs:79-84 | a titled node is skipped iff it names a language other than "English" and "en" |
| `Fetch.AnyTermIff` | src/fetch/mod.rs:125-139 | the short-circuit chain of `contains` tests holds iff one of the terms occurs |
| `Fetch.KeepTopicIff` | src/fetch/mod.rs:120-141 | a topic is kept iff its lowercased title contains one of the 8 title terms or a lowercased group contains one of the 5 group terms |
| `Fetch.WindowStart` | src/fetch/mod.rs:202 | the window opens at most 100 characters before the match and never after it, at 0 or exactly 100 back |
| `Fetch.Window` | src/fetch/mod.rs:202-208 | with a blank line after the start, the section is the trimmed text from the start up to the first "\n\n" (so it holds no blank line); without one, it has at most 15 lines and, when there is no "\r", is exactly the text from the start cut after its 15th line |
| `Fetch.BlankLineCut` | src/fetch/mod.rs:204-205 | the text before the first "\n\n", trimmed, contains no "\n\n" and occurs in the slice |
| `Fetch.FirstLinesCut` | src/fetch/mod.rs:206-207 | without carriage returns, the 15-line window is a prefix of the text from the window start |
| `Fetch.ExtractSection` | src/fetch/mod.rs:199-212 | when no keyword occurs in the lowercased text the section is "Details integrated in the description above." |
| `Fetch.FirstKeywordWins` | src/fetch/mod.rs:200-201 | the first keyword of the list that occurs anywhere decides the window, wherever later keywords occur |
| `Fetch.AbsentKeywordIrrelevant` | src/fetch/mod.rs:200-201 | removing a keyword that does not occur never changes the section |
| `Fetch.ShadowedKeyword` | src/fetch/mod.rs:200-201 | a keyword containing an earlier keyword of its list can be removed without changing any section |
| `Fetch.CausedByNeverDecides` | src/fetch/mod.rs:190 | the etiology list behaves as if "caused by" were absent, since "cause" precedes it and is part of it |
| `Fetch.TreatmentNeverDecides` | src/fetch/mod.rs:194 | the treatment list behaves as if "treatment" were absent, since "treat" precedes it and is part of it |
| `Fetch.ExtractSections` | src/fetch/mod.rs:177-197 | a blank summary gives ("No summary available", "N/A", "N/A", "N/A"); any other gives the 20-line lead as description |
| `Fetch.DescriptionIsLeadExcerpt` | src/fetch/mod.rs:188 | the description of a non-blank summary has at most 20 lines and, without "\r", is exactly the summary cut after its 20th line (or the whole summary less a final newline), whatever keywords occur |
| `Fetch.SectionDecided` | src/fetch/mod.rs:199-212 | a section is the sentinel when no keyword occurs, else the window at the first position of the first occurring keyword |
| `Fetch.SectionsOfSummary` | src/fetch/mod.rs:187-196 | etiology, manifestations and treatments are each decided by their own keyword list over the lowercased summary |
| `Fetch.ConditionOf` | src/fetch/mod.rs:151-164 | the condition record takes its name, URL and groups from the topic, and its four sections are those `extract_sections` cuts from the topic's summary |
| `Fetch.Conditions` | src/fetch/mod.rs:78-165 | the conditions are exactly those of the collected, kept topics, never more than the nodes |
| `Fetch.ConditionsAppend` | src/fetch/mod.rs:78-165 | selecting distributes over concatenation, so conditions come in document order |
| `Fetch.ConditionsOne` | src/fetch/mod.rs:116-165 | one node gives its condition exactly when it is collected and kept, and nothing otherwise |
| `Sorting.SortDesc` | src/embedding/mod.rs:177 | the sort output is ordered by non-increasing key and is a permutation of the input |
| `Sorting.SortIsStable` | src/embedding/mod.rs:177 | for every key value, the elements with that key keep their input order |
| `Sorting.TopK` | src/embedding/mod.rs:177-182 | take-`k` of the sort: `min(k, n)` elements, sorted, drawn from the input, none outranked by an element left out, and equal keys in input order |
| `Embedding.SumSquaresZero` | src/embedding/mod.rs:199-202 | the sum of squares is non-negative and zero exactly for the zero vector, so a zero norm means a zero vector |
| `Embedding.Cosine` | src/embedding/mod.rs:193-207 | vectors of different lengths, or either of zero norm, score exactly 0; otherwise the score is the quotient |
| `Embedding.ScoreRows` | src/embedding/mod.rs:154-172 | as many scores as rows whose vector parses; every such row's scoring is present and nothing else is produced |
| `Embedding.ScoreRowsOne` | src/embedding/mod.rs:162-170 | one row yields its name, text and cosine score when its vector parses, and nothing otherwise |
| `Embedding.ScoreRowsAppend` | src/embedding/mod.rs:154-172 | scoring distributes over concatenation, so scores come in storage order with each row's scoring exactly once |
| `Embedding.RankRowsTies` | src/embedding/mod.rs:175-182 | among ranked hits of equal similarity, those of rows stored earlier come before those stored later |
| `Embedding.RankRows` | src/embedding/mod.rs:175-182 | `min(limit, parsed rows)` scores, non-increasing, drawn from the scored rows, none outranked by a dropped one, ties in storage order |
| `Embedding.RankedFromRows` | src/embedding/mod.rs:162-187 | every ranked hit's name and text come from one stored row whose vector parses |
| `Embedding.SearchTable` | src/embedding/mod.rs:143-190 | `min(limit, parsed rows)` results, in rank order, each from a parsed row, all with an empty `embedding_type` |
| `Embedding.FieldFilter` | src/embedding/mod.rs:48-66 | description is indexed iff non-empty and not "No summary available", etiology and manifestations iff non-empty and not "N/A"; the "Details integrated" sentinel is indexed |
| `Embedding.FacetEntries` | src/embedding/mod.rs:44-66 | a facet's entries are exactly those of the conditions whose field passes the filter |
| `Embedding.FacetEntriesAppend` | src/embedding/mod.rs:48-66 | collecting distributes over concatenation, so entries keep the conditions' order |
| `Embedding.CreateAndInsert` | src/embedding/mod.rs:92-140 | no data leaves the store unchanged; otherwise the table gains the rows in order after its existing rows (none when it is new), and other tables are untouched |
| `Embedding.WriteFacet` | src/embedding/mod.rs:72-85 | a facet's table is touched only when its list is non-empty; then it is the old rows plus the new ones |
| `Embedding.WriteFacets` | src/embedding/mod.rs:72-85 | after the three writes each facet table holds its old rows plus its entries, and is present iff it was or got entries; other tables are unchanged |
| `Embedding.EmbedConditions` | src/embedding/mod.rs:22-89 | each facet table is its old rows plus that facet's filtered entries, no other table changes, and no table but the three appears |
| `Embedding.TreatmentsIgnored` | src/embedding/mod.rs:48-66 | conditions differing only in their treatments produce the same store |
| `Embedding.WrittenRowsAreSearchable` | src/embedding/mod.rs:104-113 | when encoding round-trips through parsing, every written entry is scored by a search of its table against its own vector |
| `Search.AllNames` | src/search/mod.rs:48-57 | the candidate names are exactly the names found in one of the three hit lists |
| `Search.OrderCoversNames` | src/search/mod.rs:48-57 | first appearances across the three lists enumerate exactly the candidate names |
| `Search.FirstAppearances` | src/search/mod.rs:48-57 | the enumeration has no repeats and holds exactly the input's names |
| `Search.Flag` | src/search/mod.rs:76-85 | a facet's match count is 1 iff the name is in that facet's list, else 0 |
| `Search.Score` | src/search/mod.rs:87 | the score lies in 0..37 tenths, is 0 iff no facet matched and 37 iff all three did |
| `Search.ScoreMonotone` | src/search/mod.rs:87 | setting more flags never lowers the score |
| `Search.ScoreDeterminesFlags` | src/search/mod.rs:87 | distinct flag triples get distinct scores |
| `Search.FullMatchOutranks` | src/search/mod.rs:83-87 | a name found by all three facets scores 3.7, at least as high as any name |
| `Search.LastText` | src/search/mod.rs:61-74 | a facet text exists iff the name is in that list, and it is the text of the name's last hit |
| `Search.SetText` | src/search/mod.rs:65 | writing one facet's text leaves the other two as they were |
| `Search.RecordTexts` | src/search/mod.rs:63-66 | a text-collecting pass adds an entry for every name of its list and no other |
| `Search.RecordTextsSpec` | src/search/mod.rs:61-74 | after a pass, a listed name's facet text is its last hit's text, an unlisted name's is unchanged, and the other facets are untouched |
| `Search.TextsOfSpec` | src/search/mod.rs:61-89 | after the three passes each facet text of a name is that facet's last text for it, or none when absent |
| `Search.Candidates` | src/search/mod.rs:82-101 | each candidate carries its flags, the score 10d + 12e + 15m and the last text of each facet |
| `Search.Fuse` | src/search/mod.rs:48-105 | `min(5, names)` conditions with distinct names, each found by some list, well formed, ordered by non-increasing score, none outscored by a name left out |
| `Search.FullMatchReturned` | src/search/mod.rs:87-105 | a name found by all three facets is returned unless all five returned names score 3.7 |
| `Search.NoHitsNoConditions` | src/search/mod.rs:48-105 | three empty hit lists give an empty result |
| `Search.Tag` | src/search/mod.rs:31-46 | the caller's loop sets every hit's `embedding_type` and leaves names and texts alone |
| `Search.FacetHits` | src/search/mod.rs:31-46 | a facet search returns `min(top_k, parsed rows)` hits, tagged with the facet, with the names and texts of the ranked rows in rank order, each naming a stored row |
| `Search.SearchedCount` | src/search/mod.rs:31-57 | three searches of `top_k` hits yield at most `3 top_k` names |
| `Search.SearchAll` | src/search/mod.rs:30-109 | exactly `min(5, distinct names)` conditions over the three facet searches, at most 3 `top_k`, with distinct names, each with its flags, score and last texts, in score order, none outscored by a name left out, each naming a stored row |
| `Search.CrossReferenceSearch` | src/search/mod.rs:20-110 | fails iff a facet table is missing, naming the first missing one in opening order; otherwise returns exactly `min(5, distinct names found)` conditions, whatever `top_k` is: the fusion of the three facet searches, each with its flags, score and last texts, distinct, score-ordered, from stored rows |

## Left out

- Downloading the catalogue, probing dates for the latest file, writing XML and JSON files, and `load_conditions`: network and filesystem I/O.
- XML parsing and the joining and `"\n\n\n"` folding of `full-summary` text: a topic node arrives with its summary already joined.
- LanceDB and Arrow plumbing. Batches missing one of the three columns contribute no rows; the model assumes every row has all three. `has_embeddings` and the connection in `get_table` are I/O; only a missing table is modelled, as `TableNotFound`.
- Errors from `model.embed`, from the database and from `search_table`'s stream: failures of external code. The model covers only the successful path of each call.
- The fastembed model, tokio, async plumbing, the progress bar and every `println!`.
- f32 arithmetic: dot products, `sqrt`, rounding, NaN. A NaN similarity makes `partial_cmp` fall back to `Equal`; the model's similarities are reals and are never NaN.
- Embedding.SumSquaresZero: holds over the reals. An f32 sum of squares can underflow to 0 for a tiny non-zero vector, and that is not modelled.
- Embedding.Cosine: the quotient is the parameter `ratio`, and nothing is proved about its value or range.
- Non-ASCII text: the model lowercases ASCII only and counts offsets in characters, while the Rust counts bytes. `to_lowercase` can change byte lengths, so an offset found in the lowercased text can misplace the slice of the original. The look-behind `pos > 100` / `pos - 100` also counts bytes, so on multi-byte text the window starts elsewhere than 100 characters back, and `&original[start..]` panics when `start` falls inside a multi-byte character, even when lowercasing keeps every length.
- Fetch.Window: the exact shape of the 15-line window is stated only for text without "\r", because `lines` removes a "\r" before each "\n"; with carriage returns only the line bound is stated.
- Text.Lines: the round trip and the exact first-lines shape are stated only for text without "\r"; the removal of a "\r" before each "\n" is stated by `Text.LinesCrLf`, and a summary parsed from XML has its line ends normalised to "\n" anyway.
- Fetch.ExtractSections: the description is proved a prefix of the summary only for text without "\r", for the same reason.
- `display_results`, `src/main.rs` and `src/ui/mod.rs`: presentation and application glue.
- Search.CrossReferenceSearch: fixes the `HashSet` enumeration to first appearance. Other enumerations can order or select equal-score conditions differently (when fifth place is tied) and are covered by `Search.Fuse`.
