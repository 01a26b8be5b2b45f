# Learning extractor — Dafny model

This project models the extraction pipeline of `learning_extractor.py`
(class `LearningExtractor`). The pipeline turns a video transcript into a
structured learning record with these parts:

- header metadata (URL, video id, duration, date);
- ranked key concepts from a fixed vocabulary;
- known tools;
- shell commands;
- numbered workflows;
- fenced code examples;
- action items;
- implementation ideas.

The model covers everything each extractor does after its regular expressions
have run. That includes:

- the vocabulary and known-tools tables;
- the length filters;
- `str.strip()`, `str.lower()` and `str.split()`;
- the stable sort by mention count;
- de-duplication, and the caps of 10, 20, 3, 2, 10 and 5 items;
- the fixed action items and ideas.

The regular expressions themselves are not modelled. What they find in one
transcript is an input:

- a list of captures per pattern;
- the fenced regions as `(tag, body)` pairs;
- the numbered-step captures of each workflow section;
- for concepts, a function from a term to the sentences that mention it.

Modules, one file each:

| module | file | models |
|---|---|---|
| `Wrappers` | wrappers.dfy | `Option` |
| `Text` | text.dfy | ASCII `isspace`/`lower`, `in`, `strip`, `split` and `join` |
| `Unique` | unique.dfy | `list(set(...))[:n]`, list comprehensions |
| `Metadata` | metadata.dfy | `extract_metadata` |
| `Concepts` | concepts.dfy | `extract_concepts` |
| `Tools` | tools.dfy | `extract_tools` |
| `Commands` | commands.dfy | `extract_commands` |
| `Workflows` | workflows.dfy | `extract_workflows` |
| `CodeBlocks` | codeblocks.dfy | `extract_code_blocks` |
| `ActionItems` | actionitems.dfy | `generate_action_items` |
| `Ideas` | ideas.dfy | `generate_implementation_ideas` |
| `Extractor` | extractor.dfy | `extract_from_transcript` |

Python's `set` has no defined iteration order. The source uses sets for tool
candidates, commands and action items. The model de-duplicates in
first-occurrence order instead. Apart from the two lemmas named below, every
contract about those lists says only what holds under any order:

- no value repeats;
- only input values appear;
- the list is as long as the number of distinct values, up to the cap;
- when the list is shorter than the cap, every value is present.

Two lemmas also state an exact order. That order is the model's
first-occurrence order, not one the source promises:

- `Unique.TakeUniqueNoDups`: a duplicate-free list within the cap comes back
  unchanged;
- `ActionItems.OnlyFixedItemsWithoutContent`: with no tools and no captures the
  three fixed tasks come back as listed. Its other clauses, the same three
  tasks and exactly three of them, hold under any order.

Two details of the code that the model keeps as written:

- Tool candidates are pooled in an exact-value set (line 106), so `Click` and
  `click` give two records.
- Commands are length-checked before they are stripped (line 149), so the 100
  character limit applies to the raw capture.

## Model

| member | source | states |
|---|---|---|
| Text.Lower | learning_extractor.py:80 | `str.lower()` keeps the length and lower-cases each ASCII capital letter, leaving every other character alone |
| Text.ContainsIffOccurs | learning_extractor.py:80 | `sub in s` holds exactly when `sub` occurs at some position of `s` |
| Text.TrimStart | learning_extractor.py:149 | leading-whitespace removal keeps a suffix that starts with a non-space, and cuts only whitespace |
| Text.TrimEnd | learning_extractor.py:149 | trailing-whitespace removal keeps a prefix that ends with a non-space, and cuts only whitespace |
| Text.Strip | learning_extractor.py:149 | `strip()` returns a slice of the input with no whitespace at either end, and only whitespace was cut off on each side |
| Text.StripIdempotent | learning_extractor.py:149 | stripping leaves an already stripped string alone, and stripping twice is stripping once |
| Text.StripEmptyIffAllSpace | learning_extractor.py:188 | `code.strip()` is empty exactly when the body is all whitespace |
| Text.StripContained | learning_extractor.py:191 | the stripped code occurs in the original body |
| Text.Split | learning_extractor.py:54 | `str.split(sep)` gives at least one piece, and the first piece is a prefix of the string; for separators that do not overlap themselves, as `v=`, `&` and `\n` do not, JoinSplit, SplitPiecesAvoidSep, SplitFirstPiece and SplitLastPiece pin the pieces down |
| Text.JoinSplit | learning_extractor.py:54 | joining the pieces of `s.split(sep)` with `sep` gives back `s` |
| Text.SplitPiecesAvoidSep | learning_extractor.py:54 | no piece of `s.split(sep)` contains `sep` |
| Text.SplitLastPiece | learning_extractor.py:54 | the last piece of a split is the whole string when there is no separator; otherwise it ends the string right after a separator |
| Text.SplitFirstPiece | learning_extractor.py:54 | the first piece of a split starts the string and is the whole string, or is followed by the separator and the separator occurs at no earlier position (the leftmost occurrence) |
| Text.SplitCharCount | learning_extractor.py:192 | splitting on `'\n'` gives one more piece than there are newlines |
| Unique.Take | learning_extractor.py:95 | `s[:n]` is a prefix of `s` of length min(n, len(s)) |
| Unique.Dedup | learning_extractor.py:149 | `list(set(s))` has no repeats, the same values as `s`, and is no longer than `s` |
| Unique.DedupSize | learning_extractor.py:149 | the de-duplicated list is exactly as long as the number of distinct values |
| Unique.TakeUnique | learning_extractor.py:149-151 | `list(set(s))[:n]` has no repeats and only values of `s`, and it is min(n, number of distinct values) long; when shorter than `n`, it holds every value of `s` |
| Unique.TakeUniqueNoDups | learning_extractor.py:226 | in the model's first-occurrence order, a duplicate-free list no longer than the cap passes through de-duplication and the cap unchanged |
| Unique.TakeUniqueKeepsAll | learning_extractor.py:226 | with at most `n` distinct values, the cap removes none of them |
| Unique.KeepMapMembers | learning_extractor.py:184-193 | `[f(x) for x in xs if keep(x)]` holds only images of kept inputs and the image of every kept input |
| Unique.KeepMapAppend | learning_extractor.py:184-193 | the comprehension over `a + b` is the comprehension over `a` followed by the one over `b` |
| Metadata.VideoId | learning_extractor.py:54 | the video id contains neither `v=` nor `&`, and it occurs in the URL |
| Metadata.VideoIdAfterLastMarker | learning_extractor.py:54 | the video id is read from just past the last `v=` (or from the whole URL when there is none), up to the first `&` or the end |
| Metadata.ExtractMetadata | learning_extractor.py:46-66 | url, duration and date are the captures when their patterns matched; `video_id` is present exactly when the URL is, equals `VideoId` of the URL, and is a marker-free piece of it |
| Concepts.Record | learning_extractor.py:89-93 | a concept record carries its term and a mention count equal to the number of sentences found, at least one |
| Concepts.Candidate | learning_extractor.py:79-93 | a term gives a record exactly when it occurs case-insensitively in the text and the sentence pattern finds at least one sentence; the record carries the term, the sentence count and the first sentence stripped |
| Concepts.CollectFrom | learning_extractor.py:79-93 | the loop over the vocabulary gives one record per term with a record, in vocabulary order, each the record of its term |
| Concepts.Insert | learning_extractor.py:95 | inserting into a list ordered by descending mentions keeps it ordered and adds exactly the one record |
| Concepts.InsertWithMentions | learning_extractor.py:95 | insertion puts the new record before the records with the same count and changes no other count's records |
| Concepts.SortByMentions | learning_extractor.py:95 | `sorted(key=mentions, reverse=True)` orders by descending mentions and is a permutation of its input |
| Concepts.SortStable | learning_extractor.py:95 | the sort is stable: the records with any one count keep their input order |
| Concepts.TiesFollowVocabulary | learning_extractor.py:95 | if the records with count `m` are in vocabulary order when picked out, any two of them are in vocabulary order in the whole list |
| Concepts.SortedIsRanked | learning_extractor.py:95 | after sorting a vocabulary-ordered list, every record has more mentions than any later one, or as many and an earlier vocabulary term |
| Concepts.TopTen | learning_extractor.py:95 | the cut to ten drops a term with a record only when ten records ranked before it (more mentions, or as many and an earlier vocabulary term) are kept |
| Concepts.RankConcepts | learning_extractor.py:79-95 | at most ten records, each the one its term gives; ranked by mentions, with ties in vocabulary order; a term with a record is missing only when ten records ranked before it fill the list, so of equally mentioned terms the later ones are cut |
| Concepts.CandidatesFaithful | learning_extractor.py:80-93 | a record taken from the extractor's candidates belongs to a term present case-insensitively with at least one sentence: count = number of sentences, example = first sentence stripped |
| Concepts.TopTenQualified | learning_extractor.py:79-95 | a qualifying term is missing from the ranked records only when ten records ranked before its own record fill the list |
| Concepts.ConceptsOver | learning_extractor.py:68-95 | for any duplicate-free vocabulary: at most ten records, all vocabulary terms faithful to their sentences, ranked by mentions then vocabulary order, a qualifying term missing only when ten records ranked before its record fill the list |
| Concepts.ExtractConcepts | learning_extractor.py:68-95 | `extract_concepts` keeps at most ten records, all from the vocabulary and faithful to their sentences, ranked by mentions then vocabulary order; a qualifying term is missing only when ten records ranked before its record fill the list, so ties at the cut keep the earlier vocabulary terms |
| Tools.Lookup | learning_extractor.py:122-129 | every record is vouched for by the table (known lower-cased name, the table's purpose, category "CLI Tool") and names a candidate |
| Tools.LookupComplete | learning_extractor.py:122-129 | every candidate whose lower-cased form is in the table gets a record |
| Tools.LookupDistinct | learning_extractor.py:106-129 | distinct candidates give records with distinct names |
| Tools.ExtractTools | learning_extractor.py:97-131 | `extract_tools`: only table-vouched records naming a candidate, one for every known candidate, no name twice, at most one per distinct candidate |
| Tools.WordCandidatesReachFourTools | learning_extractor.py:101-120 | candidates without '-' or ' ', which is all that the `\w+` patterns capture, can only produce aria2, gitingest, click and cursor; the gallery-dl, yt-dlp and claude code entries are unreachable |
| Commands.Clean | learning_extractor.py:149 | the comprehension keeps the stripped form of each capture shorter than 100 characters, and nothing else; every kept command is stripped and under 100 characters |
| Commands.ExtractCommands | learning_extractor.py:133-151 | at most twenty distinct commands, each the stripped form of a short enough capture of one of the three patterns; when fewer than twenty, every short enough capture is represented |
| Workflows.ExtractWorkflows | learning_extractor.py:153-172 | the i-th record is the placeholder name with the steps of the i-th section that has steps, and there are as many records as such sections; the steps of all records are all the steps in source order |
| Workflows.ExtractWorkflowsAppend | learning_extractor.py:164-170 | sections are handled independently and in order |
| Workflows.ExtractWorkflowsSingle | learning_extractor.py:164-170 | a section with steps gives exactly one record, and a section without steps gives none |
| CodeBlocks.ToBlock | learning_extractor.py:185-193 | the language is the tag, or "python" when the tag is empty; the code is stripped and non-empty exactly when the body has code; lines = newlines in the code + 1 |
| CodeBlocks.BlockCodeIsTrimmedBody | learning_extractor.py:191 | the stored code is the body with surrounding whitespace cut off, and it occurs in the body |
| CodeBlocks.ExtractCodeBlocks | learning_extractor.py:174-195 | no more records than fences, each with non-empty code and at least one line |
| CodeBlocks.CodeBlocksAreFenceRecords | learning_extractor.py:184-193 | every record is the record of a fence with code, and every fence with code gives its record |
| CodeBlocks.ExtractCodeBlocksAppend | learning_extractor.py:184-193 | fences are handled independently and in source order |
| CodeBlocks.BlankBodiesSkipped | learning_extractor.py:188-193 | a fence is skipped exactly when its body is all whitespace |
| ActionItems.ToolItem | learning_extractor.py:204 | an install task starts with "Install and test " |
| ActionItems.Suggestion | learning_extractor.py:217 | a suggestion task starts with "Try to " |
| ActionItems.ToolItems | learning_extractor.py:202-204 | there is one install task for each of the first three tools (all tools when fewer), in order, the i-th naming the i-th tool |
| ActionItems.Suggest | learning_extractor.py:215-217 | every task is the "Try to " task of a capture shorter than 100 characters, and every such capture gives its task |
| ActionItems.SuggestionItems | learning_extractor.py:215-217 | a pattern contributes at most two tasks: exactly the tasks of those of its first two captures that are shorter than 100 characters |
| ActionItems.AllSuggestions | learning_extractor.py:207-217 | at most six suggestion tasks, each from one of the first two captures of a pattern that is shorter than 100 characters, and every such capture gives its task |
| ActionItems.Candidates | learning_extractor.py:202-224 | the list before the `set` holds at most twelve tasks, ends with the three fixed tasks, and each task is an install task for one of the first three tools, a task from a short early capture, or a fixed task; conversely every install task of the first three tools and the task of every capture among the first two of its pattern that is shorter than 100 characters is in it |
| ActionItems.GenerateActionItems | learning_extractor.py:197-226 | at most ten distinct tasks, all candidates; as many as there are distinct candidates up to ten; when fewer than ten, every candidate is present |
| ActionItems.GroupsAreDistinguishable | learning_extractor.py:203-224 | a task with the install prefix can only be a tool task, and one with the "Try to " prefix only a suggestion task; no fixed task carries either prefix |
| ActionItems.GroupBounds | learning_extractor.py:203-217 | the result holds at most three tool tasks and at most six suggestion tasks |
| ActionItems.OnlyFixedItemsWithoutContent | learning_extractor.py:220-226 | with no tools and no suggestion captures, the tasks are the three fixed ones, three of them, in any order; in the model's first-occurrence order, exactly as listed |
| ActionItems.FixedItemsKeptWhenFew | learning_extractor.py:220-226 | when there are at most ten distinct candidates, all three fixed tasks are kept |
| ActionItems.InstallTasksFromTools | learning_extractor.py:202-204 | every kept install task is the task of one of the first three tools |
| ActionItems.SuggestionTasksFromCaptures | learning_extractor.py:207-226 | every kept "Try to " task comes from one of the first two captures of one suggestion pattern, and that capture is shorter than 100 characters |
| Ideas.Uncapped | learning_extractor.py:230-271 | the list before the cut has two to five ideas and ends with the two generic ones |
| Ideas.IdeasFollowCatalogue | learning_extractor.py:233-271 | the assembled list is the catalogue of five ideas filtered by keyword presence, in catalogue order |
| Ideas.OfferingFacts | learning_extractor.py:233-271 | the filtered catalogue holds each keyword idea exactly when its keyword occurs, only catalogue ideas, and none twice |
| Ideas.GenerateImplementationIdeas | learning_extractor.py:228-273 | two to five ideas ending with the generic two; each keyword idea is present exactly when "download", "git"/"repository" or "workflow" occurs in the lower-cased text; only catalogue ideas, none twice |
| Ideas.CapNeverBites | learning_extractor.py:273 | the cut to five never removes an idea |
| Extractor.ExtractLearning | learning_extractor.py:24-44 | the record's parts respect their caps, its tools name candidates, and its action items are built from the same tools the record reports |
| Extractor.InstallTasksNameReportedTools | learning_extractor.py:36-40 | every install task in the record names one of the first three tools the record reports |

## Left out

- Regular expressions: every pattern search is an input, so the model says nothing about what a pattern captures.
- Reading the transcript file (lines 26-27), `save_learning_notes`, `main`, argument parsing and the JSON and markdown output are not part of this model.
- The `self.patterns` table (lines 16-22) is never used by the extraction and is not modelled.
- Text.Lower: only ASCII letters are lower-cased. Unicode case mapping is not modelled.
- Text.Strip: only ASCII whitespace is removed. Unicode whitespace is not modelled.
- Text.Split: its own contract gives only the piece count bound and the first piece. The pieces are pinned down by `Text.JoinSplit`, `Text.SplitPiecesAvoidSep`, `Text.SplitFirstPiece` and `Text.SplitLastPiece`. For a separator that overlaps itself (such as `aa`), the lemmas fix the first piece but not where each later piece ends. The separators the extractor uses (`v=`, `&`, `\n`) do not overlap themselves.
- Unique.Dedup: set iteration order is modelled as first-occurrence order. The source's order is implementation-defined.
- ActionItems.GenerateActionItems: does not say which tasks survive when there are more than ten distinct candidates, because in the source that depends on set iteration order. In particular, the fixed tasks are only guaranteed to survive with at most ten distinct candidates (`ActionItems.FixedItemsKeptWhenFew`).
- Commands.ExtractCommands: does not say which commands survive when there are more than twenty distinct ones, for the same reason.
- CodeBlocks.ExtractCodeBlocks: its own contract gives only the length and per-record facts. Which records appear is stated by `CodeBlocks.CodeBlocksAreFenceRecords`.
- Extractor.ExtractLearning: states only the caps and the link between tools and action items. Each part's full contract is on the function that computes it.
- Extractor.ExtractLearning: `generate_action_items` calls `extract_tools` a second time (line 202). The model reuses the same tool list, which holds as long as set iteration is deterministic within one run.
- The second code pattern at line 181 is never used (only `code_patterns[0]` is searched) and is not modelled.
