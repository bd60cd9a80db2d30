# OpenRoadMap core in Dafny

This is a model of the core of OpenRoadMap, with proofs. OpenRoadMap turns a learning goal into a roadmap: a
graph of topics with prerequisites, where each topic carries learning resources. The model covers these parts:

- **Resource lookup** (`ResourceAgent`). A similarity search over the course index with score threshold 0.4.
  Its hits become resources. When fewer than `limit` local hits convert, a web search makes up the rest: first
  for "query tutorial course", then for the bare query. Last comes a Google search link, which says that no direct
  resources were found or that the search failed.
- **Roadmap assembly** (`RoadmapEngine`). One node per topic from the structure generator. Each node gets the
  resources found for "title: description", with a limit of 3.
- **Evaluator agent** (`EvalAgent`). Recall@k and the relevance vectors for NDCG. It also gives the roadmap
  score: start from 1.0, take 0.2 off for fewer than 3 nodes and 0.5 off for no resources. Feedback follows
  the same precedence.
- **Retrieval evaluation script** (`RetrievalMetrics`). DCG and NDCG with the positional discount
  1/log2(i+2), binary gains, a top-5 cutoff and recall.
- **Corpus merge** (`Corpus`). `clean_text`: strip markup, collapse whitespace runs to one space, trim.
  `process_corpus`: read the six source files in order and drop a record whose url was already seen. A
  record's url is marked seen even when the record itself is then dropped for an empty title.
- **Roadmap page layout** (`Layout`). Nodes are placed on a grid by their longest-path level in the
  prerequisite graph. There is one edge per listed prerequisite. A resource link is clickable when its url
  starts with "http".
- **File names** (`Filenames`). The sanitised file name of a generated roadmap, and the file name of a
  hand-written roadmap.
- **Markdown to Word** (`Markdown`). The line state machine of the converter: code fences, buffered tables,
  headings, bullet and numbered items, and paragraphs with `**bold**` runs.

The model replaces these outside services with function parameters:

- the LLM;
- the embedding model together with the vector database, which together form one `vectorSearch` oracle that
  answers with points or a failure;
- DuckDuckGo, as `webSearch`. A roadmap gets one bundle of services per topic, so a repeated web search
  may answer differently for each topic;
- URL quoting, as `quote`;
- BeautifulSoup's text extraction, as `getText`;
- scikit-learn's `ndcg_score`, as an oracle that may fail;
- the logarithm, as an abstract discount `disc`.

The discount is constrained only by the properties the proofs need (`ValidDiscount`): it is positive and
strictly decreasing. JSON fields that may be absent or null are a `Field` (`Missing`, `Null`, `Str`). Python slices
with a possibly negative bound are `Take` and `Drop`.

The resource lookup follows src/agents/resource_agent.py as it stands: it has no query expansion, no merge of
several queries and no url de-duplication. A comment in scripts/evaluation/run_comparative_eval.py:47-48 says
that `find_resources` has expansion hardcoded; the lookup code does not, and the model follows the code.

## Model

| member | source | states |
|---|---|---|
| Models.GetOr | src/agents/resource_agent.py:40-43 | `payload.get(key, default)`: an absent key gives the default, a null gives nothing, a string gives itself |
| ResourceAgent.Excerpt | src/agents/resource_agent.py:42 | the description kept is a prefix of the text, at most 200 characters, always followed by "..."; shorter texts are kept whole |
| ResourceAgent.LocalResource | src/agents/resource_agent.py:36-44 | an index hit converts exactly when its title, url and description are not null; the id is kept and absent fields become "Unknown", "#", "resource" |
| ResourceAgent.WebResource | src/agents/resource_agent.py:58-65 | a web item converts exactly when title, href and body are not null, into a "Web Resource" with no id |
| ResourceAgent.ConvertPrefix | src/agents/resource_agent.py:36-46 | the loop keeps the converted prefix and stops at the first item that fails; if every item converts, all are kept |
| ResourceAgent.LocalResources | src/agents/resource_agent.py:26-46 | a failed index query gives no resources; every local resource has an id and a bounded description |
| ResourceAgent.SearchLink | src/agents/resource_agent.py:66-86 | the fallback link has no id, kind "Search Link", the title "Search Google for '<query>'", the Google search url of the quoted query and the given description |
| ResourceAgent.LastRung | src/agents/resource_agent.py:53-86 | whatever the web search answers, at least one resource comes back and none has an id |
| ResourceAgent.WebFallback | src/agents/resource_agent.py:49-86 | asks for "query tutorial course" first, and for the bare query only when the first answer was empty; the result is what the last call answered |
| ResourceAgent.FindResources | src/agents/resource_agent.py:19-88 | at most `limit` resources; the web is searched exactly when fewer than `limit` local hits converted; the local hits come first |
| ResourceAgent.EnoughLocalHits | src/agents/resource_agent.py:49-52 | with enough local hits there are no web calls and the result is the first `limit` local hits |
| ResourceAgent.LocalFailureIsNoHits | src/agents/resource_agent.py:45-46 | a failing index query behaves exactly like one that finds nothing |
| ResourceAgent.FindResourcesCongruent | src/agents/resource_agent.py:19-88 | the result depends only on the converted local hits and on the web services |
| ResourceAgent.WebSearchRequests | src/agents/resource_agent.py:49-56 | on a shortfall the first web call asks for the missing count with the course suffix |
| ResourceAgent.WebResultsFollowLocal | src/agents/resource_agent.py:52-65 | when the first web search returns convertible items, the result is the local hits followed by those items, cut at `limit` |
| ResourceAgent.FirstRungItems | src/agents/resource_agent.py:52-65 | a non-empty first web answer is used as is, without a second search |
| ResourceAgent.WebItems | src/agents/resource_agent.py:58-86 | web items that all convert are all kept, in order; otherwise the items before the first failing one are kept, in order, and a "Search failed" search link replaces the rest |
| ResourceAgent.WebItemsAllConverted | src/agents/resource_agent.py:58-65 | web items that all convert are all kept, in order |
| ResourceAgent.NoWebResultsGiveSearchLink | src/agents/resource_agent.py:66-75 | when both web searches come back empty, a "No direct resources found" search link follows the local hits |
| ResourceAgent.WebFailureGivesSearchLink | src/agents/resource_agent.py:76-86 | when the web search fails, a "Search failed" search link follows the local hits |
| ResourceAgent.DescriptionsAreBounded | src/agents/resource_agent.py:42 | no resource description is longer than 203 characters |
| ResourceAgent.IdsMarkLocalItems | src/agents/resource_agent.py:39 | exactly the resources from the local index carry an id, and they come before all others |
| RoadmapEngine.BuildNode | src/roadmap_engine.py:20-32 | id, title and description are copied; absent prerequisites become empty; at most 3 resources |
| RoadmapEngine.GenerateRoadmap | src/roadmap_engine.py:11-36 | one node per topic, in order, under the same goal, each with the lookup result for "title: description" and limit 3, made against the services as they answer for that topic |
| RoadmapEngine.GeneratedRoadmapEvaluation | src/roadmap_engine.py:38-41 | the evaluation of a generated roadmap counts one node per topic and at most three resources per topic |
| EvalAgent.EvaluateResources | src/agents/eval_agent.py:51-89 | recall is hits over relevant, or 0 when nothing is relevant; the relevance vector marks the relevant items of the top k; the ideal vector has min(k, relevant) leading ones; a failing scorer gives 0 |
| EvalAgent.HitsAreRelevanceOnes | src/agents/eval_agent.py:62-72 | the hit count equals the number of ones in the relevance vector |
| EvalAgent.RecallAtMostOne | src/agents/eval_agent.py:62-64 | without repeated ids, recall lies in [0, 1] |
| EvalAgent.HitsAtMostRelevant | src/agents/eval_agent.py:62 | without repeated ids, hits never exceed the number of relevant ids |
| EvalAgent.IdealOnes | src/agents/eval_agent.py:75 | the ideal vector holds exactly min(k, relevant) ones |
| EvalAgent.ExampleSingleRelevant | src/agents/eval_agent.py:51-89 | with ["A","B","C"], relevant {"A"} and k = 5, recall is 1 and the relevance vector is [1,0,0,0,0] |
| EvalAgent.ResourceCountZero | src/agents/eval_agent.py:96 | the resource count is 0 exactly when no node has a resource |
| EvalAgent.ResourceCountBound | src/agents/eval_agent.py:96 | the resource count is at most the per-node bound times the node count |
| EvalAgent.Evaluate | src/agents/eval_agent.py:91-116 | the score loses 0.2 below 3 nodes and 0.5 without resources, so it stays in [0.3, 1]; "no resources" feedback wins over "too short" |
| RetrievalMetrics.InsertSorted | scripts/evaluation/evaluate_retrieval.py:25 | inserting into a descending list keeps it descending |
| RetrievalMetrics.SortDescPermutes | scripts/evaluation/evaluate_retrieval.py:25 | the ideal ranking is a permutation of the gains |
| RetrievalMetrics.SortDescSorted | scripts/evaluation/evaluate_retrieval.py:25 | the ideal ranking is in descending order |
| RetrievalMetrics.DcgIsWeightedSum | scripts/evaluation/evaluate_retrieval.py:17-21 | DCG at k is the gains weighted by the discount up to position k and by 0 after it |
| RetrievalMetrics.SortRaises | scripts/evaluation/evaluate_retrieval.py:17-27 | sorting the gains in descending order never lowers their weighted sum |
| RetrievalMetrics.DcgAtMostIdeal | scripts/evaluation/evaluate_retrieval.py:23-27 | DCG never exceeds the DCG of the ideal ranking |
| RetrievalMetrics.NdcgInUnitInterval | scripts/evaluation/evaluate_retrieval.py:23-27 | for non-negative gains, NDCG lies in [0, 1], including the "ideal DCG is 0" case |
| RetrievalMetrics.NdcgOfIdealRanking | scripts/evaluation/evaluate_retrieval.py:23-27 | a ranking already in ideal order with some gain scores exactly 1 |
| RetrievalMetrics.NdcgOfNoGain | scripts/evaluation/evaluate_retrieval.py:25-26 | all-zero gains score 0 |
| RetrievalMetrics.DcgIgnoresTail | scripts/evaluation/evaluate_retrieval.py:19 | items past position k do not change DCG at k |
| RetrievalMetrics.RetrievedIds | scripts/evaluation/evaluate_retrieval.py:61 | the retrieved ids are exactly the non-empty ids of the found resources |
| RetrievalMetrics.IdPositions | scripts/evaluation/evaluate_retrieval.py:61 | the positions of the resources with a non-empty id, in increasing order, each such position listed |
| RetrievalMetrics.RetrievedIdsFilter | scripts/evaluation/evaluate_retrieval.py:61 | the list comprehension is an order-preserving filter: the `p`-th retrieved id is the id of the `p`-th resource that has one, repeats kept |
| RetrievalMetrics.RetrievedIdsAppend | scripts/evaluation/evaluate_retrieval.py:61 | the filter distributes over concatenation of the resource list |
| RetrievalMetrics.Hits | scripts/evaluation/evaluate_retrieval.py:68 | the hit count is 0 exactly when no retrieved id is relevant |
| RetrievalMetrics.HitsCountsPositions | scripts/evaluation/evaluate_retrieval.py:68 | the hit count is the number of positions holding a relevant id, so each repeat counts again |
| RetrievalMetrics.RecallCountsResources | scripts/evaluation/evaluate_retrieval.py:61-68 | the recall numerator is the number of returned resources whose id is present, non-empty and relevant |
| RetrievalMetrics.Recall | scripts/evaluation/evaluate_retrieval.py:68-69 | recall is hits over relevant, 0 without relevant ids, and 0 when nothing retrieved is relevant |
| RetrievalMetrics.BinaryNdcg | scripts/evaluation/evaluate_retrieval.py:73-74 | the query's NDCG@5 lies in [0, 1] and is 0 when nothing retrieved is relevant |
| RetrievalMetrics.EvaluateQuery | scripts/evaluation/evaluate_retrieval.py:59-74 | per query: recall from the hits, NDCG in [0, 1], both 0 when nothing retrieved is relevant |
| RetrievalMetrics.BinaryNdcgOfRelevantFirst | scripts/evaluation/evaluate_retrieval.py:72-74 | a ranking with every relevant id before every irrelevant one, and at least one relevant id, has NDCG exactly 1 |
| RetrievalMetrics.EvaluateQueryPerfectRanking | scripts/evaluation/evaluate_retrieval.py:59-74 | a query whose returned ids put every relevant one first, with at least one, scores NDCG 1 |
| RetrievalMetrics.RetrievedIdsAreLocal | scripts/evaluation/evaluate_retrieval.py:59-61 | every retrieved id comes from the local index, never from the web fallback |
| Corpus.NormalizeSpace | scripts/ingestion/process_corpus.py:19 | the result has no leading, trailing or doubled whitespace |
| Corpus.NormalizeKeepsVisible | scripts/ingestion/process_corpus.py:19 | normalising keeps every non-whitespace character, in order |
| Corpus.NormalizeEmpty | scripts/ingestion/process_corpus.py:19 | normalising gives "" exactly when the text is all whitespace |
| Corpus.NormalizeIdempotent | scripts/ingestion/process_corpus.py:19 | normalising twice is normalising once |
| Corpus.NormalizeIsJoinedWords | scripts/ingestion/process_corpus.py:19 | replacing whitespace runs by one space and stripping equals joining the text's `split()` words with single spaces |
| Corpus.CollapseSingleSpaced | scripts/ingestion/process_corpus.py:19 | after the substitution every whitespace character is a plain space, none is next to another, and the text starts with whitespace exactly when the input did |
| Corpus.WordsAreWords | scripts/ingestion/process_corpus.py:19 | every word of `split()` is non-empty and free of whitespace |
| Corpus.CleanText | scripts/ingestion/process_corpus.py:12-20 | an absent, null or empty field cleans to ""; otherwise the result is normalised and keeps the visible characters of the extracted text |
| Corpus.CleanTextEmpty | scripts/ingestion/process_corpus.py:12-20 | cleaning gives "" exactly when the field is absent, null, empty, or its extracted text is all whitespace |
| Corpus.CleanTextIsJoinedWords | scripts/ingestion/process_corpus.py:12-20 | a present, non-empty field cleans to the words of its extracted text joined by single spaces |
| Corpus.Cleaned | scripts/ingestion/process_corpus.py:47-48 | cleaning a record touches only title and description, and each becomes the cleaned text of its old value |
| Corpus.CleanedFieldsNormalized | scripts/ingestion/process_corpus.py:47-48 | a cleaned record's title and description are normalised |
| Corpus.KeptIndices | scripts/ingestion/process_corpus.py:38-54 | lists, in increasing order, exactly the records that survive |
| Corpus.MergedAtKeptIndices | scripts/ingestion/process_corpus.py:38-54 | the output is the cleaned records at the kept positions, in input order |
| Corpus.MergedUrlsDistinct | scripts/ingestion/process_corpus.py:40-44 | no two output records share a non-empty url |
| Corpus.MergedRecordsValid | scripts/ingestion/process_corpus.py:47-54 | every output record has a non-empty, normalised title |
| Corpus.DroppedTitleStillSuppresses | scripts/ingestion/process_corpus.py:40-52 | a later record with an already seen url is dropped, even if the earlier one was dropped for its title |
| Corpus.EmptyUrlKeptByTitle | scripts/ingestion/process_corpus.py:40-52 | a record without url is kept exactly when its cleaned title is non-empty |
| Corpus.FirstOccurrenceWins | scripts/ingestion/process_corpus.py:38-54 | the first record with a given url is kept when its title survives cleaning |
| Corpus.SeenUrlsMember | scripts/ingestion/process_corpus.py:40-44 | the seen set holds exactly the non-empty urls of the records scanned so far |
| Corpus.ScanRecord | scripts/ingestion/process_corpus.py:38-54 | one loop iteration takes the seen set and the output to their values after the next record |
| Corpus.MergeRecords | scripts/ingestion/process_corpus.py:22-54 | the loop produces the declarative merge, whose urls are distinct |
| Corpus.GatherAppend | scripts/ingestion/process_corpus.py:28-36 | reading a list of files reads them one after another |
| Corpus.GatherReadsListedOnly | scripts/ingestion/process_corpus.py:28-32 | only the listed files are read; a missing file contributes nothing |
| Corpus.ProcessCorpus | scripts/ingestion/process_corpus.py:10-54 | the six sources are merged in order, urls are distinct, and with no source file present the corpus is empty |
| Layout.NodeMapKeys | frontend/src/pages/Roadmap.jsx:80-82 | the node map holds exactly the ids of the nodes |
| Layout.NodeMapLast | frontend/src/pages/Roadmap.jsx:80-82 | the last node with an id decides its prerequisites |
| Layout.MaxLevelIsMax | frontend/src/pages/Roadmap.jsx:95-98 | the running maximum is the largest level among the visited prerequisites |
| Layout.PrereqBelow | frontend/src/pages/Roadmap.jsx:86-103 | every prerequisite sits on a strictly lower level |
| Layout.LevelIsTight | frontend/src/pages/Roadmap.jsx:95-101 | a node with prerequisites has a prerequisite exactly one level below it, so levels are longest paths |
| Layout.LevelRankIndependent | frontend/src/pages/Roadmap.jsx:86-103 | the level does not depend on the acyclicity witness |
| Layout.SelfLoopUnranked | frontend/src/pages/Roadmap.jsx:86-103 | a node listed as its own prerequisite has no level, because the recursion would not end |
| Layout.GetLevel | frontend/src/pages/Roadmap.jsx:86-103 | the memoised recursion returns the level whatever is already memoised, and keeps the memo exact |
| Layout.ComputeLevels | frontend/src/pages/Roadmap.jsx:105 | after the pass every node's level is memoised, in any input order |
| Layout.GridPositionsDistinct | frontend/src/pages/Roadmap.jsx:108-115 | no two nodes get the same grid position |
| Layout.PlaceNodes | frontend/src/pages/Roadmap.jsx:108-129 | node i goes to column = earlier nodes on its level, row = its level, keeping its id, title, description and resources |
| Layout.PushEdges | frontend/src/pages/Roadmap.jsx:133-143 | one edge per prerequisite, in list order, appended |
| Layout.EdgesCharacterised | frontend/src/pages/Roadmap.jsx:132-143 | an edge exists exactly for a node and one of its listed prerequisites, from the prerequisite to the node |
| Layout.EdgesPointDown | frontend/src/pages/Roadmap.jsx:86-143 | with distinct node ids every edge runs from a lower level to a higher one |
| Layout.EdgeIdsCanCollide | frontend/src/pages/Roadmap.jsx:135 | two different edges can share an id when node ids contain "-" |
| Layout.CollectEdges | frontend/src/pages/Roadmap.jsx:131-144 | a node without prerequisites adds no edge; the others add theirs in node order |
| Layout.BuildFlow | frontend/src/pages/Roadmap.jsx:76-145 | one flow node per API node, in input order, at its level's grid position, all positions distinct, plus every prerequisite edge |
| Layout.IsValidUrl | frontend/src/pages/Roadmap.jsx:248 | a url is clickable exactly when it starts with "http" |
| Layout.SearchLinkClickable | frontend/src/pages/Roadmap.jsx:248 | the lookup's Google link is always clickable; the "#" placeholder never is |
| Filenames.SquashNoDouble | scripts/generate_roadmaps.py:128-129 | after the loop no "__" remains |
| Filenames.SquashReplace | scripts/generate_roadmaps.py:129 | each replacement pass keeps the fixed point the loop reaches |
| Filenames.ReplaceShrinks | scripts/generate_roadmaps.py:128-129 | each pass strictly shortens a name that still has "__", so the loop ends |
| Filenames.SanitizeSkill | scripts/generate_roadmaps.py:126-129 | the loop computes the sanitised name, which has no "__" |
| Filenames.SkillFilename | scripts/generate_roadmaps.py:126-131 | the file name is the sanitised name plus ".json" |
| Filenames.SafeNameAlphabet | scripts/generate_roadmaps.py:126-129 | a sanitised name uses only ASCII lower-case letters, digits and "_", with no "__" |
| Filenames.SafeNameIdempotent | scripts/generate_roadmaps.py:126-129 | sanitising a sanitised name changes nothing |
| Filenames.SafeNameExample | scripts/generate_roadmaps.py:111 | "UI/UX Design Principles" becomes "ui_ux_design_principles" |
| Filenames.ManualFilenameAlphabet | scripts/setup/create_initial_manual_data.py:128 | a manual file name has no space and no "&", and keeps every other character of the lower-cased skill |
| Filenames.ManualOfWords | scripts/setup/create_initial_manual_data.py:128 | a skill of space-separated words becomes the words joined by "_" plus ".json" |
| Filenames.ManualFilenameExample | scripts/setup/create_initial_manual_data.py:128 | "Docker & Kubernetes" becomes "docker_and_kubernetes.json" |
| Filenames.ManualFilenamesDistinct | scripts/setup/create_initial_manual_data.py:7-128 | the ten built-in roadmaps get ten different file names |
| Markdown.BoldSplitConcat | scripts/utils/md_to_docx.py:108 | the parts of a line join back to the line |
| Markdown.BoldSplitMatches | scripts/utils/md_to_docx.py:108 | every odd part is a "**...**" span |
| Markdown.BoldSpansRoundTrip | scripts/utils/md_to_docx.py:108-112 | a bold run's text, wrapped again in "**", gives back its span |
| Markdown.PlainLineRuns | scripts/utils/md_to_docx.py:104-114 | a line without "**" becomes one plain run |
| Markdown.ToRun | scripts/utils/md_to_docx.py:110-114 | a part is bold exactly when it starts and ends with "**"; other parts keep their text |
| Markdown.HeadingLevel | scripts/utils/md_to_docx.py:88-95 | one to four "#"s and a space give a heading of that level with the rest as title |
| Markdown.NumberedText | scripts/utils/md_to_docx.py:100-101 | a "digits. " line becomes a numbered item with the stripped text after its first "." |
| Markdown.NumberedIsNotOther | scripts/utils/md_to_docx.py:88-101 | a numbered line is never taken for a heading or a bullet |
| Markdown.ParseTable | scripts/utils/md_to_docx.py:56-75 | a table of more than two lines has one header row and one row per line after the separator, each as wide as the header |
| Markdown.HeaderCellsClean | scripts/utils/md_to_docx.py:59 | header cells are stripped and contain no "|" |
| Markdown.RowCellsClean | scripts/utils/md_to_docx.py:71-75 | body cells are stripped and contain no "|" |
| Markdown.SeparatorIgnored | scripts/utils/md_to_docx.py:60 | the separator line has no effect on the table |
| Markdown.FlushTable | scripts/utils/md_to_docx.py:54-83 | a buffered table is emitted exactly when it has more than two lines |
| Markdown.LineBlocks | scripts/utils/md_to_docx.py:88-114 | a non-empty line gives exactly one block, never code or a table: a heading of level 1 to 4 whose text follows its marker, a bullet exactly for a "* " or "- " line, a numbered item only for a numbered line, otherwise a paragraph of the line's runs; an empty line gives nothing |
| Markdown.Step | scripts/utils/md_to_docx.py:33-85 | one line appends at most two blocks and never removes any; a fence line, and only a fence line, toggles code mode; the table buffer is kept, cleared or extended by this line |
| Markdown.StepConsistent | scripts/utils/md_to_docx.py:32-114 | the loop never holds buffered table lines outside table mode |
| Markdown.FenceEmitsNothing | scripts/utils/md_to_docx.py:36-38 | a fence line only toggles code mode |
| Markdown.BlankLineEmitsNothing | scripts/utils/md_to_docx.py:85-105 | a blank line outside a table and code adds nothing |
| Markdown.CodeLinesVerbatim | scripts/utils/md_to_docx.py:39-47 | the lines inside a fence each become one code block, right-stripped |
| Markdown.TableLinesBuffered | scripts/utils/md_to_docx.py:50-53 | table lines only fill the buffer |
| Markdown.StepClosesTable | scripts/utils/md_to_docx.py:54-85 | a non-table line emits the buffered table, clears it, and is then handled as usual |
| Markdown.TableClosedByLine | scripts/utils/md_to_docx.py:50-101 | a table followed by a plain line is emitted when it is long enough, then the line's own block |
| Markdown.RunAppend | scripts/utils/md_to_docx.py:32 | running two batches of lines one after the other is running them together |
| Markdown.ConvertLines | scripts/utils/md_to_docx.py:28-114 | the loop computes the converter's output |
| Markdown.TrailingTableDropped | scripts/utils/md_to_docx.py:50-83 | table lines at the end of a file, after any prefix that ends outside a code block, add nothing to the output |
| Markdown.TrailingTableFlushed | scripts/utils/md_to_docx.py:50-83 | with a flush at the end of input, a table of three or more lines ending the file, after any prefix outside a code block and a table, is emitted after the prefix's output, as if a blank line followed |
| Markdown.FlushedAgreesWithoutTrailingTable | scripts/utils/md_to_docx.py:28-114 | the flush changes nothing for a file that does not end inside a table |

## Left out

- File and network I/O, printing, `argparse` drivers and `if __name__ == "__main__"` blocks. Reading a file is
  the list of its records or lines. Writing is the returned value.
- The LLM calls behind the topic structure, the embedding model with the vector database, DuckDuckGo and URL
  quoting. Each one is an oracle parameter. Nothing about their answers is assumed, except the shape of the topic
  structure (see `RoadmapEngine.GenerateRoadmap` below). Within one resource lookup
  the web search is a single function, so the two queries of a lookup see one state of the service.
- BeautifulSoup's HTML-to-text step. It is an abstract `getText`; the properties proved hold for any extractor.
- The scikit-learn, ROUGE and BERTScore metrics. Only their results are used, and the NDCG scorer may fail.
- Floating point. Scores are exact reals, and `log2` is an abstract discount that is positive and
  strictly decreasing.
- Character classes. `isalnum`, `lower` and `\d` are modelled for ASCII only. A non-ASCII letter is not
  alphanumeric, is not lower-cased and is not a digit. `isspace` and `\s` use Python's full whitespace set.
- The python-docx writer: styles, fonts, and the `try/except` fallbacks around the writes. The model emits the
  block the writer would be asked to add.
- Non-string JSON values. Corpus record fields, the payload of an index hit and the fields of a web result
  are each absent, null or a string in the model; other keys of a corpus record are kept as opaque text. A
  number or other non-string value is not modelled. Depending on the pydantic version, `Resource` rejects
  such a value or coerces it to a string. For an index hit, a rejection ends the loop over the hits.
- React state, effects, styling and `getHostname`. The layout is the pure transform from API nodes to flow
  nodes and edges.
- The ingestion, indexing, synthetic-data, comparative-evaluation and validation scripts, the API server and
  the tests. They are outside the core.
- Layout.GetLevel: needs an acyclic prerequisite graph, given as a rank that drops along every prerequisite.
  The page's recursion does not end on a cycle.
- EvalAgent.RecallAtMostOne: assumes retrieved ids are distinct. With repeated ids the source can report
  recall above 1.
- RetrievalMetrics.NdcgInUnitInterval: is stated for k >= 0 and non-negative gains only. These are the cases
  the script uses.
- Filenames.SafeNameExample: states the stem without ".json". `Filenames.SkillFilename` adds the suffix.
- RoadmapEngine.GenerateRoadmap: takes the topic structure as well-formed. Every topic has an id, a title and
  a description, and its prerequisites are absent or a list of strings. The source raises `KeyError` on a topic
  missing one of the three keys (src/roadmap_engine.py:23,27-29). Its `RoadmapNode` rejects a null
  `prerequisites` (src/models.py:19), which `.get` passes through. These failures end the request and are not
  modelled.
- Concurrency and object mutation. Records and nodes are immutable values.

## Findings

| source | as written | input that shows it | evidently intended | confidence | as-written member | corrected member |
|---|---|---|---|---|---|---|
| scripts/utils/md_to_docx.py:50-83 | a buffered table is emitted only when a later non-table line arrives, so a table that ends the file is never written | a file whose last lines are "\| a \|", "\|---\|", "\| 1 \|" | the table is emitted at the end of input too, as it is before a blank line | not executed | Markdown.TrailingTableDropped | Markdown.TrailingTableFlushed |

`Markdown.ConvertFlushed` is the corrected converter. It flushes a buffered table when the input ends.
`Markdown.FlushedAgreesWithoutTrailingTable` shows it differs from the source only on inputs that end inside a
table.
