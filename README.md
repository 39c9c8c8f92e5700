# arxiv_search ingestion, modelled in Dafny

This project models the ingestion step of `create_index.py`, the script that
builds the `papers` vector index from the arXiv metadata snapshot. The steps are:

1. Make sure the `papers` index exists (get-or-create).
2. Go through the parsed paper records and keep each paper whose
   space-separated category string shares a tag with the allow-list
   {cs.AI, cs.CL, cs.CV, cs.LG, cs.NE, cs.RO}.
3. Build each kept paper's text: the title, stripped and with newlines replaced
   by spaces, then one space, then the abstract cleaned the same way.
4. Send the text to the embedding service and store the embedding in a dict
   keyed by paper id.
5. Upsert every entry of that dict into the index.

The project has four modules:

- `PyStr` (`py_str.dfy`): the Python string built-ins the script uses, with
  CPython's semantics. `split(' ')` keeps empty pieces. `strip()` removes
  exactly the characters `isspace()` accepts. `replace` is modelled on single
  characters.
- `PyDict` (`py_dict.dfy`): a Python `dict` with insertion order. Overwriting a
  key keeps its place, and `items()` follows first-insertion order.
- `Pinecone` (`pinecone.dfy`): the vector-index service as abstract state, in
  the class `Client`. It holds the existing indexes with their parameters, a log
  of `create_index` calls and a log of `upsert` calls. The function `Stored`
  gives what an index holds after a log of upserts.
- `CreateIndex` (`create_index.dfy`): the filter, the text construction, the
  collection loop (`CollectEmbeddings`), the upsert loop (`UpsertAll`),
  `get_pinecone_index` (`GetPineconeIndex`) and `main` (`IngestPapers`).

How the loops are specified:

- The collection loop is a method, proved equal to two left folds over the
  papers read so far. `Collected` gives the dict and `EmbeddingRequests` gives
  the texts sent to the embedding service.
- The properties of the loop are lemmas about those folds: which keys are
  present, last write wins, nothing is removed, and dropped papers have no
  effect.
- The upsert loop is proved to append `UpsertCalls`, one call per dict entry,
  to the client's log, up to the first call the service refuses because the
  vector's length is not the index's dimension. When no call is refused, the
  index ends up holding the dict's entries.

The embedding service is the function parameter `embed: string -> Vector`.
The texts it is called with are returned as a sequence, in call order.

## Model

| member | source | states |
|---|---|---|
| PyStr.IsSpace | create_index.py:37-38 | the characters `str.strip()` removes: the code points CPython's `isspace()` accepts; `StripSlice` and `StripAllSpace` state what `strip()` does with them |
| PyStr.Split | create_index.py:34 | `s.split(' ')` always gives at least one piece, and no piece holds the separator |
| PyStr.SplitCount | create_index.py:34 | there is one more piece than there are separators in the string, so consecutive spaces give empty pieces |
| PyStr.JoinSplit | create_index.py:34 | joining the pieces with the separator gives back the original string |
| PyStr.SplitJoin | create_index.py:34 | splitting a join of separator-free pieces gives back those pieces |
| PyStr.SplitNoSep | create_index.py:34 | a string without the separator splits into itself alone |
| PyStr.SplitAppend | create_index.py:34 | a separator between two strings separates their pieces |
| PyStr.SplitFields | create_index.py:34 | a separator-free string is one of the pieces exactly when it stands in the string as a whole field: at the start or after a separator, and at the end or before one |
| PyStr.TrimStart | create_index.py:37-38 | the left half of `strip()`; it never lengthens the string, and `TrimStartSpec` characterises it |
| PyStr.TrimEnd | create_index.py:37-38 | the right half of `strip()`; it never lengthens the string, and `TrimEndSpec` characterises it |
| PyStr.Strip | create_index.py:37-38 | `s.strip()`; it never lengthens the string, and `StripSlice` characterises it |
| PyStr.TrimStartSpec | create_index.py:37-38 | `lstrip()` keeps a suffix that does not start with whitespace, and everything it drops is whitespace |
| PyStr.TrimEndSpec | create_index.py:37-38 | `rstrip()` keeps a prefix that does not end with whitespace, and everything it drops is whitespace |
| PyStr.StripSlice | create_index.py:37-38 | `strip()` leaves no whitespace at either end, keeps one contiguous slice of the input, and drops only whitespace around it |
| PyStr.StripStripped | create_index.py:37-38 | a string without whitespace at its ends strips to itself |
| PyStr.StripIdempotent | create_index.py:37-38 | stripping twice is the same as stripping once |
| PyStr.StripAllSpace | create_index.py:37-38 | a whitespace-only string strips to the empty string |
| PyStr.Replace | create_index.py:37-38 | `s.replace('\n', ' ')` on single characters; it keeps the length, and `ReplaceAt` characterises it |
| PyStr.ReplaceAt | create_index.py:37-38 | `replace` keeps the length, turns every `from` into `to` and leaves every other character in place |
| PyStr.ReplaceRemoves | create_index.py:37-38 | no `from` is left after the replacement, and the old occurrences are exactly the positions that now hold `to` but did not before |
| PyStr.ReplaceIdempotent | create_index.py:37-38 | replacing leaves a string unchanged exactly when it has no `from`, and replacing twice is the same as replacing once |
| PyDict.Empty | create_index.py:29 | `{}` is a well-formed dict with no entries |
| PyDict.SetItem | create_index.py:41 | `d[k] = v` stores `v` under `k`, keeps every other entry, and keeps the earlier key order as a prefix |
| PyDict.SetItemTwice | create_index.py:41 | assigning one key twice into `{}` leaves that key once, holding the second value |
| PyDict.Items | create_index.py:44 | `items()` gives one pair per entry, in first-insertion order, each key with its value |
| PyDict.ItemsKeys | create_index.py:44 | each key appears once among the items, and exactly the dict's keys appear |
| Pinecone.Stored | create_index.py:45 | what an index holds after a log of upserts, each upsert inserting or overwriting its id; `StoredKeys` and `StoredLastWrite` characterise it |
| Pinecone.StoredDimension | create_index.py:45 | when every upsert to an index carries a vector of one dimension, every vector the index holds has that dimension |
| Pinecone.StoredUntouched | create_index.py:45 | an index that no logged upsert names holds nothing |
| Pinecone.StoredKeys | create_index.py:45 | an index holds a record for an id exactly when some upsert to that index carried that id |
| Pinecone.StoredLastWrite | create_index.py:45 | an id holds the values of the last upsert of that id to that index |
| Pinecone.StoredDistinct | create_index.py:45 | upserting each id of a map once, with its values, leaves the index holding exactly that map |
| Pinecone.StoredAppend | create_index.py:45 | upserting one log after another overwrites the first log's records with the second's |
| Pinecone.Client.Valid | create_index.py:16-17 | every logged upsert went to an index that exists and carried a vector of that index's dimension, which the constructor, `CreateIndex` and `Upsert` keep |
| Pinecone.Client.StoredFits | create_index.py:45 | every vector an index holds has the index's dimension |
| Pinecone.Client.ListIndexes | create_index.py:14 | `list_indexes()` returns the names of the existing indexes |
| Pinecone.Client.CreateIndex | create_index.py:16 | `create_index` adds the named index with its dimension, metric and pod type, logs the call, and touches no upsert |
| Pinecone.Client.Upsert | create_index.py:45 | `upsert(id, values)` to an existing index is accepted exactly when the vector's length is the index's dimension; an accepted call appends one call to the upsert log, a refused one stores nothing, and nothing else changes |
| CreateIndex.Categories | create_index.py:34 | `set(categories.split(' '))`: the pieces of the split, with empty pieces kept |
| CreateIndex.Kept | create_index.py:28-35 | `not categories.isdisjoint(query_cats)` against the six tags of line 28; `KeptIffTagField` characterises it |
| CreateIndex.KeptIffTagField | create_index.py:28-35 | a paper is kept exactly when one of the six allow-listed tags stands in its category string as a whole space-delimited field |
| CreateIndex.KeptTwoTags | create_index.py:28-35 | "cs.AI cs.CV" is kept |
| CreateIndex.KeptIffSingleTag | create_index.py:28-35 | a category string with a single tag and no space is kept exactly when that tag is on the allow-list |
| CreateIndex.DroppedOtherTags | create_index.py:28-35 | "math.CO" is dropped, and so is "cs.AIX", which only begins with an allow-listed tag |
| CreateIndex.KeptDoubledSpace | create_index.py:28-35 | "math.CO  cs.LG" is kept: a doubled space only adds an empty tag |
| CreateIndex.CleanField | create_index.py:37-38 | `field.strip().replace('\n', ' ')`; `CleanFieldShape` characterises it |
| CreateIndex.PaperText | create_index.py:39 | `title + ' ' + abstract` over the cleaned fields; `PaperTextShape` characterises it |
| CreateIndex.CleanFieldShape | create_index.py:37-38 | a cleaned field holds no newline, has no whitespace at its ends, and is as long as the stripped field |
| CreateIndex.CleanFieldIdempotent | create_index.py:37-38 | cleaning a clean field changes nothing |
| CreateIndex.CleanBlankField | create_index.py:37-38 | a whitespace-only field cleans to the empty string |
| CreateIndex.PaperTextShape | create_index.py:37-39 | the text holds no newline; it is the cleaned title, exactly one space, then the cleaned abstract |
| CreateIndex.BlankAbstractText | create_index.py:38-41 | a blank abstract does not cause a skip: the text is still built, as the cleaned title followed by one space |
| CreateIndex.CollectStep | create_index.py:35-41 | one loop iteration keeps the dict well formed |
| CreateIndex.Collected | create_index.py:29-41 | the dict after any prefix of the input is well formed |
| CreateIndex.KeptPapers | create_index.py:35 | the papers that pass the filter are exactly the input papers that are kept |
| CreateIndex.RequestStep | create_index.py:35-40 | the text one iteration sends to the embedding service: that of a kept paper, none for a dropped one |
| CreateIndex.EmbeddingRequests | create_index.py:32-40 | the texts sent to the embedding service over the input, in call order; `RequestsPerKeptPaper` characterises it |
| CreateIndex.RequestsPerKeptPaper | create_index.py:35-40 | one embedding request per kept paper, in input order, carrying that paper's text |
| CreateIndex.CollectedKeys | create_index.py:32-41 | after the loop the dict's keys are exactly the ids of the kept papers |
| CreateIndex.CollectedLastWrite | create_index.py:41 | each id maps to the embedding of the last kept paper with that id |
| CreateIndex.CollectedGrows | create_index.py:29-41 | reading more papers never removes an entry and never moves a key |
| CreateIndex.DroppedPaperAddsNoEntry | create_index.py:35-41 | a dropped paper, wherever it stands, leaves the dict as it would be without it |
| CreateIndex.DroppedPaperSendsNoRequest | create_index.py:35-40 | a dropped paper, wherever it stands, triggers no embedding call |
| CreateIndex.CollectEmbeddings | create_index.py:29-41 | the collection loop builds the dict `Collected` and sends the texts `EmbeddingRequests` |
| CreateIndex.UpsertCalls | create_index.py:44-45 | there are as many upserts as dict entries; the i-th goes to the index with the i-th key in insertion order and that key's embedding |
| CreateIndex.OneUpsertPerEntry | create_index.py:44-45 | every upsert goes to the index and carries its entry's embedding; no id is upserted twice; every entry is upserted |
| CreateIndex.UpsertCallsStore | create_index.py:44-45 | the upserts leave the index holding exactly the dict's entries |
| CreateIndex.UpsertsStoreEntries | create_index.py:44-45 | after the upsert loop the index holds the dict's entries, over whatever it held before |
| CreateIndex.DuplicateIdOneUpsert | create_index.py:41-45 | two kept papers with one id give a single upsert, carrying the later paper's embedding |
| CreateIndex.AcceptedPrefix | create_index.py:44-45 | how many upserts go through before the first refused one: all before it fit the dimension, and the one at that position does not |
| CreateIndex.AllUpsertsAccepted | create_index.py:44-45 | the service accepts every upsert of the dict exactly when every embedding in it has the index's dimension |
| CreateIndex.IngestStored | create_index.py:44-45 | when every embedding fits, the loop gets through all the upserts and the index holds the dict's entries over its earlier records |
| CreateIndex.UpsertAll | create_index.py:44-45 | the upsert loop logs the dict's upserts, in order, up to the first one the service refuses; it reports success exactly when every embedding has the index's dimension; it creates no index |
| CreateIndex.GetPineconeIndex | create_index.py:12-17 | the index is created, with the given parameters, only when its name is not listed; an existing index is left as it is; the handle names the index |
| CreateIndex.GetPineconeIndexTwice | create_index.py:12-17 | asking twice for one name creates it at most once; the second request's parameters are never compared or applied |
| CreateIndex.IngestPapers | create_index.py:21-45 | `main()` gets or creates `papers` (1536, cosine, p1), sends one request per kept paper, and upserts the entries up to the first refused one; it succeeds exactly when every embedding has the index's dimension (1536 for a freshly created index); on success the index holds the collected entries over its earlier records, whose ids are exactly the kept papers' ids, and a freshly created `papers` holds exactly the collected entries; every vector the index holds has its dimension |

## Left out

- `main.py` is not part of this model. It holds the FastAPI route and the command-line entry point. Its only logic projects the ids out of query results, and the ranking is done by the service. Its query names the namespace `main`, while the upserts at create_index.py:45 go to the default namespace, so a search as written does not see what the ingestion stored.
- Opening the snapshot file and parsing each line with `json.loads` (create_index.py:31-33) are I/O. The input is a sequence of already parsed `Paper` records, so a line whose JSON is malformed, or that lacks a field, is not modelled. The script itself has no handling for those cases.
- The embedding service is an uninterpreted function parameter. The fixed model name it is called with, the numeric content of the vectors and any similarity measure are floating-point work done by external services.
- `load_dotenv`, environment variables, `pinecone.init`, the OpenAI client construction and `logging` (create_index.py:3-4, 23-24, 30) are configuration and logging. None of them changes what the ingestion computes.
- `str(pid)` (create_index.py:45) is modelled as the identity, because paper ids are strings in the snapshot.
- `Pinecone.Client.Upsert` records each call as (index, id, values). It does not model the service client's own argument conventions or batching. It requires the named index to exist, because the service refuses an upsert to a missing index; `main()` only upserts after the get-or-create. A refused upsert raises in the script, which ends the run; the model returns `false` from the loop instead.
- `Pinecone.Client.CreateIndex` requires that the name is not already taken, because the service refuses a duplicate name. The script only calls it after checking the listed names.
- `Pinecone.Client.constructor` only sets up a service that already holds some indexes. It has no counterpart in the script.
- Summary namespaces, per-document error isolation and skipping of malformed records are not modelled, because the script does none of them. Its upserts carry no namespace. The get-or-create never compares an existing index's dimension or metric with the requested ones. A different metric goes unnoticed. A different dimension makes the service refuse the first upsert, which ends the run with the earlier upserts stored. Any failure from a service call ends the run.
- Text fields are sequences of Unicode scalar values. A lone surrogate, which `json.loads` accepts from an escape such as `\ud800`, has no counterpart in the model.
- Concurrency and retries are not modelled, because the script makes its calls one at a time.
