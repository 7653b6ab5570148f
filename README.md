# Data-modeling copilot utilities: a verified model

This project models the parts of the data-modeling copilot's utility code that
are the repository's own logic rather than calls into ML, vector-store or
dataframe libraries:

- **Column-type classification** (`KnowledgeGraphManager.find_column_type`),
  module `ColumnType` in `column_type.dfy`. The graph's nodes are a sequence of
  `Node(id, pattern)` values in iteration order. The regular-expression search
  is a function parameter `search(pattern, subject)`. The method
  `FindColumnType` mirrors the source's nested loops, which append a node once
  per matching pattern, and then its stable descending sort. It is proved
  against the specification function `ColumnTypeOf`, and that function is
  proved equal to an independent reference definition `Best`: "the first node,
  in iteration order, whose longest pattern is longest among the matching
  nodes".
- **Guideline chunking** (`DataProcessor.chunk_guidelines`), module
  `Guidelines` in `guidelines.dfy`. `str.split` with a literal separator is
  modelled as `Split`: a leftmost, non-overlapping split. The file is given as
  its contents, `None` when the path does not exist. The two ways of raising
  that the model covers are `Err` values: the missing file, and the empty
  separator that `str.split` rejects.
- **Entity-extraction post-processing** (`EntityExtractor.extract`), module
  `EntityExtraction` in `entity_extraction.dfy`. It covers the prompt template,
  the attention mask, the span that `re.search(r'\{.*\}', out, re.DOTALL)`
  selects, the `data.get(key, [])` defaults, and the collapse of every failure
  to `([], [])`. Tokenization, generation and decoding together are one
  function parameter `generate`. The JSON decoder is a partial function
  parameter `parse`.

`outcomes.dfy` holds the `Option` and `Result` types shared by the modules.

Two choices follow the code closely:

- The code appends a node once for every matching pattern, so a node can
  appear several times in the match list. The model does the same, and
  `WinnerAppendCopies` proves that the duplicates never change the winner.
- `pattern` is only iterated, so the model holds it as a sequence. The sort
  key (the longest length) does not depend on the order.

## Model

| member | source | states |
|---|---|---|
| `ColumnType.FindColumnType` | notebooks/src/utils.py:82-96 | The method builds the match list with `CollectMatches`, sorts it stably by longest pattern, longest first, and returns the head. The result equals `ColumnTypeOf`. It is `None` exactly when no node has a pattern found in the lowercased name. Otherwise it is a graph node with a non-empty pattern collection, one of whose patterns matches, at a first-longest position. |
| `ColumnType.CollectMatches` | notebooks/src/utils.py:85-91 | The nested loops build exactly the match list: nodes in iteration order, nodes without patterns skipped, one entry per pattern found in the subject. |
| `ColumnType.CopiesOfNode` | notebooks/src/utils.py:89-91 | The inner loop appends only copies of the current node. It appends at least one exactly when some pattern of the node is found in the subject. |
| `ColumnType.LongestIsMax` | notebooks/src/utils.py:94 | The sort key bounds the length of every pattern of the node and equals the length of one of them: it is `max(len(p) for p in patterns)`. |
| `ColumnType.SortDescSortedPermutation` | notebooks/src/utils.py:94 | `sort(key=..., reverse=True)` orders the match list by key, longest first, and is a permutation of it. |
| `ColumnType.SortHeadIsWinner` | notebooks/src/utils.py:94-95 | The head of the stably sorted list is the entry a left-to-right scan keeps when it replaces its pick only on a strictly longer key: the first entry with the greatest key. |
| `ColumnType.WinnerAppendCopies` | notebooks/src/utils.py:87-95 | Appending all copies of one node changes the winner as one comparison does. The node replaces the current winner only if its key is strictly longer, so duplicate entries never change the winner and ties go to the earlier node. |
| `ColumnType.WinnerOfMatchList` | notebooks/src/utils.py:85-95 | The winner of the match list is the reference winner `Best`, computed over nodes rather than entries. |
| `ColumnType.SortedMatchListHead` | notebooks/src/utils.py:85-95 | The head of the stably sorted match list equals the reference winner `Best`. |
| `ColumnType.BestIsFirstLongest` | notebooks/src/utils.py:87-95 | The reference winner is absent exactly when no node matches. Otherwise it is a matching node whose key is the greatest among matching nodes and strictly greater than that of every earlier matching node. |
| `ColumnType.NoneIffNoPatternMatches` | notebooks/src/utils.py:93-96 | `(None, None)` is returned exactly when no pattern of any node is found in the lowercased column name. |
| `ColumnType.ResultIsFirstLongestMatch` | notebooks/src/utils.py:87-95 | The returned node has a non-empty pattern collection, so nodes without patterns are never returned. One of its patterns matches the lowercased name. Its key is greatest among matching nodes, and strictly greater than that of every earlier matching node. |
| `ColumnType.LowercaseInvariant` | notebooks/src/utils.py:90 | The result depends on the column name only through its lowercase form. |
| `ColumnType.CustIdExample` | notebooks/src/utils.py:82-96 | With patterns `id$` and `^cust_id$` both matching `cust_id`, the node with the 9-character pattern wins over the one with the 3-character pattern. |
| `ColumnType.NoMatchExample` | notebooks/src/utils.py:93-96 | A name that neither pattern matches gives `(None, None)`. |
| `Guidelines.Find` | notebooks/src/utils.py:108 | The separator search returns the leftmost position where the separator occurs, with no occurrence before it, or reports that it occurs nowhere. |
| `Guidelines.Split` | notebooks/src/utils.py:108 | `split` always returns at least one chunk, even for empty contents. |
| `Guidelines.SplitCutsAtLeftmost` | notebooks/src/utils.py:108 | Every cut is at the leftmost occurrence of the separator in the text still to be split: no chunk but the last, followed by all but the last character of the separator, contains the separator. With the rejoin property this fixes the chunks, also when occurrences overlap. |
| `Guidelines.JoinSplit` | notebooks/src/utils.py:108-109 | Joining the chunks with the separator reconstructs the text exactly: nothing is trimmed and no empty chunk is dropped. |
| `Guidelines.ChunksAvoidSeparator` | notebooks/src/utils.py:108-109 | No returned chunk contains the separator. |
| `Guidelines.SplitCount` | notebooks/src/utils.py:108-109 | There is exactly one more chunk than the number of non-overlapping occurrences of the separator that a left-to-right scan finds. |
| `Guidelines.ChunkGuidelines` | notebooks/src/utils.py:102-109 | A missing file raises `FileNotFoundError` for its path. The existence check comes before the split, so a missing file wins over an empty separator. An empty separator raises. Otherwise the chunks rejoin to the contents, number the occurrences plus one, none contains the separator, and every cut is at the leftmost occurrence. |
| `Guidelines.BlankLineExample` | notebooks/src/utils.py:102-109 | The contents `"a\n\nb\n\nc"` with the default separator give `["a", "b", "c"]`. |
| `Guidelines.OverlappingSeparatorExample` | notebooks/src/utils.py:102-109 | The contents `"a\n\n\nb"` with the default separator give `["a", "\nb"]`: of two overlapping occurrences the leftmost is cut. |
| `EntityExtraction.PromptRoundTrip` | src/indexing/entity_extractor.py:34-39 | The prompt starts with the fixed lead and ends with the fixed instruction and one-shot JSON example. The input text sits verbatim in between and can be recovered. |
| `EntityExtraction.PromptInjective` | src/indexing/entity_extractor.py:34-39 | Different input texts give different prompts. |
| `EntityExtraction.AttentionMask` | src/indexing/entity_extractor.py:52 | The mask has the length of the token ids, and position `i` is true exactly when `ids[i] != pad_id`. |
| `EntityExtraction.MaskOfPadded` | src/indexing/entity_extractor.py:45-52 | For tokens padded with the pad id, where the tokens never use that id, the mask is all true over the tokens and all false over the padding. |
| `EntityExtraction.FirstIndex` | src/indexing/entity_extractor.py:76-77 | Finds the first occurrence of a character, or reports that there is none. |
| `EntityExtraction.LastIndex` | src/indexing/entity_extractor.py:76-77 | Finds the last occurrence of a character, or reports that there is none. |
| `EntityExtraction.BraceSpanBounds` | src/indexing/entity_extractor.py:76-80 | A selected span is at least two characters long and lies inside the output. |
| `EntityExtraction.BraceSpanIsLeftmostLongest` | src/indexing/entity_extractor.py:76-80 | The selected span is exactly the match a regex search for `\{.*\}` under DOTALL returns: the leftmost start, then the longest end from it. There is no span exactly when the pattern matches nowhere in the output. |
| `EntityExtraction.SpanFromFirstOpenToLastClose` | src/indexing/entity_extractor.py:76-80 | A found span is a contiguous substring of the output that starts at its first `{` and ends at its last `}`. |
| `EntityExtraction.ExtractFromOutput` | src/indexing/entity_extractor.py:74-95 | With no span, a decode failure, or a decoded value that is not an object, the result is `([], [])`. A missing `entities` or `relationships` key gives `[]` for that component, and a present key gives its value. A result other than `([], [])` comes from a decoded object holding one of the two keys. |
| `EntityExtraction.NoClosingBraceMeansNothing` | src/indexing/entity_extractor.py:76-79 | If no `}` follows the output's first `{`, the result is `([], [])` whatever the decoder does. |
| `EntityExtraction.Extract` | src/indexing/entity_extractor.py:31-95 | extract runs the post-processing on the model's output for the prompt. It returns `([], [])` unless that output's span decodes to an object. |
| `EntityExtraction.EchoedExampleIsSelected` | src/indexing/entity_extractor.py:34-39 | When the output echoes the prompt, the input text has no braces and the continuation has no `}`, the selected span is exactly the prompt's one-shot example. |
| `EntityExtraction.EchoedExampleIsExtracted` | src/indexing/entity_extractor.py:69-88 | Under the same conditions, extract returns the `entities` of the prompt's own example, whatever the model generated. |
| `EntityExtraction.TestInputSelectsExample` | src/indexing/entity_extractor.py:99 | The source's own test input has no braces, so for it the example is selected whenever the model writes no `}`. |
| `EntityExtraction.Continuation` | src/indexing/entity_extractor.py:69 | When the decoded output starts with the prompt, the generated part is exactly what follows it (prompt plus part gives the output). When it does not, the generated part is the whole output. |
| `EntityExtraction.AnswerIgnoresEcho` | src/indexing/entity_extractor.py:69-95 | The corrected extract depends on the generated continuation alone. When the continuation has no `}`, it returns `([], [])`. |

## Findings

| source | as written | input that shows it | evidently intended | confidence | as-written member | corrected member |
|---|---|---|---|---|---|---|
| src/indexing/entity_extractor.py:69-80 | `raw_output` decodes the whole generated sequence, and for a causal model that sequence starts with the prompt. The prompt ends with the one-shot example `{"entities": [...]}`, so the search for `\{.*\}` starts at the example's `{`. | The text `NUMBER(38,0) is used for Surrogate Keys.` with a continuation containing no `}`: the span is the example itself, and extract returns the example's `NUMBER(38,0)` entity. With a continuation that holds an object, the span runs from the example through that object. | The JSON object is searched for in the generated continuation only. | not executed; relies on the output echoing the prompt | `EntityExtraction.EchoedExampleIsExtracted` | `EntityExtraction.AnswerIgnoresEcho` |

## Left out

- `ModelLoader.load_flan_t5` / `load_mpnet` and the model and tokenizer loading in `EntityExtractor.__init__` are not modelled. They are foreign library calls and accelerator detection.
- The `pad_token` fallback to the EOS token in `EntityExtractor.__init__` is not modelled. The pad id is a parameter of `AttentionMask`.
- Tokenization (padding to 512 tokens, truncation), `model.generate` and `tokenizer.decode` are not modelled. They are opaque inference and form the `generate` parameter of `Extract`. `MaskOfPadded` assumes right padding.
- `VectorStoreManager` is not modelled. It is a wrapper over the vector-store client and the filesystem.
- `save_graph` / `load_graph` are not modelled. They are pickle serialization and file I/O.
- `process_csv_schema` is not modelled. It is a thin dataframe wrapper.
- The file read in `chunk_guidelines` is not modelled. The contents are passed in as text, after Python's text-mode newline translation.
- `Guidelines.ChunkGuidelines`: only the missing file and the empty separator are modelled as errors. The errors raised by `open` and `read` are not: `IsADirectoryError` for a path that exists but is a directory, `PermissionError`, and `UnicodeDecodeError`. A `None` separator, which makes `split` cut on runs of whitespace, is not modelled either: the separator is always a string.
- The regex and JSON engines are parameters. An invalid pattern that makes `re.search` raise is not modelled, and JSON numbers are kept as their literal text.
- All `print` diagnostics and the `test_extractor` driver are not modelled. Only the driver's input text is used, in `TestInputSelectsExample`.
- `ColumnType.LowercaseInvariant`, `ColumnType.FindColumnType`, `ColumnType.ColumnTypeOf`: `str.lower` is modelled for ASCII letters only. Unicode case mappings are not modelled, so for a name such as `ÉTAT_ID` the subject passed to the search differs from Python's (`ÉTAT_id` instead of `état_id`).
- `ColumnType.SortDescSortedPermutation`: stability (equal keys keep their order) is not stated for every position. Only its effect on the returned head is proved, in `SortHeadIsWinner` and `SortedMatchListHead`.
- `EntityExtraction.AttentionMask`: the mask is modelled over one row of token ids, not a batch tensor.
