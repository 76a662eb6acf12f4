# Acyclic node-forest generator — Dafny model

This project models the core of `generate_nodes.py`, a generator of synthetic
streaming-session records. Each record names a parent in its `Source` field:
either the `"CDN"` sentinel (a root) or the `NodeId` of a node created earlier.
Its `level` field counts the depth. The model covers three parts of the program:

- `forest.dfy` (module `Forest`): the `generate_nodes` loop. It appends one node
  per index to `nodes`. It also appends to the fallback list
  (`notes_under_max_level`) every node whose level is below the depth ceiling
  `max_level_tree`.
  - The method `GenerateNodes` keeps the fallback list incrementally, as the
    source does. It is proved equal to the function `Generate`.
  - `Generate` recomputes the fallback list by filtering the history (`UnderMax`).
  - Lemmas about `Generate` state four properties.
    - The result is a forest: parents are earlier and levels count the depth.
    - Levels stay within a ceiling of at least 1.
    - Each node follows its own draw: index 0 and root draws give a `CDN` root.
      Any other node attaches to its drawn parent when that parent is below the
      ceiling, and otherwise to a node of the fallback list.
    - A run raises if and only if the ceiling is at most 1 and some index after
      0 draws a non-root.
- `json_array.dfy` (module `JsonArray`): the framing of `write_json_array`.
  - `WriteJsonArray` accumulates the written text. It is proved equal to the
    framed text `Framed`.
  - A lemma states that reading the file back line by line gives the
    bracket lines and one line per row.
- `csv_export.dfy` (module `CsvExport`): what `json_array_to_csv` hands to the CSV writer.
  - An empty array writes nothing.
  - The column set is the sorted, duplicate-free set of whitelisted keys
    (`headers_clue`) that occur in some row.
  - A row that lacks a selected column raises `KeyError`.
  - Otherwise every row is cut down to the selected columns.
- `wrappers.dfy`: the `Option` and `Result` types.

Modelling conventions:

- A node's `NodeId` is its creation index, so a parent reference is an index.
  The fresh UUIDs of the source are distinct, so this loses nothing about the forest.
- Every random draw is an input: one `Draw(root, parent, pick)` per index.
  - `root` is the outcome of `random.random() < root_share`.
  - `parent` and `pick` are natural numbers. A draw `u` among `L` values selects
    value `u % L` (`Forest.Below`). Draws below `L` select themselves, so every
    choice the random module can make is covered.
  - The source never draws for index 0. The draw at index 0 is ignored.
- `random.choice` on an empty list raises `IndexError`. The model returns
  `Failure(EmptyChoice(i))` for this, where `i` is the index being created.
- `range(n)` with a negative `n` is empty (`Forest.RowCount`).
- `json.dump` of one row is a function parameter `dump`. The file contents are
  the text written, in order.
- A JSON object is a `map<string, V>`. Python's `sorted` on strings is the
  order `CsvExport.Less`: code point by code point, with a proper prefix first.

Behaviour of the code worth knowing:

- The depth ceiling is never validated. `main` checks only `--rows`,
  `--root-share` and the buffer bounds (generate_nodes.py:205-210), so any
  integer reaches the loop. A ceiling below 1 still produces a root at level 1,
  above the ceiling (`Forest.DepthBoundNeedsPositiveCeiling`).
- A ceiling of 1 raises `IndexError` rather than falling back to roots. A root
  has level 1 (generate_nodes.py:96-99), which is not below 1, so no node ever
  enters the fallback list (generate_nodes.py:122-123). Every parent is at the
  ceiling, so every non-root calls `random.choice([])` (generate_nodes.py:107)
  and raises. `Forest.GenerateFailsIff` states exactly when a run raises.
- The export whitelist (generate_nodes.py:156) uses the record's own key
  names: `timestamp, NodeId, BufferHealth, SessionId, Source`.

## Model

| member | source | states |
|---|---|---|
| Forest.GenerateNodes | generate_nodes.py:84-125 | The loop returns exactly `Generate` for `max(n, 0)` rows. On success it holds one node per index and forms a forest, and every node follows its own draw given the nodes before it. Every level is within the ceiling when the ceiling is at least 1. It fails if and only if the ceiling is at most 1 and some index after 0 draws a non-root. |
| Forest.MakeNode | generate_nodes.py:96-118 | Building one node from the incrementally kept fallback list gives the same node, or the same `EmptyChoice` error, as `NextNode` over the filtered history. |
| Forest.NextNode | generate_nodes.py:96-109 | The created node follows its draw (`FollowsDraw`). Index 0 and root draws give a `CDN` node at level 1. Otherwise the node attaches to its drawn parent, one level below it, when that parent is below the ceiling; else it attaches to a member of the fallback list. A parent is always an earlier index, and a child never exceeds the ceiling. Failure happens only for a non-root after index 0 whose drawn parent is at the ceiling and whose fallback list is empty, and it names that index. |
| Forest.Generate | generate_nodes.py:84-125 | A successful run has exactly `n` nodes. A failure names an index `0 < i < n` whose draw was not a root. |
| Forest.Below | generate_nodes.py:102-107 | A draw read as a uniform choice always lands in range. A draw already in range selects itself. |
| Forest.UnderMaxIsFilter | generate_nodes.py:120-123 | The fallback list holds exactly the indices whose level is below the ceiling, each once, in creation order. |
| Forest.UnderMaxSnoc | generate_nodes.py:120-123 | Appending a node extends the fallback list by that node's index exactly when its level is below the ceiling. |
| Forest.FailureSticks | generate_nodes.py:107 | Once `random.choice` raises, no longer run succeeds: the error propagates unchanged. |
| Forest.GeneratePrefix | generate_nodes.py:90-120 | Nodes are only appended: a longer successful run starts with every shorter run. |
| Forest.GenerateFirstIsRoot | generate_nodes.py:98-99 | Record 0 is always a `CDN` root at level 1. |
| Forest.GenerateIsForest | generate_nodes.py:96-123 | Every generated sequence is acyclic, with parents created earlier. Each level is 1 for a root and the parent's level plus 1 otherwise. All levels are at least 1, and no level exceeds a ceiling of at least 1. With a ceiling below 1, every node of a successful run is a root. |
| Forest.GenerateFailsIff | generate_nodes.py:98-123 | A run raises if and only if the ceiling is at most 1 and some index after 0 draws a non-root. |
| Forest.GenerateFollowsDraws | generate_nodes.py:96-123 | In a successful run, index 0 and root draws give `CDN` roots at level 1. Every other node attaches to its drawn parent when that parent is below the ceiling, and otherwise to a node that was in the fallback list when it was created. |
| Forest.NodeFollowsDraw | generate_nodes.py:90-120 | Node `i` of a successful run is the node built from draw `i` and the nodes created before it. |
| Forest.LevelAtMostIndex | generate_nodes.py:98-109 | In a forest built in creation order, node `i` is at depth at most `i + 1`. |
| Forest.NoRootsAttachToDrawnParents | generate_nodes.py:98-105 | With no root draws after index 0 (`root_share` 0) and a ceiling above the row count, the run succeeds and every node after the first attaches to the parent it drew, one level below it. |
| Forest.FallbackNeverEmpty | generate_nodes.py:103-109 | With a ceiling of at least 2, node 0 is always eligible, so the fallback choice always succeeds. |
| Forest.FallbackAlwaysEmpty | generate_nodes.py:103-123 | With a ceiling of at most 1 no node is eligible, so creating a node fails exactly when it is a non-root after index 0. |
| Forest.DepthBoundNeedsPositiveCeiling | generate_nodes.py:205-210 | An unvalidated ceiling below 1 still yields a one-node run whose root exceeds the ceiling. |
| JsonArray.WriteJsonArray | generate_nodes.py:134-144 | The text written is `"[\n"`, then the rows' JSON texts in order separated by `",\n"`, then `"\n]\n"`. With no rows it is `"[\n\n]\n"`. |
| JsonArray.JoinSnoc | generate_nodes.py:139-143 | Writing one more row after the first adds the separator and that row's text. |
| JsonArray.SplitJoin | generate_nodes.py:137-144 | Splitting newline-free lines joined by newlines gives back the same lines. |
| JsonArray.FramedIsLines | generate_nodes.py:137-144 | The file consists of the bracket line, the row lines (each but the last ending in a comma, or one empty line when there are no rows), the closing bracket line and a final empty piece, all joined by newlines. |
| JsonArray.FramedLines | generate_nodes.py:137-144 | When no row text contains a newline, splitting the file at newlines gives exactly those lines. |
| JsonArray.FramedStartsWithBracket | generate_nodes.py:232-238 | The array file's first character is `[`, the character the converter uses to choose the array path. |
| CsvExport.FieldNames | generate_nodes.py:156-157 | The columns are strictly sorted in Python's string order. They are exactly the whitelisted keys that occur in some row. `level` is never a column. |
| CsvExport.SortDistinct | generate_nodes.py:157 | `sorted` of a set: strictly increasing, with the same elements as the input. |
| CsvExport.Insert | generate_nodes.py:157 | Inserting into a strictly sorted list keeps it strictly sorted and adds exactly the new element. |
| CsvExport.SortedUnique | generate_nodes.py:157 | Two strictly sorted lists with the same elements are equal, so the sorted column list is determined by the key set. |
| CsvExport.LessIrreflexive | generate_nodes.py:157 | No string sorts before itself. |
| CsvExport.LessTransitive | generate_nodes.py:157 | Python's string order is transitive. |
| CsvExport.LessTotal | generate_nodes.py:157 | Of two distinct strings, one sorts before the other. |
| CsvExport.LessAsymmetric | generate_nodes.py:157 | Two strings never sort before each other. |
| CsvExport.Present | generate_nodes.py:157 | Exactly the listed keys that occur in some row. |
| CsvExport.GeneratedColumns | generate_nodes.py:111-118 | Rows with the generator's six record keys produce the columns `BufferHealth, NodeId, SessionId, Source, timestamp`, in that order. |
| CsvExport.FirstMissing | generate_nodes.py:158 | Finds the first selected column, in column order, that the row lacks: every earlier column is present. This is the key `KeyError` names. Otherwise it confirms that the row has every column. |
| CsvExport.FirstBadRow | generate_nodes.py:158 | Finds the first row, in row order, that lacks a selected column. Every earlier row has all of them. |
| CsvExport.Project | generate_nodes.py:158 | Either one restricted row per input row with the same values, or the first `KeyError`: the first row lacking a column, all earlier rows being complete, and that row's first missing column in sorted order. |
| CsvExport.ArrayToCsv | generate_nodes.py:152-158 | Nothing is written if and only if the array is empty. A `KeyError` is raised if and only if some row lacks a selected column. It names the first such row and that row's first missing column in sorted order. Otherwise the header is `FieldNames`, with one restricted row per input row and the same values. |
| CsvExport.GeneratedRowsExport | generate_nodes.py:111-158 | Records built by the generator always export: no `KeyError`, the five-column header, one row per record. |

## Left out

- `gen_uuid` / `uuid.uuid4`: a `NodeId` is modelled by the node's index, and the source's ids are fresh and distinct.
- The timestamp checks at generate_nodes.py:75-82 are not modelled. Inside `generate_nodes` and before the loop, they raise `SystemExit` on an unparsable timestamp (75-79) or when `end_dt <= start_dt` (81-82). `Forest.Generate` has no such failure, because the timestamps are not modelled.
- `SessionId`, `BufferHealth` and `timestamp` are drawn independently of the forest shape. They are not part of `Forest.Node`. This leaves out the float sampling, rounding to two decimals, `random_timestamp` and the ISO timestamp parsing and formatting.
- `random.seed` and the Mersenne Twister generator: draws are inputs. The model proves properties for every draw sequence and says nothing about their distribution.
- `random.random() < root_share` is modelled by its boolean outcome, because the float comparison itself is out of scope.
- `max_children_hint` is accepted but never used by the generator, so it does not appear.
- `write_jsonl`, `stream_jsonl_to_csv`, `main`, argument parsing, the format check on the first character, and all file I/O are left out as I/O plumbing. `JsonArray.FramedStartsWithBracket` covers only the fact the format check relies on.
- `json.dump`'s text for one record is a parameter: JSON serialisation is not modelled.
- `json.loads(json.dumps(...))` at generate_nodes.py:158 is treated as the identity on the restricted rows. The CSV text written by `csv.DictWriter` is not modelled.
- `json.load` of a file that is not an array of objects is not modelled. Its rows are `map<string, V>`.
- The 32/64-bit width of Python floats and ints plays no part here. Python ints are unbounded, like Dafny's.
