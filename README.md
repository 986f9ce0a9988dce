# Contact embedding featurization (getcontacts)

This project models, in Dafny, the featurization step of the getcontacts tool
`get_contact_embedding.py`. The tool reads a dynamic contact file and turns
the residue contacts it holds into a binary feature matrix for an embedding
projector. Each residue pair is one column and each trajectory frame is one
tab-separated row of `0`/`1` values.

The model covers three parts of `main`:

- **Interaction-type expansion.** A request that contains `all` becomes the
  fixed list of sixteen tags. Any other request is kept as it is
  (`ExpandInteractionTypes`).
- **Aggregation.** One pass over the `(frame, residue_a, residue_b)` records
  builds a dictionary that is insertion-ordered, as in Python 3.7 and later. It maps the key
  `residue_a + "-" + residue_b` to the set of frames where that key was seen
  (`Aggregate`). The dictionary is modelled as a key sequence plus a map
  (`ContactDict`). One loop step is `AddContact`; the loop's result over a
  record prefix is `Aggregation`, the fold of `AddContact`. `Aggregation` is
  proved equal to `KeyOrder` (the keys in first-seen order) and `FramesOf`
  (the frames of the records with a given key). `KeyOrderMembers`,
  `FramesOfMembers` and `KeyOrderFollowsFirstOccurrence` describe those two
  without recursion.
- **Row emission.** For each frame from 0 to `num_frames - 1`, one line is
  written. It holds `"1"` or `"0"` per key in key order, joined by tabs and
  ended by a newline (`Row`, `Line`, `WriteEmbedding`). `Featurize` chains
  the aggregation and the row emission.

Module `Delimited` models Python's `sep.join` and `str.split` on one
character. Joining a split always gives back the string (`JoinSplit`).
Splitting a join gives back the fields when there is at least one field and
none contains the separator (`SplitJoin`). A row's fields are `"1"` or `"0"`,
so they meet that condition. This is how the model states that a line reads
back as exactly one field per column when there is at least one column. With
none, the line reads back as one empty field.

Behaviours of the source that the model keeps on purpose:

- The pair key is not canonicalised. For distinct dash-free residues, `A-B`
  and `B-A` are different columns (`PairKeySwapDiffers`). Equal residues, or
  names such as `"-"` and `""`, give the same key both ways.
- The key is plain concatenation. Residue names that contain a dash can
  therefore share a column: `("A-B", "C")` and `("A", "B-C")` (`PairKeyCollision`).
  When residue A holds no dash, the key is injective (`PairKeyInjective`).
- A record frame outside `0 .. num_frames - 1` still creates its column. It
  never shows as a `"1"`, because rows exist only for frames in that range.
- With no keys at all, every line is just `"\n"`.

The command-line default for `--itypes` is the string `"all"`, not a list.
In Python, `"all" in "all"` is true, so the default expands exactly like the
list `["all"]`. The model takes the request as a list of tags.

## Model

| member | source | states |
|---|---|---|
| `ContactEmbedding.ExpandInteractionTypes` | Applications/get_contact_embedding.py:59-61 | if `all` is requested the result is exactly the sixteen tags `sb` … `lwb2`; otherwise the request is unchanged; the result never contains `all` |
| `ContactEmbedding.ExpandIdempotent` | Applications/get_contact_embedding.py:59-61 | expanding an already expanded request changes nothing |
| `ContactEmbedding.AllInteractionTypesDistinct` | Applications/get_contact_embedding.py:60-61 | the sixteen tags that `all` stands for are pairwise distinct |
| `ContactEmbedding.PairKeyIsJoin` | Applications/get_contact_embedding.py:76 | the column key is residue A and residue B joined by one dash |
| `ContactEmbedding.PairKeyKeepsFieldOrder` | Applications/get_contact_embedding.py:76 | for the residues `A10` and `B20`, swapping them gives a different key |
| `ContactEmbedding.PairKeySwapDiffers` | Applications/get_contact_embedding.py:76 | the key is not canonicalised: swapping two distinct residues that hold no dash always gives a different key |
| `ContactEmbedding.PairKeyCollision` | Applications/get_contact_embedding.py:76 | distinct pairs whose concatenations coincide, ("A-B","C") and ("A","B-C"), share one key |
| `ContactEmbedding.PairKeyInjective` | Applications/get_contact_embedding.py:76 | when residue A holds no dash, equal keys mean equal residue pairs |
| `ContactEmbedding.KeyOrder` | Applications/get_contact_embedding.py:73-76 | the keys in first-seen order hold each key once |
| `ContactEmbedding.KeyOrderMembers` | Applications/get_contact_embedding.py:75-76 | a key is a column if and only if some record has that key |
| `ContactEmbedding.FramesOfMembers` | Applications/get_contact_embedding.py:75-76 | a frame is in a key's set if and only if some record has that key and that frame, so repeated records add nothing |
| `ContactEmbedding.FramesOfNonEmptyIffKey` | Applications/get_contact_embedding.py:75-76 | a key's frame set is non-empty if and only if the key is a column |
| `ContactEmbedding.AddContact` | Applications/get_contact_embedding.py:76 | one `defaultdict(set)` step keeps the dictionary well formed: each key once, and the key order holds exactly the mapping's keys |
| `ContactEmbedding.Aggregation` | Applications/get_contact_embedding.py:73-76 | the dictionary built by the loop over any records is well formed |
| `ContactEmbedding.AggregationMatchesSpec` | Applications/get_contact_embedding.py:73-76 | the loop's dictionary has the first-seen key order, and each key's set is exactly the frames of its records and never empty |
| `ContactEmbedding.FramesOfSnoc` | Applications/get_contact_embedding.py:76 | one more record adds its frame to its own key's set and leaves every other key's set unchanged |
| `ContactEmbedding.KeyOrderSnoc` | Applications/get_contact_embedding.py:76 | one more record appends its key to the column order if the key is new, and otherwise leaves the order unchanged |
| `ContactEmbedding.AggregationSnoc` | Applications/get_contact_embedding.py:75-76 | running the loop over one more record is one more dictionary step |
| `ContactEmbedding.AggregationStep` | Applications/get_contact_embedding.py:76 | the step as the loop performs it: an absent key first gets an empty set, then the frame is added |
| `ContactEmbedding.AddContactPresent` | Applications/get_contact_embedding.py:76 | adding a frame that its key's set already holds leaves the dictionary unchanged |
| `ContactEmbedding.DuplicateRecordAddsNothing` | Applications/get_contact_embedding.py:73-76 | repeating a record already seen leaves the dictionary unchanged: same key order, same frame sets |
| `ContactEmbedding.KeyOrderPrefix` | Applications/get_contact_embedding.py:75-76 | later records never reorder or drop keys: the key order of a prefix of the records is a prefix of the whole key order |
| `ContactEmbedding.KeyOrderFollowsFirstOccurrence` | Applications/get_contact_embedding.py:75-79 | columns are in first-occurrence order: every occurrence of column b's key comes after some occurrence of the key of any earlier column a |
| `ContactEmbedding.Aggregate` | Applications/get_contact_embedding.py:73-76 | the loop's dictionary is the specified one: well formed, first-seen key order, and each key's set exactly the non-empty set of frames of the records with that key |
| `ContactEmbedding.Row` | Applications/get_contact_embedding.py:79 | one field per key, each `"1"` or `"0"`, and `"1"` if and only if the frame is in that key's set |
| `ContactEmbedding.LineShape` | Applications/get_contact_embedding.py:80 | a line ends in one newline and holds no other; it is two characters per column, or just the newline when there are no columns |
| `ContactEmbedding.LineReadsBack` | Applications/get_contact_embedding.py:79-80 | splitting a line on tabs gives back exactly its row, one field per column, when there is at least one column; with none, the line reads back as one empty field |
| `ContactEmbedding.CellIsOneIffObserved` | Applications/get_contact_embedding.py:75-79 | the cell of frame f and column j is `"1"` if and only if some record has frame f and column j's key |
| `ContactEmbedding.OnePairExample` | Applications/get_contact_embedding.py:73-80 | one pair seen at frames 0 and 1, over three frames, gives one column reading 1, 1, 0 |
| `ContactEmbedding.WriteEmbedding` | Applications/get_contact_embedding.py:78-80 | exactly `num_frames` lines, none when `num_frames` is not positive, and line f is the line of frame f |
| `ContactEmbedding.Featurize` | Applications/get_contact_embedding.py:73-80 | the columns are the first-seen keys of the records, and the lines are those of the aggregated dictionary, one per frame |
| `Delimited.JoinAddsOnlySeparators` | Applications/get_contact_embedding.py:80 | a join adds only separators: a character that is no separator and occurs in no field does not occur in the result |
| `Delimited.SplitJoin` | Applications/get_contact_embedding.py:80 | splitting a join of one or more separator-free fields gives back the fields |
| `Delimited.JoinSplit` | Applications/get_contact_embedding.py:80 | joining a split gives back the string |
| `Delimited.JoinLength` | Applications/get_contact_embedding.py:80 | a join of one-character fields has one separator between neighbours, so `2n - 1` characters |

## Left out

- Argument parsing, the parser's `error` override, the usage text and exit status 2 (lines 18-56): command-line plumbing with no logic to state.
- File handling (lines 63-65, 80-82): the output file is modelled as the sequence of lines written to it. Closing the file and the progress messages are not modelled.
- `parse_contacts` and `res_contacts` (lines 68-69): they come from `contact_calc.transformations`, which is not part of this model. Their results, the record sequence and `num_frames`, are inputs. Filtering by interaction type happens inside `parse_contacts`, so the model covers only the expansion of the requested tags.
- Column order (`KeyOrder`, `KeyOrderFollowsFirstOccurrence`, `Aggregate`, `Featurize`): this assumes the insertion-ordered dictionaries of Python 3.7 and later. The script also runs under Python 2 (line 12 imports `division` from `__future__`), where `items()` at line 79 follows hash order. That order is not modelled.
- The `sys.path` set-up and the `__main__` entry point (lines 85-91): environment set-up.
