# SplitFullnames, modelled in Dafny

SplitFullnames splits a Brazilian full name ("nome completo") into a given name
("nome") and a surname ("sobrenome") with a trained spaCy named-entity
recogniser. This project models the string and sequence logic around the
recogniser and proves properties of it:

- **Training-data builder** (`01_gerar_dataset_spacy.py`, module
  `DatasetBuilder`). For each CSV row, `criar_entidades` searches the full name
  for the given name and then for the surname. The search is case-insensitive
  and takes the first occurrence. Each hit becomes a
  `(start, end, label)` span labelled GIVEN_NAME or SURNAME. The row loop of
  `gerar_spacy_dataset` then keeps only the spans the tokenizer's `char_span`
  can realise, and attaches the kept list to the row's document. spaCy refuses
  that assignment when two kept spans overlap, and the error ends the loop
  before anything is written; the model returns the row that stops it.
- **Entity aggregator** (`separar_nomes.py`, module `NameSplitter`).
  `separar_nome` runs the recogniser and puts the text of each GIVEN_NAME
  entity in one list and each SURNAME entity in another. Entities with any
  other label are skipped. Each list is joined with single spaces.
- **HTTP handler** (`api.py`, module `Api`). `separar` does the same bucketing
  and answers `{entrada, nome, sobrenome}`, echoing the input.
- **String primitives** (module `Text`). These are the parts of Python's `str`
  the code relies on: `lower`, `find` and `" ".join`. The module also defines
  `split` on one character, which is used to state that the join loses nothing.

The recogniser is a parameter of type `string -> seq<RecognizedEntity>`. The
tokenizer's `char_span` success test is a parameter of type
`(string, int, int) -> bool`. Neither is modelled further. The label of an
entity is the field `tag`, because `label` is a Dafny keyword.

`api.py` and `separar_nomes.py` do no input validation, set no time budget,
raise no errors of their own and have no CSV mode, so `separar` answers every
input, including one where both outputs are empty.

## Model

| member | source | states |
|---|---|---|
| `Text.LowerChar` | 01_gerar_dataset_spacy.py:25 | lower-casing one character maps each ASCII and Latin-1 capital `c` to `c + 32`, leaves every other character alone, and never yields a capital |
| `Text.Lower` | 01_gerar_dataset_spacy.py:25 | `str.lower` as a per-character map that keeps the length, which is what lets an index into the lower-cased text serve as an index into the original |
| `Text.LowerSlice` | 01_gerar_dataset_spacy.py:25 | lower-casing then slicing equals slicing then lower-casing |
| `Text.FindFrom` | 01_gerar_dataset_spacy.py:25 | the search from index `k` returns -1 when the needle occurs nowhere from `k` on, else an index where it occurs with no occurrence between `k` and it |
| `Text.Find` | 01_gerar_dataset_spacy.py:25-26 | `str.find`: -1 exactly when the needle occurs nowhere; otherwise an index where it occurs, and it occurs at no smaller index |
| `Text.Join` | separar_nomes.py:19 | `" ".join`: no parts give `""`, one part gives that part, and otherwise the result starts with the first part |
| `Text.JoinLength` | separar_nomes.py:19 | a join of k ≥ 1 parts is as long as the parts together plus k−1 separators |
| `Text.SplitPiece` | separar_nomes.py:19 | a separator-free piece followed by the separator splits off as one piece |
| `Text.SplitWhole` | separar_nomes.py:19 | a separator-free string splits into itself alone |
| `Text.SplitJoin` | separar_nomes.py:19 | splitting on the separator gives back the parts of a join, when there is at least one part and no part contains the separator |
| `DatasetBuilder.MatchesLowerIff` | 01_gerar_dataset_spacy.py:25 | the lower-cased needle occurs in the lower-cased text at `i` exactly when the text's slice at `i` equals the needle up to case |
| `DatasetBuilder.OrderedAtMostTwo` | 01_gerar_dataset_spacy.py:23-33 | a span list with GIVEN_NAME before SURNAME holds at most two spans |
| `DatasetBuilder.Locate` | 01_gerar_dataset_spacy.py:24-27 | one name yields at most one entity. It yields one exactly when the name is non-empty and occurs up to case. That entity has the requested label, `end == start + len(name)`, `0 <= start < end <= len(text)`, and starts at the first case-insensitive occurrence |
| `DatasetBuilder.BuildEntities` | 01_gerar_dataset_spacy.py:15-35 | `criar_entidades` returns at most two entities, labelled GIVEN_NAME or SURNAME, with a GIVEN_NAME entity before a SURNAME one. There is a GIVEN_NAME (SURNAME) entity exactly when `nome` (`sobrenome`) is non-empty and found. Each entity is bounded, has the name's length and sits at the name's first case-insensitive occurrence |
| `DatasetBuilder.CoincidingSpans` | 01_gerar_dataset_spacy.py:23-33 | the two names are located independently with no overlap check: the same name twice yields two coinciding spans |
| `DatasetBuilder.NothingFound` | 01_gerar_dataset_spacy.py:20-35 | when neither name is found, the entity list is empty and nothing fails |
| `DatasetBuilder.Kept` | 01_gerar_dataset_spacy.py:50-53 | the filter keeps no more spans than there are entities, and `char_span` succeeds on every kept span |
| `DatasetBuilder.KeptAppend` | 01_gerar_dataset_spacy.py:50-53 | filtering a concatenation is the concatenation of the filtered parts |
| `DatasetBuilder.KeptMembers` | 01_gerar_dataset_spacy.py:50-53 | a span is kept exactly when it is one of the entities and `char_span` succeeds on it |
| `DatasetBuilder.KeptIsSubsequence` | 01_gerar_dataset_spacy.py:50-53 | the kept spans are a subsequence of the entities, in their original order |
| `DatasetBuilder.SubsequenceLength` | 01_gerar_dataset_spacy.py:50-53 | a subsequence is no longer than its source, so filtering never adds spans |
| `DatasetBuilder.KeptKeepsLabelOrder` | 01_gerar_dataset_spacy.py:50-53 | filtering preserves "GIVEN_NAME before SURNAME" |
| `DatasetBuilder.FilterAlignable` | 01_gerar_dataset_spacy.py:47-55 | the `for` loop over the entities appends exactly the spans the filter keeps, in order |
| `DatasetBuilder.ExampleOf` | 01_gerar_dataset_spacy.py:45-55 | a row's document carries the row's full name and at most two spans, each one of the located entities and accepted by `char_span` |
| `DatasetBuilder.ExampleSpans` | 01_gerar_dataset_spacy.py:45-56 | a row's document carries its full name and the located spans `char_span` accepts, no others. These form a subsequence of the located entities: at most two, GIVEN_NAME before SURNAME |
| `DatasetBuilder.SameNameConflicts` | 01_gerar_dataset_spacy.py:23-33 | the same name as given name and surname, with a tokenizer that accepts both spans, gives a document whose spans overlap, which `doc.ents = spans` refuses |
| `DatasetBuilder.BuildDocument` | 01_gerar_dataset_spacy.py:45-53 | the loop body up to `doc.ents` (locate, make the document, filter) yields exactly the row's document |
| `DatasetBuilder.ExamplesUpTo` | 01_gerar_dataset_spacy.py:40-56 | the rows so far give one document each |
| `DatasetBuilder.ExamplesUpToAt` | 01_gerar_dataset_spacy.py:40-56 | the document at position `k` is the document of row `k`: documents keep row order |
| `DatasetBuilder.BuildUpTo` | 01_gerar_dataset_spacy.py:40-56 | a row reported as stopping the loop is one of the rows processed so far |
| `DatasetBuilder.ConflictPersists` | 01_gerar_dataset_spacy.py:55 | once `doc.ents = spans` has raised at a row, later rows change nothing: the error leaves the loop |
| `DatasetBuilder.BuildUpToDocuments` | 01_gerar_dataset_spacy.py:40-56 | the loop gets through the first `n` rows exactly when no row among them has overlapping kept spans, and then holds their documents in row order |
| `DatasetBuilder.BuildUpToConflict` | 01_gerar_dataset_spacy.py:40-56 | the row that stops the loop has overlapping kept spans and every earlier row has none |
| `DatasetBuilder.RowStep` | 01_gerar_dataset_spacy.py:45-56 | one turn of the row loop: a document with overlapping spans ends the whole build with an error at its row, any other document is appended |
| `DatasetBuilder.BuildExamples` | 01_gerar_dataset_spacy.py:40-56 | the loop's outcome is `BuildUpTo` over all rows with each row's own document (`ExampleOf`), so by `BuildUpToDocuments` and `BuildUpToConflict` it is one document per row in row order, each with its filtered span list even when that is empty, or else the first row whose kept spans overlap |
| `NameSplitter.TextsLabelled` | separar_nomes.py:13-17 | a bucket holds at most one text per entity |
| `NameSplitter.TextsAppend` | separar_nomes.py:13-17 | bucketing a concatenation concatenates the buckets, so texts keep entity order |
| `NameSplitter.IgnoresOtherLabel` | separar_nomes.py:14-17 | inserting an entity with another label anywhere leaves the bucket unchanged |
| `NameSplitter.TextsEmptyIff` | separar_nomes.py:13-19 | a bucket is empty exactly when no entity has its label |
| `NameSplitter.TextsMembers` | separar_nomes.py:13-17 | a text is in a bucket exactly when an entity with that label carries it |
| `NameSplitter.BucketsPartition` | separar_nomes.py:14-17 | each entity lands in exactly one of the two buckets or is ignored: the bucket sizes plus the number of other-labelled entities equal the entity count |
| `NameSplitter.TextsSnoc` | separar_nomes.py:13-17 | one more turn of the loop appends the entity's text to a bucket exactly when the entity carries that bucket's label |
| `NameSplitter.SplitName` | separar_nomes.py:8-19 | `separar_nome` returns the single-space join of the GIVEN_NAME texts and of the SURNAME texts of the recogniser's entities for the input, in entity order; each is `""` when no entity carries its label |
| `NameSplitter.JoinedBucketLength` | separar_nomes.py:19 | a joined bucket of k ≥ 1 texts is as long as the texts together plus k−1; an empty bucket gives `""` |
| `NameSplitter.BucketRecoverable` | separar_nomes.py:19 | splitting a joined non-empty bucket on spaces gives the bucket back when no text in it contains a space |
| `NameSplitter.MariaSilva` | separar_nomes.py:13-19 | entities GIVEN_NAME "Maria" and SURNAME "Silva" give "Maria" and "Silva" |
| `Api.SeparationOf` | api.py:19-23 | the response echoes the input as `entrada`, and a field is `""` when no entity carries its label |
| `Api.Separate` | api.py:8-23 | `separar` answers the input unchanged as `entrada`, and as `nome`/`sobrenome` the single-space joins of the GIVEN_NAME and SURNAME texts in entity order; a field is `""` when no entity carries its label |
| `Api.SeparateAgreesWithSplitName` | api.py:9-23 | for the same recogniser and input, `separar`'s `nome` and `sobrenome` equal the two outputs of `separar_nome` |
| `Api.MariaSilvaRequest` | api.py:13-23 | a request for "Maria Silva", with a recogniser that finds "Maria" and "Silva", answers `{entrada: "Maria Silva", nome: "Maria", sobrenome: "Silva"}` |

## Left out

- Recogniser inference (`modelo(nome_completo)`, `nlp(nome_completo)`): a foreign library call. It is a function parameter returning the entity sequence, and each entity's text is taken as given rather than tied to offsets in the input.
- Tokenization (`spacy.blank("pt")`, `make_doc`, `char_span`): foreign library calls. `char_span` success is a function parameter, and the kept `(start, end, label)` triple stands for the `Span` object it returns.
- The exception spaCy raises at `doc.ents = spans` for overlapping spans: its type and message are library behaviour. The model reports only the row where it happens (`ConflictingEntities`).
- `DocBin`, `to_disk`, `pandas.read_csv`, `iterrows`, `print`, `argparse` in `main`, `spacy.load` and `carregar_modelo`: I/O and foreign calls. When no row conflicts, `BuildExamples` returns the document sequence that `DocBin` would store.
- The 85/15 train/validation split (`train_test_split` with `random_state=42`): a library shuffle whose algorithm is not part of this model.
- FastAPI routing and HTTP status codes (api.py:4, 7): framework plumbing.
- `Text.LowerChar`: does not model Unicode case mapping beyond ASCII and Latin-1. Python's `str.lower` also lower-cases other scripts, and it can lengthen a string (U+0130 becomes two characters), which would shift the offsets. The model assumes a length-preserving per-character map.
- pandas NaN cells for a missing `nome` or `sobrenome`: NaN is truthy and `.lower()` on it fails. The model takes the fields as strings, where a missing value is `""`.
- The unused local `start_index` in `criar_entidades` (01_gerar_dataset_spacy.py:21) has no effect and is not modelled.
