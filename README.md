# De-identifier core in Dafny

This project models the two pieces of real logic in the de-identifier, a tool
that redacts personal data from CSV files with Presidio and, optionally, a
Flair named-entity tagger:

1. **The Flair recognizer** (`FlairRecognizer` in `deidentifier.py`), in
   `flair_recognizer.dfy`, module `FlairRecognizer`. It covers:
   - the constructor's fallback to the class defaults;
   - the label check that reconciles a Flair label with a requested Presidio
     entity through an ordered list of equivalence groups (`CheckLabel`);
   - the conversion of a span into a Presidio result through
     `PRESIDIO_EQUIVALENCES`;
   - `analyze`, written as a method with the source's two nested loops and
     `continue` guards. It is proved equal to the specification function
     `Collect`, and the lemmas describe `Collect`: where each result comes
     from, how results are ordered, how many there are, and that nothing is
     de-duplicated.

   The recognizer's fields are set once by the constructor and never change,
   so the recognizer is a datatype value. Its constructor is the function
   `New`. The tagger's prediction is an input: a sequence of `Span` records.
   A span keeps two fields, `labelValue` (the value of its first label, which
   the label check reads) and `tag` (which the type mapping reads).
2. **The CSV table handling** (`CSVDeidentifier` in `csv_deidentifier.py`), in
   `csv_deidentifier.dfy`, module `CsvDeidentifier`. It covers:
   - the optional case folding of every cell that has no `<`, header row
     included;
   - the transposition of the rows into a dict from header to column
     (`zip(*rows)` followed by a dict comprehension);
   - the reassembly in `write_output`: headers from the dict's keys, one row
     dict per tuple of `zip(*values)`.

   Python's insertion-ordered `dict` is modelled in `ordered_dicts.dfy`,
   module `OrderedDicts`. Assigning to a key that is already present replaces
   its value and keeps its position.

`deidentifier.py:22-90` is a verbatim copy of `csv_deidentifier.py:13-81`.
The CSV logic is modelled once. The table below cites `csv_deidentifier.py`,
and each line cited there has an identical copy 9 lines further down in
`deidentifier.py`: the folding comprehension is at line 60, the transposition
at line 62, and the reassembly at lines 79 and 82.

`wrappers.dfy` holds `Option`, which stands for an argument that may be
`None`, and `Falsy`, which is Python's truth test on such a list.

### Behaviour of the code on unusual input

- Ragged rows do not raise an error. `zip` truncates every column to the
  shortest row (`RaggedRowExample`, `TransposeKeys`).
- Duplicate headers do not raise an error. The key keeps the position of its
  first occurrence and takes the values of its last column
  (`TransposeKeyOrder`, `TransposeColumn`, `DuplicateHeaderExample`).
  With `lower_case`, the header row is folded before transposition, so
  headers such as "A" and "a" become one key and the earlier column's data is
  lost (`FoldedColumns` describes the case without such collisions).
- A table whose header row is empty transposes to an empty dict, so
  reassembly produces no rows even when the table had data rows. This is why
  `RoundTrip` needs a non-empty header.
- Reassembly does not fail on value lists of different lengths. It produces
  as many rows as the shortest list has entries (`WriteOutputShape`).
- Unsupported entity types are not filtered out of the results. `analyze`
  only checks that the *requested* entity is supported. The result's type
  comes from the span's tag, so a span whose tag differs from its label is
  reported under the tag's type (`LabelAndTagDisagree`). With the default
  groups and tag equal to label, the reported type is always the requested
  entity (`DefaultGroupsYieldRequestedType`).
- The label check does not stop at the first matching group. It evaluates
  every group and then applies `any`. The result is the same, and
  `CheckLabel` states it as an existential.

## Model

| member | source | states |
|---|---|---|
| `FlairRecognizer.DefaultRecognizer` | deidentifier.py:151-173 | `FlairRecognizer()` with all defaults has language "en", the entities LOCATION, PERSON, ORGANIZATION and the default groups. |
| `FlairRecognizer.New` | deidentifier.py:151-173 | Falsy `check_label_groups` becomes `CHECK_LABEL_GROUPS` and falsy `supported_entities` becomes `ENTITIES`; a truthy argument is kept. Both fields are therefore never empty. The language is kept and the name is "Flair Analytics". |
| `FlairRecognizer.CheckLabel` | deidentifier.py:264-270 | True exactly when some group contains the entity among its entities and the label among its labels. |
| `FlairRecognizer.NoGroupsRejectAll` | deidentifier.py:264-270 | With an empty group list no pair passes the check. |
| `FlairRecognizer.DefaultGroupsAccept` | deidentifier.py:130-135 | With the default groups, the check accepts exactly LOCATION with LOC or LOCATION, PERSON with PER or PERSON, and ORGANIZATION with ORG. |
| `FlairRecognizer.DefaultGroupsExamples` | deidentifier.py:130-135 | (PERSON, PER) and (PERSON, PERSON) pass. (PERSON, LOC) fails. (ORGANIZATION, ORGANIZATION) fails, because only ORG is listed. |
| `FlairRecognizer.ConvertToRecognizerResult` | deidentifier.py:232-245 | The tag PER becomes PERSON, LOC becomes LOCATION and ORG becomes ORGANIZATION; any other tag is kept as it is. Start and end are the span's offsets, unchanged. |
| `FlairRecognizer.Matching` | deidentifier.py:215-228 | The span loop for one entity yields at most one result per span. |
| `FlairRecognizer.Analyze` | deidentifier.py:188-230 | The nested loops build exactly `Collect` over the requested entities. When the entity argument is None or empty, the result equals the result for `supported_entities`. |
| `FlairRecognizer.EntityResults` | deidentifier.py:211-228 | One pass of the entity loop yields at most one result per span, and nothing when the `continue` guard skips an unsupported entity. |
| `FlairRecognizer.Collect` | deidentifier.py:211-228 | The entity loop appends each entity's results in list order; there are at most as many results as entities times spans. |
| `FlairRecognizer.UnsupportedContributesNothing` | deidentifier.py:211-213 | A requested entity outside `supported_entities` adds no results, wherever it stands in the list. |
| `FlairRecognizer.MatchingAppend` | deidentifier.py:215-228 | Results for one entity follow span order: the results for spans `a + b` are those for `a` followed by those for `b`. |
| `FlairRecognizer.CollectAppend` | deidentifier.py:211-228 | Results are entity-major: the results for entities `a + b` are those for `a` followed by those for `b`. |
| `FlairRecognizer.MatchingMembers` | deidentifier.py:215-228 | A result is in one entity's output exactly when it is the conversion of some span whose label passes the check for that entity. |
| `FlairRecognizer.CollectMembers` | deidentifier.py:211-228 | Every result comes from a requested entity that is supported and from a span whose label passes the check for it. Conversely, every such pair yields a result. |
| `FlairRecognizer.RepeatedEntitiesRepeatResults` | deidentifier.py:211-228 | Nothing is de-duplicated: requesting the entity list twice gives its results twice. |
| `FlairRecognizer.SpanMatchingTwoEntitiesAppearsTwice` | deidentifier.py:211-228 | For any predicted spans and any requested list, a span accepted for the supported entities at two positions of the list occurs at least twice among the results. |
| `FlairRecognizer.MatchingLength` | deidentifier.py:215-228 | One entity's result count is the number of spans that pass its check. |
| `FlairRecognizer.CollectLength` | deidentifier.py:211-228 | The result count is the sum of those counts over the supported requested entities, repeats included. |
| `FlairRecognizer.DefaultGroupsYieldRequestedType` | deidentifier.py:130-149 | With the default groups and spans whose tag equals their label, every result's type is the requested entity. |
| `FlairRecognizer.LabelAndTagDisagree` | deidentifier.py:215-234 | The check reads the label and the type mapping reads the tag. A span labelled PER and tagged LOC, requested as PERSON, is reported as LOCATION. |
| `OrderedDicts.Insert` | csv_deidentifier.py:53 | Assigning `d[k] = v` keeps the dict well formed: keys are distinct and match the map. A key already present keeps its position; a new key goes last. |
| `OrderedDicts.FromPairs` | csv_deidentifier.py:53 | A dict comprehension always yields a well-formed ordered dict. |
| `OrderedDicts.FromPairsKeys` | csv_deidentifier.py:53 | The dict's keys are exactly the keys that occur among the pairs. |
| `OrderedDicts.FromPairsLast` | csv_deidentifier.py:53 | A key's value is the one paired with its last occurrence. |
| `OrderedDicts.FromPairsOrder` | csv_deidentifier.py:53 | Keys are listed in order of first occurrence among the pairs, however often a key is assigned again later. |
| `OrderedDicts.FromPairsDistinct` | csv_deidentifier.py:53 | When keys are distinct, the dict's key order is the order of the pairs. |
| `CsvDeidentifier.LowerChar` | csv_deidentifier.py:51 | ASCII lower-casing: no upper-case letter remains, an upper-case letter moves up by 32 code points ('A' to 'a'), every other character is kept, and `<` is kept. |
| `CsvDeidentifier.Lower` | csv_deidentifier.py:51 | `str.lower` keeps the length and lower-cases each character on its own. |
| `CsvDeidentifier.LowerKeepsMarker` | csv_deidentifier.py:51 | Lower-casing neither adds nor removes `<`. |
| `CsvDeidentifier.FoldCell` | csv_deidentifier.py:51 | A cell containing `<` is unchanged. Any other cell becomes its lower-case form, which still contains no `<`. The length is kept either way. |
| `CsvDeidentifier.FoldCase` | csv_deidentifier.py:51 | Folding keeps the number of rows and every row's length, and folds every cell, header row included. |
| `CsvDeidentifier.FoldCellIdempotent` | csv_deidentifier.py:51 | Folding a cell twice is the same as folding it once. |
| `CsvDeidentifier.FoldCaseIdempotent` | csv_deidentifier.py:51 | Folding a table twice is the same as folding it once. |
| `CsvDeidentifier.Width` | csv_deidentifier.py:53 | The number of `zip(*rows)` tuples is the length of the shortest row, and 0 when there are no rows. |
| `CsvDeidentifier.Zip` | csv_deidentifier.py:53 | There is one tuple per column up to that width, and tuple `j` holds cell `j` of each row, in row order. |
| `CsvDeidentifier.HeaderColumns` | csv_deidentifier.py:53 | Each `header, *values` pair has header cell `j` and the cells of column `j` below it, one per data row. |
| `CsvDeidentifier.Transpose` | csv_deidentifier.py:53 | The transposed dict is well formed. |
| `CsvDeidentifier.RectangularWidth` | csv_deidentifier.py:53 | For a rectangular table, the width is the header's length. |
| `CsvDeidentifier.TransposeKeys` | csv_deidentifier.py:53 | The keys are the header cells of the first `Width(rows)` columns and nothing else; cells beyond the shortest row are dropped. |
| `CsvDeidentifier.TransposeColumn` | csv_deidentifier.py:53 | When no later column repeats header `j`, its value is the list of `rows[i][j]` for `i >= 1`, in row order, of length `len(rows) - 1`. |
| `CsvDeidentifier.TransposeValueLengths` | csv_deidentifier.py:53 | Every value list has one entry per data row. |
| `CsvDeidentifier.TransposeAllValueLengths` | csv_deidentifier.py:53 | The same holds for all keys at once. |
| `CsvDeidentifier.TransposeDistinctHeaders` | csv_deidentifier.py:53 | With distinct headers, the keys are the headers in column order. |
| `CsvDeidentifier.TransposeKeyOrder` | csv_deidentifier.py:53 | Keys follow the order of the first column that carries each header. |
| `CsvDeidentifier.DuplicateHeaderExample` | csv_deidentifier.py:53 | Headers `a, b, a` give keys `a, b`. The key `a` takes the last `a` column's data. |
| `CsvDeidentifier.RaggedRowExample` | csv_deidentifier.py:53 | A data row shorter than the header truncates the dict to that row's length, without an error. |
| `CsvDeidentifier.ColumnsForAnalysis` | csv_deidentifier.py:48-55 | The dict handed to the analyzer is well formed, has one entry per data row under every key, and is the transposition of the folded rows when `lower_case` is on and of the rows as read when it is off. |
| `CsvDeidentifier.FoldCaseWidth` | csv_deidentifier.py:51-53 | Folding keeps the transposed width. |
| `CsvDeidentifier.FoldedColumns` | csv_deidentifier.py:51-53 | With `lower_case`, the key for column `j` is the folded header and its values are the folded cells. |
| `CsvDeidentifier.RowDict` | csv_deidentifier.py:73 | `dict(zip(headers, row))`: every key is a header and every value a cell of the row. |
| `CsvDeidentifier.RowDictAt` | csv_deidentifier.py:73 | With distinct headers, `dict(zip(headers, row))` has exactly the headers as keys and maps `headers[j]` to `row[j]`. |
| `CsvDeidentifier.ValuesInOrder` | csv_deidentifier.py:73 | `values()` lists the value of each key in key order. |
| `CsvDeidentifier.WriteOutput` | csv_deidentifier.py:64-73 | The output headers are the dict's keys in order, and every output row is keyed by those headers only. |
| `CsvDeidentifier.WriteOutputShape` | csv_deidentifier.py:70-73 | The output headers are the keys in order. The row count is the minimum length of the value lists, and there are no rows for an empty dict. |
| `CsvDeidentifier.WriteOutputCells` | csv_deidentifier.py:73 | Output row `i` has the headers as keys and maps `headers[j]` to entry `i` of that header's list. |
| `CsvDeidentifier.RoundTrip` | csv_deidentifier.py:53-73 | Rectangular table, distinct non-empty header, identity anonymization: reassembly gives back the header and, for each data row in order, the dict from header to cell. |

## Left out

- File I/O is not modelled: `open`, `csv.reader` and `csv.DictWriter` (csv_deidentifier.py:48-49, 75-78). The table comes in as rows of strings, and the output is the header list plus the row dicts. The writer takes column order from the header list, so each row dict is a plain map.
- Presidio's `analyze_dict` and `anonymize_dict` are not modelled, and neither are `anonymize_csv`, `run` or the engine set-up in the constructor (`add_flair`, `RecognizerRegistry`, the two engine base classes). These are calls into libraries whose code is not part of this model. Skipping columns (`keys_to_skip`), overlap resolution and placeholder substitution happen inside them. Reassembly therefore takes the anonymized dict as an arbitrary input, and the round trip is stated for the identity anonymization.
- Flair model loading and inference are not modelled: `SequenceTagger.load`, `MODEL_LANGUAGES`, `Sentence` and `predict`. The prediction is the input sequence of spans. `DefaultLanguage` records the constructor's `"en"` default, used by `DefaultRecognizer`.
- Scores are not modelled, including `round(ent.score, 2)`: they are floating-point values that no modelled decision reads. `RecognizerResult` carries only the type and the offsets.
- Explanations are not modelled: `DEFAULT_EXPLANATION`, `build_flair_explanation` and `AnalysisExplanation`. They are cosmetic wrappers over a library type.
- `load` and `get_supported_entities` are not modelled. The first does nothing, and the second returns the `supportedEntities` field, which the model reads directly.
- The model assumes every Flair span has at least one label, because the source reads `labels[0]` without a check.
- `list(map(str, values))` is the identity on cells that are already strings, so the model leaves it out.
- `CsvDeidentifier.Lower`: models `str.lower` on ASCII letters only. Non-ASCII case mappings in Python's Unicode tables are not modelled.
- setup.py is packaging metadata and is not part of this model.
