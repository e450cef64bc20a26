# ReproInventory core, modelled in Dafny

ReproInventory catalogues training materials for reproducible neuroimaging
research. This project models the pure logic of the repository and proves
properties of it:

- **Browser** (`browser.dfy`) — the training-materials browser. It covers:
  - the material record and the filter state (eight pieces of UI state);
  - the conjunctive filter behind `filteredMaterials`: a case-insensitive
    search over title and description, membership facets for format and
    difficulty, overlap facets for audience, topics, research stages and
    practices, and the featured switch;
  - the two state handlers `handleFilterChange` and `clearAllFilters`.
- **Viewer** (`viewer.dfy`) — the legacy viewer's `applyFilters`. It is a
  case-insensitive substring filter on the `Level` and `Course Name`
  columns, including the `TypeError` the callback throws on a cell that is
  not a string.
- **Generator** (`generator.dfy`, with **Records** in `records.dfy`) — the
  sheet-to-records conversion of `generate_reproinventory_data.py`:
  - `parse_multivalued` (delimiter precedence `,` then `;` then ` / `,
    strip, drop empty pieces);
  - `convert_to_boolean`;
  - cell normalisation, snake-case keys and the integer id;
  - the row loop, with the record being a Python dict, that is an
    insertion-ordered map (`Records.Dict`);
  - the sheet loop, including the `IndexError` a data row longer than the
    header row raises.
- **EditDialog** (`edit_dialog.dfy`) — the edit dialog's field operations:
  - set a field;
  - toggle a checkbox option;
  - replace, append or remove a list item;
  - the checkbox's ticked state.
- **Inventory** (`inventory.dfy`) — the `ReproInventoryEntry` type:
  - its eleven enumerations;
  - the record with its 25 declared keys;
  - the `isReproInventoryEntry` guard;
  - the `toReproInventoryEntry` normaliser.
- **Shared modules**:
  - `text.dfy` — ASCII lower-casing, Python whitespace stripping, substring
    search, split and join;
  - `seqs.dfy` — the stable filter `Keep` and the subsequence relation;
  - `values.dfy` — JSON-like values;
  - `wrappers.dfy` — `Option` and `Result`.

Entry fields hold a dynamically typed `Value` (null, boolean, integer,
string or list of strings), not the `string` the TypeScript interface
declares. The generator writes lists for the multi-valued columns, booleans
for the yes/no columns and an integer id, and the dialog reads the same
fields as `string[]`. A multi-valued field is therefore a `List` or `Null`,
which is the `Option<seq<string>>` shape. A declared field is `None` when
the key is absent and `Some(Null)` when it holds `null`.

Three facts about the browser in training-materials-browser.tsx shape the
model:

- the search reads only the title and the description (lines 185-191);
- format and difficulty are lists of selected values, each tested for
  membership of the material's value (lines 193-196 and 221-224);
- the last filter is the `featured` switch (lines 226-229).

## Model

| member | source | states |
|---|---|---|
| Browser.FilterMaterials | frontend/src/training-materials-browser.tsx:182-232 | The visible list is an order-preserving subsequence of the catalogue. A material is visible exactly when it is in the catalogue and passes every check. Each visible material appears as often as in the catalogue. |
| Browser.ShownIff | frontend/src/training-materials-browser.tsx:185-231 | Visibility stated on the material's fields. An empty query passes; otherwise the lower-cased query occurs in the lower-cased title or description. Format and difficulty need membership. Audience, topics, stages and practices need at least one shared value. A set featured switch needs a featured material. |
| Browser.AnyIn | frontend/src/training-materials-browser.tsx:199-219 | The `some(... includes ...)` test holds exactly when a selected value occurs in the material's list (overlap, not inclusion). |
| Browser.InitialShowsAll | frontend/src/training-materials-browser.tsx:157-232 | In the initial state every material passes, so the filter returns the catalogue unchanged. |
| Browser.FilterIdempotent | frontend/src/training-materials-browser.tsx:182-232 | Filtering the visible list again with the same state changes nothing. |
| Browser.SearchReadsTitleAndDescriptionOnly | frontend/src/training-materials-browser.tsx:185-191 | Materials that agree on title and description agree on the search test, whatever their other fields. |
| Browser.SearchIgnoresQueryCase | frontend/src/training-materials-browser.tsx:185-191 | The search gives the same answer for a query and its lower-cased form. |
| Browser.NarrowerStateShowsSubsequence | frontend/src/training-materials-browser.tsx:183-231 | A state that rejects everything another rejects shows a subsequence of what the other shows. |
| Browser.FeaturedOnlyNarrows | frontend/src/training-materials-browser.tsx:226-229 | Turning on the featured switch hides exactly the non-featured materials and keeps the order. |
| Browser.FirstSelectionNarrows | frontend/src/training-materials-browser.tsx:166-224 | Checking a value in a facet with an empty selection can only hide materials. |
| Browser.FurtherSelectionWidens | frontend/src/training-materials-browser.tsx:166-224 | Checking one more value in a facet that already has a selection can only show more materials. |
| Browser.RefinedQueryNarrows | frontend/src/training-materials-browser.tsx:185-191 | A query that contains the old non-empty one, ignoring case, can only hide materials. |
| Browser.HandleFilterChange | frontend/src/training-materials-browser.tsx:166-180 | An unknown filter type leaves the state as it is. A known one replaces its facet's list: checking appends the value without deduplication, unchecking removes every copy and keeps the order. Every other facet, the query and the featured switch are unchanged. |
| Browser.CheckUncheckRoundTrip | frontend/src/training-materials-browser.tsx:166-180 | Checking a value that was not selected and then unchecking it restores the whole state. |
| Browser.ClearAllFilters | frontend/src/training-materials-browser.tsx:244-253 | The query is empty, every facet list is empty and the featured switch is off. |
| Browser.ClearShowsAll | frontend/src/training-materials-browser.tsx:244-253 | After clearing, whatever the state was, the filter returns the full catalogue. |
| Viewer.ApplyFilters | SimpleViewer/static/script.js:14-25 | The callback fails exactly when some row's evaluated cell is not a string: the level cell when a level is selected, the course name cell always. The error names the first such row. On success the result is a subsequence of the data in which every row occurs as often as in the data when it passes both checks, and not at all otherwise. |
| Viewer.FirstThrowing | SimpleViewer/static/script.js:18-22 | The row found is the first at or after the start on which the callback throws; when none is found, no row throws. |
| Viewer.ShownIff | SimpleViewer/static/script.js:18-22 | On success, a row is shown exactly when it is in the data and both checks pass. With no level selected any level passes; otherwise the lower-cased level contains the lower-cased selection. The lower-cased course name must contain the lower-cased search term. |
| Viewer.EmptyInputsShowAll | SimpleViewer/static/script.js:19-20 | With no level selected and an empty search box, every row is shown when every course name is a string. |
| Viewer.EmptySearchMatchesEveryName | SimpleViewer/static/script.js:16-20 | With an empty search box only the level decides. |
| Viewer.InputCaseIgnored | SimpleViewer/static/script.js:15-16 | Lower-casing either input beforehand changes neither the result nor the error. |
| Viewer.LongerSearchNarrows | SimpleViewer/static/script.js:20 | A search term that contains the old one shows a subsequence of the old result. |
| Viewer.Idempotent | SimpleViewer/static/script.js:18 | Filtering the shown rows again with the same inputs gives the same rows. |
| Viewer.LevelIsSubstringMatch | SimpleViewer/static/script.js:19 | A level that merely contains the selection, ignoring case, is kept: the test is containment, not equality. |
| Generator.ParseMultivalued | model/generate_reproinventory_data.py:4-14 | A missing or empty cell gives nothing; any other cell gives a list. A cell containing `,` gives the cleaned pieces of its split on `,`. Otherwise a cell containing `;` gives those of its split on `;`, and otherwise one containing ` / ` those of its split on ` / `. Every piece kept is stripped, non-empty and free of that delimiter. A cell without delimiters gives the one-element list of its stripped self. |
| Generator.CleanPiecesKeepsNonBlank | model/generate_reproinventory_data.py:9 | The comprehension is the stable filter of the stripped pieces by non-emptiness. Every non-empty stripped piece is kept, in order and with its repetitions, and the empty ones are dropped. |
| Generator.CleanPiecesClean | model/generate_reproinventory_data.py:9 | Every kept piece is non-empty and unpadded, and is the stripped form of an input piece. |
| Generator.CleanPiecesFixed | model/generate_reproinventory_data.py:9 | Pieces that are already non-empty and unpadded come through unchanged. |
| Generator.ParseCommaJoined | model/generate_reproinventory_data.py:8-9 | Two or more clean comma-free values joined by `,` parse back to themselves. |
| Generator.ParseSemicolonJoined | model/generate_reproinventory_data.py:10-11 | Two or more clean values without `,` or `;`, joined by `;`, parse back to themselves. |
| Generator.ParseCommaSpaceJoined | model/generate_reproinventory_data.py:8-9 | Two or more clean comma-free values joined by `", "`, the usual way a list cell is written (`"Python, R"`), parse back to themselves. |
| Generator.ParseBlankPieces | model/generate_reproinventory_data.py:8-9 | A cell whose `,` pieces are all blank parses to the empty list, not to nothing. |
| Generator.ParseLoneComma | model/generate_reproinventory_data.py:5-9 | The cell `","` parses to the empty list. |
| Generator.ParseSingle | model/generate_reproinventory_data.py:14 | A clean value without any delimiter parses to the list holding just itself. |
| Generator.ConvertToBoolean | model/generate_reproinventory_data.py:16-26 | The result is null, true, false or the string "NA". A missing cell gives null. |
| Generator.ConvertToBooleanCases | model/generate_reproinventory_data.py:19-26 | After strip and lower-casing, "yes" gives true, "no" gives false, "na" gives "NA" and anything else gives null, each in both directions. |
| Generator.ConvertToBooleanNormalises | model/generate_reproinventory_data.py:19 | Lower-casing or stripping the cell beforehand does not change the result. |
| Generator.ConvertToBooleanCongruent | model/generate_reproinventory_data.py:19 | Two cells that strip and lower-case to the same word convert to the same value. |
| Generator.NormaliseCell | model/generate_reproinventory_data.py:58-63 | A blank cell gives nothing. A cell reading "na" in any case and padding gives "NA". Any other cell gives its stripped text. A result is never empty or padded. |
| Generator.NormaliseCellIdempotent | model/generate_reproinventory_data.py:58-63 | Normalising a normalised cell gives it back. |
| Generator.KeyName | model/generate_reproinventory_data.py:67 | Character by character, a key is its column name lower-cased with every space replaced by `_`. So it is as long as the name and holds no space and no upper-case letter. |
| Generator.KeyNameIdempotent | model/generate_reproinventory_data.py:67 | A key is its own key. |
| Generator.KindOf | model/generate_reproinventory_data.py:66-73 | The yes/no test comes before the list test, which comes before the `ID` test, each as an if-and-only-if on the column name. |
| Generator.ParseInt | model/generate_reproinventory_data.py:75-76 | The model of `int` succeeds exactly on an optional sign followed by ASCII decimal digits. A leading `-` gives a non-positive value; otherwise the value is non-negative. |
| Generator.ParseIntPadded | model/generate_reproinventory_data.py:75-76 | Leading zeros and a `+` do not change the value: any number of zeros before a digit string, with no sign, `+` or `-`, reads as the value of the digits or its negation (`"007"` is 7, `"+5"` is 5). |
| Generator.ParseShowInt | model/generate_reproinventory_data.py:75 | Every integer written in decimal reads back as itself. |
| Generator.IdValue | model/generate_reproinventory_data.py:74-77 | The id is the integer when the cell parses as one, and the string unchanged when `int` would raise. |
| Generator.CellValue | model/generate_reproinventory_data.py:58-79 | The value one cell contributes: the normalised cell, converted according to its column's kind. The lemmas below state what each kind gives. |
| Generator.CellBlank | model/generate_reproinventory_data.py:58-79 | A blank cell is null in every column. |
| Generator.CellYesNo | model/generate_reproinventory_data.py:58-67 | A yes/no column converts the raw cell as `convert_to_boolean` does, normalisation changing nothing. The value is true exactly when the cell strips and lower-cases to "yes", and false exactly when it gives "no". |
| Generator.ConvertNormalised | model/generate_reproinventory_data.py:58-67 | Converting the normalised cell to yes/no gives the same value as converting the raw cell. |
| Generator.CellList | model/generate_reproinventory_data.py:58-70 | A list column gives null for a blank cell and `["NA"]` for "na". Any other cell gives the list that `parse_multivalued` makes of the stripped cell, and that list holds only clean strings. |
| Generator.CellIdentifier | model/generate_reproinventory_data.py:58-77 | The `ID` column gives the id value of the stripped cell, and "NA" for "na". Whenever the stripped cell reads as an integer, the value is that integer. |
| Generator.CellPlain | model/generate_reproinventory_data.py:58-79 | Any other column gives the stripped cell, or "NA" for "na". |
| Generator.NotApplicableCell | model/generate_reproinventory_data.py:60-79 | A cell normalising to "NA" is the string "NA" in every column except a list column, where it is the list holding "NA". |
| Generator.ConvertRow | model/generate_reproinventory_data.py:53-80 | The record of one data row: each cell's value stored under its column's key, left to right. Its keys and values are stated by the three lemmas below. |
| Generator.ConvertRowKeys | model/generate_reproinventory_data.py:53-79 | A row's record is a well-formed dict whose keys are exactly the keys of the columns the row reaches. |
| Generator.ConvertRowLastWins | model/generate_reproinventory_data.py:54-79 | A key holds the value of the last column that has it. |
| Generator.ConvertRowDistinct | model/generate_reproinventory_data.py:53-80 | With distinct column keys, the record lists the keys in column order, each holding its own cell's value. |
| Generator.ConvertRows | model/generate_reproinventory_data.py:52-80 | One record per data row. |
| Generator.ConvertRowsAt | model/generate_reproinventory_data.py:52-80 | Record `k` of the data rows is the record of row `k`. |
| Generator.GenerateEntries | model/generate_reproinventory_data.py:47-80 | The conversion fails exactly when some data row (row 2 onwards) is longer than the header row. The error names the first such row and column `len(headers)`. Otherwise there is one record per data row, in order, converted under the stripped headers. |
| Records.PutSemantics | model/generate_reproinventory_data.py:67 | After `d[k] = v`, `k` holds `v` and every other key keeps its value. An existing key keeps its place in the order; a new key goes last. |
| Records.AssembleLastWins | model/generate_reproinventory_data.py:54-79 | Storing pairs one after another leaves each key with the value of its last pair. |
| Records.AssembleDistinct | model/generate_reproinventory_data.py:54-79 | Pairs with distinct keys are stored in their own order. |
| EditDialog.HandleChange | frontend/src/components/EditMaterialDialog.tsx:49-51 | The field takes the new value; every other field and every undeclared key is unchanged. |
| EditDialog.ChangeThenRevert | frontend/src/components/EditMaterialDialog.tsx:49-51 | Writing a present field's old value back restores the entry. |
| EditDialog.CurrentList | frontend/src/components/EditMaterialDialog.tsx:54 | `(entry[field] \|\| []) as string[]` is the field's list when it holds one, and the empty list for a missing or falsy value. |
| EditDialog.HandleMultiSelectChange | frontend/src/components/EditMaterialDialog.tsx:53-59 | Checking appends the option to the current list. Unchecking leaves a subsequence with every copy of the option removed and the other counts kept. No other field changes. |
| EditDialog.IsChecked | frontend/src/components/EditMaterialDialog.tsx:275 | `includes` on the field: membership of the option in a list, substring containment in a string, and false for a missing or null field. |
| EditDialog.CheckboxShowsClick | frontend/src/components/EditMaterialDialog.tsx:275 | After a click, the option's box is ticked exactly when the click checked it. |
| EditDialog.CheckThenUncheck | frontend/src/components/EditMaterialDialog.tsx:53-59 | Checking an option the list lacks and then unchecking it gives the list back. |
| EditDialog.HandleArrayInputChange | frontend/src/components/EditMaterialDialog.tsx:61-66 | At an index inside the list, that element becomes the new text. The length and every other element are unchanged, and so is every other field. |
| EditDialog.EditThenRevert | frontend/src/components/EditMaterialDialog.tsx:61-66 | Typing an element's old text back gives the list back. |
| EditDialog.HandleAddArrayItem | frontend/src/components/EditMaterialDialog.tsx:68-71 | The list grows by one: the old list is its prefix and the new last element is the empty string. |
| EditDialog.HandleRemoveArrayItem | frontend/src/components/EditMaterialDialog.tsx:73-77 | An index inside the list drops exactly that element, keeping the order of the rest. Any other index leaves the list as it is. |
| EditDialog.AddThenRemove | frontend/src/components/EditMaterialDialog.tsx:68-77 | Adding an item and removing it at its index gives the list back. |
| Inventory.NotApplicableEverywhereButDelivery | frontend/src/types/reproinventory.ts:3-117 | Every enumeration offers "NA" except the delivery one. |
| Inventory.IsReproInventoryEntry | frontend/src/types/reproinventory.ts:150-154 | The guard holds exactly when the object has an `id` key, whatever that key holds, null included. |
| Inventory.GuardReadsIdKeyOnly | frontend/src/types/reproinventory.ts:150-154 | The guard's answer depends only on whether the `id` key is present, not on its value or any other key. |
| Inventory.ToEntry | frontend/src/types/reproinventory.ts:156-184 | Every declared field holding a value other than null keeps it; every absent or null declared field becomes null. All 25 keys are present and undeclared keys are dropped. |
| Inventory.ToEntryIdempotent | frontend/src/types/reproinventory.ts:156-184 | Normalising a normalised entry changes nothing. |
| Inventory.NormalisedPassesGuard | frontend/src/types/reproinventory.ts:150-184 | Every normalised object passes the guard, even one that had no `id`. |
| Inventory.UndeclaredKeysIgnored | frontend/src/types/reproinventory.ts:157-183 | The normalised object does not depend on the input's undeclared keys. |

## Left out

- JSX rendering, the React hooks (`useState`, `useMemo`, `useEffect`), `getFormatIcon` and the footer: they are presentation only. The browser state is a record and the filter a pure function of it.
- The sample catalogue at training-materials-browser.tsx:15-120 and the option lists: they are data. Only the record shape is modelled (`Browser.Material`).
- `fetch('/api/data')` and `renderTable` in the viewer, and the Flask routes and pandas loading of `SimpleViewer/app.py`: network, DOM and library calls. A cell of a column that pandas reads as entirely numeric reaches the page as a number, and one of a column it reads as boolean as `true` or `false`; both are modelled as "not a string". A sheet with a cell that pandas reads as missing never reaches the filter. That is an empty cell and, by default, also "NA", "N/A", "null", "nan", "None" and the like, which `pd.read_csv` (app.py:8) reads as NaN. The server writes `NaN`, `response.json()` (script.js:5) rejects that, and `allData` stays `[]`; the model does not track that load failure.
- `model/convert_yaml_to_json.py`: file and directory I/O plus yaml/json library calls, with no logic of its own.
- Opening the sheet, `csv.reader` and `yaml.dump`: the sheet is a `seq<seq<string>>` of already-read cells and the result a sequence of ordered dicts.
- `handleSave`, `onSave`, `onClose` and the dialog's `useEffect`: they hand the entry over or reset it, with nothing to compute.
- Generator.ParseInt: Python's `int` also accepts `_` between digits and non-ASCII decimal digits; only an optional sign followed by ASCII digits is modelled (the cell is already stripped, so surrounding whitespace does not arise). CPython 3.11 and later also raise `ValueError` on a literal of more than 4300 digits, which the model reads as an integer.
- Browser.HandleFilterChange: a filter type that names a member of `Object.prototype` finds that member at training-materials-browser.tsx:176 instead of `undefined`. For `__proto__`, `hasOwnProperty` or `valueOf` the call at line 178 then throws a `TypeError`, where the model returns the state unchanged. No checkbox passes such a name.
- Inventory.GuardReadsIdKeyOnly: a key holding `undefined` is modelled as an absent key (`None`). The guard's `'id' in o` is true for `{id: undefined}`, while the model's guard is false for it; `toReproInventoryEntry` treats the two alike (`undefined ?? null` is null).
- Text.Lower: lower-casing is ASCII only; JavaScript `toLowerCase` and Python `lower` also map non-ASCII letters.
- Generator.ParseMultivalued: the round trip is proved for `,`, `", "` and `;` joins and for single values. It is not proved for ` / ` joins, because a value may itself contain a `/`.
- Generator.ConvertToBoolean: its own contract states the range, the missing cell and "yes"; the "no", "na" and other cases are stated by `Generator.ConvertToBooleanCases`.
- EditDialog.HandleArrayInputChange: an index past the end is not modelled. JavaScript would grow the array with holes; the dialog only passes indices of existing inputs.
- EditDialog.IsChecked: a field holding something other than an array, a string or null (for example a boolean, on which `includes` throws) is excluded by its precondition.
- EditDialog.HandleMultiSelectChange: a truthy field value that is not an array passes the cast at line 54 unchanged. A string is then spread into its characters or has no `filter`, and `true` is not iterable. Such values are excluded by the precondition `ReadsAsList`, and so are they for the other list operations.
