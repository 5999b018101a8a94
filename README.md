# InvenTree input handling, BOM upload table and tree serialisation in Dafny

This project models three self-contained pieces of the InvenTree inventory
system and proves what they promise:

- **Input helpers** (`InvenTree/InvenTree/helpers.py`):
  - `ExtractSerialNumbers` turns text such as `"1-5, 10-15"` into a list of
    distinct serial numbers. The list must match an expected quantity, and
    every problem found is reported at once.
  - The string predicates `str2bool`, `WrapWithQuotes` and `TestIfImageURL`.
  - `MakeBarcode`, which stamps four fixed keys into a dict and emits it with
    sorted keys.
  - `GetExportFormats`.
- **The BOM upload view** (`InvenTree/part/views.py`):
  - how `getTableDataFromPost` rebuilds the table from flat form fields;
  - the duplicate-column and missing-column checks, and the validity rule of
    `handleFieldSelection`;
  - the linear searches `getColumnIndex` and `getRowByIndex`;
  - the row validation of `handlePartSelection` and the BOM it builds;
  - the id-list filter of `PartExport.get_parts`.
- **`TreeSerializer`** (`InvenTree/InvenTree/views.py`): how a forest of
  named items becomes nested node records under one root node.

The modules follow the program.

- `Strings`: the Python string built-ins the code relies on (`strip`,
  `lower`, `split`, `replace`, `int`, `str`), over ASCII.
- `Ordering`: `sorted()` over sets of integers and of strings.
- `SerialNumbers` and `Helpers`: `helpers.py`.
- `BomTable`, `BomParts` and `BomUploadView`: the BOM upload view.
- `PartExport`: `get_parts`.
- `TreeSerializer`: the tree view.

`ExtractSerialNumbers`, `getTableDataFromPost`, `handlePartSelection`,
`getColumnIndex`, `getRowByIndex`, `get_parts` and `generate_tree` are
written as imperative methods with loops. `MakeBarcode` has no loop; it is
an imperative method because it writes its four keys into the caller's
dict in place. Their
`ensures` tie the result or new state to a specification function. The
properties of those functions are proved as lemmas. The BOM upload view is
a class, `BomUpload`, whose fields are the view's dicts and lists; the tree
view is a class, `TreeView`, whose `tree` field `generate_tree` assigns.

The code and its own docstrings disagree twice, and the model follows the
code both times. First, the docstring of `ExtractSerialNumbers` says serial
numbers must be positive, but the code accepts `0`. `SuccessIsDistinctAndCounted`
proves every accepted serial is at least 0: a leading `-` sends the group
down the range branch, where the empty left endpoint does not parse.
Second, the docstring of `getTableDataFromPost` names the cell fields
`row_<x>_col<y>` (`InvenTree/part/views.py:875`). The code splits the name
on `_` and reads the row from the second piece and the column from the
fourth, which is the form `row_<r>_col_<c>` (`InvenTree/part/views.py:915-923`).

## Model

| member | source | states |
|---|---|---|
| Strings.StripFacts | InvenTree/InvenTree/helpers.py:147 | `strip()` gives text that starts and ends with a non-whitespace character (whitespace being the ASCII set of `str.isspace`, 0x1C to 0x1F included); it is empty exactly when the input is all whitespace; it is the slice of the input that starts at the first non-whitespace character, and everything before and after that slice is whitespace; text without whitespace is kept |
| Strings.JoinSplitOn | InvenTree/part/views.py:1203 | joining the pieces of `split(',')` with the separator gives the text back |
| Strings.SplitOnJoin | InvenTree/part/views.py:1203 | splitting pieces joined by a separator they do not contain gives the pieces back |
| Strings.SplitOnCount | InvenTree/InvenTree/helpers.py:168-170 | `split('-')` yields one more piece than there are hyphens |
| Strings.ParseShowInt | InvenTree/InvenTree/helpers.py:155 | `int(str(n)) == n` for every integer |
| Helpers.Str2Bool | InvenTree/InvenTree/helpers.py:39-52 | the answer is true only when the lower-cased text is one of the recognised words |
| Helpers.Str2BoolExclusive | InvenTree/InvenTree/helpers.py:49-52 | no text is both true (`test=True`) and false (`test=False`) |
| Helpers.Str2BoolCaseInsensitive | InvenTree/InvenTree/helpers.py:50-52 | lower-casing the text first changes no answer |
| Helpers.Str2BoolRecognised | InvenTree/InvenTree/helpers.py:49-52 | every true spelling, in any case, passes `test=True` and fails `test=False`, and every false spelling the reverse |
| Helpers.Str2BoolUnrecognised | InvenTree/InvenTree/helpers.py:49-52 | text in neither word list is false for both tests |
| Helpers.Str2BoolExamples | InvenTree/InvenTree/tests.py:63-73 | `tRuE` is true and not false, `noNE` is false and not true, `wombat` and the empty text are neither |
| Helpers.WrapWithQuotes | InvenTree/InvenTree/helpers.py:55-72 | the result starts and ends with the quote; text already wrapped is returned unchanged; otherwise the quote is added at the front, the back or both; a text that starts with the quote gets at most a back quote, and one that ends with it at most a front quote |
| Helpers.WrapWithQuotesIdempotent | InvenTree/InvenTree/helpers.py:66-72 | wrapping twice is wrapping once |
| Helpers.WrapEmpty | InvenTree/InvenTree/helpers.py:66-72 | the empty text becomes a single quote |
| Helpers.WrapExamples | InvenTree/InvenTree/tests.py:81-82 | `hello` and `hello"` both become `"hello"` |
| Helpers.Basename | InvenTree/InvenTree/helpers.py:31 | `os.path.basename` is a suffix of the path without '/' |
| Helpers.BasenameAfterSlash | InvenTree/InvenTree/helpers.py:31 | the basename is the whole path or starts right after a '/', so it is the longest suffix without '/' |
| Helpers.Extension | InvenTree/InvenTree/helpers.py:31 | `os.path.splitext(...)[-1]` is empty or a suffix starting at the last '.', with no '/', and preceded by a name that is not all dots |
| Helpers.ExtensionPresentIff | InvenTree/InvenTree/helpers.py:31 | the extension is non-empty exactly when the last '.' comes after the last '/' and the final component has a character other than '.' before it |
| Helpers.TestIfImageURLIff | InvenTree/InvenTree/helpers.py:26-36 | a URL is an image URL exactly when its lower-cased basename ends in one of the eight listed extensions after a stem that is not all dots |
| Helpers.ImageURLHasExtension | InvenTree/InvenTree/helpers.py:31-36 | an image URL's lower-cased extension is a listed one |
| Helpers.ExtensionIsImage | InvenTree/InvenTree/helpers.py:31-36 | a basename ending in a listed extension, case-insensitively, after a stem that is not all dots, is an image URL |
| Helpers.TestIfImageURLCaseInsensitive | InvenTree/InvenTree/helpers.py:31 | lower-casing the URL changes no answer |
| Helpers.ExtensionLower | InvenTree/InvenTree/helpers.py:31 | the extension of the lower-cased name is the lower-cased extension |
| Helpers.NoDotIsNotImage | InvenTree/InvenTree/helpers.py:31-36 | a basename with no '.' is never an image |
| Helpers.DotFileIsNotImage | InvenTree/InvenTree/helpers.py:31-36 | a dot-file such as `.png` has no extension and is not an image |
| Helpers.ImageURLExampleGif | InvenTree/InvenTree/tests.py:54-55 | `bat.GiF` is an image URL |
| Helpers.ImageURLExampleNoDot | InvenTree/InvenTree/tests.py:57-58 | `whatpng` is not an image URL |
| Helpers.GetExportFormats | InvenTree/InvenTree/helpers.py:97-107 | six distinct, non-empty, lower-case format names without a dot |
| Helpers.WithBarcodeKeys | InvenTree/InvenTree/helpers.py:89-92 | the dict gains exactly `type`, `id`, `url` and `tool`; they hold the object type, id, URL and `"InvenTree"` and override the caller's; every other key keeps its value |
| Helpers.SortedItems | InvenTree/InvenTree/helpers.py:94 | `sort_keys=True`: one item per key, keys strictly ascending, each with its dict value |
| Helpers.SortedItemsComplete | InvenTree/InvenTree/helpers.py:94 | every key of the dict is emitted |
| Helpers.MakeBarcode | InvenTree/InvenTree/helpers.py:75-94 | the caller's dict is updated in place with the four keys, and the result is its sorted items |
| Helpers.BarcodeKeysOverwrite | InvenTree/InvenTree/helpers.py:75-92 | stamping the keys again replaces all four, so a dict reused across calls, such as the shared default, gives the same output as a fresh one |
| Helpers.BarcodeExample | InvenTree/InvenTree/tests.py:90-100 | the test's dict keeps `animal`, gains `tool = "InvenTree"` and has seven keys |
| SerialNumbers.SplitGroups | InvenTree/InvenTree/helpers.py:149 | `re.split("[\s,]+")`: at least one group, and no group holds a separator |
| SerialNumbers.SplitGroupsWord | InvenTree/InvenTree/helpers.py:149 | text with no separator is one group |
| SerialNumbers.SplitGroupsJoin | InvenTree/InvenTree/helpers.py:140-149 | groups free of separators, joined by one whitespace or comma character, split back into the same groups (only the first and last may be empty) |
| SerialNumbers.Range | InvenTree/InvenTree/helpers.py:179 | `range(lo, hi)` has `hi - lo` elements (none when `lo >= hi`) and element k is `lo + k` |
| SerialNumbers.GroupValues | InvenTree/InvenTree/helpers.py:164-202 | a well-formed group stands for at least one number, all at least 0; a malformed one is reported with its stripped text |
| SerialNumbers.SingleGroup | InvenTree/InvenTree/helpers.py:194-200 | a group that reads as a natural number `n` stands for `n` alone |
| SerialNumbers.NegativeGroupMalformed | InvenTree/InvenTree/helpers.py:167-192 | a negative number is an invalid group: its '-' sends it down the range branch, whose empty left end does not parse |
| SerialNumbers.RangeGroup | InvenTree/InvenTree/helpers.py:167-183 | a group `a-b` with `0 <= a < b` stands for `a, a+1, ..., b`, which is `b - a + 1` numbers |
| SerialNumbers.DescendingRangeMalformed | InvenTree/InvenTree/helpers.py:178-185 | a group `a-b` with `a >= b` is an invalid group |
| SerialNumbers.ManyHyphensMalformed | InvenTree/InvenTree/helpers.py:168-192 | a group with two or more hyphens (such as `1-5-10`) is an invalid group |
| SerialNumbers.ExtractSerialNumbers | InvenTree/InvenTree/helpers.py:136-214 | the loop's result equals the specification, and on success the list is distinct and has the expected quantity |
| SerialNumbers.ScanGroup | InvenTree/InvenTree/helpers.py:164-202 | one pass of the loop body does to `numbers` and `errors` what the group's outcome prescribes |
| SerialNumbers.AddRange | InvenTree/InvenTree/helpers.py:179-183 | the inner `for n in range(a, b + 1)` loop adds each number in turn |
| SerialNumbers.AddAllFacts | InvenTree/InvenTree/helpers.py:179-183 | adding candidates keeps `numbers` distinct and only appends to both lists; each candidate is kept or reported as a duplicate of itself (the kept numbers plus the numbers the new duplicate errors name equal the old ones plus the candidates, as multisets); nothing is reported exactly when the candidates are new and pairwise distinct, and then they are appended in order |
| SerialNumbers.ProcessGroupFacts | InvenTree/InvenTree/helpers.py:164-202 | one group keeps `numbers` distinct and only appends; it adds no error exactly when it is well-formed and its numbers are new and pairwise distinct |
| SerialNumbers.ProcessGroupsFacts | InvenTree/InvenTree/helpers.py:162-202 | over all groups the lists only grow, every group adds something, and no error is added exactly when every group is well-formed and all their numbers are distinct; then `numbers` is their concatenation |
| SerialNumbers.ScanFacts | InvenTree/InvenTree/helpers.py:147-202 | after the loop `numbers` is distinct and something was collected; there are no errors exactly when the groups denote a distinct list, and then `numbers` is that list |
| SerialNumbers.ExtractSucceedsIff | InvenTree/InvenTree/helpers.py:136-214 | success with a list holds exactly when the text is not blank, the quantity parses to the list's length, every group is well-formed, and the concatenation of their numbers is that distinct list |
| SerialNumbers.SuccessIsDistinctAndCounted | InvenTree/InvenTree/helpers.py:162-214 | on success the list has no duplicates, has `expected_quantity` elements and holds only numbers at least 0 |
| SerialNumbers.NoSerialNumbersUnreachable | InvenTree/InvenTree/helpers.py:159-160 | "No serial numbers found" is never the outcome, because every group yields a number or an error |
| SerialNumbers.ScanErrorKinds | InvenTree/InvenTree/helpers.py:162-202 | the loop only reports duplicates and invalid groups |
| SerialNumbers.InvalidGroupReported | InvenTree/InvenTree/helpers.py:185-202 | every malformed group is reported |
| SerialNumbers.ErrorsOnlyGrow | InvenTree/InvenTree/helpers.py:162-202 | errors are accumulated and never dropped or cut short |
| SerialNumbers.MalformedGroupFails | InvenTree/InvenTree/helpers.py:204-205 | any malformed group makes the call fail, and its error is in the raised list |
| SerialNumbers.EachRepeatReported | InvenTree/InvenTree/helpers.py:179-199 | when all groups are well-formed, every error is a duplicate, each distinct number is kept once, and each number occurring `m` times is named by exactly `m - 1` duplicate errors |
| SerialNumbers.WellFormedScan | InvenTree/InvenTree/helpers.py:162-202 | over well-formed groups, kept numbers stay distinct, every new error is a duplicate, and the kept numbers plus those the new duplicate errors name equal the old ones plus every number the groups stand for, as multisets |
| SerialNumbers.BlankFails | InvenTree/InvenTree/helpers.py:147-160 | whitespace-only text fails with "Empty serial number string" alone |
| SerialNumbers.SeparatorOnlyFails | InvenTree/InvenTree/tests.py:189-191 | `", , ,"` with quantity 0 fails, reporting an invalid empty group |
| SerialNumbers.RangeExample | InvenTree/InvenTree/tests.py:164-167 | `"1-5"` with quantity 5 gives `[1, 2, 3, 4, 5]` |
| BomTable.Lookup | InvenTree/part/views.py:960-963 | a dict lookup finds a value stored under the key, and finds nothing only for a key that is absent |
| BomTable.SetSelectionIds | InvenTree/part/views.py:910 | assigning a key keeps the dict's insertion order and appends a key that is new |
| BomTable.SetSelectionUnique | InvenTree/part/views.py:910 | assigning a key never creates a second entry for it |
| BomTable.SetSelectionLookup | InvenTree/part/views.py:910 | after the assignment the key holds the new value and every other key keeps its own |
| BomTable.CollectUniqueIds | InvenTree/part/views.py:885-930 | `column_selections` filled from any request has each column id once |
| BomTable.PrefixedIdShow | InvenTree/part/views.py:893 | `int(key.replace(prefix, ''))` reads back the id written after the prefix |
| BomTable.ColumnNameField | InvenTree/part/views.py:891-898 | a `col_name_<c>` field sets `column_names[c]` |
| BomTable.ColumnGuessField | InvenTree/part/views.py:901-910 | a `col_guess_<c>` field sets `column_selections[c]` |
| BomTable.CellField | InvenTree/part/views.py:913-930 | a `row_<r>_col_<c>` field sets cell `c` of row `r`, creating the row |
| BomTable.CellIdShow | InvenTree/part/views.py:915-923 | `row_<r>_col_<c>` is read as row `r`, column `c` |
| BomTable.ShortRowKeyIgnored | InvenTree/part/views.py:915-918 | a `row_` key with fewer than four `_`-separated parts changes nothing |
| BomTable.BadColumnKeyIgnored | InvenTree/part/views.py:890-906 | a `col_name_` or `col_guess_` key whose id does not parse as an integer changes nothing |
| BomTable.BadCellKeyIgnored | InvenTree/part/views.py:913-925 | a `row_` key whose second or fourth part does not parse as an integer changes nothing |
| BomTable.RowsOfAt | InvenTree/part/views.py:937-950 | row i of the rebuild is built from the i-th row id and its cells |
| BomTable.TableRowsSorted | InvenTree/part/views.py:937-950 | `bom_rows` is strictly ascending by index; each row's `data` is its cells by column id and its error map is empty |
| BomTable.RowValuesSorted | InvenTree/part/views.py:941-944 | a row's `data` holds the value of each distinct column id in ascending order, so gaps collapse |
| BomTable.TableRowsComplete | InvenTree/part/views.py:937 | every row of `row_data` appears in `bom_rows` |
| BomTable.Missing | InvenTree/part/views.py:979-983 | a required header is listed as missing exactly when no selection holds it |
| BomTable.MissingAppend | InvenTree/part/views.py:979-983 | the missing headers of `a + b` are those of `a` followed by those of `b`, so they come in `REQUIRED_HEADERS` order |
| BomTable.MissingNoneSelected | InvenTree/part/views.py:979-983 | with nothing selected, every required header is missing, in `REQUIRED_HEADERS` order |
| BomTable.NothingMissingIff | InvenTree/part/views.py:979-983 | nothing is missing exactly when every required header is selected |
| BomTable.NoDuplicateIff | InvenTree/part/views.py:958-976 | no header is a duplicate exactly when every non-empty guess of a named column occurs once among all selection values, including those of unnamed columns |
| BomTable.SelectionValidIff | InvenTree/part/views.py:994 | field selection is valid exactly when every required header is selected and no named column's non-empty guess is selected twice |
| BomParts.RowPosition | InvenTree/part/views.py:1138-1144 | the first row with the index, or none exactly when no row has it |
| BomParts.QuantityFieldStep | InvenTree/part/views.py:1018-1039 | a `quantity_<r>` field changes only row `r`: a non-integer stores 1 with "Enter a valid quantity"; a value at most 0 is stored with "Quantity must be greater than zero"; a positive value is stored alone |
| BomParts.PartFieldStep | InvenTree/part/views.py:1042-1074 | a `part_<r>` field with an existing part changes only row `r`: the part is stored; its first selection is counted without error; a later one is counted and flagged "Duplicate part selected" |
| BomParts.InvalidPartField | InvenTree/part/views.py:1054-1062 | a non-integer or unknown part id flags only row `r` with "Select valid part" and leaves the count alone |
| BomParts.TextIgnored | InvenTree/part/views.py:1077-1087 | a key with neither `reference_` nor `notes_` before an id changes no row |
| BomParts.FinishRow | InvenTree/part/views.py:1092-1099 | the final check adds "Select a part" when a row has no part and "Specify quantity" when it has no quantity, and otherwise leaves the row alone |
| BomParts.Finished | InvenTree/part/views.py:1092-1104 | every row gets the final check, in order |
| BomParts.FieldsConsistent | InvenTree/part/views.py:1014-1087 | after every field of the request, each selected part exists and is counted, of two rows with the same part at least one carries a part error, and a row whose quantity is not positive carries a quantity error |
| BomParts.SelectionKeepsTable | InvenTree/part/views.py:1014-1087 | part selection changes neither the number of rows, their indices nor their data |
| BomParts.ValidSelection | InvenTree/part/views.py:1090-1110 | a valid submission has a part and quantity in every row; every part exists; every quantity is positive; no part is chosen twice |
| BomParts.BomLines | InvenTree/part/views.py:1114-1129 | one BOM line per row, with the row's part and quantity, and its reference and note (empty when absent) |
| BomParts.ValidBom | InvenTree/part/views.py:1110-1129 | the BOM rebuilt after a valid submission has one line per uploaded row, existing parts, positive quantities and no part twice |
| BomUploadView.RowItems | InvenTree/part/views.py:938-944 | the inner loop collects a row's cells as the rebuild specifies |
| BomUploadView.RebuildRows | InvenTree/part/views.py:935-950 | the row loop builds exactly the sorted table rows |
| BomUploadView.RebuildColumns | InvenTree/part/views.py:953-976 | the column loop builds one header per named column in ascending order, and `duplicates` is set exactly when some header is a duplicate |
| BomUploadView.AnyDuplicateAppend | InvenTree/part/views.py:970-976 | the flag after a header is the flag before it or the header's own mark |
| BomUploadView.FindMissing | InvenTree/part/views.py:979-983 | the loop lists the missing required headers |
| BomUploadView.NewBom | InvenTree/part/views.py:1114-1129 | the loop builds one BOM line per row |
| BomUploadView.BomUpload.ReadPost | InvenTree/part/views.py:880-930 | the loop over the request fills the three dicts as specified |
| BomUploadView.BomUpload.GetTableDataFromPost | InvenTree/part/views.py:867-983 | the dicts are refilled from the request, and the rows, headers, duplicate flag and missing headers are rebuilt from them |
| BomUploadView.BomUpload.HandleFieldSelection | InvenTree/part/views.py:985-994 | the answer is "nothing missing and no duplicates" over the rebuilt table |
| BomUploadView.BomUpload.GetColumnIndex | InvenTree/part/views.py:797-807 | the first position of the name among the selection values in insertion order, or -1 exactly when it is absent |
| BomUploadView.BomUpload.GetRowByIndex | InvenTree/part/views.py:1138-1144 | the search finds the first row with the index, or none |
| BomUploadView.BomUpload.ReadRowFields | InvenTree/part/views.py:1011-1087 | the loop over the request applies each row field to the rows and the part counter in order |
| BomUploadView.BomUpload.CheckRows | InvenTree/part/views.py:1090-1104 | every row gets the final check, and the answer is whether every error map is empty |
| BomUploadView.BomUpload.HandlePartSelection | InvenTree/part/views.py:1005-1136 | the table is rebuilt and the row fields applied; the answer is whether every row is clean; the BOM is replaced by the rows' lines only then and otherwise left alone |
| PartExport.ParsedIdsMembership | InvenTree/part/views.py:1203-1207 | an id is collected exactly when some comma-separated piece parses to it |
| PartExport.PartIdsRoundTrip | InvenTree/part/views.py:1200-1207 | a parameter written as comma-joined ids is read back as exactly those ids |
| PartExport.EmptyParamNoIds | InvenTree/part/views.py:1200 | an absent or empty `parts` parameter names no id |
| PartExport.FilterIds | InvenTree/part/views.py:1210 | `filter(pk__in=...)` keeps exactly the listed parts whose id was named |
| PartExport.FilterIdsAllNamed | InvenTree/part/views.py:1210 | the filter keeps list order, so a list whose parts are all named is unchanged |
| PartExport.ExportedPartsIff | InvenTree/part/views.py:1186-1210 | a part is exported exactly when it is in the base list and either no piece parses or some piece names it |
| PartExport.ParsePartIds | InvenTree/part/views.py:1200-1207 | the loop collects the parsed ids in order |
| PartExport.GetParts | InvenTree/part/views.py:1173-1210 | the method returns the exported parts |
| TreeSerializer.SortByName | InvenTree/InvenTree/views.py:57 | `order_by('name')` gives the children in ascending name order, as a permutation |
| TreeSerializer.ItemToJsonFields | InvenTree/InvenTree/views.py:45-62 | a node has `pk = id`, `text = name`, `href` and `tags = [item_count]`; it has `nodes` exactly when the item has children, and then holds one node per child in ascending name order |
| TreeSerializer.ItemToJsonChildren | InvenTree/InvenTree/views.py:54-60 | the `nodes` of an item are its children's serialisations, reordered |
| TreeSerializer.ChildrenToJsonPermutation | InvenTree/InvenTree/views.py:57-58 | serialising a reordering of the children gives a reordering of the nodes |
| TreeSerializer.TopItemsMembership | InvenTree/InvenTree/views.py:75-80 | an item is top-level exactly when it is listed and has no parent |
| TreeSerializer.TopItemsAppend | InvenTree/InvenTree/views.py:80 | the top-level filter keeps `get_items` order |
| TreeSerializer.RootNodeTags | InvenTree/InvenTree/views.py:86-92 | the root has no pk, the title as text and `root_url` as href; its nodes are the top-level items serialised in order; its tag is the sum of their tags |
| TreeSerializer.CountSumTags | InvenTree/InvenTree/views.py:82-84 | the sum of the serialised nodes' tags is the sum of the items' counts |
| TreeSerializer.TopLevel | InvenTree/InvenTree/views.py:70-85 | the loop serialises the top-level items in order and adds up their counts |
| TreeSerializer.TreeView.constructor | InvenTree/InvenTree/views.py:36-43 | `root_url` is `'#'` |
| TreeSerializer.TreeView.GenerateTree | InvenTree/InvenTree/views.py:68-92 | `self.tree` becomes the root node over the items |
| TreeSerializer.TreeView.Get | InvenTree/InvenTree/views.py:94-101 | the tree is regenerated and the response is `{'tree': [tree]}` |

## Left out

- The stock engine and the category and location tree rules (moving, splitting and counting stock, mptt moves) are not part of this model. Their code lives in `stock/models.py`, `part/models.py` and django-mptt.
- Django plumbing is not modelled: request and response objects, template rendering, redirects, `get_context_data` and the AJAX views.
- The database becomes values:
  - the part table is the set of part ids that exist;
  - `category.get_parts()` becomes an optional list given to `GetParts`, `None` when there is no `category` parameter, it is not an integer, or no such category exists;
  - `get_items()` becomes the list of items given to `GenerateTree`;
  - `clear_bom` and `BomItem.save` become replacing the `bom` field with the new lines.
- `preFillSelections` (fuzzy matching) is not modelled; it does not change the validity result.
- Part pricing is not modelled.
- `DownloadFile` and `TestIfImage` (file and image I/O) are not modelled.
- The `print` in `get_parts` is not modelled.
- `json.dumps` text escaping is not modelled. `MakeBarcode` returns the sorted key/value items rather than JSON text.
- Python's `int()` is modelled as an optional sign followed by ASCII digits. It does not accept surrounding whitespace, underscores or non-ASCII digits.
- `lower()` and whitespace are ASCII only. Whitespace is the ASCII set Python's `str.isspace` and `re`'s `\s` use, the separators 0x1C to 0x1F included.
- Strings.StripFacts: non-ASCII whitespace (such as U+00A0 or U+2028) is not removed by the model's `strip()`, while Python's `strip()` removes it.
- SerialNumbers.SplitGroups: non-ASCII whitespace does not separate groups in the model, while `re`'s `\s` matches it in a `str` pattern.
- Strings.ParseInt: rejects `int(" 7")`, which Python accepts. This matters only for keys and values that carry spaces.
- Helpers.Str2Bool: takes a string. The source first applies `str()` to any argument, so `None` and `False` arrive as `"None"` and `"False"`.
- Request fields are a list of key/value pairs in iteration order, with one value per key. A key sent several times has its last value in the source, which this model does not capture.
- `bom_rows` rows are values, so `getRowByIndex` returns a position, and the update through the returned dict becomes an update of that position. The row dicts' `reference` and `notes` are written only for rows that exist, as in the source.
- `MakeBarcode`'s shared default dict is modelled as an explicit object argument. BarcodeKeysOverwrite shows that reusing it does not change the output.
- TreeSerializer.SortByName: orders equal names by an insertion sort, while the database's tie order is unspecified. Its contract therefore states only the ascending order and the permutation. The database's collation is not known to the model either: names are compared by code point (`LexLessEq`), which a case-insensitive or locale collation would order differently.
- BomUploadView.BomUpload.HandlePartSelection: the source builds the page context (`get_context_data`, `InvenTree/part/views.py:691-709`, called at 1108) before it checks validity. That context looks up `bom_columns` by each cell's position, so a row with more cells than there are named columns raises `IndexError`, and the BOM is then neither cleared nor rebuilt. The model does not capture this failure: it promises the rebuilt BOM whenever every row is clean.
- TreeSerializer.TreeView.constructor: the source's initial `tree` value is not shown. The model starts from the root of an empty forest.
- `has_children` is taken to mean that the item has at least one child, and `item_count` and `get_absolute_url()` become fields of the item.
- `BomUploadManager.REQUIRED_HEADERS` is not part of this model's source. It is a constructor argument of `BomUpload`.
