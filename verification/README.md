# Oracle tracker: extraction and diff engine

This project models the core of `track_oracles_ts.py`, the oracle change
detector for DefiLlama protocol files. The detector has four stages:

1. **Extraction.** It walks the TypeScript syntax tree of each data file with
   an explicit stack. An object literal becomes a protocol record when its
   last string-valued `id` unquotes to non-empty text; other objects are
   skipped. A record has these fields:
   - `id`, `name` and `file`;
   - `oracles`, sorted and without duplicates;
   - `oraclesBreakdown`, a list of `(name, type)` entries sorted by name and
     then by type.
2. **Merging.** It merges the per-file maps in the order of `TARGET_FILES`.
   When two files hold the same id, the later file wins.
3. **Diffing.** It compares the new dataset with the previous snapshot, for
   every id present on both sides. For each id it reports:
   - the added names (`plus`) and the removed names (`minus`), taken from
     `oracles` and from the breakdown names;
   - the breakdown entries whose type changed.
4. **Formatting.** It renders the changes as HTML-escaped report lines.

The parser is not modelled. A tree is given as a value of type `Syntax.Node`.
A node carries four things:
- its kind and whether it is named;
- its decoded text;
- its children;
- for `pair` nodes, which child is the `key` field and which is the `value`
  field.

The modules follow the stages of the program:

| module | contents |
|---|---|
| `Wrappers` | `Option` |
| `Text` | Python's string order; `sorted(set(...))` as the unique strictly ascending sequence of a set, with a method that computes it; `str.strip`; decimal rendering |
| `Html` | `html.escape` as five chained replacements, `&` first, and what that guarantees |
| `Syntax` | the tree and the visiting order of the stack walk |
| `Normalize` | `unquote`, `key_name`, `iter_object_pairs`, `array_string_values`, `oracles_breakdown_items`, `object_to_protocol_min` |
| `Extract` | `parse_file_ts` and the merge loop of `main` |
| `Diff` | `breakdown_name_to_type` and `diff_states` |
| `Report` | `print_human`, which builds the list of lines instead of printing them |

Each `for` or `while` statement of the source that builds a result becomes a
method with a loop. Each method is proved equal to a specification
function, and the lemmas state the properties of that function. Four
iterations are not loops in the model:
- the generator of `iter_object_pairs` (track_oracles_ts.py:82-88) is the
  recursive function `Normalize.PairsOf`;
- the loop that pushes a node's children (track_oracles_ts.py:161-162) is one
  sequence concatenation in `Extract.ParseFileTs`;
- the dict comprehension of `breakdown_name_to_type`
  (track_oracles_ts.py:167-168) is the recursive function `Diff.NameToType`;
- the list comprehension that builds `type_changes` (track_oracles_ts.py:180)
  is the recursive function `Diff.TypeChanges`.

Where the source yields no record or skips an element, the model returns
`None` or skips the element.

Each function of the source is defined by one specification function. Where
the source function loops, a method computes it:

| source | definition | method |
|---|---|---|
| `html.escape` | `Html.Escape` | |
| `unquote` | `Normalize.Unquote` | |
| `key_name` | `Normalize.KeyName` | |
| `iter_object_pairs` | `Normalize.PairsOf` | |
| `array_string_values` | `Normalize.StringValues` | `Normalize.ArrayStringValues` |
| `oracles_breakdown_items` | `Normalize.BreakdownItems` | `Normalize.OraclesBreakdownItems` |
| `object_to_protocol_min` | `Normalize.ObjectRecord` | `Normalize.ObjectToProtocolMin` |
| `parse_file_ts` | `Extract.FileRecords` | `Extract.ParseFileTs` |
| the merge loop of `main` | `Extract.MergeFiles` | `Extract.BuildDataset` |
| `str.strip` | `Text.Strip` | |
| `breakdown_name_to_type` | `Diff.NameToType` | |
| the body of the loop of `diff_states` | `Diff.ChangeFor` | `Diff.CompareRecords` |
| `diff_states` | `Diff.DiffSpec` | `Diff.DiffStates` |
| `print_human` | `Report.HumanLines` | `Report.PrintHuman` |

`plus` and `minus` need not be disjoint. A name that moves from the old
record's `oraclesBreakdown` into the new record's `oracles` is both an added
oracle and a removed breakdown name (track_oracles_ts.py:177, 181-184).
`Diff.PlusMinusMayOverlap` exhibits such a pair of records.

## Model

| member | source | states |
|---|---|---|
| Normalize.UnquoteSpec | track_oracles_ts.py:67-70 | when the text has length 2 or more and starts and ends with the same quote, `"` or `'`, the result is the text without its first and last character; otherwise the text is returned unchanged |
| Normalize.UnquoteQuoted | track_oracles_ts.py:67-70 | quoting any text with either quote character and then unquoting it gives the text back |
| Normalize.KeyName | track_oracles_ts.py:90-95 | a key has a name exactly when it is a `property_identifier` or a `string` node |
| Normalize.PairsOfChildren | track_oracles_ts.py:81-88 | the pairs of an object are exactly the key/value nodes of the `pair` children that have both fields; children of other kinds and incomplete pairs are skipped |
| Normalize.PairsOfAppend | track_oracles_ts.py:82-88 | the pairs come in the order of the children: the pairs of two runs of children are those of the first run followed by those of the second, so "last" in the field lookups means last among the children |
| Normalize.LastValueIsLastMatch | track_oracles_ts.py:127-138 | a repeated key takes the value of its last pair with the expected value kind; the field is absent only when no pair has that key and kind |
| Normalize.StringValuesElems | track_oracles_ts.py:97-102 | the values of an array are exactly the unquoted texts of its string elements; elements of other kinds are ignored |
| Normalize.ArrayStringValues | track_oracles_ts.py:97-102 | the loop builds the unquoted string elements, in array order |
| Normalize.OracleSet | track_oracles_ts.py:135-136 | a record's `oracles` is strictly ascending, so it has no duplicates, and holds exactly the unquoted string elements of the `oracles` array |
| Normalize.StringFieldValue | track_oracles_ts.py:109-116 | a `name` or `type` field is the unquoted text of the last string value under that key, and `""` when the key is missing or none of its values is a string |
| Normalize.ItemOf | track_oracles_ts.py:109-118 | an object element yields an entry only when its name or its type is non-empty |
| Normalize.RawItemsAtMostOnePerObject | track_oracles_ts.py:106-118 | there is at most one entry per object element, and non-object elements are skipped |
| Normalize.RawItemsHas | track_oracles_ts.py:106-118 | every object element whose name or type is non-empty contributes its entry |
| Normalize.SortItems | track_oracles_ts.py:119 | the sort gives a rearrangement of its input, a permutation, that is ordered by `(name, type)` |
| Normalize.SortedItemsUnique | track_oracles_ts.py:119 | two sorted rearrangements of the same entries are equal, so the result of the stable sort is determined |
| Normalize.BreakdownItems | track_oracles_ts.py:104-120 | the entries are the object elements' entries, sorted by `(name, type)`, and each has a non-empty name or type |
| Normalize.BreakdownItemsHas | track_oracles_ts.py:104-120 | the sorted entries keep the entry of every object element of the array that has one |
| Normalize.ScanItem | track_oracles_ts.py:109-118 | the scan over one element's pairs keeps the last string `name` and the last string `type`, with `""` when one is missing or not a string |
| Normalize.OraclesBreakdownItems | track_oracles_ts.py:104-120 | the loop and the final sort compute the sorted entries of the object elements |
| Normalize.ObjectRecord | track_oracles_ts.py:122-147 | a returned record has a non-empty id and the given file name, strictly ascending oracles, and sorted breakdown entries that each have a non-empty name or type |
| Normalize.ObjectRecordNeedsId | track_oracles_ts.py:127-147 | an object yields a record exactly when the last pair with key `id` and a string value unquotes to non-empty text, and that text is the record's id |
| Normalize.ObjectWithoutIdIgnored | track_oracles_ts.py:139-140 | an object with no string-valued `id` pair yields no record, whatever other fields it has |
| Normalize.ObjectToProtocolMin | track_oracles_ts.py:122-147 | the loop over the pairs, in which each recognised key overwrites its field, computes that record or none |
| Syntax.PreorderStackPop | track_oracles_ts.py:155-162 | popping the top node and pushing its children puts that node first and leaves the rest of the visiting order unchanged |
| Syntax.PreorderLength | track_oracles_ts.py:154-162 | the walk visits as many nodes as the tree has, so it terminates |
| Syntax.PreorderVisitsTree | track_oracles_ts.py:154-162 | the walk visits every node of the tree, nested objects included, and no other node |
| Extract.StoreLastWins | track_oracles_ts.py:159-160 | a record is stored under its id, and a later record with the same id overwrites an earlier one |
| Extract.FileRecordsIds | track_oracles_ts.py:153-163 | every record in a file's map sits under its own id and names that file |
| Extract.FileRecordsFromTree | track_oracles_ts.py:154-162 | the keys of a file's map are exactly the ids of the object nodes anywhere in the tree that yield a record |
| Extract.FileRecordsLastWins | track_oracles_ts.py:155-162 | the record under an id comes from the last node, in visiting order, that yields that id |
| Extract.ParseFileTs | track_oracles_ts.py:149-163 | the stack loop computes the file's map: records keyed by id, in visiting order |
| Extract.MergeFilesIds | track_oracles_ts.py:262-269 | every record in the merged dataset sits under its own id and comes from one of the listed files |
| Extract.MergeKeys | track_oracles_ts.py:262-269 | an id is in the dataset exactly when some listed file that exists contributes it; missing files contribute nothing |
| Extract.MergeLastWins | track_oracles_ts.py:262-269 | on an id collision, the record from the last file that holds the id wins |
| Extract.BuildDataset | track_oracles_ts.py:262-269 | the merge loop computes the merged dataset of the listed files |
| Extract.BuildTargetDataset | track_oracles_ts.py:262-269 | the dataset of a run (`TARGET_FILES`, track_oracles_ts.py:30) is the merge of `data.ts`, `data1.ts`, `data2.ts`, `data3.ts` and `data4.ts`, in that order |
| Diff.NameToType | track_oracles_ts.py:166-168 | the empty name is never a key |
| Diff.NameToTypeKeys | track_oracles_ts.py:166-168 | the keys are exactly the non-empty stripped names of the entries |
| Diff.NameToTypeLastWins | track_oracles_ts.py:166-168 | the type kept for a name is the stripped type of the last entry with that name |
| Diff.TypeChanges | track_oracles_ts.py:180 | each tuple holds a listed name present in both maps, with its old and its new type, and the two types differ |
| Diff.TypeChangesComplete | track_oracles_ts.py:180 | every listed name present in both maps whose types differ has its tuple |
| Diff.TypeChangesEmpty | track_oracles_ts.py:180 | there are no tuples exactly when every listed name present in both maps keeps its type |
| Diff.TypeChangesAscending | track_oracles_ts.py:180 | ascending names give tuples in strictly ascending name order |
| Diff.ChangeIfAny | track_oracles_ts.py:185-193 | a change is reported exactly when `plus`, `minus` or `types` is non-empty, and it carries the id and the three lists |
| Diff.ChangeForShape | track_oracles_ts.py:176-193 | a reported change has the id, the new file, the new name or else the old one, and strictly ascending `plus` and `minus` that hold exactly the added and the removed names; at least one of its lists is non-empty |
| Diff.ChangeForTypes | track_oracles_ts.py:178-180 | `types` is in ascending name order and lists a name exactly when the name is in both name-to-type maps with different types, with the old and the new type |
| Diff.ChangeForNone | track_oracles_ts.py:176-185 | nothing is reported for an id exactly when both sides have the same oracle set and the same name-to-type map |
| Diff.PlusMinusMayOverlap | track_oracles_ts.py:177-184 | a name moved from the breakdown into `oracles` is in both `plus` and `minus` |
| Diff.OutcomesIds | track_oracles_ts.py:172-187 | the change reported at each position carries the id of that position |
| Diff.CollectAscending | track_oracles_ts.py:171-186 | appending changes in ascending id order gives a list with strictly ascending ids |
| Diff.DiffSelf | track_oracles_ts.py:170-194 | comparing a dataset with itself reports nothing |
| Diff.DiffAscending | track_oracles_ts.py:172 | reported ids are strictly ascending |
| Diff.DiffSound | track_oracles_ts.py:172-175 | every reported change belongs to an id present in both datasets, and it is the change computed for that id |
| Diff.DiffComplete | track_oracles_ts.py:172-193 | every id present in both datasets whose oracle sets or name-to-type maps differ is reported |
| Diff.OnlySharedIdsReported | track_oracles_ts.py:173-175 | an id missing on either side, such as a brand-new protocol, is never reported |
| Diff.OracleSwapReported | track_oracles_ts.py:176-193 | oracles `[a, b]` that become `[b, c]` give `plus = [c]` and `minus = [a]` |
| Diff.TypeChangeReported | track_oracles_ts.py:178-193 | an entry whose type goes from `primary` to `secondary` gives one type-change tuple and no added or removed name |
| Diff.CompareRecords | track_oracles_ts.py:176-193 | the comparison of one pair of records computes the change specified for that id |
| Diff.DiffStates | track_oracles_ts.py:170-194 | the loop over the sorted union of ids computes the specified change list |
| Text.SortedSeqSpec | track_oracles_ts.py:136 | `sorted(set(...))` gives a strictly ascending sequence that holds exactly the set's elements |
| Text.SortedUnique | track_oracles_ts.py:181-184 | a strictly ascending sequence is determined by its elements |
| Text.SortSet | track_oracles_ts.py:136 | the method computes the sorted sequence of a set |
| Text.StripIsTrimmedSlice | track_oracles_ts.py:167 | `strip` returns a slice of its input with only whitespace outside the slice, and the result neither starts nor ends with whitespace |
| Text.Decimal | track_oracles_ts.py:241 | a count renders as non-empty decimal digits |
| Text.DecimalValue | track_oracles_ts.py:241 | the rendered digits denote the count itself |
| Html.EscapeIsPerCharacter | track_oracles_ts.py:23 | replacing `&` before the other four characters is the same as escaping each character once |
| Html.EscapeRoundTrip | track_oracles_ts.py:23 | unescaping escaped text gives the original text back |
| Html.EscapeRemovesMarkup | track_oracles_ts.py:217-236 | escaped text contains no `<`, `>`, `"` or `'` and is at least as long as the input |
| Report.HumanLinesShape | track_oracles_ts.py:210-241 | the output is the sentinel alone exactly when there are no changes; otherwise it has one line per block line plus a last line that carries the number of changes |
| Report.TotalLineCount | track_oracles_ts.py:241 | the closing line is the fixed label followed by digits that denote the count |
| Report.UnchangedPrintsSentinel | track_oracles_ts.py:210-213 | comparing a dataset with itself prints only the sentinel |
| Report.BlocksLength | track_oracles_ts.py:216-239 | the blocks together have 2 + \|plus\| + \|minus\| + \|types\| lines per change |
| Report.BlocksInOrder | track_oracles_ts.py:216-239 | the block of each change appears in change order, starting after the blocks of the earlier changes |
| Report.ChangeLinesFrame | track_oracles_ts.py:222-239 | a block is a header, then the plus lines, the minus lines and the type lines in that order, then a blank line |
| Report.NameLinesAt | track_oracles_ts.py:225-228 | the line at position j names the j-th name, escaped, after its mark |
| Report.HeaderMarkupFixed | track_oracles_ts.py:217-222 | for any name, id and file, the header holds the same number of each markup character, so the data cannot open or close a tag |
| Report.TypeLineMarkupFixed | track_oracles_ts.py:231-236 | the same holds for a type-change line, for any name and pair of types |
| Report.AppendNames | track_oracles_ts.py:225-228 | the loop appends one line per name |
| Report.AppendTypes | track_oracles_ts.py:231-236 | the loop appends one line per type change |
| Report.AppendChange | track_oracles_ts.py:216-239 | one iteration appends the change's whole block |
| Report.PrintHuman | track_oracles_ts.py:205-242 | the builder returns the specified report lines |

## Left out

- The grammar setup, `ensure_ts_language` (track_oracles_ts.py:43-61): it
  clones a git repository and builds a native library.
- Tree-sitter's `Parser.parse`: it is a foreign call. The model takes the
  tree as an input value.
- `get_text` (track_oracles_ts.py:64-65), which slices bytes and decodes them
  lossily as UTF-8. Node text is a given string.
- `load_snapshot` and `save_snapshot` (track_oracles_ts.py:197-203): file
  and JSON I/O. The previous snapshot is a `Dataset` value. Its records are
  therefore always non-empty, so the source's skip of an empty record dict
  never applies.
- Command-line parsing, the `--dump-all`, `--dump-id` and `--debug-ast`
  output, the JSON output mode, and the first-run and dry-run branches of
  `main` (track_oracles_ts.py:245-298).
- Extract.BuildDataset: takes the list of files as a parameter;
  `Extract.BuildTargetDataset` calls it with `Extract.TargetFiles`. Whether a file exists is modelled by
  whether `trees` has a tree for it.
- Report.PrintHuman: returns the lines. Joining them with newlines and
  printing them is left to the caller.
- Syntax.Node: the `key` and `value` fields are indices into the children.
  Tree-sitter's field lookup is not modelled beyond that.
- `oracleChangeDetector.py` is not part of this model. It is process
  plumbing: git calls, Telegram requests, environment loading and a polling
  loop.
