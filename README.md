# Whatnot slot matcher — a verified model of `match`

The Whatnot slot matcher takes an order export (one row per sold item) and
assigns each row an inventory slot (`Item #1`, `Item #2`, ...), so that
orders can be matched to physical items. This project models the matcher
core in `whatnot-matcher/app/matcher.py` in Dafny:

- `parse_sku_to_slot`: the slot number in a SKU is the first run of decimal
  digits, after stripping whitespace.
- `should_exclude_row` and `should_include_row`: case-insensitive keyword
  tests against the product name.
- `detect_mode`: SKU mode when at least 80% of the SKUs parse, sequence mode
  otherwise.
- `match`:
  - It rejects an empty table and an unknown mode, normalises the keyword
    lists and resolves the mode.
  - In SKU mode it reads each slot from the row's SKU.
  - In sequence mode it first orders the rows by their `placed at`
    timestamps and then hands out consecutive slots from `start_slot`.
  - It records every slot's rows in `slot_usage`, flags every row whose slot
    is held by more than one row, and reports the counters in a summary.

The modules follow the source:

- `Text`: Python's `strip`, `lower`, substring test, `int()` on digits and
  `str()` on integers, ASCII only.
- `OrderTable`: rows, tables, the annotation columns, the summary and the
  input errors.
- `SkuParser`, `RowFilter`, `ModeDetector`: the pure helpers.
- `ProcessingOrder`: a stable stand-in for the timestamp sort of sequence
  mode, with unparsable timestamps last. The source's sort is not stable;
  see "## Left out".
- `AssignmentSpec`: what `match` computes, stated row by row.
  - `FirstPass` is the SKU loop or the sequence loop.
  - `UsageOf` and `SlotOrder` are `slot_usage` and its key order.
  - `Reviewed` is the duplicate pass.
- `Matcher`: `match` itself as imperative code.
  - The output is an array filled in the row loop.
  - Counters and the `slot_usage` map are updated as the loop goes.
  - The duplicate pass walks `slot_usage` in insertion order and flags rows
    in place.
  - Each method is proved against the `AssignmentSpec` functions.
- `MatcherProperties`: what the returned table looks like, for every input.

## Model

| member | source | states |
|---|---|---|
| Text.StripSurrounded | whatnot-matcher/app/matcher.py:55 | `strip()` removes exactly the leading and trailing whitespace runs and keeps what lies between them |
| Text.Strip | whatnot-matcher/app/matcher.py:55 | the result is no longer than the input and neither starts nor ends with whitespace (StripSurrounded shows what is kept) |
| Text.Lower | whatnot-matcher/app/matcher.py:82-85 | same length; no capital letter remains; each capital becomes its small letter and every other character is kept |
| Text.Contains | whatnot-matcher/app/matcher.py:85 | the substring scan answers true iff some window of the text equals the keyword |
| Text.LeadingZeroIgnored | whatnot-matcher/app/matcher.py:62 | `int()` ignores a leading zero: `int("0" + ds) == int(ds)` |
| Text.NatToStringRoundTrip | whatnot-matcher/app/matcher.py:216 | reading back the decimal rendering of a slot gives the slot |
| OrderTable.Label | whatnot-matcher/app/matcher.py:216 | the label is `Item #` followed by the slot in decimal without leading zeros, a minus sign first for a negative slot; the digits read back as the slot |
| SkuParser.ParseSkuToSlot | whatnot-matcher/app/matcher.py:34-64 | no slot iff the cell is null or contains no digit |
| SkuParser.FirstNumberOfSplit | whatnot-matcher/app/matcher.py:60-62 | the search returns the value of the leftmost maximal digit run, whatever digit-free text precedes it and whatever follows it |
| SkuParser.StripPreservesFirstNumber | whatnot-matcher/app/matcher.py:55-60 | stripping the cell never changes the first number found in it |
| SkuParser.ParseIsFirstNumber | whatnot-matcher/app/matcher.py:51-64 | for any cell text, including empty and blank, the slot is the first number in it |
| SkuParser.ParseSplit | whatnot-matcher/app/matcher.py:51-64 | a cell made of digit-free text, a digit run and text not starting with a digit parses to the value of that run |
| SkuParser.ParseIgnoresWhitespace | whatnot-matcher/app/matcher.py:55-57 | whitespace around the cell never changes the slot |
| SkuParser.ParseDropsLeadingZeros | whatnot-matcher/app/matcher.py:62 | a leading zero in the first number never changes the slot (`ITEM-001` is slot 1) |
| SkuParser.ParseNoNumber | whatnot-matcher/tests/test_matcher.py:28-33 | null, empty, blank and digit-free cells give no slot |
| SkuParser.LabelRoundTrip | whatnot-matcher/app/matcher.py:216 | parsing the label `"Item #" + str(n)` gives back slot `n` |
| RowFilter.AnyKeywordIn | whatnot-matcher/app/matcher.py:84-88 | the keyword loop answers true iff some lowercased keyword occurs in the lowercased name |
| RowFilter.ShouldExcludeRow | whatnot-matcher/app/matcher.py:67-88 | a missing or empty list never excludes; otherwise exclude iff some keyword occurs in the name, ignoring case |
| RowFilter.ShouldIncludeRow | whatnot-matcher/app/matcher.py:91-112 | a missing or empty list includes every row; otherwise include iff some keyword occurs in the name, ignoring case |
| RowFilter.FiltersIgnoreCase | whatnot-matcher/app/matcher.py:82-85 | lowercasing the name or the keywords beforehand changes neither filter |
| ModeDetector.CountValidSkus | whatnot-matcher/app/matcher.py:129 | the number of parsable SKUs is at most the row count; it equals the row count iff every SKU parses, and it is zero iff none does |
| ModeDetector.RatioThreshold | whatnot-matcher/app/matcher.py:135-136 | for a positive total, `valid / total >= 0.8` iff `5 * valid >= 4 * total` |
| ModeDetector.DetectMode | whatnot-matcher/app/matcher.py:115-136 | SKU mode iff there is a `sku` column, at least one row and a ratio of parsable SKUs of at least 0.8 |
| ModeDetector.DetectModeMonotone | whatnot-matcher/app/matcher.py:129-136 | adding a row with a parsable SKU keeps a table in SKU mode |
| ProcessingOrder.InsertByKey | whatnot-matcher/app/matcher.py:232 | inserting a position into a sorted list keeps it sorted by timestamp (missing last) and adds exactly that position; a position with a missing timestamp goes at the end |
| ProcessingOrder.InsertSplit | whatnot-matcher/app/matcher.py:232 | the insertion keeps the other positions in their order around the new one, which lands at the end when its timestamp is missing |
| ProcessingOrder.InsertKeepsMissingOrder | whatnot-matcher/app/matcher.py:232 | inserting a later position keeps the missing-timestamp positions in file order and every position below the new bound |
| ProcessingOrder.SortPrefix | whatnot-matcher/app/matcher.py:231-232 | the sorted order is a permutation of the positions, ascending by timestamp, missing timestamps last and in file order among themselves (pandas places NaN positions last in their original order) |
| ProcessingOrder.Order | whatnot-matcher/app/matcher.py:226-235 | every row is visited exactly once: sorted in sequence mode with a `placed at` column, with NaT rows last in file order; file order otherwise |
| ProcessingOrder.PickPermutation | whatnot-matcher/app/matcher.py:232 | reordering the rows by two position lists that are permutations of each other gives the same multiset of rows |
| ProcessingOrder.Processed | whatnot-matcher/app/matcher.py:226-239 | the rows in processing order are the table's rows, each exactly once (same length, same multiset) |
| ProcessingOrder.FileOrderKept | whatnot-matcher/app/matcher.py:190-192 | SKU mode, and sequence mode without `placed at`, visit the rows in file order |
| ProcessingOrder.SequenceOrderSorted | whatnot-matcher/app/matcher.py:228-239 | with `placed at`, sequence mode visits rows by ascending timestamp, missing ones last, and rows with a missing timestamp in file order |
| ProcessingOrder.AllMissingKeepsFileOrder | whatnot-matcher/app/matcher.py:228-235 | when no `placed at` cell parses, sequence mode keeps file order |
| AssignmentSpec.NormalizeKeywords | whatnot-matcher/app/matcher.py:164-166 | a missing keyword list becomes empty; otherwise every keyword is stripped, in order |
| AssignmentSpec.ResolveMode | whatnot-matcher/app/matcher.py:168-173 | an input error iff the mode is not `auto`, `sku` or `sequence`, reported with that mode; `sku` and `sequence` give their mode, `auto` gives the mode `detect_mode` chooses |
| AssignmentSpec.AnnotateBySku | whatnot-matcher/app/matcher.py:193-218 | SKU mode, one row: it keeps its data and is never a sequence match; excluded iff filtered; manual review iff kept without a parsable SKU; it has a slot iff matched by SKU, and the slot is then the parsed SKU |
| AssignmentSpec.SkuPass | whatnot-matcher/app/matcher.py:190-218 | one annotation per row (what each row gets is stated by AnnotateBySku, FirstPassRow and SkuModeRows) |
| AssignmentSpec.SequencePass | whatnot-matcher/app/matcher.py:237-264 | one annotation per row (its rows are described by SequenceRowAssigned, SequenceRowExcluded and SequenceModeSlots) |
| AssignmentSpec.FirstPass | whatnot-matcher/app/matcher.py:190-264 | one annotation per row under the resolved mode (its rows are described by FirstPassRow) |
| AssignmentSpec.UsageOf | whatnot-matcher/app/matcher.py:220-224 | every slot in `slot_usage` has a non-empty list of rows, each a row of the table (UsageFacts states exactly which rows) |
| AssignmentSpec.SlotOrder | whatnot-matcher/app/matcher.py:268 | every key in the insertion order is a key of `slot_usage` (SlotOrderFacts adds that each key appears exactly once) |
| AssignmentSpec.JoinDuplicateReason | whatnot-matcher/app/matcher.py:273-277 | an empty reason gives `duplicate_slot` alone; a non-empty one is kept in front, followed by `"; "` and `duplicate_slot` |
| AssignmentSpec.FlagDuplicate | whatnot-matcher/app/matcher.py:272-277 | a flagged row needs review and has a non-empty reason; nothing else about it changes |
| AssignmentSpec.Reviewed | whatnot-matcher/app/matcher.py:266-279 | one row out per row in; DuplicatesFlagged states that exactly the rows with a shared slot are flagged with `duplicate_slot` and every other row is returned unchanged |
| AssignmentSpec.UsageFacts | whatnot-matcher/app/matcher.py:220-224 | `slot_usage` maps each slot in use to exactly the rows holding it, once each, in increasing order |
| AssignmentSpec.SlotOrderFacts | whatnot-matcher/app/matcher.py:268 | the insertion order of `slot_usage` lists each key exactly once |
| AssignmentSpec.DuplicateSlotsMembership | whatnot-matcher/app/matcher.py:268-270 | a slot is a duplicate slot iff more than one row holds it |
| AssignmentSpec.ReviewedKeepsAssignment | whatnot-matcher/app/matcher.py:266-279 | the duplicate pass keeps the slot column and every per-method count |
| AssignmentSpec.FirstPassSlotRows | whatnot-matcher/app/matcher.py:214-218 | after the first pass, every row with a slot is matched, unflagged and without a reason |
| AssignmentSpec.SequenceRowAssigned | whatnot-matcher/app/matcher.py:252-264 | a row that passes the filters takes the current slot, which then advances by one |
| AssignmentSpec.SequenceRowExcluded | whatnot-matcher/app/matcher.py:240-250 | a filtered row is excluded and the current slot does not advance |
| Matcher.AssignBySku | whatnot-matcher/app/matcher.py:190-224 | the SKU loop fills every row with its first-pass annotation and returns the counters and `slot_usage` of the filled rows |
| Matcher.AssignBySequence | whatnot-matcher/app/matcher.py:237-264 | the sequence loop fills every row with its first-pass annotation, flags none, and returns the counters and `slot_usage` |
| Matcher.FlagSlotRows | whatnot-matcher/app/matcher.py:271-279 | flags exactly the listed rows, appending `duplicate_slot` to their reason, and counts each newly flagged row |
| Matcher.FlagDuplicates | whatnot-matcher/app/matcher.py:266-279 | leaves the table equal to the duplicate pass of the first pass; counts the distinct slots held more than once; its review count equals the flagged rows |
| Matcher.AnnotateRows | whatnot-matcher/app/matcher.py:175-279 | returns the first pass followed by the duplicate pass, with the counters of the returned rows |
| Matcher.Match | whatnot-matcher/app/matcher.py:139-294 | empty table and unknown mode are errors, and success happens exactly otherwise; the rows are the annotated table in processing order; every summary field is the matching count of those rows or the normalised input |
| MatcherProperties.FirstPassRow | whatnot-matcher/app/matcher.py:190-264 | after the first pass each row keeps its data; it is excluded iff filtered; a manual-review row carries `sku_missing_or_invalid`; a slot row is matched and labelled |
| MatcherProperties.SlotIffMatched | whatnot-matcher/app/matcher.py:214-217 | every row keeps its data; a row holds a slot iff its method is `sku` or `sequence`, and then its label is `"Item #"` plus the slot |
| MatcherProperties.ReviewIffReason | whatnot-matcher/app/matcher.py:209-212 | a returned row needs review iff its reason is non-empty |
| MatcherProperties.ExclusionFirst | whatnot-matcher/app/matcher.py:193-203 | a row is excluded iff it fails a filter, whatever its SKU; excluded rows have no slot, no label and no flag |
| MatcherProperties.BlankKeywordMatchesAll | whatnot-matcher/app/matcher.py:165-166 | a whitespace-only keyword strips to "", so as an exclude keyword it excludes every row and as an include keyword it admits every row |
| MatcherProperties.SkuModeRows | whatnot-matcher/app/matcher.py:205-218 | SKU mode: a kept row without a parsable SKU goes to manual review with reason `sku_missing_or_invalid`, otherwise its slot is its SKU's number |
| MatcherProperties.DuplicatesFlagged | whatnot-matcher/app/matcher.py:266-279 | a row's reason is `duplicate_slot` iff another row holds its slot, and it is then flagged; nothing but flag and reason differs from the first pass; a row whose slot is not shared is returned exactly as the first pass left it |
| MatcherProperties.MethodsPartition | whatnot-matcher/app/matcher.py:195-217 | every row has exactly one match method, so the method counts add up to the row count |
| MatcherProperties.CountersAddUp | whatnot-matcher/app/matcher.py:282-287 | matched + excluded + manual review == `total_rows` |
| MatcherProperties.SequenceMatchedCount | whatnot-matcher/app/matcher.py:237-264 | sequence mode matches exactly the rows that pass the filters |
| MatcherProperties.SequenceSlotsConsecutive | whatnot-matcher/app/matcher.py:252-264 | the slots handed out are `start_slot`, `start_slot + 1`, ... in processing order, one per row passing the filters |
| MatcherProperties.SequenceSlotsIncrease | whatnot-matcher/app/matcher.py:253-264 | sequence mode gives a later row a greater slot |
| MatcherProperties.SequenceNoSharedSlot | whatnot-matcher/app/matcher.py:258-264 | sequence mode never gives one slot to two rows |
| MatcherProperties.SequenceModeSlots | whatnot-matcher/app/matcher.py:226-279 | sequence mode: consecutive slots from `start_slot`, no duplicate slot, no flagged row and no manual review |

## Left out

- `load_csv` and `export_csv`: CSV parsing and rendering are pandas I/O, so they are not modelled. A table arrives as the `Table` datatype, carrying its rows and whether the `sku` and `placed at` columns exist.
- `pd.to_datetime(..., errors='coerce')` is not modelled. `placedAt` holds the already parsed timestamp as an integer, or None for NaT.
- The `except` fallback to file order (matcher.py:233-235) is not modelled. `to_datetime` or `sort_values` can raise on some inputs inside that `try`, for example timestamps in mixed time zones, depending on the pandas version. The model takes every timestamp as an already comparable `Option<int>` key, so its sort never fails.
- `df.sort_values('_sort_key')` uses quicksort, which is not stable for rows with equal timestamps. The model sorts stably, so such rows keep file order; the contracts state only "sorted, missing last, a permutation" for them. Rows whose timestamp is NaT are different: pandas places them last in file order whatever the sort kind, and the contracts state that. The helper `_sort_key` column in the output is not modelled.
- Index labels are modelled as row positions. The output is the table in processing order. A table whose index has repeated labels is not modelled.
- `Row` keeps only the `product name`, `sku` and `placed at` columns. The source copies the whole table (`df.copy()`), so every other input column reaches the output unchanged. The model cannot state that those columns are preserved.
- SkuParser.ParseSkuToSlot and OrderTable.Label: on Python 3.11 and later, `int()` on a run of more than 4300 digits, and `str()` of such a slot, raise `ValueError` (the `int_max_str_digits` limit). That aborts `detect_mode` and `match`. The model returns the slot and its label for any length.
- Cells are strings. A numeric `sku` or `product name` cell is not modelled; Python renders it with `str()` first. A NaN product name is not modelled either.
- Case folding and whitespace cover ASCII only. Python's `lower()`, `strip()` and `\d` also handle non-ASCII letters, spaces and digits.
- `detect_mode` compares a float ratio; the model uses the exact rational ratio, and `RatioThreshold` shows it equals `5 * valid >= 4 * total`. Floating-point rounding of `valid / total` is not modelled.
- `df.empty` is true also for a table with columns but no rows, or rows but no columns. The model sees only the row count.
- Default arguments (`mode="auto"`, `start_slot=1`) are not modelled: every argument is explicit. Slots are unbounded integers.
- The summary's `mode_used` is the `Mode` datatype. It can only be SKU or sequence, so the string form is not modelled.
- The web and command-line front ends (`main.py`, `cli.py`) are not part of this model.
