/**
 * The values the matcher works on: an order table read from an export, the
 * row annotations it adds, the summary record it returns and its input errors.
 */
module OrderTable {
  import opened Wrappers
  import opened Text

  /**
   * One order row, reduced to the three columns the matcher reads.
   * `productName` is the `product name` cell as Python's `str()` renders it,
   * "" when the table has no such column; `sku` is the `sku` cell, None when
   * it is null; `placedAt` is the `placed at` cell already parsed to a
   * timestamp, None when it does not parse.
   */
  datatype Row = Row(productName: string, sku: Option<string>, placedAt: Option<int>)

  /** A table: its rows in file order and which optional columns it has. */
  datatype Table = Table(rows: seq<Row>, hasSkuColumn: bool, hasPlacedAtColumn: bool)

  /** `row.get('sku')`: the cell, or None when the table has no `sku` column. */
  function SkuCell(hasSkuColumn: bool, r: Row): Option<string> {
    if hasSkuColumn then r.sku else None
  }

  /** The two assignment strategies, `mode_used` in the summary. */
  datatype Mode = SkuMode | SequenceMode

  /** The `match_method` column. */
  datatype MatchMethod = BySku | BySequence | Excluded | ManualReview

  /** A row of the output: the input row plus the five annotation columns. */
  datatype AnnotatedRow = AnnotatedRow(
    row: Row,
    slot: Option<int>,
    itemLabel: Option<string>,
    matchMethod: MatchMethod,
    needsReview: bool,
    reason: string)

  /**
   * The `matched_item_label` of a slot: `f"Item #{slot}"`. The text after
   * the prefix is the slot in decimal without leading zeros, a minus sign
   * first when it is negative.
   */
  function Label(slot: int): (r: string)
    ensures |r| > 6 && r[..6] == "Item #"
    ensures slot >= 0 ==> AllDigits(r[6..]) && DigitsValue(r[6..]) == slot
    ensures slot < 0 ==> r[6] == '-' && AllDigits(r[7..]) && DigitsValue(r[7..]) == -slot
    ensures slot >= 0 ==> |r| == 7 || r[6] != '0'
    ensures slot < 0 ==> |r| == 8 || r[7] != '0'
  {
    var digits := NatToString(if slot < 0 then -slot else slot);
    NatToStringRoundTrip(if slot < 0 then -slot else slot);
    var r := "Item #" + IntToString(slot);
    assert slot >= 0 ==> r[6..] == digits;
    assert slot < 0 ==> r[7..] == digits;
    r
  }

  /** The summary record returned beside the annotated rows. */
  datatype Summary = Summary(
    totalRows: nat,
    matched: nat,
    excluded: nat,
    needsReview: nat,
    duplicateSlots: nat,
    modeUsed: Mode,
    startSlot: int,
    excludeKeywords: seq<string>,
    includeKeywords: seq<string>)

  /** The annotated table, in processing order, and its summary. */
  datatype Matched = Matched(rows: seq<AnnotatedRow>, summary: Summary)

  /** The input errors `match` raises as `ValueError`. */
  datatype MatchError = EmptyTable | InvalidMode(mode: string)
}
