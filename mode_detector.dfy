/**
 * `detect_mode`: SKU mode when at least 80% of the rows carry a SKU that
 * parses to a slot, sequence mode otherwise.
 */
module ModeDetector {
  import opened Wrappers
  import opened OrderTable
  import opened SkuParser

  /** The row's `sku` cell parses to a slot. */
  predicate ValidSku(r: Row) {
    ParseSkuToSlot(r.sku).Some?
  }

  /** Number of `true` entries: all of them exactly when every entry is true, none when every entry is false. */
  function CountTrue(bs: seq<bool>): (n: nat)
    ensures n <= |bs|
    ensures n == |bs| <==> forall p :: 0 <= p < |bs| ==> bs[p]
    ensures n == 0 <==> forall p :: 0 <= p < |bs| ==> !bs[p]
  {
    if bs == [] then 0
    else
      var prefix := bs[..|bs| - 1];
      assert forall p :: 0 <= p < |prefix| ==> prefix[p] == bs[p];
      CountTrue(prefix) + (if bs[|bs| - 1] then 1 else 0)
  }

  /** The `parse_sku_to_slot(x) is not None` column. */
  function Validity(rows: seq<Row>): (bs: seq<bool>)
    ensures |bs| == |rows|
  {
    seq(|rows|, p requires 0 <= p < |rows| => ValidSku(rows[p]))
  }

  lemma ValidityAppend(rows: seq<Row>, r: Row)
    ensures Validity(rows + [r]) == Validity(rows) + [ValidSku(r)]
  {
    var xs := rows + [r];
    forall p | 0 <= p < |xs| ensures Validity(xs)[p] == (Validity(rows) + [ValidSku(r)])[p] {
      if p < |rows| {
        assert xs[p] == rows[p];
      }
    }
  }

  /**
   * Number of rows whose `sku` cell parses to a slot: all of them exactly
   * when every cell parses, none exactly when no cell does.
   */
  function CountValidSkus(rows: seq<Row>): (n: nat)
    ensures n <= |rows|
    ensures n == |rows| <==> forall p :: 0 <= p < |rows| ==> Validity(rows)[p]
    ensures n == 0 <==> forall p :: 0 <= p < |rows| ==> !Validity(rows)[p]
  {
    CountTrue(Validity(rows))
  }

  /** For a positive total, `valid / total >= 0.8` is `5 * valid >= 4 * total`. */
  lemma RatioThreshold(valid: nat, total: nat)
    requires total > 0
    ensures (valid as real) / (total as real) >= 0.8 <==> 5 * valid >= 4 * total
  {
    var v, n := valid as real, total as real;
    var r := v / n;
    assert r * n == v;
    assert v - 0.8 * n == (r - 0.8) * n;
    assert 5 * valid >= 4 * total <==> v - 0.8 * n >= 0.0;
    if r >= 0.8 {
      assert (r - 0.8) * n >= 0.0;
    } else {
      assert (r - 0.8) * n < 0.0;
    }
  }

  /**
   * `detect_mode`: sequence mode without a `sku` column or without rows;
   * otherwise SKU mode exactly when the share of parsable SKUs is at least 0.8.
   */
  function DetectMode(t: Table): (m: Mode)
    ensures m == SkuMode <==>
              t.hasSkuColumn && |t.rows| > 0
              && (CountValidSkus(t.rows) as real) / (|t.rows| as real) >= 0.8
  {
    if !t.hasSkuColumn then SequenceMode
    else
      var valid := CountValidSkus(t.rows);
      var total := |t.rows|;
      if total == 0 then SequenceMode
      else
        RatioThreshold(valid, total);
        if 5 * valid >= 4 * total then SkuMode else SequenceMode
  }

  /** Adding a row with a parsable SKU never moves a table from SKU mode to sequence mode. */
  lemma {:induction false} DetectModeMonotone(t: Table, r: Row)
    requires DetectMode(t) == SkuMode
    requires ParseSkuToSlot(r.sku).Some?
    ensures DetectMode(Table(t.rows + [r], t.hasSkuColumn, t.hasPlacedAtColumn)) == SkuMode
  {
    var rows := t.rows + [r];
    ValidityAppend(t.rows, r);
    var bs := Validity(t.rows) + [true];
    assert bs[..|bs| - 1] == Validity(t.rows);
    assert CountValidSkus(rows) == CountValidSkus(t.rows) + 1;
    RatioThreshold(CountValidSkus(t.rows), |t.rows|);
    RatioThreshold(CountValidSkus(rows), |rows|);
  }
}
