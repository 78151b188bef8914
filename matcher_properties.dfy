/**
 * What the annotated table returned by `match` looks like, row by row and
 * as a whole, for any table, mode, start slot and keyword lists.
 */
module MatcherProperties {
  import opened Wrappers
  import opened Text
  import opened OrderTable
  import opened SkuParser
  import opened RowFilter
  import opened AssignmentSpec

  /** The annotated rows `match` returns for rows already in processing order. */
  function Annotated(rows: seq<Row>, mode: Mode, hasSkuColumn: bool, start: int,
                     excl: seq<string>, incl: seq<string>): seq<AnnotatedRow> {
    Reviewed(FirstPass(rows, mode, hasSkuColumn, start, excl, incl))
  }

  /**
   * One row of the first pass: it keeps its order data; it is excluded
   * exactly when it fails the filters; a row with a slot is matched, labelled
   * and open; a row without one is excluded or waiting for manual review.
   */
  lemma FirstPassRow(rows: seq<Row>, mode: Mode, hasSkuColumn: bool, start: int,
                     excl: seq<string>, incl: seq<string>, p: nat)
    requires p < |rows|
    ensures var a := FirstPass(rows, mode, hasSkuColumn, start, excl, incl)[p];
            && a.row == rows[p]
            && (a.matchMethod == Excluded <==> Filtered(rows[p], excl, incl))
            && (a.matchMethod == Excluded ==> a == ExcludedRow(rows[p]))
            && (a.matchMethod == ManualReview ==>
                  a == AnnotatedRow(rows[p], None, None, ManualReview, true, MissingSkuReason))
            && (a.slot.Some? <==> a.matchMethod == BySku || a.matchMethod == BySequence)
            && (a.slot.Some? ==> a == Assigned(rows[p], a.slot.value, a.matchMethod))
  {
    if mode == SequenceMode {
      if Filtered(rows[p], excl, incl) {
        SequenceRowExcluded(rows, start, excl, incl, p);
      } else {
        SequenceRowAssigned(rows, start, excl, incl, p);
      }
    }
  }

  /**
   * Every row keeps its order data, and holds a slot exactly when it was
   * matched by SKU or by sequence; its label is then `"Item #"` and the slot.
   */
  lemma SlotIffMatched(rows: seq<Row>, mode: Mode, hasSkuColumn: bool, start: int,
                       excl: seq<string>, incl: seq<string>)
    ensures var out := Annotated(rows, mode, hasSkuColumn, start, excl, incl);
            && |out| == |rows|
            && forall p :: 0 <= p < |out| ==>
                 && out[p].row == rows[p]
                 && (out[p].slot.Some? <==> out[p].matchMethod == BySku || out[p].matchMethod == BySequence)
                 && (out[p].slot.Some? ==> out[p].itemLabel == Some(Label(out[p].slot.value)))
                 && (out[p].slot.None? ==> out[p].itemLabel.None?)
  {
    var out := Annotated(rows, mode, hasSkuColumn, start, excl, incl);
    forall p | 0 <= p < |out|
      ensures && out[p].row == rows[p]
              && (out[p].slot.Some? <==> out[p].matchMethod == BySku || out[p].matchMethod == BySequence)
              && (out[p].slot.Some? ==> out[p].itemLabel == Some(Label(out[p].slot.value)))
              && (out[p].slot.None? ==> out[p].itemLabel.None?)
    {
      FirstPassRow(rows, mode, hasSkuColumn, start, excl, incl, p);
    }
  }

  /** A row needs review exactly when it carries a review reason. */
  lemma ReviewIffReason(rows: seq<Row>, mode: Mode, hasSkuColumn: bool, start: int,
                        excl: seq<string>, incl: seq<string>)
    ensures var out := Annotated(rows, mode, hasSkuColumn, start, excl, incl);
            forall p :: 0 <= p < |out| ==> (out[p].needsReview <==> out[p].reason != "")
  {
    var out := Annotated(rows, mode, hasSkuColumn, start, excl, incl);
    forall p | 0 <= p < |out| ensures out[p].needsReview <==> out[p].reason != "" {
      FirstPassRow(rows, mode, hasSkuColumn, start, excl, incl, p);
    }
  }

  /**
   * The keyword filters come first: a row is excluded exactly when it fails
   * them, whatever its SKU, and an excluded row has no slot and no flag.
   */
  lemma ExclusionFirst(rows: seq<Row>, mode: Mode, hasSkuColumn: bool, start: int,
                       excl: seq<string>, incl: seq<string>)
    ensures var out := Annotated(rows, mode, hasSkuColumn, start, excl, incl);
            forall p :: 0 <= p < |out| ==>
              && (out[p].matchMethod == Excluded <==> Filtered(rows[p], excl, incl))
              && (out[p].matchMethod == Excluded ==> out[p] == ExcludedRow(rows[p]))
  {
    var out := Annotated(rows, mode, hasSkuColumn, start, excl, incl);
    forall p | 0 <= p < |out|
      ensures && (out[p].matchMethod == Excluded <==> Filtered(rows[p], excl, incl))
              && (out[p].matchMethod == Excluded ==> out[p] == ExcludedRow(rows[p]))
    {
      FirstPassRow(rows, mode, hasSkuColumn, start, excl, incl, p);
    }
  }

  /**
   * A keyword made only of whitespace is stripped to "", which occurs in
   * every product name: given as an exclude keyword it excludes every row,
   * given as an include keyword it lets every row through.
   */
  lemma BlankKeywordMatchesAll(r: Row, keywords: seq<string>, i: nat)
    requires i < |keywords| && AllSpace(keywords[i])
    ensures ShouldExcludeRow(r, Some(NormalizeKeywords(Some(keywords))))
    ensures ShouldIncludeRow(r, Some(NormalizeKeywords(Some(keywords))))
  {
    var none := "";
    StripSurrounded(keywords[i], none, none);
    assert keywords[i] + none + none == keywords[i];
    var normalized := NormalizeKeywords(Some(keywords));
    assert normalized[i] == none && Lower(none) == none;
    assert OccursAt(Lower(r.productName), none, 0);
    assert normalized[i] in normalized;
  }

  /**
   * SKU mode, a row that passes the filters: a SKU without a number sends it
   * to manual review with reason `sku_missing_or_invalid`; otherwise its slot
   * is the number in its SKU.
   */
  lemma SkuModeRows(rows: seq<Row>, hasSkuColumn: bool, start: int, excl: seq<string>, incl: seq<string>)
    ensures var out := Annotated(rows, SkuMode, hasSkuColumn, start, excl, incl);
            forall p :: 0 <= p < |out| && !Filtered(rows[p], excl, incl) ==>
              var parsed := ParseSkuToSlot(SkuCell(hasSkuColumn, rows[p]));
              && (parsed.None? ==>
                    out[p].matchMethod == ManualReview && out[p].needsReview && out[p].reason == MissingSkuReason)
              && (parsed.Some? ==> out[p].matchMethod == BySku && out[p].slot == Some(parsed.value))
  {
  }

  /**
   * A row shares its slot with another row exactly when its reason is
   * `duplicate_slot`; it is then flagged, and nothing but the flag and the
   * reason differs from the first pass. A row whose slot is not shared comes
   * out exactly as the first pass left it.
   */
  lemma DuplicatesFlagged(rows: seq<Row>, mode: Mode, hasSkuColumn: bool, start: int,
                          excl: seq<string>, incl: seq<string>)
    ensures var base := FirstPass(rows, mode, hasSkuColumn, start, excl, incl);
            var out := Annotated(rows, mode, hasSkuColumn, start, excl, incl);
            var slots := Slots(out);
            forall p :: 0 <= p < |out| ==>
              && (out[p].reason == DuplicateReason <==> out[p].slot.Some? && SlotCount(slots, out[p].slot.value) > 1)
              && (out[p].reason == DuplicateReason ==> out[p].needsReview)
              && out[p].(needsReview := base[p].needsReview, reason := base[p].reason) == base[p]
              && (!(out[p].slot.Some? && SlotCount(slots, out[p].slot.value) > 1) ==> out[p] == base[p])
  {
    var base := FirstPass(rows, mode, hasSkuColumn, start, excl, incl);
    FirstPassSlotRows(rows, mode, hasSkuColumn, start, excl, incl);
    ReviewedKeepsAssignment(base);
  }

  /** Matched, excluded and manual-review rows add up to all rows. */
  lemma {:induction false} MethodsPartition(xs: seq<AnnotatedRow>)
    ensures CountMatched(xs) + CountMethod(xs, Excluded) + CountMethod(xs, ManualReview) == |xs|
  {
    if xs != [] {
      MethodsPartition(xs[..|xs| - 1]);
    }
  }

  /** In the summary, `matched + excluded + manual review == total_rows`. */
  lemma CountersAddUp(rows: seq<Row>, mode: Mode, hasSkuColumn: bool, start: int,
                      excl: seq<string>, incl: seq<string>)
    ensures var out := Annotated(rows, mode, hasSkuColumn, start, excl, incl);
            CountMatched(out) + CountMethod(out, Excluded) + CountMethod(out, ManualReview) == |rows|
  {
    MethodsPartition(Annotated(rows, mode, hasSkuColumn, start, excl, incl));
  }

  /** The slots held, in row order. */
  function SlotValues(slots: seq<Option<int>>): seq<int> {
    if slots == [] then []
    else
      SlotValues(slots[..|slots| - 1])
      + match slots[|slots| - 1] case None => [] case Some(s) => [s]
  }

  /** The consecutive slots `start`, `start + 1`, ..., `start + n - 1`. */
  function Consecutive(start: int, n: nat): (r: seq<int>)
    ensures |r| == n && forall i :: 0 <= i < n ==> r[i] == start + i
  {
    seq(n, i requires 0 <= i < n => start + i)
  }

  /** The slots held by a table are those of all but its last row, then the last row's. */
  lemma SlotValuesStep(xs: seq<AnnotatedRow>)
    requires xs != []
    ensures SlotValues(Slots(xs))
            == SlotValues(Slots(xs[..|xs| - 1])) + match xs[|xs| - 1].slot case None => [] case Some(s) => [s]
  {
    assert Slots(xs)[..|xs| - 1] == Slots(xs[..|xs| - 1]);
  }

  /** The sequence pass of a prefix is the prefix of the sequence pass. */
  lemma SequencePassPrefix(rows: seq<Row>, start: int, excl: seq<string>, incl: seq<string>, n: nat)
    requires n <= |rows|
    ensures SequencePass(rows, start, excl, incl)[..n] == SequencePass(rows[..n], start, excl, incl)
  {
    var whole, part := SequencePass(rows, start, excl, incl), SequencePass(rows[..n], start, excl, incl);
    forall p | 0 <= p < n ensures whole[p] == part[p] {
      assert rows[..n][..p] == rows[..p];
      assert SequenceRowAt(rows[..n], start, excl, incl, p) == SequenceRowAt(rows, start, excl, incl, p);
    }
    assert whole[..n] == part;
  }

  lemma ConsecutiveStep(start: int, n: nat)
    ensures Consecutive(start, n + 1) == Consecutive(start, n) + [start + n]
  {
    var longer, shorter := Consecutive(start, n + 1), Consecutive(start, n) + [start + n];
    assert forall i :: 0 <= i < n + 1 ==> longer[i] == shorter[i];
  }

  /** The sequence pass matches exactly the rows that pass the filters. */
  lemma {:induction false} SequenceMatchedCount(rows: seq<Row>, start: int, excl: seq<string>, incl: seq<string>)
    ensures CountMatched(SequencePass(rows, start, excl, incl)) == CountPassing(rows, excl, incl)
  {
    if rows != [] {
      var n := |rows|;
      var out := SequencePass(rows, start, excl, incl);
      var prefix := rows[..n - 1];
      var c := CountPassing(prefix, excl, incl);
      SequenceMatchedCount(prefix, start, excl, incl);
      SequencePassPrefix(rows, start, excl, incl, n - 1);
      assert CountMatched(out[..n - 1]) == c;
      PrefixStep(out, n - 1);
      assert out[..n] == out;
      if Filtered(rows[n - 1], excl, incl) {
        SequenceRowExcluded(rows, start, excl, incl, n - 1);
        assert CountMatched(out) == c;
        assert CountPassing(rows, excl, incl) == c;
      } else {
        SequenceRowAssigned(rows, start, excl, incl, n - 1);
        assert CountMatched(out) == c + 1;
        assert CountPassing(rows, excl, incl) == c + 1;
      }
    }
  }

  /**
   * The sequence pass hands out the consecutive slots from `start`, one per
   * row that passes the filters, in processing order.
   */
  lemma {:induction false} SequenceSlotsConsecutive(rows: seq<Row>, start: int, excl: seq<string>, incl: seq<string>)
    ensures SlotValues(Slots(SequencePass(rows, start, excl, incl))) == Consecutive(start, CountPassing(rows, excl, incl))
  {
    if rows != [] {
      var n := |rows|;
      var out := SequencePass(rows, start, excl, incl);
      var prefix := rows[..n - 1];
      var c := CountPassing(prefix, excl, incl);
      var before := SlotValues(Slots(out[..n - 1]));
      SequenceSlotsConsecutive(prefix, start, excl, incl);
      SequencePassPrefix(rows, start, excl, incl, n - 1);
      assert before == Consecutive(start, c);
      SlotValuesStep(out);
      SequenceRowSlot(rows, start, excl, incl, n - 1);
      assert rows[..n] == rows;
      if Filtered(rows[n - 1], excl, incl) {
        assert SlotValues(Slots(out)) == before + [];
      } else {
        assert SlotValues(Slots(out)) == before + [start + c];
        ConsecutiveStep(start, c);
      }
    }
  }

  /** The slot of row `i` of the sequence pass, and how the passing count moves past it. */
  lemma SequenceRowSlot(rows: seq<Row>, start: int, excl: seq<string>, incl: seq<string>, i: nat)
    requires i < |rows|
    ensures SequencePass(rows, start, excl, incl)[i].slot
            == if Filtered(rows[i], excl, incl) then None else Some(start + CountPassing(rows[..i], excl, incl))
    ensures CountPassing(rows[..i + 1], excl, incl)
            == CountPassing(rows[..i], excl, incl) + (if Filtered(rows[i], excl, incl) then 0 else 1)
  {
    assert SequencePass(rows, start, excl, incl)[i] == SequenceRowAt(rows, start, excl, incl, i);
    CountPassingStep(rows, excl, incl, i);
  }

  /** Of two rows that pass the filters, the later one has passed more rows before it. */
  lemma {:induction false} CountPassingIncreases(rows: seq<Row>, excl: seq<string>, incl: seq<string>, p: nat, q: nat)
    requires p < q <= |rows| && !Filtered(rows[p], excl, incl)
    ensures CountPassing(rows[..p], excl, incl) < CountPassing(rows[..q], excl, incl)
    decreases q - p
  {
    if q == p + 1 {
      assert rows[..p + 1][..p] == rows[..p];
    } else {
      CountPassingIncreases(rows, excl, incl, p, q - 1);
      assert rows[..q][..q - 1] == rows[..q - 1];
    }
  }

  /** One row of the sequence pass: never flagged, and holding the next slot exactly when it passes the filters. */
  lemma SequenceRow(rows: seq<Row>, start: int, excl: seq<string>, incl: seq<string>, p: nat)
    requires p < |rows|
    ensures var a := SequencePass(rows, start, excl, incl)[p];
            && !a.needsReview && a.matchMethod != ManualReview
            && (a.slot.Some? <==> !Filtered(rows[p], excl, incl))
            && (a.slot.Some? ==> a.slot.value == start + CountPassing(rows[..p], excl, incl))
  {
    if Filtered(rows[p], excl, incl) {
      SequenceRowExcluded(rows, start, excl, incl, p);
    } else {
      SequenceRowAssigned(rows, start, excl, incl, p);
    }
  }

  /** Sequence mode gives later rows greater slots. */
  lemma SequenceSlotsIncrease(rows: seq<Row>, start: int, excl: seq<string>, incl: seq<string>)
    ensures var out := SequencePass(rows, start, excl, incl);
            forall p, q :: 0 <= p < q < |out| && out[p].slot.Some? && out[q].slot.Some? ==>
              out[p].slot.value < out[q].slot.value
  {
    var out := SequencePass(rows, start, excl, incl);
    forall p, q | 0 <= p < q < |out| && out[p].slot.Some? && out[q].slot.Some?
      ensures out[p].slot.value < out[q].slot.value
    {
      SequenceRow(rows, start, excl, incl, p);
      SequenceRow(rows, start, excl, incl, q);
      CountPassingIncreases(rows, excl, incl, p, q);
    }
  }

  /** Slot values strictly increase along the rows that hold one. */
  ghost predicate Increasing(slots: seq<Option<int>>) {
    forall p, q :: 0 <= p < q < |slots| && slots[p].Some? && slots[q].Some? ==> slots[p].value < slots[q].value
  }

  /** A slot that no row holds has a count of zero. */
  lemma {:induction false} NoHolder(slots: seq<Option<int>>, s: int)
    requires forall p :: 0 <= p < |slots| ==> slots[p] != Some(s)
    ensures SlotCount(slots, s) == 0
  {
    if slots != [] {
      NoHolder(slots[..|slots| - 1], s);
    }
  }

  /** Increasing slots are each held at most once. */
  lemma {:induction false} IncreasingHeldOnce(slots: seq<Option<int>>, s: int)
    requires Increasing(slots)
    ensures SlotCount(slots, s) <= 1
  {
    if slots != [] {
      var prefix := slots[..|slots| - 1];
      assert Increasing(prefix);
      if slots[|slots| - 1] == Some(s) {
        NoHolder(prefix, s);
      } else {
        IncreasingHeldOnce(prefix, s);
      }
    }
  }

  /** Sequence mode never gives one slot to two rows. */
  lemma SequenceNoSharedSlot(rows: seq<Row>, start: int, excl: seq<string>, incl: seq<string>)
    ensures var slots := Slots(SequencePass(rows, start, excl, incl));
            forall s :: SlotCount(slots, s) <= 1
  {
    var slots := Slots(SequencePass(rows, start, excl, incl));
    SequenceSlotsIncrease(rows, start, excl, incl);
    assert Increasing(slots);
    forall s ensures SlotCount(slots, s) <= 1 {
      IncreasingHeldOnce(slots, s);
    }
  }

  /** A table with no row flagged has a flagged count of zero. */
  lemma {:induction false} NoneFlagged(xs: seq<AnnotatedRow>)
    requires forall p :: 0 <= p < |xs| ==> !xs[p].needsReview
    ensures CountFlagged(xs) == 0
  {
    if xs != [] {
      NoneFlagged(xs[..|xs| - 1]);
    }
  }

  /** A table with no row of method `m` has a count of zero for `m`. */
  lemma {:induction false} NoneWithMethod(xs: seq<AnnotatedRow>, m: MatchMethod)
    requires forall p :: 0 <= p < |xs| ==> xs[p].matchMethod != m
    ensures CountMethod(xs, m) == 0
  {
    if xs != [] {
      NoneWithMethod(xs[..|xs| - 1], m);
    }
  }

  /**
   * Sequence mode: the matched rows hold the consecutive slots from `start`,
   * one per row passing the filters; no slot is held twice, so no row is
   * flagged, none goes to manual review and there is no duplicate slot.
   */
  lemma SequenceModeSlots(rows: seq<Row>, hasSkuColumn: bool, start: int, excl: seq<string>, incl: seq<string>)
    ensures var out := Annotated(rows, SequenceMode, hasSkuColumn, start, excl, incl);
            && CountMatched(out) == CountPassing(rows, excl, incl)
            && SlotValues(Slots(out)) == Consecutive(start, CountMatched(out))
            && DuplicateSlots(Slots(out)) == {}
            && CountFlagged(out) == 0
            && CountMethod(out, ManualReview) == 0
  {
    var base := SequencePass(rows, start, excl, incl);
    var slots := Slots(base);
    SequenceMatchedCount(rows, start, excl, incl);
    SequenceSlotsConsecutive(rows, start, excl, incl);
    SequenceNoSharedSlot(rows, start, excl, incl);
    forall p | 0 <= p < |base| ensures !IsDuplicate(slots, p) {
    }
    assert Reviewed(base) == base;
    assert DuplicateSlots(slots) == {};
    forall p | 0 <= p < |base| ensures !base[p].needsReview && base[p].matchMethod != ManualReview {
      SequenceRow(rows, start, excl, incl, p);
    }
    NoneFlagged(base);
    NoneWithMethod(base, ManualReview);
    ReviewedKeepsAssignment(base);
  }
}
