/**
 * `match`: the imperative core. The annotated table is an array filled row
 * by row, `slot_usage` is a map from slot to the rows holding it, and the
 * duplicate pass rewrites the flagged rows in place. Each loop is proved
 * against the row-by-row description in `AssignmentSpec`.
 */
module Matcher {
  import opened Wrappers
  import opened Text
  import opened OrderTable
  import opened SkuParser
  import opened RowFilter
  import opened ProcessingOrder
  import opened AssignmentSpec

  /**
   * The SKU-mode loop: exclusion, then inclusion, then the parsed SKU as
   * slot or manual review; counts each outcome and groups rows by slot.
   */
  method AssignBySku(out: array<AnnotatedRow>, rows: seq<Row>, hasSkuColumn: bool,
                     excl: seq<string>, incl: seq<string>)
    returns (excludedCount: nat, matchedCount: nat, reviewCount: nat,
             usage: map<int, seq<nat>>, slotOrder: seq<int>)
    requires out.Length == |rows|
    modifies out
    ensures out[..] == SkuPass(rows, hasSkuColumn, excl, incl)
    ensures excludedCount == CountMethod(out[..], Excluded)
    ensures matchedCount == CountMatched(out[..])
    ensures reviewCount == CountFlagged(out[..])
    ensures usage == UsageOf(Slots(out[..])) && slotOrder == SlotOrder(Slots(out[..]))
  {
    ghost var expected := SkuPass(rows, hasSkuColumn, excl, incl);
    excludedCount, matchedCount, reviewCount, usage, slotOrder := 0, 0, 0, map[], [];
    for i: nat := 0 to |rows|
      invariant out[..i] == expected[..i]
      invariant Tallied(expected[..i], excludedCount, matchedCount, reviewCount, usage, slotOrder)
    {
      var row := rows[i];
      if ShouldExcludeRow(row, Some(excl)) {
        TallyExcluded(expected, i, excludedCount, matchedCount, reviewCount, usage, slotOrder);
        out[i] := ExcludedRow(row);
        excludedCount := excludedCount + 1;
      } else if !ShouldIncludeRow(row, Some(incl)) {
        TallyExcluded(expected, i, excludedCount, matchedCount, reviewCount, usage, slotOrder);
        out[i] := ExcludedRow(row);
        excludedCount := excludedCount + 1;
      } else {
        var slotNum := ParseSkuToSlot(SkuCell(hasSkuColumn, row));
        if slotNum.None? {
          TallyManualReview(expected, i, excludedCount, matchedCount, reviewCount, usage, slotOrder);
          out[i] := AnnotatedRow(row, None, None, ManualReview, true, MissingSkuReason);
          reviewCount := reviewCount + 1;
        } else {
          var s: int := slotNum.value;
          TallyAssigned(expected, i, s, excludedCount, matchedCount, reviewCount, usage, slotOrder);
          out[i] := Assigned(row, s, BySku);
          matchedCount := matchedCount + 1;
          if s in usage {
            usage := usage[s := usage[s] + [i]];
          } else {
            usage := usage[s := [i]];
            slotOrder := slotOrder + [s];
          }
        }
      }
      ExtendAgreement(out[..], expected, i);
    }
    assert expected[..|rows|] == expected;
  }

  /**
   * The sequence-mode loop: every row that passes the filters gets the
   * current slot, which then advances by one; no row is sent to review.
   */
  method AssignBySequence(out: array<AnnotatedRow>, rows: seq<Row>, startSlot: int,
                          excl: seq<string>, incl: seq<string>)
    returns (excludedCount: nat, matchedCount: nat, usage: map<int, seq<nat>>, slotOrder: seq<int>)
    requires out.Length == |rows|
    modifies out
    ensures out[..] == SequencePass(rows, startSlot, excl, incl)
    ensures excludedCount == CountMethod(out[..], Excluded)
    ensures matchedCount == CountMatched(out[..])
    ensures CountFlagged(out[..]) == 0
    ensures usage == UsageOf(Slots(out[..])) && slotOrder == SlotOrder(Slots(out[..]))
  {
    ghost var expected := SequencePass(rows, startSlot, excl, incl);
    excludedCount, matchedCount, usage, slotOrder := 0, 0, map[], [];
    var currentSlot := startSlot;
    for i: nat := 0 to |rows|
      invariant out[..i] == expected[..i]
      invariant currentSlot == startSlot + CountPassing(rows[..i], excl, incl)
      invariant Tallied(expected[..i], excludedCount, matchedCount, 0, usage, slotOrder)
    {
      var row := rows[i];
      if ShouldExcludeRow(row, Some(excl)) {
        SequenceRowExcluded(rows, startSlot, excl, incl, i);
        TallyExcluded(expected, i, excludedCount, matchedCount, 0, usage, slotOrder);
        out[i] := ExcludedRow(row);
        excludedCount := excludedCount + 1;
      } else if !ShouldIncludeRow(row, Some(incl)) {
        SequenceRowExcluded(rows, startSlot, excl, incl, i);
        TallyExcluded(expected, i, excludedCount, matchedCount, 0, usage, slotOrder);
        out[i] := ExcludedRow(row);
        excludedCount := excludedCount + 1;
      } else {
        SequenceRowAssigned(rows, startSlot, excl, incl, i);
        TallyAssigned(expected, i, currentSlot, excludedCount, matchedCount, 0, usage, slotOrder);
        out[i] := Assigned(row, currentSlot, BySequence);
        matchedCount := matchedCount + 1;
        if currentSlot in usage {
          usage := usage[currentSlot := usage[currentSlot] + [i]];
        } else {
          usage := usage[currentSlot := [i]];
          slotOrder := slotOrder + [currentSlot];
        }
        currentSlot := currentSlot + 1;
      }
      ExtendAgreement(out[..], expected, i);
    }
    assert expected[..|rows|] == expected;
  }

  /**
   * `indices` lists rows of `rows` once each, in increasing order, none of
   * them flagged yet or in manual review.
   */
  ghost predicate Flaggable(rows: seq<AnnotatedRow>, indices: seq<nat>) {
    && (forall k :: 0 <= k < |indices| ==>
          indices[k] < |rows| && !rows[indices[k]].needsReview && rows[indices[k]].matchMethod != ManualReview)
    && (forall k1, k2 :: 0 <= k1 < k2 < |indices| ==> indices[k1] < indices[k2])
  }

  /** The rows at `indices` flagged as duplicates, the others unchanged. */
  function FlagRowsAt(rows: seq<AnnotatedRow>, indices: seq<nat>): (r: seq<AnnotatedRow>)
    ensures |r| == |rows|
  {
    seq(|rows|, p requires 0 <= p < |rows| => if p in indices then FlagDuplicate(rows[p]) else rows[p])
  }

  /** Flagging one more listed row is a single update of that row. */
  lemma FlagOneMore(rows: seq<AnnotatedRow>, indices: seq<nat>, j: nat)
    requires Flaggable(rows, indices) && j < |indices|
    ensures indices[j] < |rows| && !rows[indices[j]].needsReview
    ensures FlagRowsAt(rows, indices[..j + 1])
            == FlagRowsAt(rows, indices[..j])[indices[j] := FlagDuplicate(rows[indices[j]])]
  {
    assert indices[..j + 1] == indices[..j] + [indices[j]];
    assert indices[j] !in indices[..j];
  }

  /**
   * The flagging of one duplicated slot's rows: each is marked for review
   * with `duplicate_slot` joined to its reason, and every one not in manual
   * review adds to the review count.
   */
  method FlagSlotRows(out: array<AnnotatedRow>, indices: seq<nat>, reviewCount0: nat)
    returns (reviewCount: nat)
    requires Flaggable(out[..], indices)
    modifies out
    ensures out[..] == FlagRowsAt(old(out[..]), indices)
    ensures reviewCount == reviewCount0 + |indices|
    ensures CountFlagged(out[..]) == CountFlagged(old(out[..])) + |indices|
  {
    ghost var rows := out[..];
    reviewCount := reviewCount0;
    for j := 0 to |indices|
      invariant out[..] == FlagRowsAt(rows, indices[..j])
      invariant reviewCount == reviewCount0 + j
      invariant CountFlagged(out[..]) == CountFlagged(rows) + j
    {
      var idx := indices[j];
      FlagOneMore(rows, indices, j);
      ghost var before := out[..];
      out[idx] := out[idx].(needsReview := true);
      var existingReason := out[idx].reason;
      out[idx] := out[idx].(reason := if existingReason != "" then existingReason + "; " + DuplicateReason
                                      else DuplicateReason);
      CountFlaggedUpdate(before, idx, out[idx]);
      assert out[..] == before[idx := out[idx]];
      if out[idx].matchMethod != ManualReview {
        reviewCount := reviewCount + 1;
      }
    }
    assert indices[..|indices|] == indices;
  }

  /**
   * The duplicate pass part-way through `slot_usage`: exactly the rows of the
   * duplicated slots already `visited` are flagged.
   */
  ghost predicate FlaggedWithin(cur: seq<AnnotatedRow>, base: seq<AnnotatedRow>, visited: set<int>) {
    var slots := Slots(base);
    && |cur| == |base|
    && forall p :: 0 <= p < |base| ==>
         cur[p] == if IsDuplicate(slots, p) && slots[p].value in visited then FlagDuplicate(base[p]) else base[p]
  }

  /**
   * The rows of a slot not yet visited are as the first pass left them:
   * matched, not yet flagged, listed once each in increasing order.
   */
  lemma UnvisitedRowsFlaggable(cur: seq<AnnotatedRow>, base: seq<AnnotatedRow>, visited: set<int>, s: int)
    requires FlaggedWithin(cur, base, visited) && s !in visited
    requires SlotRowsOpen(base)
    requires s in UsageOf(Slots(base))
    ensures Flaggable(cur, UsageOf(Slots(base))[s])
  {
    UsageFacts(Slots(base), s);
  }

  /** Visiting slot `s` (flagging its rows when it is duplicated) adds it to `visited`. */
  lemma VisitSlot(prev: seq<AnnotatedRow>, cur: seq<AnnotatedRow>, base: seq<AnnotatedRow>, visited: set<int>, s: int)
    requires FlaggedWithin(prev, base, visited) && s !in visited
    requires s in UsageOf(Slots(base))
    requires var indices := UsageOf(Slots(base))[s];
             cur == if |indices| > 1 then FlagRowsAt(prev, indices) else prev
    ensures FlaggedWithin(cur, base, visited + {s})
  {
    var slots := Slots(base);
    var indices := UsageOf(slots)[s];
    UsageFacts(slots, s);
    forall p | 0 <= p < |base|
      ensures cur[p] == if IsDuplicate(slots, p) && slots[p].value in visited + {s}
                        then FlagDuplicate(base[p]) else base[p]
    {
      if slots[p] == Some(s) {
        assert p in indices;
      }
    }
  }

  /** Visiting slot `s` adds it to the visited duplicate slots exactly when it is one. */
  lemma VisitDuplicateSlot(found: set<int>, duplicates: set<int>, visited: set<int>, s: int)
    requires found == duplicates * visited && s !in visited
    ensures s !in found
    ensures |found + {s}| == |found| + 1
    ensures s in duplicates ==> found + {s} == duplicates * (visited + {s})
    ensures s !in duplicates ==> found == duplicates * (visited + {s})
  {
  }

  /** The slots visited once the first `k` keys in insertion order are done. */
  ghost function Visited(order: seq<int>, k: nat): set<int>
    requires k <= |order|
  {
    set x | x in order[..k]
  }

  /**
   * The state of the duplicate pass after the first `k` keys of
   * `slot_usage`: their duplicated rows flagged, the duplicated ones among
   * them counted, and the review count matching the flags.
   */
  ghost predicate DuplicatePassAt(cur: seq<AnnotatedRow>, base: seq<AnnotatedRow>, order: seq<int>, k: nat,
                                  duplicateCount: nat, reviewCount: nat) {
    && k <= |order|
    && order == SlotOrder(Slots(base))
    && FlaggedWithin(cur, base, Visited(order, k))
    && duplicateCount == |DuplicateSlots(Slots(base)) * Visited(order, k)|
    && reviewCount == CountFlagged(cur)
  }

  lemma StartDuplicatePass(base: seq<AnnotatedRow>)
    ensures DuplicatePassAt(base, base, SlotOrder(Slots(base)), 0, 0, CountFlagged(base))
  {
    var order := SlotOrder(Slots(base));
    assert Visited(order, 0) == {};
    assert DuplicateSlots(Slots(base)) * {} == {};
  }

  /** The next key in insertion order is a key of `slot_usage` whose rows can be flagged. */
  lemma BeforeVisit(cur: seq<AnnotatedRow>, base: seq<AnnotatedRow>, order: seq<int>, k: nat,
                    duplicateCount: nat, reviewCount: nat)
    requires DuplicatePassAt(cur, base, order, k, duplicateCount, reviewCount) && k < |order|
    requires SlotRowsOpen(base)
    ensures order[k] in UsageOf(Slots(base))
    ensures Flaggable(cur, UsageOf(Slots(base))[order[k]])
  {
    SlotOrderFacts(Slots(base));
    assert order[k] !in order[..k];
    UnvisitedRowsFlaggable(cur, base, Visited(order, k), order[k]);
  }

  /** The next key of a list of distinct keys is not among those before it. */
  lemma VisitedStep(order: seq<int>, k: nat)
    requires k < |order|
    requires forall k1, k2 :: 0 <= k1 < k2 < |order| ==> order[k1] != order[k2]
    ensures order[k] !in Visited(order, k)
    ensures Visited(order, k + 1) == Visited(order, k) + {order[k]}
  {
    assert order[..k + 1] == order[..k] + [order[k]];
  }

  /** Visiting a new key adds one to the duplicate count exactly when its slot is held more than once. */
  lemma DuplicateCountStep(slots: seq<Option<int>>, visited: set<int>, s: int)
    requires s in UsageOf(slots) && s !in visited
    ensures |DuplicateSlots(slots) * (visited + {s})|
            == |DuplicateSlots(slots) * visited| + (if |UsageOf(slots)[s]| > 1 then 1 else 0)
  {
    UsageFacts(slots, s);
    DuplicateSlotsMembership(slots, s);
    VisitDuplicateSlot(DuplicateSlots(slots) * visited, DuplicateSlots(slots), visited, s);
  }

  /** Visiting the next key moves the pass on by one key. */
  lemma AfterVisit(prev: seq<AnnotatedRow>, cur: seq<AnnotatedRow>, base: seq<AnnotatedRow>, order: seq<int>,
                   k: nat, duplicateCount: nat, reviewCount: nat)
    requires DuplicatePassAt(prev, base, order, k, duplicateCount, reviewCount) && k < |order|
    requires order[k] in UsageOf(Slots(base))
    requires var indices := UsageOf(Slots(base))[order[k]];
             && cur == (if |indices| > 1 then FlagRowsAt(prev, indices) else prev)
             && CountFlagged(cur) == CountFlagged(prev) + (if |indices| > 1 then |indices| else 0)
    ensures var indices := UsageOf(Slots(base))[order[k]];
            DuplicatePassAt(cur, base, order, k + 1,
                            duplicateCount + (if |indices| > 1 then 1 else 0),
                            reviewCount + (if |indices| > 1 then |indices| else 0))
  {
    var slots := Slots(base);
    SlotOrderFacts(slots);
    VisitedStep(order, k);
    DuplicateCountStep(slots, Visited(order, k), order[k]);
    VisitSlot(prev, cur, base, Visited(order, k), order[k]);
  }

  /** After the last key, the table is the second pass and the counters are final. */
  lemma EndDuplicatePass(cur: seq<AnnotatedRow>, base: seq<AnnotatedRow>, order: seq<int>,
                         duplicateCount: nat, reviewCount: nat)
    requires DuplicatePassAt(cur, base, order, |order|, duplicateCount, reviewCount)
    ensures cur == Reviewed(base)
    ensures duplicateCount == |DuplicateSlots(Slots(base))|
    ensures reviewCount == CountFlagged(cur)
  {
    var visited := Visited(order, |order|);
    SlotOrderFacts(Slots(base));
    assert order[..|order|] == order;
    forall x | x in UsageOf(Slots(base)) ensures x in visited {
      assert x in order;
    }
    AllVisited(cur, base, visited);
    assert DuplicateSlots(Slots(base)) * visited == DuplicateSlots(Slots(base));
  }

  /** Once every key of `slot_usage` is visited, the table is the second pass of the first. */
  lemma AllVisited(cur: seq<AnnotatedRow>, base: seq<AnnotatedRow>, visited: set<int>)
    requires FlaggedWithin(cur, base, visited)
    requires UsageOf(Slots(base)).Keys <= visited
    ensures cur == Reviewed(base)
    ensures DuplicateSlots(Slots(base)) <= visited
  {
    var slots := Slots(base);
    forall p | 0 <= p < |slots| && slots[p].Some? ensures slots[p].value in visited {
      UsageFacts(slots, slots[p].value);
    }
  }

  /**
   * The duplicate pass over `slot_usage`, in its insertion order: every
   * slot held by more than one row counts once as a duplicate slot and has
   * its rows flagged.
   */
  method FlagDuplicates(out: array<AnnotatedRow>, usage: map<int, seq<nat>>, slotOrder: seq<int>,
                        reviewCount0: nat)
    returns (duplicateCount: nat, reviewCount: nat)
    requires usage == UsageOf(Slots(out[..])) && slotOrder == SlotOrder(Slots(out[..]))
    requires reviewCount0 == CountFlagged(out[..])
    requires SlotRowsOpen(out[..])
    modifies out
    ensures out[..] == Reviewed(old(out[..]))
    ensures duplicateCount == |DuplicateSlots(Slots(old(out[..])))|
    ensures reviewCount == CountFlagged(out[..])
  {
    ghost var base := out[..];
    StartDuplicatePass(base);
    duplicateCount, reviewCount := 0, reviewCount0;
    for k: nat := 0 to |slotOrder|
      invariant DuplicatePassAt(out[..], base, slotOrder, k, duplicateCount, reviewCount)
    {
      var slotNum := slotOrder[k];
      ghost var prev := out[..];
      ghost var duplicatesBefore, reviewsBefore := duplicateCount, reviewCount;
      BeforeVisit(prev, base, slotOrder, k, duplicateCount, reviewCount);
      var indices := usage[slotNum];
      if |indices| > 1 {
        duplicateCount := duplicateCount + 1;
        reviewCount := FlagSlotRows(out, indices, reviewCount);
      }
      AfterVisit(prev, out[..], base, slotOrder, k, duplicatesBefore, reviewsBefore);
    }
    EndDuplicatePass(out[..], base, slotOrder, duplicateCount, reviewCount);
  }

  /**
   * The two passes of `match` over rows already in processing order: the
   * first pass of the resolved mode into a fresh array, then the duplicate
   * pass, with the counters the summary reports.
   */
  method AnnotateRows(rows: seq<Row>, used: Mode, hasSkuColumn: bool, startSlot: int,
                      excl: seq<string>, incl: seq<string>)
    returns (annotated: seq<AnnotatedRow>, matchedCount: nat, excludedCount: nat, reviewCount: nat,
             duplicateCount: nat)
    ensures annotated == Reviewed(FirstPass(rows, used, hasSkuColumn, startSlot, excl, incl))
    ensures matchedCount == CountMatched(annotated)
    ensures excludedCount == CountMethod(annotated, Excluded)
    ensures reviewCount == CountFlagged(annotated)
    ensures duplicateCount == |DuplicateSlots(Slots(annotated))|
  {
    var out := new AnnotatedRow[|rows|];
    var usage, slotOrder;
    if used == SkuMode {
      excludedCount, matchedCount, reviewCount, usage, slotOrder := AssignBySku(out, rows, hasSkuColumn, excl, incl);
    } else {
      excludedCount, matchedCount, usage, slotOrder := AssignBySequence(out, rows, startSlot, excl, incl);
      reviewCount := 0;
    }
    ghost var base := out[..];
    assert base == FirstPass(rows, used, hasSkuColumn, startSlot, excl, incl);
    FirstPassSlotRows(rows, used, hasSkuColumn, startSlot, excl, incl);
    duplicateCount, reviewCount := FlagDuplicates(out, usage, slotOrder, reviewCount);
    ReviewedKeepsAssignment(base);
    annotated := out[..];
  }

  /**
   * `match`: rejects an empty table and an unknown mode; otherwise annotates
   * every row of the table, in processing order, with the first pass of the
   * resolved mode followed by the duplicate pass, and reports the counters
   * of the annotated table in the summary.
   */
  method Match(t: Table, mode: string, startSlot: int,
               excludeKeywords: Option<seq<string>>, includeKeywords: Option<seq<string>>)
    returns (result: Result<Matched, MatchError>)
    ensures |t.rows| == 0 ==> result == Failure(EmptyTable)
    ensures |t.rows| > 0 && mode != "auto" && mode != "sku" && mode != "sequence" ==>
              result == Failure(InvalidMode(mode))
    ensures result.Success? <==> |t.rows| > 0 && ResolveMode(t, mode).Success?
    ensures result.Success? ==>
              var used := ResolveMode(t, mode).value;
              var excl := NormalizeKeywords(excludeKeywords);
              var incl := NormalizeKeywords(includeKeywords);
              var rows := result.value.rows;
              && rows == Reviewed(FirstPass(Processed(t, used), used, t.hasSkuColumn, startSlot, excl, incl))
              && result.value.summary
                 == Summary(|t.rows|, CountMatched(rows), CountMethod(rows, Excluded), CountFlagged(rows),
                            |DuplicateSlots(Slots(rows))|, used, startSlot, excl, incl)
  {
    if |t.rows| == 0 {
      return Failure(EmptyTable);
    }
    var excl := NormalizeKeywords(excludeKeywords);
    var incl := NormalizeKeywords(includeKeywords);
    var resolved := ResolveMode(t, mode);
    if resolved.Failure? {
      return Failure(resolved.error);
    }
    var used := resolved.value;
    var annotated, matchedCount, excludedCount, reviewCount, duplicateCount :=
      AnnotateRows(Processed(t, used), used, t.hasSkuColumn, startSlot, excl, incl);
    result := Success(Matched(annotated, Summary(|t.rows|, matchedCount, excludedCount, reviewCount,
                                                 duplicateCount, used, startSlot, excl, incl)));
  }
}
