/**
 * What `match` computes, stated row by row rather than as a running loop:
 * the annotation each row gets in the first pass, the grouping of rows by
 * slot, the duplicate flags of the second pass and the summary counters.
 */
module AssignmentSpec {
  import opened Wrappers
  import opened Text
  import opened OrderTable
  import opened SkuParser
  import opened RowFilter
  import opened ModeDetector

  const MissingSkuReason: string := "sku_missing_or_invalid"
  const DuplicateReason: string := "duplicate_slot"

  /** Keyword normalisation: None or [] gives [], otherwise each keyword stripped. */
  function NormalizeKeywords(keywords: Option<seq<string>>): (r: seq<string>)
    ensures keywords.None? ==> r == []
    ensures keywords.Some? ==> |r| == |keywords.value|
    ensures keywords.Some? ==> forall i :: 0 <= i < |r| ==> r[i] == Strip(keywords.value[i])
  {
    match keywords
    case None => []
    case Some(ks) => seq(|ks|, i requires 0 <= i < |ks| => Strip(ks[i]))
  }

  /** Mode resolution: "auto" is decided by `detect_mode`; a name other than the three is an input error. */
  function ResolveMode(t: Table, mode: string): (r: Result<Mode, MatchError>)
    ensures r.Failure? <==> mode != "auto" && mode != "sku" && mode != "sequence"
    ensures r.Failure? ==> r.error == InvalidMode(mode)
    ensures mode == "auto" ==> r == Success(DetectMode(t))
    ensures mode == "sku" ==> r == Success(SkuMode)
    ensures mode == "sequence" ==> r == Success(SequenceMode)
  {
    var resolved := if mode == "auto" then
                      match DetectMode(t) case SkuMode => "sku" case SequenceMode => "sequence"
                    else mode;
    if resolved == "sku" then Success(SkuMode)
    else if resolved == "sequence" then Success(SequenceMode)
    else Failure(InvalidMode(mode))
  }

  /** A row that fails either keyword filter is excluded. */
  predicate Filtered(r: Row, excl: seq<string>, incl: seq<string>) {
    ShouldExcludeRow(r, Some(excl)) || !ShouldIncludeRow(r, Some(incl))
  }

  /** Number of rows that pass both filters. */
  function CountPassing(rows: seq<Row>, excl: seq<string>, incl: seq<string>): (n: nat)
    ensures n <= |rows|
  {
    if rows == [] then 0
    else CountPassing(rows[..|rows| - 1], excl, incl)
         + (if Filtered(rows[|rows| - 1], excl, incl) then 0 else 1)
  }

  /** A row that received a slot, with its display label. */
  function Assigned(r: Row, slot: int, m: MatchMethod): AnnotatedRow {
    AnnotatedRow(r, Some(slot), Some(Label(slot)), m, false, "")
  }

  /** A row that failed a keyword filter: no slot, no label, not flagged. */
  function ExcludedRow(r: Row): AnnotatedRow {
    AnnotatedRow(r, None, None, Excluded, false, "")
  }

  /** SKU mode, one row: excluded, else the parsed SKU as slot, else manual review. */
  function AnnotateBySku(r: Row, hasSkuColumn: bool, excl: seq<string>, incl: seq<string>): (a: AnnotatedRow)
    ensures a.row == r && a.matchMethod != BySequence
    ensures a.matchMethod == Excluded <==> Filtered(r, excl, incl)
    ensures a.matchMethod == ManualReview <==>
              !Filtered(r, excl, incl) && ParseSkuToSlot(SkuCell(hasSkuColumn, r)).None?
    ensures a.slot.Some? <==> a.matchMethod == BySku
    ensures a.slot.Some? ==> a.slot == ParseSkuToSlot(SkuCell(hasSkuColumn, r))
  {
    if Filtered(r, excl, incl) then ExcludedRow(r)
    else
      match ParseSkuToSlot(SkuCell(hasSkuColumn, r))
      case None => AnnotatedRow(r, None, None, ManualReview, true, MissingSkuReason)
      case Some(n) => Assigned(r, n, BySku)
  }

  /** The SKU loop over the rows in file order. */
  function SkuPass(rows: seq<Row>, hasSkuColumn: bool, excl: seq<string>, incl: seq<string>): (out: seq<AnnotatedRow>)
    ensures |out| == |rows|
  {
    seq(|rows|, p requires 0 <= p < |rows| => AnnotateBySku(rows[p], hasSkuColumn, excl, incl))
  }

  /**
   * The sequence loop over the rows in processing order: a row that passes
   * the filters gets `start` plus the number of earlier rows that passed.
   */
  function SequencePass(rows: seq<Row>, start: int, excl: seq<string>, incl: seq<string>): (out: seq<AnnotatedRow>)
    ensures |out| == |rows|
  {
    seq(|rows|, p requires 0 <= p < |rows| => SequenceRowAt(rows, start, excl, incl, p))
  }

  /** Row `p` of the sequence pass. */
  function SequenceRowAt(rows: seq<Row>, start: int, excl: seq<string>, incl: seq<string>, p: nat): AnnotatedRow
    requires p < |rows|
  {
    if Filtered(rows[p], excl, incl) then ExcludedRow(rows[p])
    else Assigned(rows[p], start + CountPassing(rows[..p], excl, incl), BySequence)
  }

  /** The first pass of `match` under the resolved mode. */
  function FirstPass(rows: seq<Row>, mode: Mode, hasSkuColumn: bool, start: int,
                     excl: seq<string>, incl: seq<string>): (out: seq<AnnotatedRow>)
    ensures |out| == |rows|
  {
    match mode
    case SkuMode => SkuPass(rows, hasSkuColumn, excl, incl)
    case SequenceMode => SequencePass(rows, start, excl, incl)
  }

  /** The `slot` column. */
  function Slots(rows: seq<AnnotatedRow>): (slots: seq<Option<int>>)
    ensures |slots| == |rows| && forall p :: 0 <= p < |rows| ==> slots[p] == rows[p].slot
  {
    seq(|rows|, p requires 0 <= p < |rows| => rows[p].slot)
  }

  /** Number of rows holding slot `s`. */
  function SlotCount(slots: seq<Option<int>>, s: int): (n: nat)
    ensures n <= |slots|
  {
    if slots == [] then 0
    else SlotCount(slots[..|slots| - 1], s) + (if slots[|slots| - 1] == Some(s) then 1 else 0)
  }

  /** `slot_usage`: each slot mapped to the rows holding it, in order. */
  function UsageOf(slots: seq<Option<int>>): (usage: map<int, seq<nat>>)
    ensures forall s :: s in usage ==> usage[s] != []
    ensures forall s, j :: s in usage && 0 <= j < |usage[s]| ==> usage[s][j] < |slots|
  {
    if slots == [] then map[]
    else
      var usage := UsageOf(slots[..|slots| - 1]);
      match slots[|slots| - 1]
      case None => usage
      case Some(s) => usage[s := (if s in usage then usage[s] else []) + [|slots| - 1]]
  }

  /** The keys of `slot_usage` in insertion order: each slot at its first row. */
  function SlotOrder(slots: seq<Option<int>>): (order: seq<int>)
    ensures forall k :: 0 <= k < |order| ==> order[k] in UsageOf(slots)
  {
    if slots == [] then []
    else
      var order := SlotOrder(slots[..|slots| - 1]);
      match slots[|slots| - 1]
      case None => order
      case Some(s) => if s in UsageOf(slots[..|slots| - 1]) then order else order + [s]
  }

  /** Row `p` shares its slot with another row. */
  predicate IsDuplicate(slots: seq<Option<int>>, p: nat)
    requires p < |slots|
  {
    slots[p].Some? && SlotCount(slots, slots[p].value) > 1
  }

  /** The slot values held by more than one row. */
  function DuplicateSlots(slots: seq<Option<int>>): set<int> {
    set p | 0 <= p < |slots| && IsDuplicate(slots, p) :: slots[p].value
  }

  /** The review reason after a duplicate is found: appended with "; " to an existing reason. */
  function JoinDuplicateReason(existing: string): (r: string)
    ensures existing == "" ==> r == DuplicateReason
    ensures existing != "" ==> |r| > |existing| && r[..|existing|] == existing
    ensures existing != "" ==> |r| == |existing| + 2 + |DuplicateReason| && r[|existing|..|existing| + 2] == "; "
    ensures |r| >= |DuplicateReason| && r[|r| - |DuplicateReason|..] == DuplicateReason
  {
    if existing != "" then existing + "; " + DuplicateReason else DuplicateReason
  }

  /** A duplicate row: flagged, with a non-empty reason, and otherwise unchanged. */
  function FlagDuplicate(a: AnnotatedRow): (f: AnnotatedRow)
    ensures f.needsReview && f.reason != ""
    ensures f.(needsReview := a.needsReview, reason := a.reason) == a
  {
    a.(needsReview := true, reason := JoinDuplicateReason(a.reason))
  }

  /** The second pass: every row whose slot is shared is flagged for review. */
  function Reviewed(base: seq<AnnotatedRow>): (out: seq<AnnotatedRow>)
    ensures |out| == |base|
  {
    var slots := Slots(base);
    seq(|base|, p requires 0 <= p < |base| =>
          if IsDuplicate(slots, p) then FlagDuplicate(base[p]) else base[p])
  }

  function CountMethod(rows: seq<AnnotatedRow>, m: MatchMethod): (n: nat)
    ensures n <= |rows|
  {
    if rows == [] then 0
    else CountMethod(rows[..|rows| - 1], m) + (if rows[|rows| - 1].matchMethod == m then 1 else 0)
  }

  /** Rows matched by either strategy. */
  function CountMatched(rows: seq<AnnotatedRow>): nat {
    CountMethod(rows, BySku) + CountMethod(rows, BySequence)
  }

  /** Rows flagged `needs_review`. */
  function CountFlagged(rows: seq<AnnotatedRow>): (n: nat)
    ensures n <= |rows|
  {
    if rows == [] then 0
    else CountFlagged(rows[..|rows| - 1]) + (if rows[|rows| - 1].needsReview then 1 else 0)
  }

  // ---------------------------------------------------------------------
  // Facts about the slot grouping and the counters, used by the matcher.
  // ---------------------------------------------------------------------

  /**
   * `slot_usage` lists, for each slot in use, exactly the rows holding it,
   * each once and in increasing order, so its length is the slot's count.
   */
  lemma {:induction false} UsageFacts(slots: seq<Option<int>>, s: int)
    ensures s in UsageOf(slots) <==> SlotCount(slots, s) > 0
    ensures s in UsageOf(slots) ==> |UsageOf(slots)[s]| == SlotCount(slots, s)
    ensures s in UsageOf(slots) ==>
              forall k :: 0 <= k < |UsageOf(slots)[s]| ==>
                UsageOf(slots)[s][k] < |slots| && slots[UsageOf(slots)[s][k]] == Some(s)
    ensures s in UsageOf(slots) ==>
              forall k1, k2 :: 0 <= k1 < k2 < |UsageOf(slots)[s]| ==>
                UsageOf(slots)[s][k1] < UsageOf(slots)[s][k2]
    ensures forall p :: 0 <= p < |slots| && slots[p] == Some(s) ==>
              s in UsageOf(slots) && p in UsageOf(slots)[s]
  {
    if slots != [] {
      var prefix := slots[..|slots| - 1];
      UsageFacts(prefix, s);
      assert forall p :: 0 <= p < |prefix| ==> prefix[p] == slots[p];
    }
  }

  /** The insertion order lists every key of `slot_usage` exactly once. */
  lemma {:induction false} SlotOrderFacts(slots: seq<Option<int>>)
    ensures forall s :: s in SlotOrder(slots) <==> s in UsageOf(slots)
    ensures forall k1, k2 :: 0 <= k1 < k2 < |SlotOrder(slots)| ==> SlotOrder(slots)[k1] != SlotOrder(slots)[k2]
  {
    if slots != [] {
      SlotOrderFacts(slots[..|slots| - 1]);
    }
  }

  /** A slot is a duplicate slot exactly when more than one row holds it. */
  lemma DuplicateSlotsMembership(slots: seq<Option<int>>, x: int)
    ensures x in DuplicateSlots(slots) <==> SlotCount(slots, x) > 1
  {
    if SlotCount(slots, x) > 1 {
      UsageFacts(slots, x);
      var p := UsageOf(slots)[x][0];
      assert IsDuplicate(slots, p);
    }
  }

  /** Replacing one row changes the flagged count by the change in that row's flag. */
  lemma {:induction false} CountFlaggedUpdate(rows: seq<AnnotatedRow>, q: nat, a: AnnotatedRow)
    requires q < |rows|
    ensures CountFlagged(rows[q := a]) + (if rows[q].needsReview then 1 else 0)
            == CountFlagged(rows) + (if a.needsReview then 1 else 0)
  {
    var n := |rows|;
    if q < n - 1 {
      assert rows[q := a][..n - 1] == rows[..n - 1][q := a];
      CountFlaggedUpdate(rows[..n - 1], q, a);
    } else {
      assert rows[q := a][..n - 1] == rows[..n - 1];
    }
  }

  /** Two tables with the same `match_method` column have the same method counts. */
  lemma {:induction false} CountMethodSameMethods(xs: seq<AnnotatedRow>, ys: seq<AnnotatedRow>, m: MatchMethod)
    requires |xs| == |ys|
    requires forall p :: 0 <= p < |xs| ==> xs[p].matchMethod == ys[p].matchMethod
    ensures CountMethod(xs, m) == CountMethod(ys, m)
  {
    if xs != [] {
      CountMethodSameMethods(xs[..|xs| - 1], ys[..|ys| - 1], m);
    }
  }

  /** The second pass changes only `needs_review` and `review_reason`. */
  lemma ReviewedKeepsAssignment(base: seq<AnnotatedRow>)
    ensures Slots(Reviewed(base)) == Slots(base)
    ensures forall m :: CountMethod(Reviewed(base), m) == CountMethod(base, m)
  {
    var out := Reviewed(base);
    forall m ensures CountMethod(out, m) == CountMethod(base, m) {
      CountMethodSameMethods(out, base, m);
    }
  }

  /** Every row holding a slot is matched and not flagged. */
  ghost predicate SlotRowsOpen(rows: seq<AnnotatedRow>) {
    forall p :: 0 <= p < |rows| && rows[p].slot.Some? ==>
      !rows[p].needsReview && rows[p].reason == ""
      && (rows[p].matchMethod == BySku || rows[p].matchMethod == BySequence)
  }

  /** In the first pass, a row that received a slot is matched and not flagged. */
  lemma FirstPassSlotRows(rows: seq<Row>, mode: Mode, hasSkuColumn: bool, start: int,
                          excl: seq<string>, incl: seq<string>)
    ensures SlotRowsOpen(FirstPass(rows, mode, hasSkuColumn, start, excl, incl))
  {
    var base := FirstPass(rows, mode, hasSkuColumn, start, excl, incl);
    forall p | 0 <= p < |base| && base[p].slot.Some?
      ensures !base[p].needsReview && base[p].reason == ""
              && (base[p].matchMethod == BySku || base[p].matchMethod == BySequence)
    {
    }
  }

  /** Extending a prefix by one row extends every counter by that row. */
  lemma PrefixStep(xs: seq<AnnotatedRow>, i: nat)
    requires i < |xs|
    ensures CountMethod(xs[..i + 1], Excluded)
            == CountMethod(xs[..i], Excluded) + (if xs[i].matchMethod == Excluded then 1 else 0)
    ensures CountMatched(xs[..i + 1])
            == CountMatched(xs[..i]) + (if xs[i].matchMethod in {BySku, BySequence} then 1 else 0)
    ensures CountFlagged(xs[..i + 1]) == CountFlagged(xs[..i]) + (if xs[i].needsReview then 1 else 0)
    ensures xs[i].slot.None? ==> UsageOf(Slots(xs[..i + 1])) == UsageOf(Slots(xs[..i]))
    ensures xs[i].slot.None? ==> SlotOrder(Slots(xs[..i + 1])) == SlotOrder(Slots(xs[..i]))
  {
    assert xs[..i + 1][..i] == xs[..i];
    assert Slots(xs[..i + 1])[..i] == Slots(xs[..i]);
  }

  /** Two sequences that agree on a prefix and on the next element agree on the longer prefix. */
  lemma ExtendAgreement<T>(xs: seq<T>, ys: seq<T>, i: nat)
    requires i < |xs| && i < |ys|
    requires xs[..i] == ys[..i] && xs[i] == ys[i]
    ensures xs[..i + 1] == ys[..i + 1]
  {
    assert xs[..i + 1] == xs[..i] + [xs[i]];
    assert ys[..i + 1] == ys[..i] + [ys[i]];
  }

  /** A row holding slot `s` is appended to that slot's list, which is created if new. */
  lemma UsageStep(xs: seq<AnnotatedRow>, i: nat, s: int)
    requires i < |xs| && xs[i].slot == Some(s)
    ensures var usage := UsageOf(Slots(xs[..i]));
            UsageOf(Slots(xs[..i + 1])) == if s in usage then usage[s := usage[s] + [i]] else usage[s := [i]]
  {
    var slots := Slots(xs[..i + 1]);
    var usage := UsageOf(Slots(xs[..i]));
    assert slots[..i] == Slots(xs[..i]);
    assert UsageOf(slots) == usage[s := (if s in usage then usage[s] else []) + [i]];
    if s !in usage {
      assert [] + [i] == [i];
    }
  }

  /** A row holding a slot not seen before puts that slot last in insertion order. */
  lemma SlotOrderStep(xs: seq<AnnotatedRow>, i: nat, s: int)
    requires i < |xs| && xs[i].slot == Some(s)
    ensures var order := SlotOrder(Slots(xs[..i]));
            SlotOrder(Slots(xs[..i + 1])) == if s in UsageOf(Slots(xs[..i])) then order else order + [s]
  {
    assert Slots(xs[..i + 1])[..i] == Slots(xs[..i]);
  }

  /**
   * The counters and the slot grouping of `match`, as kept while the rows
   * `xs` have been annotated.
   */
  ghost predicate Tallied(xs: seq<AnnotatedRow>, excluded: nat, matched: nat, flagged: nat,
                          usage: map<int, seq<nat>>, order: seq<int>) {
    && excluded == CountMethod(xs, Excluded)
    && matched == CountMatched(xs)
    && flagged == CountFlagged(xs)
    && usage == UsageOf(Slots(xs))
    && order == SlotOrder(Slots(xs))
  }

  /** An excluded row adds one to the excluded count only. */
  lemma TallyExcluded(xs: seq<AnnotatedRow>, i: nat, e: nat, m: nat, r: nat, u: map<int, seq<nat>>, o: seq<int>)
    requires i < |xs| && Tallied(xs[..i], e, m, r, u, o)
    requires xs[i].matchMethod == Excluded && !xs[i].needsReview && xs[i].slot.None?
    ensures Tallied(xs[..i + 1], e + 1, m, r, u, o)
  {
    PrefixStep(xs, i);
  }

  /** A row sent to manual review adds one to the review count only. */
  lemma TallyManualReview(xs: seq<AnnotatedRow>, i: nat, e: nat, m: nat, r: nat, u: map<int, seq<nat>>, o: seq<int>)
    requires i < |xs| && Tallied(xs[..i], e, m, r, u, o)
    requires xs[i].matchMethod == ManualReview && xs[i].needsReview && xs[i].slot.None?
    ensures Tallied(xs[..i + 1], e, m, r + 1, u, o)
  {
    PrefixStep(xs, i);
  }

  /**
   * A matched row adds one to the matched count and is appended to its
   * slot's list, a new slot going last in insertion order.
   */
  lemma TallyAssigned(xs: seq<AnnotatedRow>, i: nat, s: int,
                      e: nat, m: nat, r: nat, u: map<int, seq<nat>>, o: seq<int>)
    requires i < |xs| && Tallied(xs[..i], e, m, r, u, o)
    requires xs[i].matchMethod in {BySku, BySequence} && !xs[i].needsReview && xs[i].slot == Some(s)
    ensures Tallied(xs[..i + 1], e, m + 1, r,
                    if s in u then u[s := u[s] + [i]] else u[s := [i]],
                    if s in u then o else o + [s])
  {
    PrefixStep(xs, i);
    UsageStep(xs, i, s);
    SlotOrderStep(xs, i, s);
  }

  /** In sequence mode a filtered row is excluded and does not advance the slot. */
  lemma SequenceRowExcluded(rows: seq<Row>, start: int, excl: seq<string>, incl: seq<string>, i: nat)
    requires i < |rows| && Filtered(rows[i], excl, incl)
    ensures SequencePass(rows, start, excl, incl)[i] == ExcludedRow(rows[i])
    ensures CountPassing(rows[..i + 1], excl, incl) == CountPassing(rows[..i], excl, incl)
  {
    assert SequencePass(rows, start, excl, incl)[i] == SequenceRowAt(rows, start, excl, incl, i);
    CountPassingStep(rows, excl, incl, i);
  }

  /** In sequence mode a row that passes takes the next slot, which then advances. */
  lemma SequenceRowAssigned(rows: seq<Row>, start: int, excl: seq<string>, incl: seq<string>, i: nat)
    requires i < |rows| && !Filtered(rows[i], excl, incl)
    ensures SequencePass(rows, start, excl, incl)[i]
            == Assigned(rows[i], start + CountPassing(rows[..i], excl, incl), BySequence)
    ensures CountPassing(rows[..i + 1], excl, incl) == CountPassing(rows[..i], excl, incl) + 1
  {
    assert SequencePass(rows, start, excl, incl)[i] == SequenceRowAt(rows, start, excl, incl, i);
    CountPassingStep(rows, excl, incl, i);
  }

  /** Row `i` adds one to the passing count exactly when it passes the filters. */
  lemma CountPassingStep(rows: seq<Row>, excl: seq<string>, incl: seq<string>, i: nat)
    requires i < |rows|
    ensures CountPassing(rows[..i + 1], excl, incl)
            == CountPassing(rows[..i], excl, incl) + (if Filtered(rows[i], excl, incl) then 0 else 1)
  {
    assert rows[..i + 1][..i] == rows[..i];
  }
}
