/**
 * `parse_sku_to_slot`: the slot number in a SKU is the leftmost maximal run
 * of decimal digits (`re.search(r'\d+', ...)`), read as an integer.
 */
module SkuParser {
  import opened Wrappers
  import opened Text
  import opened OrderTable

  /** Length of the digit run at the start of `s`. */
  function RunLength(s: string): (n: nat)
    ensures n <= |s| && AllDigits(s[..n])
    ensures n < |s| ==> !IsDigit(s[n])
  {
    if s != [] && IsDigit(s[0]) then
      var n := 1 + RunLength(s[1..]);
      assert s[..n] == [s[0]] + s[1..][..n - 1];
      n
    else 0
  }

  /** The value of the leftmost maximal digit run of `s`, if there is one. */
  function FirstNumber(s: string): Option<nat> {
    if s == [] then None
    else if IsDigit(s[0]) then Some(DigitsValue(s[..RunLength(s)]))
    else FirstNumber(s[1..])
  }

  /** `parse_sku_to_slot`: None for a null, empty or blank cell, else the first number. */
  function ParseSkuToSlot(sku: Option<string>): (slot: Option<nat>)
    ensures slot.None? <==> sku.None? || NoDigits(sku.value)
  {
    match sku
    case None => None
    case Some(s) =>
      if s == "" then None
      else
        var stripped := Strip(s);
        StripPreservesFirstNumber(s);
        FirstNumberNone(s);
        if stripped == "" then None else FirstNumber(stripped)
  }

  lemma {:induction false} FirstNumberNone(s: string)
    ensures FirstNumber(s).None? <==> NoDigits(s)
  {
    if s != [] && !IsDigit(s[0]) {
      FirstNumberNone(s[1..]);
      assert forall i :: 1 <= i < |s| ==> s[i] == s[1..][i - 1];
    }
  }

  lemma {:induction false} RunLengthOfRun(run: string, post: string)
    requires AllDigits(run)
    requires post == [] || !IsDigit(post[0])
    ensures RunLength(run + post) == |run|
    decreases |run|
  {
    if run != [] {
      assert (run + post)[1..] == run[1..] + post;
      RunLengthOfRun(run[1..], post);
    }
  }

  /**
   * The number found is that of the leftmost digit run: whatever digit-free
   * text precedes a maximal run `run`, and whatever follows it, the result
   * is `int(run)`.
   */
  lemma {:induction false} FirstNumberOfSplit(pre: string, run: string, post: string)
    requires NoDigits(pre)
    requires run != [] && AllDigits(run)
    requires post == [] || !IsDigit(post[0])
    ensures FirstNumber(pre + run + post) == Some(DigitsValue(run))
    decreases |pre|
  {
    if pre == [] {
      assert pre + run + post == run + post;
      RunLengthOfRun(run, post);
      assert (run + post)[..|run|] == run;
    } else {
      assert (pre + run + post)[1..] == pre[1..] + run + post;
      FirstNumberOfSplit(pre[1..], run, post);
    }
  }

  /** Text without digits after a string does not change its first number. */
  lemma {:induction false} FirstNumberAppend(x: string, w: string)
    requires NoDigits(w)
    ensures FirstNumber(x + w) == FirstNumber(x)
    decreases |x|
  {
    if x == [] {
      assert x + w == w;
      FirstNumberNone(w);
    } else if IsDigit(x[0]) {
      var n := RunLength(x);
      var pre: string := [];
      assert x == pre + x[..n] + x[n..];
      assert x + w == pre + x[..n] + (x[n..] + w);
      FirstNumberOfSplit(pre, x[..n], x[n..]);
      FirstNumberOfSplit(pre, x[..n], x[n..] + w);
    } else {
      assert (x + w)[1..] == x[1..] + w;
      FirstNumberAppend(x[1..], w);
    }
  }

  /** Text without digits before a string does not change its first number. */
  lemma {:induction false} FirstNumberPrepend(w: string, x: string)
    requires NoDigits(w)
    ensures FirstNumber(w + x) == FirstNumber(x)
    decreases |w|
  {
    if w == [] {
      assert w + x == x;
    } else {
      assert (w + x)[1..] == w[1..] + x;
      FirstNumberPrepend(w[1..], x);
    }
  }

  /** Stripping surrounding whitespace never changes the first number. */
  lemma StripPreservesFirstNumber(s: string)
    ensures FirstNumber(Strip(s)) == FirstNumber(s)
  {
    TrimLeftPreservesFirstNumber(s);
    TrimRightPreservesFirstNumber(TrimLeft(s));
  }

  lemma TrimLeftPreservesFirstNumber(s: string)
    ensures FirstNumber(TrimLeft(s)) == FirstNumber(s)
  {
    var l := TrimLeft(s);
    var lead := s[..|s| - |l|];
    assert s == lead + l;
    SpaceHasNoDigits(lead);
    FirstNumberPrepend(lead, l);
  }

  lemma TrimRightPreservesFirstNumber(l: string)
    ensures FirstNumber(TrimRight(l)) == FirstNumber(l)
  {
    var r := TrimRight(l);
    var trail := l[|r|..];
    assert l == r + trail;
    SpaceHasNoDigits(trail);
    FirstNumberAppend(r, trail);
  }

  lemma SpaceHasNoDigits(w: string)
    requires AllSpace(w)
    ensures NoDigits(w)
  {
  }

  /**
   * The full characterisation of a present SKU: the slot is the value of the
   * leftmost maximal digit run; surrounding whitespace and leading zeros
   * play no part.
   */
  lemma ParseSplit(pre: string, run: string, post: string)
    requires NoDigits(pre)
    requires run != [] && AllDigits(run)
    requires post == [] || !IsDigit(post[0])
    ensures ParseSkuToSlot(Some(pre + run + post)) == Some(DigitsValue(run))
  {
    var s := pre + run + post;
    assert s[|pre|] == run[0];
    StripPreservesFirstNumber(s);
    FirstNumberOfSplit(pre, run, post);
  }

  /** Parsing a row label `"Item #" + str(n)` gives back `n`. */
  lemma LabelRoundTrip(n: nat)
    ensures ParseSkuToSlot(Some(Label(n))) == Some(n)
  {
    var digits := NatToString(n);
    assert Label(n) == "Item #" + digits + "";
    ParseSplit("Item #", digits, "");
    NatToStringRoundTrip(n);
  }

  /**
   * Whatever the cell holds, the slot is its first number: an empty or
   * blank cell has none, and stripping never changes it.
   */
  lemma ParseIsFirstNumber(s: string)
    ensures ParseSkuToSlot(Some(s)) == FirstNumber(s)
  {
    StripPreservesFirstNumber(s);
  }

  /** Whitespace around a SKU (`"\tITEM-10\n"`) plays no part. */
  lemma ParseIgnoresWhitespace(lead: string, s: string, trail: string)
    requires AllSpace(lead) && AllSpace(trail)
    ensures ParseSkuToSlot(Some(lead + s + trail)) == ParseSkuToSlot(Some(s))
  {
    ParseIsFirstNumber(lead + s + trail);
    ParseIsFirstNumber(s);
    SpaceHasNoDigits(lead);
    SpaceHasNoDigits(trail);
    assert lead + s + trail == lead + (s + trail);
    FirstNumberPrepend(lead, s + trail);
    FirstNumberAppend(s, trail);
  }

  /** A leading zero in the first number (`"ITEM-001"`) plays no part. */
  lemma ParseDropsLeadingZeros(pre: string, run: string, post: string)
    requires NoDigits(pre)
    requires run != [] && AllDigits(run)
    requires post == [] || !IsDigit(post[0])
    ensures ParseSkuToSlot(Some(pre + "0" + run + post)) == ParseSkuToSlot(Some(pre + run + post))
  {
    LeadingZeroIgnored(run);
    assert pre + "0" + run + post == pre + ("0" + run) + post;
    ParseSplit(pre, "0" + run, post);
    ParseSplit(pre, run, post);
  }

  /** Cells that yield no slot: null, empty, blank and digit-free. */
  lemma ParseNoNumber()
    ensures ParseSkuToSlot(None) == None
    ensures ParseSkuToSlot(Some("")) == None
    ensures ParseSkuToSlot(Some("   ")) == None
    ensures ParseSkuToSlot(Some("NO_NUMBERS")) == None
  {
    assert NoDigits("");
    assert NoDigits("   ");
    assert NoDigits("NO_NUMBERS");
  }
}
