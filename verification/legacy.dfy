/**
  The legacy version of the masking engine (index.ts), over the token table
  `D` digit, `X` letter, `A` alphanumeric, `*` anything. Its maskTransform
  does not look for blank slots: it counts accepted characters and writes the
  n-th one over the n-th token symbol of the mask, then blanks the token
  symbols from the last written slot on.
 */
module LegacyMask {
  import opened Wrappers
  import opened TokenTable
  import opened Engine
  import opened Layout

  // ---------------------------------------------------------------------
  // Token ranks
  // ---------------------------------------------------------------------

  /** The number of token positions of `mask` before position `i`. */
  function Rank(mask: string, i: nat): nat
    requires i <= |mask|
  {
    |Tokens(Legacy, mask[..i])|
  }

  lemma {:induction false} TokensAppend(a: string, b: string)
    ensures Tokens(Legacy, a + b) == Tokens(Legacy, a) + Tokens(Legacy, b)
    decreases |a|
  {
    if |a| == 0 {
      assert a + b == b;
    } else {
      assert (a + b)[0] == a[0];
      assert (a + b)[1..] == a[1..] + b;
      TokensAppend(a[1..], b);
    }
  }

  /** Moving one position on adds one to the rank exactly when that position is a token. */
  lemma RankStep(mask: string, i: nat)
    requires i < |mask|
    ensures Rank(mask, i + 1) == Rank(mask, i) + (if IsToken(Legacy, mask[i]) then 1 else 0)
  {
    assert mask[..i + 1] == mask[..i] + [mask[i]];
    TokensAppend(mask[..i], [mask[i]]);
    assert [mask[i]][1..] == [];
  }

  /** The rank of the end of the mask is the number of its tokens. */
  lemma RankEnd(mask: string)
    ensures Rank(mask, |mask|) == |Tokens(Legacy, mask)|
  {
    assert mask[..|mask|] == mask;
  }

  /** Ranks grow with the position, strictly past a token. */
  lemma {:induction false} RankMono(mask: string, i: nat, j: nat)
    requires i <= j <= |mask|
    ensures Rank(mask, i) <= Rank(mask, j)
    ensures TokenAt(Legacy, mask, i) && i < j ==> Rank(mask, i) < Rank(mask, j)
    decreases j - i
  {
    if i < j {
      RankStep(mask, i);
      RankMono(mask, i + 1, j);
    }
  }

  /** The token at position `i` is the one numbered `Rank(mask, i)` in mask order. */
  lemma TokenOfRank(mask: string, i: nat)
    requires TokenAt(Legacy, mask, i)
    ensures Rank(mask, i) < |Tokens(Legacy, mask)|
    ensures Tokens(Legacy, mask)[Rank(mask, i)] == ClassAt(Legacy, mask, i)
  {
    assert mask == mask[..i] + mask[i..];
    TokensAppend(mask[..i], mask[i..]);
    assert mask[i..][0] == mask[i];
  }

  /**
    A rendered buffer, position by position: the token of rank n holds
    `fill[n]`, or the blank once the fill runs out; literals are the mask's.
   */
  lemma {:induction false} RenderAt(mask: string, fill: string, i: nat)
    requires i < |mask|
    ensures Render(Legacy, mask, fill)[i] ==
            if IsToken(Legacy, mask[i]) then (if Rank(mask, i) < |fill| then fill[Rank(mask, i)] else ' ')
            else mask[i]
    decreases i
  {
    assert mask[..0] == [];
    if i > 0 {
      var rest := mask[1..];
      var fill' := if IsToken(Legacy, mask[0]) && |fill| > 0 then fill[1..] else fill;
      RankCons(mask, i);
      RenderTail(mask, fill, i);
      RenderAt(rest, fill', i - 1);
    }
  }

  /** The rank of a position past the head counts the head, then ranks in the tail. */
  lemma RankCons(mask: string, i: nat)
    requires 0 < i <= |mask|
    ensures Rank(mask, i) == (if IsToken(Legacy, mask[0]) then 1 else 0) + Rank(mask[1..], i - 1)
  {
    var m, rest := mask[0], mask[1..];
    assert mask[..i] == [m] + rest[..i - 1];
    assert ([m] + rest[..i - 1])[1..] == rest[..i - 1];
  }

  /** A rendered buffer past its head is the rendering of the mask's tail. */
  lemma RenderTail(mask: string, fill: string, i: nat)
    requires 0 < i < |mask|
    ensures var fill' := if IsToken(Legacy, mask[0]) && |fill| > 0 then fill[1..] else fill;
            Render(Legacy, mask, fill)[i] == Render(Legacy, mask[1..], fill')[i - 1]
  {
  }

  // ---------------------------------------------------------------------
  // getNextMaskKeyFromIndex
  // ---------------------------------------------------------------------

  /**
    The scan of getNextMaskKeyFromIndex from position `i`, having passed
    `matched` tokens: the first token position from `i` on at which
    `matched` has reached `count`.
   */
  function ScanFrom(mask: string, count: nat, i: nat, matched: nat): (r: Option<nat>)
    requires i <= |mask| && matched == Rank(mask, i) && matched <= count
    decreases |mask| - i
    ensures r.Some? ==> i <= r.value && TokenAt(Legacy, mask, r.value) && Rank(mask, r.value) == count
    ensures r.None? ==> |Tokens(Legacy, mask)| <= count
  {
    if i == |mask| then
      RankEnd(mask);
      None
    else
      RankStep(mask, i);
      if IsToken(Legacy, mask[i]) then
        if matched == count then Some(i) else ScanFrom(mask, count, i + 1, matched + 1)
      else ScanFrom(mask, count, i + 1, matched)
  }

  /**
    getNextMaskKeyFromIndex: the position of the token numbered `count`
    (from 0) in mask order, or None when the mask has no more tokens.
   */
  function NextMaskKeyFromIndex(mask: string, count: nat): (r: Option<nat>)
    ensures r.Some? ==> TokenAt(Legacy, mask, r.value) && Rank(mask, r.value) == count
    ensures r.None? ==> |Tokens(Legacy, mask)| <= count
  {
    assert mask[..0] == [];
    ScanFrom(mask, count, 0, 0)
  }

  /** The search finds a slot exactly when the mask has more than `count` tokens, and its class is token number `count`. */
  lemma NextMaskKeyFromIndexClass(mask: string, count: nat)
    ensures NextMaskKeyFromIndex(mask, count).Some? <==> count < |Tokens(Legacy, mask)|
    ensures NextMaskKeyFromIndex(mask, count).Some? ==>
              ClassAt(Legacy, mask, NextMaskKeyFromIndex(mask, count).value) == Tokens(Legacy, mask)[count]
  {
    var r := NextMaskKeyFromIndex(mask, count);
    if r.Some? {
      TokenOfRank(mask, r.value);
    }
  }

  /** The position of token number `n`. */
  function SlotOf(mask: string, n: nat): (k: nat)
    requires n < |Tokens(Legacy, mask)|
    ensures TokenAt(Legacy, mask, k) && Rank(mask, k) == n
  {
    NextMaskKeyFromIndex(mask, n).value
  }

  /** Distinct token positions have distinct ranks. */
  lemma SlotUnique(mask: string, i: nat, n: nat)
    requires n < |Tokens(Legacy, mask)|
    requires TokenAt(Legacy, mask, i) && Rank(mask, i) == n
    ensures i == SlotOf(mask, n)
  {
    var k := SlotOf(mask, n);
    if i < k {
      RankMono(mask, i, k);
    } else if k < i {
      RankMono(mask, k, i);
    }
  }

  // ---------------------------------------------------------------------
  // maskTransform
  // ---------------------------------------------------------------------

  /**
    The mask with its first `|fill|` token symbols, in mask order, overwritten
    by the characters of `fill`; the other token symbols stay in place.
   */
  function Overlay(mask: string, fill: string): (r: string)
    ensures |r| == |mask|
  {
    seq(|mask|, i requires 0 <= i < |mask| =>
      if IsToken(Legacy, mask[i]) && Rank(mask, i) < |fill| then fill[Rank(mask, i)] else mask[i])
  }

  /** The loop state of maskTransform: the buffer, the number of characters placed, and the last slot written. */
  datatype FillState = FillState(buffer: string, count: nat, last: nat)

  /**
    The loop of maskTransform over `text`: each character is matched against
    the token numbered `count`; a match is written there, counted, and
    remembered as the last slot; the loop stops when the tokens run out.
   */
  function LegacyFill(mask: string, st: FillState, text: string): (r: FillState)
    decreases |text|
    ensures st.count <= r.count
  {
    if |text| == 0 then st
    else
      match NextMaskKeyFromIndex(mask, st.count)
      case None => st
      case Some(k) =>
        if Accepts(ClassAt(Legacy, mask, k), text[0]) then
          LegacyFill(mask, FillState(ReplaceAt(st.buffer, text[0], k), st.count + 1, k), text[1..])
        else LegacyFill(mask, st, text[1..])
  }

  /**
    The text maskTransform fills from: the unmasked value when it is given
    and not empty; otherwise the unmasked form of the masked value when that
    is given and not empty; otherwise the empty text.
   */
  function SourceText(unmaskedValue: Option<string>, maskedValue: Option<string>, mask: string): (r: string)
    ensures unmaskedValue.Some? && unmaskedValue.value != [] ==> r == unmaskedValue.value
    ensures (unmaskedValue.None? || unmaskedValue.value == []) && (maskedValue.None? || maskedValue.value == []) ==> r == []
  {
    if unmaskedValue.Some? && |unmaskedValue.value| > 0 then unmaskedValue.value
    else if maskedValue.Some? && |maskedValue.value| > 0 then UnmaskTransform(Legacy, maskedValue.value, mask)
    else []
  }

  /**
    `fill` with its final character blanked when that character is itself a
    token symbol: what trimming from the last written slot does to it.
   */
  function BlankLast(fill: string): (r: string)
    ensures |r| == |fill|
    ensures forall k :: 0 <= k < |fill| - 1 ==> r[k] == fill[k]
    ensures 0 < |fill| ==> r[|fill| - 1] == if IsToken(Legacy, fill[|fill| - 1]) then ' ' else fill[|fill| - 1]
  {
    if 0 < |fill| && IsToken(Legacy, fill[|fill| - 1]) then fill[..|fill| - 1] + [' '] else fill
  }

  /** The loop state maskTransform starts from: the mask itself, nothing placed. */
  function Start(mask: string): FillState {
    FillState(mask, 0, 0)
  }

  /**
    maskTransform (args form): fill the mask from the source text, then
    blank every token symbol from the last written slot on. The result is a
    well-formed buffer.
   */
  function MaskTransform(unmaskedValue: Option<string>, maskedValue: Option<string>, mask: string): (r: string)
    ensures |r| == |mask|
    ensures WellFormed(Legacy, mask, r)
  {
    var x := SourceText(unmaskedValue, maskedValue, mask);
    var st := LegacyFill(mask, Start(mask), x);
    FillThenTrim(mask, x);
    BlankLastWellFormed(mask, Accepted(Tokens(Legacy, mask), x));
    TrimMaskedText(Legacy, st.buffer, st.last)
  }

  /** Writing the next character over token number `|fill|` extends the overlay. */
  lemma OverlayStep(mask: string, fill: string, c: char)
    requires |fill| < |Tokens(Legacy, mask)|
    ensures ReplaceAt(Overlay(mask, fill), c, SlotOf(mask, |fill|)) == Overlay(mask, fill + [c])
  {
    var k := SlotOf(mask, |fill|);
    var a, b := ReplaceAt(Overlay(mask, fill), c, k), Overlay(mask, fill + [c]);
    forall i | 0 <= i < |mask| ensures a[i] == b[i] {
      if i != k && IsToken(Legacy, mask[i]) && Rank(mask, i) == |fill| {
        SlotUnique(mask, i, |fill|);
      }
    }
  }

  /** The mask itself is the overlay of nothing. */
  lemma OverlayEmpty(mask: string)
    ensures Overlay(mask, []) == mask
  {
  }

  /** The last slot the fill loop has written, for a fill of a given length. */
  function LastSlot(mask: string, n: nat, last: nat): nat
    requires n <= |Tokens(Legacy, mask)|
  {
    if n == 0 then last else SlotOf(mask, n - 1)
  }

  /** What a left-to-right scan of `x` assigns to the tokens after the first `|fill|`. */
  function Remaining(mask: string, fill: string, x: string): (a: string)
    requires |fill| <= |Tokens(Legacy, mask)|
    ensures |fill| + |a| <= |Tokens(Legacy, mask)|
  {
    Accepted(Tokens(Legacy, mask)[|fill|..], x)
  }

  /** The loop state once `fill` and then the remaining scan of `x` are placed. */
  function Settled(mask: string, fill: string, last: nat, x: string): FillState
    requires |fill| <= |Tokens(Legacy, mask)|
  {
    FillState(Overlay(mask, fill + Remaining(mask, fill, x)), |fill| + |Remaining(mask, fill, x)|,
              LastSlot(mask, |fill| + |Remaining(mask, fill, x)|, last))
  }

  /**
    Running the fill loop from an overlay of `fill` places exactly what a
    left-to-right scan assigns to the remaining token classes, and leaves the
    last slot at the slot of the last character placed.
   */
  lemma {:induction false} LegacyFillOverlay(mask: string, fill: string, last: nat, x: string)
    requires |fill| <= |Tokens(Legacy, mask)|
    requires 0 < |fill| ==> last == SlotOf(mask, |fill| - 1)
    ensures LegacyFill(mask, FillState(Overlay(mask, fill), |fill|, last), x) == Settled(mask, fill, last, x)
    decreases |x|, 1
  {
    var toks := Tokens(Legacy, mask);
    var st := FillState(Overlay(mask, fill), |fill|, last);
    NextMaskKeyFromIndexClass(mask, |fill|);
    if |x| == 0 || |fill| == |toks| {
      assert LegacyFill(mask, st, x) == st;
      LegacyFillOverlayDone(mask, fill, last, x);
    } else {
      var k := SlotOf(mask, |fill|);
      assert ClassAt(Legacy, mask, k) == toks[|fill|];
      if Accepts(toks[|fill|], x[0]) {
        assert LegacyFill(mask, st, x) == LegacyFill(mask, FillState(ReplaceAt(Overlay(mask, fill), x[0], k), |fill| + 1, k), x[1..]);
        LegacyFillOverlayTaken(mask, fill, last, x);
      } else {
        assert LegacyFill(mask, st, x) == LegacyFill(mask, st, x[1..]);
        LegacyFillOverlaySkipped(mask, fill, last, x);
      }
    }
  }

  /** LegacyFillOverlay when the input or the tokens have run out: nothing more is placed. */
  lemma LegacyFillOverlayDone(mask: string, fill: string, last: nat, x: string)
    requires |fill| <= |Tokens(Legacy, mask)|
    requires 0 < |fill| ==> last == SlotOf(mask, |fill| - 1)
    requires |x| == 0 || |fill| == |Tokens(Legacy, mask)|
    ensures Settled(mask, fill, last, x) == FillState(Overlay(mask, fill), |fill|, last)
  {
    var rest := Tokens(Legacy, mask)[|fill|..];
    if 0 < |x| {
      assert rest == [];
    }
    assert Remaining(mask, fill, x) == [];
    assert fill + [] == fill;
  }

  /** The step of LegacyFillOverlay where token number `|fill|` rejects the input's head. */
  lemma {:induction false} LegacyFillOverlaySkipped(mask: string, fill: string, last: nat, x: string)
    requires |fill| < |Tokens(Legacy, mask)|
    requires 0 < |fill| ==> last == SlotOf(mask, |fill| - 1)
    requires 0 < |x| && !Accepts(Tokens(Legacy, mask)[|fill|], x[0])
    ensures LegacyFill(mask, FillState(Overlay(mask, fill), |fill|, last), x[1..]) == Settled(mask, fill, last, x)
    decreases |x|, 0
  {
    var rest := Tokens(Legacy, mask)[|fill|..];
    LegacyFillOverlay(mask, fill, last, x[1..]);
    assert Accepted(rest, x) == Accepted(rest, x[1..]);
  }

  /** The step of LegacyFillOverlay where token number `|fill|` takes the input's head. */
  lemma {:induction false} LegacyFillOverlayTaken(mask: string, fill: string, last: nat, x: string)
    requires |fill| < |Tokens(Legacy, mask)|
    requires 0 < |x| && Accepts(Tokens(Legacy, mask)[|fill|], x[0])
    ensures LegacyFill(mask, FillState(ReplaceAt(Overlay(mask, fill), x[0], SlotOf(mask, |fill|)), |fill| + 1, SlotOf(mask, |fill|)), x[1..])
            == Settled(mask, fill, last, x)
    decreases |x|, 0
  {
    var k := SlotOf(mask, |fill|);
    var fill' := fill + [x[0]];
    LegacyFillOverlay(mask, fill', k, x[1..]);
    OverlayStep(mask, fill, x[0]);
    assert FillState(ReplaceAt(Overlay(mask, fill), x[0], k), |fill| + 1, k) == FillState(Overlay(mask, fill'), |fill'|, k);
    TakenState(mask, fill, last, x);
  }

  /** The state reached after a taken head, seen from before the head. */
  lemma TakenState(mask: string, fill: string, last: nat, x: string)
    requires |fill| < |Tokens(Legacy, mask)|
    requires 0 < |x| && Accepts(Tokens(Legacy, mask)[|fill|], x[0])
    ensures Settled(mask, fill + [x[0]], SlotOf(mask, |fill|), x[1..]) == Settled(mask, fill, last, x)
  {
    SettledAfterHead(mask, fill, x);
    SettledBeforeHead(mask, fill, last, x);
  }

  /** After a taken head, the settled state is that of the whole scan, ending at the slot of its last character. */
  lemma SettledAfterHead(mask: string, fill: string, x: string)
    requires |fill| < |Tokens(Legacy, mask)|
    requires 0 < |x| && Accepts(Tokens(Legacy, mask)[|fill|], x[0])
    ensures 0 < |Remaining(mask, fill, x)|
    ensures Settled(mask, fill + [x[0]], SlotOf(mask, |fill|), x[1..])
            == FillState(Overlay(mask, fill + Remaining(mask, fill, x)), |fill| + |Remaining(mask, fill, x)|,
                         SlotOf(mask, |fill| + |Remaining(mask, fill, x)| - 1))
  {
    var fill' := fill + [x[0]];
    RemainingTaken(mask, fill, x);
    ConcatAssoc(fill, [x[0]], Remaining(mask, fill', x[1..]));
    SettledBeforeHead(mask, fill', SlotOf(mask, |fill|), x[1..]);
  }

  /** A taken head is the first character of the remaining scan. */
  lemma RemainingTaken(mask: string, fill: string, x: string)
    requires |fill| < |Tokens(Legacy, mask)|
    requires 0 < |x| && Accepts(Tokens(Legacy, mask)[|fill|], x[0])
    ensures Remaining(mask, fill, x) == [x[0]] + Remaining(mask, fill + [x[0]], x[1..])
  {
    var toks := Tokens(Legacy, mask);
    assert toks[|fill + [x[0]]|..] == toks[|fill|..][1..];
  }

  /** With at least one character placed, the settled state does not depend on the slot last written before. */
  lemma SettledBeforeHead(mask: string, fill: string, last: nat, x: string)
    requires |fill| <= |Tokens(Legacy, mask)|
    requires 0 < |fill| + |Remaining(mask, fill, x)|
    ensures Settled(mask, fill, last, x)
            == FillState(Overlay(mask, fill + Remaining(mask, fill, x)), |fill| + |Remaining(mask, fill, x)|,
                         SlotOf(mask, |fill| + |Remaining(mask, fill, x)| - 1))
  {
  }

  /**
    Blanking the token symbols of an overlay from the last written slot on
    gives the rendered buffer of the fill, except that a final character
    that is itself a token symbol is blanked too.
   */
  lemma TrimOverlay(mask: string, fill: string)
    requires |fill| <= |Tokens(Legacy, mask)|
    ensures TrimMaskedText(Legacy, Overlay(mask, fill), LastSlot(mask, |fill|, 0)) == Render(Legacy, mask, BlankLast(fill))
  {
    var t := TrimMaskedText(Legacy, Overlay(mask, fill), LastSlot(mask, |fill|, 0));
    var r := Render(Legacy, mask, BlankLast(fill));
    forall i | 0 <= i < |mask| ensures t[i] == r[i] {
      TrimOverlayAt(mask, fill, i);
    }
  }

  lemma TrimOverlayAt(mask: string, fill: string, i: nat)
    requires |fill| <= |Tokens(Legacy, mask)| && i < |mask|
    ensures TrimMaskedText(Legacy, Overlay(mask, fill), LastSlot(mask, |fill|, 0))[i] == Render(Legacy, mask, BlankLast(fill))[i]
  {
    RenderAt(mask, BlankLast(fill), i);
    if IsToken(Legacy, mask[i]) && 0 < |fill| {
      var last := SlotOf(mask, |fill| - 1);
      if i < last {
        RankMono(mask, i, last);
      } else if last < i {
        RankMono(mask, last, i);
      }
    }
  }

  /** The fill loop from the start, then the trim from the last written slot. */
  lemma FillThenTrim(mask: string, x: string)
    ensures var st := LegacyFill(mask, Start(mask), x);
            TrimMaskedText(Legacy, st.buffer, st.last) == Render(Legacy, mask, BlankLast(Accepted(Tokens(Legacy, mask), x)))
  {
    var toks := Tokens(Legacy, mask);
    var empty: string := [];
    var a := Accepted(toks, x);
    OverlayEmpty(mask);
    LegacyFillOverlay(mask, empty, 0, x);
    assert toks[|empty|..] == toks;
    assert empty + a == a;
    TrimOverlay(mask, a);
  }

  /**
    What maskTransform computes: the buffer whose token slots hold, in order,
    what a left-to-right scan of the source text assigns to the mask's
    tokens, with the last of them blanked when it is a token symbol.
   */
  lemma MaskTransformFillOrder(unmaskedValue: Option<string>, maskedValue: Option<string>, mask: string)
    ensures MaskTransform(unmaskedValue, maskedValue, mask)
            == Render(Legacy, mask, BlankLast(Accepted(Tokens(Legacy, mask), SourceText(unmaskedValue, maskedValue, mask))))
  {
    FillThenTrim(mask, SourceText(unmaskedValue, maskedValue, mask));
  }

  /** A scanned fill, with its last character possibly blanked, renders to a well-formed buffer. */
  lemma BlankLastWellFormed(mask: string, a: string)
    requires Fits(Tokens(Legacy, mask), a)
    ensures WellFormed(Legacy, mask, Render(Legacy, mask, BlankLast(a)))
  {
    var b := BlankLast(a);
    assert FitsOrBlank(Tokens(Legacy, mask), b) by {
      forall k | 0 <= k < |b| ensures b[k] == ' ' || Accepts(Tokens(Legacy, mask)[k], b[k]) {
      }
    }
    RenderWellFormed(Legacy, mask, b);
  }

  /** Unmasking the empty text gives the empty text. */
  lemma {:induction false} UnmaskOfEmpty(mask: string)
    ensures UnmaskTransform(Legacy, [], mask) == []
    decreases |mask|
  {
    if |mask| > 0 {
      UnmaskOfEmpty(mask[1..]);
    }
  }

  /**
    A masked value is used only when no unmasked value is given: it is then
    the same as passing its unmasked form.
   */
  lemma MaskedValueInput(unmaskedValue: Option<string>, maskedValue: string, mask: string)
    requires unmaskedValue.None? || unmaskedValue.value == []
    ensures MaskTransform(unmaskedValue, Some(maskedValue), mask)
            == MaskTransform(Some(UnmaskTransform(Legacy, maskedValue, mask)), None, mask)
  {
    var u := UnmaskTransform(Legacy, maskedValue, mask);
    UnmaskOfEmpty(mask);
    assert SourceText(unmaskedValue, Some(maskedValue), mask) == SourceText(Some(u), None, mask);
    MaskTransformFillOrder(unmaskedValue, Some(maskedValue), mask);
    MaskTransformFillOrder(Some(u), None, mask);
  }

  /** The trim start of the corrected transform: just past the last written slot, or 0 when nothing was written. */
  function FixedStart(st: FillState): nat {
    if st.count == 0 then 0 else st.last + 1
  }

  /**
    The fill loop with the trim started just past the last written slot, so
    that written characters are never blanked. It renders exactly what the
    scan of the source text accepts.
   */
  function MaskTransformFixed(unmaskedValue: Option<string>, maskedValue: Option<string>, mask: string): (r: string)
    ensures r == Render(Legacy, mask, Accepted(Tokens(Legacy, mask), SourceText(unmaskedValue, maskedValue, mask)))
  {
    var x := SourceText(unmaskedValue, maskedValue, mask);
    var st := LegacyFill(mask, Start(mask), x);
    FillThenTrimFixed(mask, x);
    TrimMaskedText(Legacy, st.buffer, FixedStart(st))
  }

  /** With the trim started past the last written slot, every accepted character survives. */
  lemma TrimOverlayFixed(mask: string, fill: string)
    requires |fill| <= |Tokens(Legacy, mask)|
    ensures TrimMaskedText(Legacy, Overlay(mask, fill), if |fill| == 0 then 0 else SlotOf(mask, |fill| - 1) + 1)
            == Render(Legacy, mask, fill)
  {
    var t := TrimMaskedText(Legacy, Overlay(mask, fill), if |fill| == 0 then 0 else SlotOf(mask, |fill| - 1) + 1);
    var r := Render(Legacy, mask, fill);
    forall i | 0 <= i < |mask| ensures t[i] == r[i] {
      TrimOverlayFixedAt(mask, fill, i);
    }
  }

  lemma TrimOverlayFixedAt(mask: string, fill: string, i: nat)
    requires |fill| <= |Tokens(Legacy, mask)| && i < |mask|
    ensures TrimMaskedText(Legacy, Overlay(mask, fill), if |fill| == 0 then 0 else SlotOf(mask, |fill| - 1) + 1)[i]
            == Render(Legacy, mask, fill)[i]
  {
    if 0 < |fill| && i <= SlotOf(mask, |fill| - 1) {
      OverlayAtWritten(mask, fill, i);
    } else {
      OverlayAtUnwritten(mask, fill, i);
    }
  }

  /** At or before the last written slot, the overlay already shows the rendered buffer. */
  lemma OverlayAtWritten(mask: string, fill: string, i: nat)
    requires |fill| <= |Tokens(Legacy, mask)| && i < |mask|
    requires 0 < |fill| && i <= SlotOf(mask, |fill| - 1)
    ensures Overlay(mask, fill)[i] == Render(Legacy, mask, fill)[i]
  {
    RenderAt(mask, fill, i);
    RankMono(mask, i, SlotOf(mask, |fill| - 1));
  }

  /** Past the last written slot, the overlay still shows the mask, and the rendered buffer blanks its token symbols. */
  lemma OverlayAtUnwritten(mask: string, fill: string, i: nat)
    requires |fill| <= |Tokens(Legacy, mask)| && i < |mask|
    requires 0 < |fill| ==> SlotOf(mask, |fill| - 1) < i
    ensures Overlay(mask, fill)[i] == mask[i]
    ensures Render(Legacy, mask, fill)[i] == if IsToken(Legacy, mask[i]) then ' ' else mask[i]
  {
    RenderAt(mask, fill, i);
    if 0 < |fill| {
      RankMono(mask, SlotOf(mask, |fill| - 1), i);
    }
  }

  /** The fill loop from the start, then the corrected trim. */
  lemma FillThenTrimFixed(mask: string, x: string)
    ensures var st := LegacyFill(mask, Start(mask), x);
            TrimMaskedText(Legacy, st.buffer, FixedStart(st)) == Render(Legacy, mask, Accepted(Tokens(Legacy, mask), x))
  {
    var toks := Tokens(Legacy, mask);
    var empty: string := [];
    var a := Accepted(toks, x);
    OverlayEmpty(mask);
    LegacyFillOverlay(mask, empty, 0, x);
    assert toks[|empty|..] == toks;
    assert empty + a == a;
    TrimOverlayFixed(mask, a);
  }

  // ---------------------------------------------------------------------
  // The parseint check of the directive
  // ---------------------------------------------------------------------

  const ParseIntMaskError := "Invalud mask to parseint modifier"

  /** The position of the first character of `s` that `p` holds for: a regular-expression search for a character class. */
  function FindChar(s: string, p: char -> bool): (r: Option<nat>)
    ensures r.Some? ==> r.value < |s| && p(s[r.value]) && forall j :: 0 <= j < r.value ==> !p(s[j])
    ensures r.None? ==> forall j :: 0 <= j < |s| ==> !p(s[j])
  {
    if |s| == 0 then None
    else if p(s[0]) then Some(0)
    else match FindChar(s[1..], p)
      case None => None
      case Some(k) => Some(k + 1)
  }

  /**
    The parseint check made when the directive binds: with unmask the mask
    is searched for `A`, `X` or `*`, without it for anything but `D`; a hit
    refuses the binding with an error message.
   */
  function ParseIntCheck(mask: string, unmask: bool, parseint: bool): (r: Option<string>)
    ensures r.Some? ==> parseint && r.value == ParseIntMaskError
    ensures r.None? && parseint && unmask ==> forall i :: 0 <= i < |mask| ==> mask[i] != 'A' && mask[i] != 'X' && mask[i] != '*'
    ensures r.None? && parseint && !unmask ==> forall i :: 0 <= i < |mask| ==> mask[i] == 'D'
    ensures r.Some? && unmask ==> exists i :: 0 <= i < |mask| && mask[i] in "AX*"
    ensures r.Some? && !unmask ==> exists i :: 0 <= i < |mask| && mask[i] != 'D'
  {
    if !parseint then None
    else if unmask then
      match FindChar(mask, c => c in "AX*")
      case Some(_) => Some(ParseIntMaskError)
      case None => None
    else
      match FindChar(mask, c => c != 'D')
      case Some(_) => Some(ParseIntMaskError)
      case None => None
  }

  /**
    What the check buys: with unmask, every unmasked value is a string of
    digits; without it, every masked buffer holds only digits and blanks.
   */
  lemma ParseIntYieldsDigits(mask: string, unmask: bool, text: string, buf: string)
    requires ParseIntCheck(mask, unmask, true).None?
    ensures unmask ==> forall k :: 0 <= k < |UnmaskTransform(Legacy, text, mask)| ==>
                         IsDigit(UnmaskTransform(Legacy, text, mask)[k])
    ensures !unmask && WellFormed(Legacy, mask, buf) ==> forall i :: 0 <= i < |buf| ==> IsDigit(buf[i]) || buf[i] == ' '
  {
    if unmask {
      forall i | 0 <= i < |mask| && IsToken(Legacy, mask[i])
        ensures ClassOf(Legacy, mask[i]) == Some(Digit)
      {
      }
      UnmaskOfDigitMask(Legacy, text, mask);
    } else if WellFormed(Legacy, mask, buf) {
      forall i | 0 <= i < |buf| ensures IsDigit(buf[i]) || buf[i] == ' ' {
        assert mask[i] == 'D';
      }
    }
  }
}
