/**
  A reference description of masked buffers, used to state what the mask
  transforms compute: `Render(table, mask, fill)` is the buffer whose k-th
  token slot holds `fill[k]` (blank once `fill` runs out), and
  `Accepted(classes, input)` is the sequence a left-to-right scan assigns to
  a list of token classes.
 */
module Layout {
  import opened Wrappers
  import opened TokenTable
  import opened Engine

  /** The buffer of `mask` whose k-th token slot holds `fill[k]`, or the blank once `fill` is used up. */
  function Render(table: Table, mask: string, fill: string): (r: string)
    decreases |mask|
    ensures |r| == |mask|
  {
    if |mask| == 0 then []
    else if IsToken(table, mask[0]) then
      if |fill| == 0 then [' '] + Render(table, mask[1..], fill)
      else [fill[0]] + Render(table, mask[1..], fill[1..])
    else [mask[0]] + Render(table, mask[1..], fill)
  }

  /** Each character of `fill` is accepted by the class it is paired with. */
  predicate Fits(classes: seq<Class>, fill: string) {
    |fill| <= |classes| && forall k :: 0 <= k < |fill| ==> Accepts(classes[k], fill[k])
  }

  /** Like Fits, but a blank is allowed in any slot. */
  predicate FitsOrBlank(classes: seq<Class>, fill: string) {
    |fill| <= |classes| && forall k :: 0 <= k < |fill| ==> fill[k] == ' ' || Accepts(classes[k], fill[k])
  }

  /**
    Each class in turn takes the next character of `input` it accepts;
    characters it rejects are skipped; the scan stops when the classes or
    the input run out.
   */
  function Accepted(classes: seq<Class>, input: string): (r: string)
    decreases |input|
    ensures Fits(classes, r)
    ensures forall k :: 0 <= k < |r| ==> r[k] in input
  {
    if |classes| == 0 || |input| == 0 then []
    else if Accepts(classes[0], input[0]) then [input[0]] + Accepted(classes[1..], input[1..])
    else Accepted(classes, input[1..])
  }

  /** `s` with its blanks removed. */
  function NoSpaces(s: string): (r: string)
    ensures ' ' !in r
    ensures forall c :: c in r ==> c in s
    ensures ' ' !in s ==> r == s
  {
    if |s| == 0 then []
    else (if s[0] == ' ' then [] else [s[0]]) + NoSpaces(s[1..])
  }

  /** One blank for each wildcard class: what the blank wildcard slots of a buffer unmask to. */
  function Padding(classes: seq<Class>): (r: string)
    ensures forall k :: 0 <= k < |r| ==> r[k] == ' '
    ensures |r| <= |classes|
  {
    if |classes| == 0 then []
    else (if classes[0] == Any then [' '] else []) + Padding(classes[1..])
  }

  lemma {:induction false} NoSpacesAppend(a: string, b: string)
    ensures NoSpaces(a + b) == NoSpaces(a) + NoSpaces(b)
    decreases |a|
  {
    if |a| == 0 {
      assert a + b == b;
    } else {
      var h: string := if a[0] == ' ' then [] else [a[0]];
      assert (a + b)[0] == a[0] && (a + b)[1..] == a[1..] + b;
      NoSpacesUnfold(a + b);
      NoSpacesUnfold(a);
      NoSpacesAppend(a[1..], b);
      ConcatAssoc(h, NoSpaces(a[1..]), NoSpaces(b));
    }
  }

  /** One step of NoSpaces. */
  lemma NoSpacesUnfold(s: string)
    requires 0 < |s|
    ensures NoSpaces(s) == (if s[0] == ' ' then [] else [s[0]]) + NoSpaces(s[1..])
  {
  }

  /** Concatenation regroups freely. */
  lemma ConcatAssoc(x: string, y: string, z: string)
    ensures x + (y + z) == (x + y) + z
  {
  }

  lemma {:induction false} NoSpacesOfBlanks(s: string)
    requires forall k :: 0 <= k < |s| ==> s[k] == ' '
    ensures NoSpaces(s) == []
    decreases |s|
  {
    if |s| > 0 {
      NoSpacesOfBlanks(s[1..]);
    }
  }

  /** Scanning a sequence that already fits the classes takes all of it. */
  lemma {:induction false} AcceptedOfFitting(classes: seq<Class>, fill: string)
    requires Fits(classes, fill)
    ensures Accepted(classes, fill) == fill
    decreases |fill|
  {
    if |fill| > 0 {
      AcceptedOfFitting(classes[1..], fill[1..]);
    }
  }

  /** The blanked mask is the buffer with nothing filled. */
  lemma {:induction false} TrimIsEmptyRender(table: Table, mask: string)
    ensures TrimMaskedText(table, mask, 0) == Render(table, mask, [])
    decreases |mask|
  {
    if |mask| > 0 {
      TrimIsEmptyRender(table, mask[1..]);
      var t := TrimMaskedText(table, mask, 0);
      var t' := TrimMaskedText(table, mask[1..], 0);
      assert t == t[..1] + t[1..];
      assert t[1..] == t' by {
        forall i | 0 <= i < |t'|
          ensures t[1..][i] == t'[i]
        {
          assert mask[1..][i] == mask[i + 1];
        }
      }
    }
  }

  /** Appending a blank to the fill changes nothing. */
  lemma {:induction false} RenderBlankTail(table: Table, mask: string, fill: string)
    ensures Render(table, mask, fill + [' ']) == Render(table, mask, fill)
    decreases |mask|
  {
    if |mask| > 0 {
      if IsToken(table, mask[0]) && |fill| > 0 {
        assert (fill + [' '])[1..] == fill[1..] + [' '];
        RenderBlankTail(table, mask[1..], fill[1..]);
      } else if IsToken(table, mask[0]) {
        assert fill + [' '] == [' '];
        assert Render(table, mask[1..], [' '][1..]) == Render(table, mask[1..], []);
      } else {
        RenderBlankTail(table, mask[1..], fill);
      }
    }
  }

  /** The first blank slot of a buffer whose head is `h` and mask head is `m`. */
  lemma NextMaskKeyCons(table: Table, h: char, rest: string, m: char, mask: string)
    ensures NextMaskKey(table, [h] + rest, [m] + mask) ==
            if h == ' ' && IsToken(table, m) then Some(0)
            else match NextMaskKey(table, rest, mask)
              case None => None
              case Some(k) => Some(k + 1)
  {
    var v, w := [h] + rest, [m] + mask;
    forall j | 0 <= j < |rest|
      ensures BlankSlot(table, v, w, j + 1) <==> BlankSlot(table, rest, mask, j)
    {
      assert v[j + 1] == rest[j];
      if j < |mask| {
        assert w[j + 1] == mask[j];
      }
    }
    var r := NextMaskKey(table, v, w);
    if !(h == ' ' && IsToken(table, m)) {
      assert !BlankSlot(table, v, w, 0);
      match NextMaskKey(table, rest, mask)
      case None =>
        if r.Some? {
          assert BlankSlot(table, rest, mask, r.value - 1);
        }
      case Some(k) =>
        assert BlankSlot(table, v, w, k + 1);
        assert r.Some?;
        if r.value < k + 1 {
          assert BlankSlot(table, rest, mask, r.value - 1);
        }
    }
  }

  /** `ReplaceAt` one past a fixed head. */
  lemma ReplaceAtCons(h: char, rest: string, c: char, k: nat)
    requires k < |rest|
    ensures ReplaceAt([h] + rest, c, k + 1) == [h] + ReplaceAt(rest, c, k)
  {
    assert ([h] + rest)[..k + 1] == [h] + rest[..k];
    assert ([h] + rest)[k + 2..] == rest[k + 1..];
  }

  /**
    On a rendered buffer with fewer fills than tokens, the first blank slot
    is the slot of the next token in order, and writing there extends the
    fill by one.
   */
  lemma {:induction false} RenderNextSlot(table: Table, mask: string, fill: string, c: char)
    requires ' ' !in fill
    requires |fill| < |Tokens(table, mask)|
    ensures NextMaskKey(table, Render(table, mask, fill), mask).Some?
    ensures var k := NextMaskKey(table, Render(table, mask, fill), mask).value;
            && TokenAt(table, mask, k)
            && ClassAt(table, mask, k) == Tokens(table, mask)[|fill|]
            && ReplaceAt(Render(table, mask, fill), c, k) == Render(table, mask, fill + [c])
    decreases |mask|, 1
  {
    if !IsToken(table, mask[0]) {
      RenderNextSlotLiteral(table, mask, fill, c);
    } else if |fill| == 0 {
      RenderNextSlotEmpty(table, mask, c);
    } else {
      RenderNextSlotFilled(table, mask, fill, c);
    }
  }

  /** RenderNextSlot when the fill is empty and the mask starts with a token: slot 0. */
  lemma RenderNextSlotEmpty(table: Table, mask: string, c: char)
    requires 0 < |mask| && IsToken(table, mask[0])
    ensures NextMaskKey(table, Render(table, mask, []), mask) == Some(0)
    ensures ClassAt(table, mask, 0) == Tokens(table, mask)[0]
    ensures ReplaceAt(Render(table, mask, []), c, 0) == Render(table, mask, [] + [c])
  {
    var m, rest := mask[0], mask[1..];
    assert mask == [m] + rest;
    var tail := Render(table, rest, []);
    assert Render(table, mask, []) == [' '] + tail;
    NextMaskKeyCons(table, ' ', tail, m, rest);
    assert [] + [c] == [c];
    assert [c][1..] == [];
    assert Render(table, mask, [c]) == [c] + tail;
  }

  /** RenderNextSlot when the mask starts with a token that the fill's head occupies. */
  lemma {:induction false} RenderNextSlotFilled(table: Table, mask: string, fill: string, c: char)
    requires ' ' !in fill
    requires |fill| < |Tokens(table, mask)|
    requires 0 < |fill| && IsToken(table, mask[0])
    ensures NextMaskKey(table, Render(table, mask, fill), mask).Some?
    ensures var k := NextMaskKey(table, Render(table, mask, fill), mask).value;
            && TokenAt(table, mask, k)
            && ClassAt(table, mask, k) == Tokens(table, mask)[|fill|]
            && ReplaceAt(Render(table, mask, fill), c, k) == Render(table, mask, fill + [c])
    decreases |mask|, 0
  {
    var m, rest := mask[0], mask[1..];
    assert mask == [m] + rest;
    var tail := Render(table, rest, fill[1..]);
    assert Render(table, mask, fill) == [fill[0]] + tail;
    assert fill[0] in fill;
    assert ' ' !in fill[1..] by {
      forall x | x in fill[1..] ensures x != ' ' { assert x in fill; }
    }
    RenderNextSlot(table, rest, fill[1..], c);
    NextMaskKeyCons(table, fill[0], tail, m, rest);
    var k := NextMaskKey(table, tail, rest).value;
    ReplaceAtCons(fill[0], tail, c, k);
    assert (fill + [c])[1..] == fill[1..] + [c];
    assert (fill + [c])[0] == fill[0];
  }

  /** RenderNextSlot when the mask starts with a literal. */
  lemma {:induction false} RenderNextSlotLiteral(table: Table, mask: string, fill: string, c: char)
    requires ' ' !in fill
    requires |fill| < |Tokens(table, mask)|
    requires 0 < |mask| && !IsToken(table, mask[0])
    ensures NextMaskKey(table, Render(table, mask, fill), mask).Some?
    ensures var k := NextMaskKey(table, Render(table, mask, fill), mask).value;
            && TokenAt(table, mask, k)
            && ClassAt(table, mask, k) == Tokens(table, mask)[|fill|]
            && ReplaceAt(Render(table, mask, fill), c, k) == Render(table, mask, fill + [c])
    decreases |mask|, 0
  {
    var m, rest := mask[0], mask[1..];
    assert mask == [m] + rest;
    var tail := Render(table, rest, fill);
    assert Render(table, mask, fill) == [m] + tail;
    RenderNextSlot(table, rest, fill, c);
    NextMaskKeyCons(table, m, tail, m, rest);
    var k := NextMaskKey(table, tail, rest).value;
    ReplaceAtCons(m, tail, c, k);
  }

  /** A rendered buffer with every token filled (and no fill blank) has no blank slot. */
  lemma {:induction false} RenderFull(table: Table, mask: string, fill: string)
    requires ' ' !in fill
    requires |Tokens(table, mask)| <= |fill|
    ensures NextMaskKey(table, Render(table, mask, fill), mask).None?
    decreases |mask|
  {
    if |mask| > 0 {
      var m, rest := mask[0], mask[1..];
      assert mask == [m] + rest;
      if IsToken(table, m) {
        assert fill[0] in fill;
        assert ' ' !in fill[1..] by {
          forall x | x in fill[1..] ensures x != ' ' { assert x in fill; }
        }
        RenderFull(table, rest, fill[1..]);
        NextMaskKeyCons(table, fill[0], Render(table, rest, fill[1..]), m, rest);
      } else {
        RenderFull(table, rest, fill);
        NextMaskKeyCons(table, m, Render(table, rest, fill), m, rest);
      }
    }
  }

  /**
    Unmasking a rendered buffer gives back the fill, followed by one blank
    for each wildcard slot left unfilled (a blank wildcard slot matches).
   */
  lemma {:induction false} UnmaskRender(table: Table, mask: string, fill: string)
    requires Fits(Tokens(table, mask), fill)
    ensures UnmaskTransform(table, Render(table, mask, fill), mask) == fill + Padding(Tokens(table, mask)[|fill|..])
    decreases |mask|
  {
    if |mask| > 0 {
      var m, rest := mask[0], mask[1..];
      var toks, toks' := Tokens(table, mask), Tokens(table, rest);
      var fill' := if IsToken(table, m) && |fill| > 0 then fill[1..] else fill;
      var r := Render(table, mask, fill);
      assert r[1..] == Render(table, rest, fill');
      if IsToken(table, m) {
        assert toks == [ClassOf(table, m).value] + toks';
        assert Fits(toks', fill') by {
          if |fill| > 0 {
            forall k | 0 <= k < |fill'| ensures Accepts(toks'[k], fill'[k]) {
              assert Accepts(toks[k + 1], fill[k + 1]);
            }
          }
        }
      } else {
        assert toks == toks';
      }
      UnmaskRender(table, rest, fill');
      UnmaskRenderStep(table, mask, fill);
    }
  }

  /** One step of UnmaskRender: the head slot's contribution. */
  lemma UnmaskRenderStep(table: Table, mask: string, fill: string)
    requires |mask| > 0
    requires Fits(Tokens(table, mask), fill)
    requires var fill' := if IsToken(table, mask[0]) && |fill| > 0 then fill[1..] else fill;
             UnmaskTransform(table, Render(table, mask[1..], fill'), mask[1..])
               == fill' + Padding(Tokens(table, mask[1..])[|fill'|..])
    ensures UnmaskTransform(table, Render(table, mask, fill), mask) == fill + Padding(Tokens(table, mask)[|fill|..])
  {
    if !IsToken(table, mask[0]) {
      assert Tokens(table, mask) == Tokens(table, mask[1..]);
      UnmaskRenderLiteral(table, mask, fill);
    } else if |fill| > 0 {
      UnmaskRenderFilled(table, mask, fill);
    } else {
      UnmaskRenderBlank(table, mask);
    }
  }

  /** Unmasking reads the head of the buffer against the head of the mask, then goes on with the tails. */
  lemma UnmaskHead(table: Table, r: string, mask: string)
    requires 0 < |mask| && 0 < |r|
    ensures UnmaskTransform(table, r, mask)
            == (if IsToken(table, mask[0]) && Accepts(ClassOf(table, mask[0]).value, r[0]) then [r[0]] else [])
               + UnmaskTransform(table, r[1..], mask[1..])
  {
  }

  lemma UnmaskRenderLiteral(table: Table, mask: string, fill: string)
    requires |mask| > 0 && !IsToken(table, mask[0])
    requires |fill| <= |Tokens(table, mask[1..])|
    requires UnmaskTransform(table, Render(table, mask[1..], fill), mask[1..])
               == fill + Padding(Tokens(table, mask[1..])[|fill|..])
    ensures UnmaskTransform(table, Render(table, mask, fill), mask) == fill + Padding(Tokens(table, mask)[|fill|..])
  {
    assert Tokens(table, mask) == Tokens(table, mask[1..]);
    var r := Render(table, mask, fill);
    assert r == [mask[0]] + Render(table, mask[1..], fill);
    assert r[1..] == Render(table, mask[1..], fill);
    UnmaskHead(table, r, mask);
  }

  lemma UnmaskRenderFilled(table: Table, mask: string, fill: string)
    requires |mask| > 0 && IsToken(table, mask[0]) && |fill| > 0
    requires Fits(Tokens(table, mask), fill)
    requires UnmaskTransform(table, Render(table, mask[1..], fill[1..]), mask[1..])
               == fill[1..] + Padding(Tokens(table, mask[1..])[|fill| - 1..])
    ensures UnmaskTransform(table, Render(table, mask, fill), mask) == fill + Padding(Tokens(table, mask)[|fill|..])
  {
    var toks, toks' := Tokens(table, mask), Tokens(table, mask[1..]);
    var r := Render(table, mask, fill);
    var pad := Padding(toks'[|fill| - 1..]);
    assert r == [fill[0]] + Render(table, mask[1..], fill[1..]);
    assert r[1..] == Render(table, mask[1..], fill[1..]);
    assert toks == [ClassOf(table, mask[0]).value] + toks';
    assert Accepts(toks[0], fill[0]);
    UnmaskHead(table, r, mask);
    assert toks[|fill|..] == toks'[|fill| - 1..];
    calc {
      UnmaskTransform(table, r, mask);
      [fill[0]] + (fill[1..] + pad);
      ([fill[0]] + fill[1..]) + pad;
      { assert fill == [fill[0]] + fill[1..]; }
      fill + pad;
    }
  }

  lemma UnmaskRenderBlank(table: Table, mask: string)
    requires |mask| > 0 && IsToken(table, mask[0])
    requires UnmaskTransform(table, Render(table, mask[1..], []), mask[1..])
               == [] + Padding(Tokens(table, mask[1..])[0..])
    ensures UnmaskTransform(table, Render(table, mask, []), mask) == [] + Padding(Tokens(table, mask)[0..])
  {
    var cls := ClassOf(table, mask[0]).value;
    var toks, toks' := Tokens(table, mask), Tokens(table, mask[1..]);
    var r := Render(table, mask, []);
    assert r == [' '] + Render(table, mask[1..], []);
    assert r[1..] == Render(table, mask[1..], []);
    assert toks == [cls] + toks';
    BlankFitsOnlyAny(cls);
    UnmaskHead(table, r, mask);
    assert toks[0..] == [cls] + toks'[0..];
    PaddingCons(cls, toks'[0..]);
  }

  lemma PaddingCons(cls: Class, classes: seq<Class>)
    ensures Padding([cls] + classes) == (if cls == Any then [' '] else []) + Padding(classes)
  {
    assert ([cls] + classes)[1..] == classes;
  }

  /** Rendering a fill that fits the token classes (blanks allowed) gives a well-formed buffer. */
  lemma {:induction false} RenderWellFormed(table: Table, mask: string, fill: string)
    requires FitsOrBlank(Tokens(table, mask), fill)
    ensures WellFormed(table, mask, Render(table, mask, fill))
    decreases |mask|
  {
    if |mask| > 0 {
      var m, rest := mask[0], mask[1..];
      var toks, toks' := Tokens(table, mask), Tokens(table, rest);
      var r := Render(table, mask, fill);
      var fill' := if IsToken(table, m) && |fill| > 0 then fill[1..] else fill;
      assert r[1..] == Render(table, rest, fill');
      if IsToken(table, m) {
        assert toks == [ClassOf(table, m).value] + toks';
        assert FitsOrBlank(toks', fill') by {
          if |fill| > 0 {
            forall k | 0 <= k < |fill'| ensures fill'[k] == ' ' || Accepts(toks'[k], fill'[k]) {
              assert fill'[k] == fill[k + 1] && toks'[k] == toks[k + 1];
            }
          }
        }
      } else {
        assert toks == toks';
      }
      RenderWellFormed(table, rest, fill');
      forall i | 0 < i < |mask|
        ensures if IsToken(table, mask[i]) then r[i] == ' ' || Accepts(ClassOf(table, mask[i]).value, r[i])
                else r[i] == mask[i]
      {
        assert r[i] == r[1..][i - 1] && mask[i] == rest[i - 1];
      }
    }
  }
}
