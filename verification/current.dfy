/**
  The current version of the masking engine (src/index.ts), over the token
  table `N` digit, `S` letter, `A` alphanumeric, `X` anything.
 */
module CurrentMask {
  import opened Wrappers
  import opened TokenTable
  import opened Engine
  import opened Layout

  /**
    The fill loop of maskTransform: each character of `text` in turn is
    written into the first blank slot of `buf` when that slot's class
    accepts it, and skipped otherwise; the loop stops once no blank slot is
    left. Filling keeps a buffer well-formed with its filled slots first.
   */
  function FillBlanks(mask: string, buf: string, text: string): (r: string)
    decreases |text|
    ensures WellFormed(Current, mask, buf) ==> WellFormed(Current, mask, r)
    ensures WellFormed(Current, mask, buf) && PrefixFilled(Current, mask, buf) ==> PrefixFilled(Current, mask, r)
  {
    if |text| == 0 then buf
    else
      match NextMaskKey(Current, buf, mask)
      case None => buf
      case Some(k) =>
        if Accepts(ClassOf(Current, mask[k]).value, text[0]) then
          TypingKeepsPrefixFilled(Current, buf, mask, 0, text[0]);
          FillBlanks(mask, ReplaceAt(buf, text[0], k), text[1..])
        else FillBlanks(mask, buf, text[1..])
  }

  /**
    maskTransform: the blanked mask, filled from `value`. The result is a
    well-formed buffer whose filled slots come first.
   */
  function MaskTransform(value: string, mask: string): (r: string)
    ensures |r| == |mask|
    ensures WellFormed(Current, mask, r)
    ensures PrefixFilled(Current, mask, r)
  {
    FillBlanks(mask, TrimMaskedText(Current, mask, 0), value)
  }

  /** VMaskFilter: masks a value for display; its output is a fixed point of unmasking then masking. */
  function VMaskFilter(value: string, mask: string): (r: string)
    ensures WellFormed(Current, mask, r)
    ensures MaskTransform(UnmaskTransform(Current, r, mask), mask) == r
  {
    MaskTransformIdempotent(value, mask);
    MaskTransform(value, mask)
  }

  /**
    Filling a rendered buffer from `x` extends its fill by the characters a
    left-to-right scan assigns to the remaining token classes. Blanks in `x`
    never fill a slot: a blank is either rejected or written over a blank.
   */
  lemma {:induction false} FillBlanksRender(mask: string, fill: string, x: string)
    requires ' ' !in fill
    requires |fill| <= |Tokens(Current, mask)|
    ensures FillBlanks(mask, Render(Current, mask, fill), x)
            == Render(Current, mask, fill + Accepted(Tokens(Current, mask)[|fill|..], NoSpaces(x)))
    decreases |x|
  {
    var toks := Tokens(Current, mask);
    var rest := toks[|fill|..];
    var buf := Render(Current, mask, fill);
    if |x| == 0 {
      assert NoSpaces(x) == [];
      assert fill + [] == fill;
    } else if |fill| == |toks| {
      RenderFull(Current, mask, fill);
      assert FillBlanks(mask, buf, x) == buf;
      assert rest == [];
      assert fill + [] == fill;
    } else {
      var c := x[0];
      RenderNextSlot(Current, mask, fill, c);
      var k := NextMaskKey(Current, buf, mask).value;
      var cls := ClassAt(Current, mask, k);
      assert cls == rest[0];
      if Accepts(cls, c) {
        assert FillBlanks(mask, buf, x) == FillBlanks(mask, Render(Current, mask, fill + [c]), x[1..]);
        if c == ' ' {
          RenderBlankTail(Current, mask, fill);
          FillBlanksRender(mask, fill, x[1..]);
          NoSpacesUnfold(x);
          assert NoSpaces(x) == [] + NoSpaces(x[1..]) == NoSpaces(x[1..]);
        } else {
          FillBlanksRenderTaken(mask, fill, x);
        }
      } else {
        assert FillBlanks(mask, buf, x) == FillBlanks(mask, buf, x[1..]);
        FillBlanksRender(mask, fill, x[1..]);
        AcceptedSkips(rest, x);
      }
    }
  }

  /** The step of FillBlanksRender where the next slot takes the input's head. */
  lemma {:induction false} FillBlanksRenderTaken(mask: string, fill: string, x: string)
    requires ' ' !in fill
    requires |fill| < |Tokens(Current, mask)|
    requires 0 < |x| && x[0] != ' ' && Accepts(Tokens(Current, mask)[|fill|], x[0])
    requires FillBlanks(mask, Render(Current, mask, fill), x) == FillBlanks(mask, Render(Current, mask, fill + [x[0]]), x[1..])
    ensures FillBlanks(mask, Render(Current, mask, fill), x)
            == Render(Current, mask, fill + Accepted(Tokens(Current, mask)[|fill|..], NoSpaces(x)))
    decreases |x|, 0
  {
    var c := x[0];
    NoBlankAppend(fill, c);
    TakenShift(Tokens(Current, mask), fill, x);
    FillBlanksRender(mask, fill + [c], x[1..]);
  }

  /** The scan after a taken (non-blank) head continues one class further on. */
  lemma TakenShift(toks: seq<Class>, fill: string, x: string)
    requires |fill| < |toks| && 0 < |x| && x[0] != ' ' && Accepts(toks[|fill|], x[0])
    ensures fill + Accepted(toks[|fill|..], NoSpaces(x))
            == (fill + [x[0]]) + Accepted(toks[|fill + [x[0]]|..], NoSpaces(x[1..]))
  {
    var rest := toks[|fill|..];
    var c := x[0];
    var n := NoSpaces(x[1..]);
    var fill' := fill + [c];
    var b := Accepted(rest[1..], n);
    NoSpacesUnfold(x);
    AcceptedTakes(rest, c, n);
    assert toks[|fill'|..] == rest[1..];
    ConcatAssoc(fill, [c], b);
  }

  lemma NoBlankAppend(fill: string, c: char)
    requires ' ' !in fill && c != ' '
    ensures ' ' !in fill + [c]
  {
    forall y | y in fill + [c] ensures y != ' ' { if y != c { assert y in fill; } }
  }

  /** A class that accepts the head of the input takes it. */
  lemma AcceptedTakes(classes: seq<Class>, c: char, n: string)
    requires 0 < |classes| && Accepts(classes[0], c)
    ensures Accepted(classes, [c] + n) == [c] + Accepted(classes[1..], n)
  {
    assert ([c] + n)[1..] == n;
  }

  /** A class that rejects the head of the input skips it. */
  lemma AcceptedSkips(classes: seq<Class>, x: string)
    requires 0 < |classes| && 0 < |x| && !Accepts(classes[0], x[0])
    ensures Accepted(classes, NoSpaces(x)) == Accepted(classes, NoSpaces(x[1..]))
  {
    var n := NoSpaces(x[1..]);
    if x[0] != ' ' {
      assert NoSpaces(x) == [x[0]] + n;
      assert ([x[0]] + n)[1..] == n;
    } else {
      assert NoSpaces(x) == n;
    }
  }

  /**
    Fill order: the k-th token slot of the result holds the k-th character a
    left-to-right scan of the input (blanks removed) assigns to it; the
    slots left over are blank.
   */
  lemma MaskTransformFillOrder(value: string, mask: string)
    ensures MaskTransform(value, mask) == Render(Current, mask, Accepted(Tokens(Current, mask), NoSpaces(value)))
  {
    var toks := Tokens(Current, mask);
    var empty: string := [];
    var fill := Accepted(toks, NoSpaces(value));
    TrimIsEmptyRender(Current, mask);
    assert MaskTransform(value, mask) == FillBlanks(mask, Render(Current, mask, empty), value);
    FillBlanksRender(mask, empty, value);
    assert toks[|empty|..] == toks;
    assert empty + fill == fill;
  }

  /**
    Unmasking a masked value gives the accepted characters, followed by a
    blank for each wildcard slot left unfilled.
   */
  lemma UnmaskAfterMask(value: string, mask: string)
    ensures var fill := Accepted(Tokens(Current, mask), NoSpaces(value));
            UnmaskTransform(Current, MaskTransform(value, mask), mask)
              == fill + Padding(Tokens(Current, mask)[|fill|..])
  {
    MaskTransformFillOrder(value, mask);
    UnmaskRender(Current, mask, Accepted(Tokens(Current, mask), NoSpaces(value)));
  }

  /** Masking what unmasking a masked value gives reproduces the masked value. */
  lemma MaskTransformIdempotent(value: string, mask: string)
    ensures MaskTransform(UnmaskTransform(Current, MaskTransform(value, mask), mask), mask) == MaskTransform(value, mask)
  {
    var toks := Tokens(Current, mask);
    var fill := Accepted(toks, NoSpaces(value));
    var pad := Padding(toks[|fill|..]);
    UnmaskAfterMask(value, mask);
    assert ' ' !in fill by {
      forall y | y in fill ensures y != ' ' {
        var k :| 0 <= k < |fill| && fill[k] == y;
        assert fill[k] in NoSpaces(value);
      }
    }
    NoSpacesAppend(fill, pad);
    NoSpacesOfBlanks(pad);
    assert NoSpaces(fill + pad) == fill;
    AcceptedOfFitting(toks, fill);
    MaskTransformFillOrder(fill + pad, mask);
    MaskTransformFillOrder(value, mask);
  }

  /** The typing state machine run over a sequence of keys. */
  function TypeKeys(mask: string, e: Edit, keys: string): Edit
    decreases |keys|
  {
    if |keys| == 0 then e
    else TypeKeys(mask, OnAddCharToMask(Current, e.value, mask, e.selectionIndex, keys[0]), keys[1..])
  }

  /** Typing into a buffer with no blank slot changes nothing. */
  lemma {:induction false} TypeKeysWhenFull(mask: string, e: Edit, keys: string)
    requires NextMaskKey(Current, e.value, mask).None?
    ensures TypeKeys(mask, e, keys).value == e.value
    decreases |keys|
  {
    if |keys| > 0 {
      TypeKeysWhenFull(mask, OnAddCharToMask(Current, e.value, mask, e.selectionIndex, keys[0]), keys[1..]);
    }
  }

  /** Filling a buffer from a text is typing the text's characters one after the other. */
  lemma {:induction false} FillBlanksIsTyping(mask: string, e: Edit, keys: string)
    ensures TypeKeys(mask, e, keys).value == FillBlanks(mask, e.value, keys)
    decreases |keys|
  {
    if |keys| > 0 {
      var next := OnAddCharToMask(Current, e.value, mask, e.selectionIndex, keys[0]);
      match NextMaskKey(Current, e.value, mask)
      case None =>
        TypeKeysWhenFull(mask, e, keys);
      case Some(k) =>
        FillBlanksIsTyping(mask, next, keys[1..]);
    }
  }

  /**
    Masking a text gives the same buffer as typing its characters one by one
    into the blanked mask, whatever the caret.
   */
  lemma TypingMatchesMasking(mask: string, caret: nat, keys: string)
    ensures TypeKeys(mask, Edit(TrimMaskedText(Current, mask, 0), caret), keys).value == MaskTransform(keys, mask)
  {
    FillBlanksIsTyping(mask, Edit(TrimMaskedText(Current, mask, 0), caret), keys);
  }

  /** A bound field: its mask, whether the host is a native input, and the two modifiers. */
  datatype Settings = Settings(mask: string, native: bool, unmask: bool, parseint: bool)

  /** Why the directive refuses to bind. */
  datatype DirectiveError = NoInnerInput | MissingMask | NativeUnmask | NativeParseInt | InvalidParseIntMask

  /**
    The mask test of the parseint modifier: together with unmask the mask
    may not contain `A`, `X`, `S` or `*`; alone, it may contain nothing but `N`.
   */
  predicate ParseIntMaskAllowed(mask: string, unmask: bool) {
    if unmask then forall i :: 0 <= i < |mask| ==> mask[i] !in "AXS*"
    else forall i :: 0 <= i < |mask| ==> mask[i] == 'N'
  }

  /**
    The checks the directive makes when it binds, in order: a host that is
    not a native input needs an inner input; a mask must be given (an empty
    one counts as missing); a native input takes neither unmask nor
    parseint; parseint needs a mask that passes ParseIntMaskAllowed.
   */
  function ValidateDirective(native: bool, hasInnerInput: bool, mask: Option<string>, unmask: bool, parseint: bool)
    : (r: Result<Settings, DirectiveError>)
    ensures r.Success? <==>
              && (native || hasInnerInput)
              && mask.Some? && mask.value != ""
              && !(native && unmask) && !(native && parseint)
              && (parseint ==> ParseIntMaskAllowed(mask.value, unmask))
    ensures r.Success? ==> r.value == Settings(mask.value, native, unmask, parseint)
    ensures r == Failure(NoInnerInput) <==> !native && !hasInnerInput
    ensures r == Failure(MissingMask) <==> (native || hasInnerInput) && (mask.None? || mask.value == "")
    ensures r == Failure(NativeUnmask) <==>
              (native || hasInnerInput) && mask.Some? && mask.value != "" && native && unmask
    ensures r == Failure(NativeParseInt) <==>
              (native || hasInnerInput) && mask.Some? && mask.value != "" && native && !unmask && parseint
    ensures r == Failure(InvalidParseIntMask) <==>
              && (native || hasInnerInput) && mask.Some? && mask.value != "" && !native
              && parseint && !ParseIntMaskAllowed(mask.value, unmask)
  {
    if !native && !hasInnerInput then Failure(NoInnerInput)
    else if mask.None? || mask.value == "" then Failure(MissingMask)
    else if native && unmask then Failure(NativeUnmask)
    else if native && parseint then Failure(NativeParseInt)
    else if parseint && !ParseIntMaskAllowed(mask.value, unmask) then Failure(InvalidParseIntMask)
    else Success(Settings(mask.value, native, unmask, parseint))
  }

  /**
    What the parseint checks buy: with unmask, every unmasked value is a
    string of digits; without it, every masked buffer holds only digits and
    blanks.
   */
  lemma ParseIntSettingsYieldDigits(s: Settings, text: string, buf: string)
    requires s.parseint && ParseIntMaskAllowed(s.mask, s.unmask)
    ensures s.unmask ==> forall k :: 0 <= k < |UnmaskTransform(Current, text, s.mask)| ==>
                           IsDigit(UnmaskTransform(Current, text, s.mask)[k])
    ensures !s.unmask && WellFormed(Current, s.mask, buf) ==> forall i :: 0 <= i < |buf| ==> IsDigit(buf[i]) || buf[i] == ' '
  {
    if s.unmask {
      forall i | 0 <= i < |s.mask| && IsToken(Current, s.mask[i])
        ensures ClassOf(Current, s.mask[i]) == Some(Digit)
      {
        assert s.mask[i] !in "AXS*";
      }
      UnmaskOfDigitMask(Current, text, s.mask);
    }
  }

  /** What the field reports to its model after a key press; parseint's NaN is reported as the empty text. */
  datatype Emission = EmitText(text: string) | EmitNumber(n: int) | EmitElement

  /** A key event: one of the navigation keys the handler lets through, or a key it handles. */
  datatype KeyEvent = Navigation | Press(key: Key)

  datatype KeyDownOutcome = PassedThrough | Handled(text: string, selectionIndex: nat, emitted: Emission)

  /**
    The keydown listener. With parseint the field text is re-masked before
    the key is applied; the value reported is the buffer, its unmasked form
    with unmask, passed through `parseInt` with parseint (None standing for
    NaN), or the element itself for a native input. The field stays a
    well-formed buffer with the caret inside it.
   */
  function OnKeyDownEvent(s: Settings, fieldText: string, selectionStart: nat, ev: KeyEvent,
                          parseInt: string -> Option<int>): (r: KeyDownOutcome)
    ensures r.PassedThrough? <==> ev.Navigation?
    ensures r.Handled? ==>
              ev.Press? && Edit(r.text, r.selectionIndex)
                == OnKeyDown(Current, if s.parseint then MaskTransform(fieldText, s.mask) else fieldText, s.mask, selectionStart, ev.key)
    ensures r.Handled? && selectionStart <= |s.mask| && (s.parseint || WellFormed(Current, s.mask, fieldText)) ==>
              WellFormed(Current, s.mask, r.text) && r.selectionIndex <= |s.mask|
    ensures r.Handled? && !s.parseint ==>
              r.emitted == if s.native then EmitElement
                           else EmitText(if s.unmask then UnmaskTransform(Current, r.text, s.mask) else r.text)
    ensures r.Handled? && s.parseint ==>
              var n := parseInt(if s.unmask then UnmaskTransform(Current, r.text, s.mask) else r.text);
              r.emitted == if n.None? then EmitText("") else if s.native then EmitElement else EmitNumber(n.value)
  {
    match ev
    case Navigation => PassedThrough
    case Press(key) =>
      var value := if s.parseint then MaskTransform(fieldText, s.mask) else fieldText;
      var e := OnKeyDown(Current, value, s.mask, selectionStart, key);
      var text := e.value;
      var emitted :=
        if !s.parseint then
          if s.native then EmitElement
          else EmitText(if s.unmask then UnmaskTransform(Current, text, s.mask) else text)
        else
          match parseInt(if s.unmask then UnmaskTransform(Current, text, s.mask) else text)
          case Some(n) => if s.native then EmitElement else EmitNumber(n)
          case None => EmitText("");
      Handled(text, e.selectionIndex, emitted)
  }

  /** The events that re-mask the field. */
  datatype FieldEvent = Blur | Focus | Click

  /**
    The blur, focus and click listener: the field text (unmasked first,
    unless the unmask modifier is on) is masked again; on focus and click
    the caret goes where OnClickInput puts it, on blur to 0.
    `selectionStart` is the caret the element reports after the write.
   */
  function OnRefreshEvent(s: Settings, fieldText: string, ev: FieldEvent, selectionStart: nat): (r: Edit)
    ensures WellFormed(Current, s.mask, r.value) && PrefixFilled(Current, s.mask, r.value)
    ensures var source := if s.unmask then fieldText else UnmaskTransform(Current, fieldText, s.mask);
            r.value == Render(Current, s.mask, Accepted(Tokens(Current, s.mask), NoSpaces(source)))
    ensures ev.Blur? ==> r.selectionIndex == 0
    ensures !ev.Blur? ==> r.selectionIndex == OnClickInput(Current, r.value, s.mask, selectionStart)
    ensures selectionStart <= |s.mask| ==> r.selectionIndex <= |s.mask|
  {
    var source := if s.unmask then fieldText else UnmaskTransform(Current, fieldText, s.mask);
    var text := MaskTransform(source, s.mask);
    MaskTransformFillOrder(source, s.mask);
    Edit(text, if ev.Blur? then 0 else OnClickInput(Current, text, s.mask, selectionStart))
  }

  /** Without unmask, a field already showing a masked value keeps it on blur, focus and click. */
  lemma RefreshKeepsMaskedText(s: Settings, x: string, ev: FieldEvent, selectionStart: nat)
    requires !s.unmask
    ensures OnRefreshEvent(s, MaskTransform(x, s.mask), ev, selectionStart).value == MaskTransform(x, s.mask)
  {
    MaskTransformIdempotent(x, s.mask);
  }
}
