/**
  The helpers both versions of the masking engine share, parameterised by the
  token table: locating token slots, blanking placeholders, the key handlers
  over a (buffer, caret) pair, and positional unmasking.

  A masked buffer has the mask's length; a token slot holds the blank
  sentinel `' '` or a character, a literal position holds the mask's literal.
 */
module Engine {
  import opened Wrappers
  import opened TokenTable

  /** Position `i` of `mask` is a token; a position past the end never is. */
  predicate TokenAt(table: Table, mask: string, i: int) {
    0 <= i < |mask| && IsToken(table, mask[i])
  }

  /** The class of the token at position `i` of `mask`. */
  function ClassAt(table: Table, mask: string, i: int): Class
    requires TokenAt(table, mask, i)
  {
    ClassOf(table, mask[i]).value
  }

  /** `value[i]` exists, is the blank sentinel and sits at a token position. */
  predicate BlankSlot(table: Table, value: string, mask: string, i: int) {
    0 <= i < |value| && value[i] == ' ' && TokenAt(table, mask, i)
  }

  /**
    `value[i]` exists and matches the class of the token at position `i`. A
    blank wildcard slot counts, because the wildcard matches the blank.
   */
  predicate FilledSlot(table: Table, value: string, mask: string, i: int) {
    0 <= i < |value| && TokenAt(table, mask, i) && Accepts(ClassAt(table, mask, i), value[i])
  }

  /** `k` is the left-most blank slot of `value`. */
  predicate FirstBlank(table: Table, value: string, mask: string, k: int) {
    BlankSlot(table, value, mask, k) && forall j :: 0 <= j < k ==> !BlankSlot(table, value, mask, j)
  }

  /** `k` is the right-most filled slot of `value`. */
  predicate LastFilled(table: Table, value: string, mask: string, k: int) {
    FilledSlot(table, value, mask, k) && forall j :: k < j < |value| ==> !FilledSlot(table, value, mask, j)
  }

  /** The classes of the tokens of `mask`, in mask order. */
  function Tokens(table: Table, mask: string): (r: seq<Class>)
    ensures |r| <= |mask|
  {
    if |mask| == 0 then []
    else (if IsToken(table, mask[0]) then [ClassOf(table, mask[0]).value] else []) + Tokens(table, mask[1..])
  }

  /**
    A masked buffer: as long as the mask, every literal position holds the
    mask's literal and every token slot is blank or holds a character its
    class accepts.
   */
  predicate WellFormed(table: Table, mask: string, buf: string) {
    && |buf| == |mask|
    && forall i :: 0 <= i < |mask| ==>
         if IsToken(table, mask[i]) then buf[i] == ' ' || Accepts(ClassOf(table, mask[i]).value, buf[i])
         else buf[i] == mask[i]
  }

  /** No token slot is filled after a blank one: the filled slots are a prefix of the token slots. */
  predicate PrefixFilled(table: Table, mask: string, buf: string) {
    forall i, j :: 0 <= i < j < |buf| && BlankSlot(table, buf, mask, i) && TokenAt(table, mask, j) ==> buf[j] == ' '
  }

  /**
    `s` with the character at `index` replaced by `c`, built as
    `substr(0, index) + c + substr(index + 1)`: an index past the end appends.
   */
  function ReplaceAt(s: string, c: char, index: nat): (r: string)
    ensures |r| == if index < |s| then |s| else |s| + 1
    ensures forall j :: 0 <= j < |s| && j != index ==> r[j] == s[j]
    ensures r[if index < |s| then index else |s|] == c
  {
    if index < |s| then s[..index] + [c] + s[index + 1..] else s + [c]
  }

  /**
    `text` with every character from `start` on that is a token symbol
    replaced by the blank. The test is on the character of `text` itself,
    not on the mask.
   */
  function TrimMaskedText(table: Table, text: string, start: nat): (r: string)
    decreases |text| - start
    ensures |r| == |text|
    ensures forall i :: 0 <= i < |text| ==>
              r[i] == if start <= i && IsToken(table, text[i]) then ' ' else text[i]
  {
    if start >= |text| then text
    else if IsToken(table, text[start]) then TrimMaskedText(table, ReplaceAt(text, ' ', start), start + 1)
    else TrimMaskedText(table, text, start + 1)
  }

  /** The first blank slot at or after `from`. */
  function NextMaskKeyFrom(table: Table, value: string, mask: string, from: nat): (r: Option<nat>)
    decreases |value| - from
    ensures r.Some? ==>
              && from <= r.value
              && BlankSlot(table, value, mask, r.value)
              && forall j :: from <= j < r.value ==> !BlankSlot(table, value, mask, j)
    ensures r.None? ==> forall j :: from <= j < |value| ==> !BlankSlot(table, value, mask, j)
  {
    if from >= |value| then None
    else if BlankSlot(table, value, mask, from) then Some(from)
    else NextMaskKeyFrom(table, value, mask, from + 1)
  }

  /** The left-most blank slot of `value`, if any (getNextMaskKey in src/index.ts and index.ts). */
  function NextMaskKey(table: Table, value: string, mask: string): (r: Option<nat>)
    ensures r.Some? ==> FirstBlank(table, value, mask, r.value)
    ensures r.None? ==> forall j :: 0 <= j < |value| ==> !BlankSlot(table, value, mask, j)
  {
    NextMaskKeyFrom(table, value, mask, 0)
  }

  /** The right-most filled slot below `bound`. */
  function LastMaskKeyBelow(table: Table, value: string, mask: string, bound: nat): (r: Option<nat>)
    ensures r.Some? ==>
              && r.value < bound
              && FilledSlot(table, value, mask, r.value)
              && forall j :: r.value < j < bound ==> !FilledSlot(table, value, mask, j)
    ensures r.None? ==> forall j :: 0 <= j < bound ==> !FilledSlot(table, value, mask, j)
  {
    if bound == 0 then None
    else if FilledSlot(table, value, mask, bound - 1) then Some(bound - 1)
    else LastMaskKeyBelow(table, value, mask, bound - 1)
  }

  /** The right-most filled slot of `value`, if any (getLastMaskKey in src/index.ts and index.ts). */
  function LastMaskKey(table: Table, value: string, mask: string): (r: Option<nat>)
    ensures r.Some? ==> LastFilled(table, value, mask, r.value)
    ensures r.None? ==> forall j :: 0 <= j < |value| ==> !FilledSlot(table, value, mask, j)
  {
    LastMaskKeyBelow(table, value, mask, |value|)
  }

  /**
    Caret placement on click or focus: the first blank slot, unless there is
    none or it is slot 0, where `index || selectionIndex` falls back to the
    position clicked.
   */
  function OnClickInput(table: Table, value: string, mask: string, selectionIndex: nat): (r: nat)
    ensures if exists k :: 0 < k && FirstBlank(table, value, mask, k)
            then 0 < r && FirstBlank(table, value, mask, r)
            else r == selectionIndex
  {
    match NextMaskKey(table, value, mask)
    case Some(k) => if k != 0 then k else selectionIndex
    case None => selectionIndex
  }

  /** A buffer together with a caret position. */
  datatype Edit = Edit(value: string, selectionIndex: nat)

  /** A key press: Backspace, or a key whose name is a single character. */
  datatype Key = Backspace | Typed(c: char)

  /**
    Typing `key`: it goes into the first blank slot when that slot's class
    accepts it, and the caret moves just past that slot; the caret the user
    had plays no part. Otherwise nothing changes.
   */
  function OnAddCharToMask(table: Table, value: string, mask: string, selectionIndex: nat, key: char): (r: Edit)
    ensures if exists k :: FirstBlank(table, value, mask, k) && Accepts(ClassAt(table, mask, k), key)
            then
              && 0 < r.selectionIndex
              && FirstBlank(table, value, mask, r.selectionIndex - 1)
              && Accepts(ClassAt(table, mask, r.selectionIndex - 1), key)
              && r.value == value[r.selectionIndex - 1 := key]
            else r == Edit(value, selectionIndex)
  {
    match NextMaskKey(table, value, mask)
    case Some(k) =>
      if Accepts(ClassOf(table, mask[k]).value, key) then Edit(ReplaceAt(value, key, k), k + 1)
      else Edit(value, selectionIndex)
    case None => Edit(value, selectionIndex)
  }

  /**
    Backspace. At caret 0 nothing happens. When the mask position before the
    caret is a token, that position is blanked and the caret steps back.
    Otherwise (a literal before the caret) the right-most filled slot of the
    whole buffer is blanked and the caret moves there, or nothing happens
    when no slot is filled.
   */
  function OnRemoveCharFromMask(table: Table, value: string, mask: string, selectionIndex: nat): (r: Edit)
    ensures selectionIndex == 0 ==> r == Edit(value, 0)
    ensures 0 < selectionIndex && TokenAt(table, mask, selectionIndex - 1) ==>
              && r.selectionIndex == selectionIndex - 1
              && (selectionIndex <= |value| ==> r.value == value[selectionIndex - 1 := ' '])
              && (|value| < selectionIndex ==> r.value == value + [' '])
    ensures 0 < selectionIndex && !TokenAt(table, mask, selectionIndex - 1) ==>
              if exists k :: LastFilled(table, value, mask, k)
              then LastFilled(table, value, mask, r.selectionIndex) && r.value == value[r.selectionIndex := ' ']
              else r == Edit(value, selectionIndex)
  {
    if selectionIndex != 0 then
      if TokenAt(table, mask, selectionIndex - 1) then
        Edit(ReplaceAt(value, ' ', selectionIndex - 1), selectionIndex - 1)
      else
        match LastMaskKey(table, value, mask)
        case Some(k) => Edit(ReplaceAt(value, ' ', k), k)
        case None => Edit(value, selectionIndex)
    else Edit(value, selectionIndex)
  }

  /**
    The key dispatcher. On a well-formed buffer with the caret inside it,
    every key leaves a well-formed buffer and a caret inside it.
   */
  function OnKeyDown(table: Table, value: string, mask: string, selectionIndex: nat, key: Key): (r: Edit)
    ensures WellFormed(table, mask, value) && selectionIndex <= |mask| ==>
              WellFormed(table, mask, r.value) && r.selectionIndex <= |mask|
  {
    match key
    case Backspace => OnRemoveCharFromMask(table, value, mask, selectionIndex)
    case Typed(c) => OnAddCharToMask(table, value, mask, selectionIndex, c)
  }

  /**
    The characters of `text` at the token positions of `mask` whose class
    they match, in mask order. Literal positions never contribute, and a
    position past the end of `text` contributes nothing.
   */
  function UnmaskTransform(table: Table, text: string, mask: string): (r: string)
    decreases |mask|
    ensures |r| <= |Tokens(table, mask)|
  {
    if |mask| == 0 then []
    else
      (if 0 < |text| && IsToken(table, mask[0]) && Accepts(ClassOf(table, mask[0]).value, text[0]) then [text[0]] else [])
      + UnmaskTransform(table, if |text| == 0 then text else text[1..], mask[1..])
  }

  /** Typing keeps the filled slots of a well-formed buffer ahead of the blank ones. */
  lemma TypingKeepsPrefixFilled(table: Table, value: string, mask: string, selectionIndex: nat, key: char)
    ensures WellFormed(table, mask, value) && PrefixFilled(table, mask, value) ==>
              PrefixFilled(table, mask, OnAddCharToMask(table, value, mask, selectionIndex, key).value)
  {
    var r := OnAddCharToMask(table, value, mask, selectionIndex, key);
    if WellFormed(table, mask, value) && PrefixFilled(table, mask, value) && r.value != value {
      var k := r.selectionIndex - 1;
      forall i, j | 0 <= i < j < |r.value| && BlankSlot(table, r.value, mask, i) && TokenAt(table, mask, j)
        ensures r.value[j] == ' '
      {
        assert i != k;
        assert BlankSlot(table, value, mask, i);
        assert k < i;
      }
    }
  }

  /** Over a mask whose only tokens are digit tokens, unmasking yields digits only. */
  lemma {:induction false} UnmaskOfDigitMask(table: Table, text: string, mask: string)
    requires forall i :: 0 <= i < |mask| && IsToken(table, mask[i]) ==> ClassOf(table, mask[i]) == Some(Digit)
    ensures forall k :: 0 <= k < |UnmaskTransform(table, text, mask)| ==> IsDigit(UnmaskTransform(table, text, mask)[k])
    decreases |mask|
  {
    if |mask| > 0 {
      forall i | 0 <= i < |mask[1..]| && IsToken(table, mask[1..][i])
        ensures ClassOf(table, mask[1..][i]) == Some(Digit)
      {
        assert mask[1..][i] == mask[i + 1];
      }
      UnmaskOfDigitMask(table, if |text| == 0 then text else text[1..], mask[1..]);
    }
  }
}
