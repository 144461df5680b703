# v-mask masking engine in Dafny

This project models the masking engine of the v-mask Vue directive as pure
functions over strings, and proves properties of those functions.

A *mask* such as `(NNN) NNN-NNNN` mixes *token* symbols with literal
characters. A token is a placeholder for a character of some class. A
*masked buffer* is as long as its mask. Each literal position of a buffer
holds the mask's literal. Each token slot holds either the blank `' '` or a
character that the slot's class accepts.

The repository carries two successive versions of the engine:

- **`src/index.ts`** is the current version, with token table `N` digit,
  `S` letter, `A` alphanumeric and `X` any character. Its maskTransform
  blanks the token slots of the mask first. It then offers each character
  of the input to the first blank slot: the character is written there if
  that slot's class accepts it, and skipped otherwise.
- **`index.ts`** is the legacy version, with token table `D` digit, `X`
  letter, `A` alphanumeric and `*` any character. Its maskTransform writes
  the n-th accepted character over the n-th token symbol of the mask. It
  then blanks the token symbols from the last written slot onwards. It can
  also start from a masked value, which it unmasks first.

Both versions share the slot search, the key handlers (typing and
backspace), caret placement on click, `replaceAt` and `unmaskTransform`.
These are modelled once, in `Engine`, parameterised by the token table.
After a literal, backspace clears the last filled slot of the whole buffer,
not the slot just before the literal (src/index.ts:272-276); see
Scenarios.BackspaceScenario.

Files:

- `wrappers.dfy`: `Option` and `Result`.
- `tokens.dfy` (`TokenTable`): the token classes and both token tables.
  "Any" (`/.*/`) accepts every character, the blank included.
- `engine.dfy` (`Engine`): the shared helpers and the key handlers, over a
  `(buffer, caret)` pair.
- `layout.dfy` (`Layout`): a reference description of masked buffers.
  `Render(table, mask, fill)` is the buffer whose k-th token slot holds
  `fill[k]`, with blanks once `fill` runs out. `Accepted(classes, input)` is
  what a left-to-right scan assigns to a list of token classes.
- `current.dfy` (`CurrentMask`): the current maskTransform, VMaskFilter, the
  directive's configuration checks, and the keydown and blur/focus/click
  listeners reduced to their pure decisions.
- `legacy.dfy` (`LegacyMask`): the legacy maskTransform,
  getNextMaskKeyFromIndex, and the legacy parseint mask check.
- `scenarios.dfy` (`Scenarios`): concrete runs on small masks.

## Model

| member | source | states |
|---|---|---|
| TokenTable.CurrentBlankToken | src/index.ts:3-8 | Among the current tokens, only `X` accepts the blank, because `/.*/` matches it. |
| TokenTable.LegacyBlankToken | index.ts:1-6 | Among the legacy tokens, only `*` accepts the blank. |
| Engine.ReplaceAt | src/index.ts:285-289 | The substr splice keeps the length and every other position, and puts the character at the index. An index past the end appends. The same function is at index.ts:296-301. |
| Engine.TrimMaskedText | src/index.ts:183-192 | Position by position: from the start index onwards, a character that is itself a token symbol becomes the blank; everything else is kept. The length is kept. The same function is at index.ts:178-187. |
| Engine.NextMaskKey | src/index.ts:194-203 | Returns the left-most blank token slot, or None exactly when the buffer has no blank token slot. The same function is at index.ts:205-214. |
| Engine.LastMaskKey | src/index.ts:205-215 | Returns the right-most slot whose character matches its class (a blank wildcard slot counts), or None exactly when there is no such slot. The same function is at index.ts:216-226. |
| Engine.OnClickInput | src/index.ts:217-222 | Returns the first blank slot when it exists and is not 0; otherwise the clicked position, because of `index \|\| selectionIndex`. The same function is at index.ts:228-233. |
| Engine.OnKeyDown | src/index.ts:224-234 | Any key (backspace or a single character) keeps a well-formed buffer well-formed and keeps the caret inside the mask. The same function is at index.ts:235-245. |
| Engine.OnAddCharToMask | src/index.ts:236-257 | If the first blank slot accepts the key, that slot alone gets the key and the caret moves just past it, whatever the caret was; otherwise buffer and caret are unchanged. The same function is at index.ts:247-268. |
| Engine.OnRemoveCharFromMask | src/index.ts:259-283 | At caret 0, nothing happens. After a token, that slot is blanked and the caret steps back. After a literal, the last filled slot of the whole buffer is blanked and the caret moves there, or nothing happens when no slot is filled. At most one position changes (none when the slot was already blank). The same function is at index.ts:270-294. |
| Engine.UnmaskTransform | src/index.ts:291-306 | Keeps at most one character per token of the mask. The content is stated by Layout.UnmaskRender and Scenarios.UnmaskScenario. The same function is at index.ts:303-318. |
| Engine.TypingKeepsPrefixFilled | src/index.ts:236-257 | Typing into a well-formed buffer whose filled slots come first keeps the filled slots first. |
| Engine.UnmaskOfDigitMask | src/index.ts:297-304 | If every token of the mask is a digit token, unmasking yields only digits. |
| Layout.TrimIsEmptyRender | src/index.ts:167 | The starting buffer `trimMaskedText(mask, 0)` is the mask with exactly its token slots blanked. |
| Layout.UnmaskRender | src/index.ts:291-306 | Unmasking a buffer filled with `fill` gives back `fill`, followed by one blank for each unfilled wildcard slot. |
| Layout.RenderWellFormed | src/index.ts:165-181 | A fill whose characters are blank or accepted by their classes renders to a well-formed buffer: mask length, literals in place, each slot blank or valid. |
| CurrentMask.MaskTransform | src/index.ts:165-181 | The result has the mask's length, is well-formed, and has its filled slots before its blank ones. |
| CurrentMask.MaskTransformFillOrder | src/index.ts:165-181 | The k-th token slot holds the k-th character that a left-to-right scan of the input accepts. Rejected characters are skipped without using a slot. Blanks never fill a slot. The scan stops when the slots run out. The remaining slots are blank. |
| CurrentMask.UnmaskAfterMask | src/index.ts:291-306 | Unmasking the masked value gives the accepted characters, plus one blank per unfilled wildcard slot. |
| CurrentMask.MaskTransformIdempotent | src/index.ts:152-158 | Masking the unmasked form of a masked value reproduces that value, as the blur/focus/click listener assumes. |
| CurrentMask.VMaskFilter | src/index.ts:11-13 | The filter's output is well-formed and is a fixed point of unmasking followed by masking. |
| CurrentMask.TypingMatchesMasking | src/index.ts:168-179 | Typing a string key by key into the blanked mask, from any caret, gives the same buffer as maskTransform of that string. |
| CurrentMask.ValidateDirective | src/index.ts:32-59 | The binding is refused exactly when one of the checks fails, and with the error of the first check that fails. The checks, in order: no inner input on a non-native host; missing or empty mask; native host with unmask; native host with parseint; a parseint mask containing `A`, `X`, `S` or `*` (with unmask) or anything but `N` (without unmask). |
| CurrentMask.ParseIntSettingsYieldDigits | src/index.ts:49-59 | Once the parseint checks pass, an unmasked value holds only digits, and a masked buffer holds only digits and blanks. |
| CurrentMask.OnKeyDownEvent | src/index.ts:122-147 | Navigation keys pass through. Any other key is applied by Engine.OnKeyDown to the field text (re-masked first with parseint) at the reported caret, and the handler's result becomes the new text and caret. The field stays a well-formed buffer with the caret inside it. The emitted value is the text, its unmasked form, or `parseInt` of either, or the element itself for a native input. A NaN is emitted as the empty text. |
| CurrentMask.OnRefreshEvent | src/index.ts:149-161 | Blur, focus and click re-mask the field into a well-formed buffer whose filled slots come first. The new value is the render of what a left-to-right scan of the source text accepts. That text is the field text with unmask, and its unmasked form otherwise. Blur puts the caret at 0; focus and click use OnClickInput (src/index.ts:102-113). |
| CurrentMask.RefreshKeepsMaskedText | src/index.ts:149-161 | Without unmask, a field that already shows a masked value is left unchanged by blur, focus and click. |
| LegacyMask.NextMaskKeyFromIndex | index.ts:189-203 | Returns the position of the token numbered `count` in mask order (exactly `count` tokens precede it), or None when the mask has at most `count` tokens. |
| LegacyMask.NextMaskKeyFromIndexClass | index.ts:189-203 | The search succeeds exactly when the mask has more than `count` tokens, and the class found is the count-th token class. |
| LegacyMask.SourceText | index.ts:154-157 | A non-empty unmasked value is used as given. If neither value is given non-empty, the text is empty. |
| LegacyMask.MaskedValueInput | index.ts:154-157 | When the unmasked value is absent or empty, passing a masked value is the same as passing its unmasked form. |
| LegacyMask.LegacyFillOverlay | index.ts:161-174 | The fill loop writes the k-th accepted character over the k-th token symbol, and skips rejected characters without using a token. It stops when the tokens run out. The last-slot variable ends at the slot of the last character written. |
| LegacyMask.TrimOverlay | index.ts:175-187 | Trimming from the last written slot blanks every unfilled slot and keeps every literal and every earlier filled slot. It also blanks the last written character when that character is a token symbol. |
| LegacyMask.MaskTransform | index.ts:149-176 | The result has the mask's length and is a well-formed buffer. |
| LegacyMask.MaskTransformFillOrder | index.ts:149-176 | Token slot k holds the k-th character a left-to-right scan of the source text accepts, and slots past the scan are blank. The last accepted character is blanked when it is itself a token symbol. |
| LegacyMask.MaskTransformFixed | index.ts:175 | With the trim started just past the last written slot, the result holds every accepted character, with nothing lost. |
| LegacyMask.ParseIntCheck | index.ts:28-38 | With parseint and unmask, a mask containing `A`, `X` or `*` is refused. With parseint alone, a mask with any character other than `D` is refused. The refusal carries the source's error message. |
| LegacyMask.ParseIntYieldsDigits | index.ts:28-38 | Once the check passes, an unmasked value holds only digits, and a masked buffer holds only digits and blanks. |
| Scenarios.MaskTransformScenario | src/index.ts:165-181 | Masking `12345` with `NNN-NNN` gives `123-45 `. |
| Scenarios.ClickScenario | src/index.ts:217-222 | A click on `123-45 ` with mask `NNN-NNN` puts the caret at 6, wherever the click was. |
| Scenarios.BackspaceScenario | src/index.ts:271-276 | Backspace with the caret at 6 in `(123) 456-7890` clears position 13, the last digit of the number, not a digit of the area code. |
| Scenarios.UnmaskScenario | src/index.ts:291-306 | Unmasking `12/31` with `NN/NN` gives `1231`: the digits stay and the slash goes. |
| Scenarios.LegacyTrimLosesLastSymbol | index.ts:175 | The legacy transform turns `AD` into `A ` under mask `XX`, whereas the corrected transform keeps `AD`. |

## Left out

- Vue directive plumbing, element lookup, DOM writes and listener registration (src/index.ts:27-31, 60-87; index.ts:9-67): these are I/O. The validator takes only their boolean outcomes: whether the host is a native input, and whether it has an inner input.
- The `setTimeout` deferral of `refreshInput` (src/index.ts:114-118) is scheduling. The model applies the refresh at once.
- The caret the element reports after its value is written is a parameter of CurrentMask.OnRefreshEvent. It is not computed.
- JavaScript `parseInt` is a parameter `string -> Option<int>` of CurrentMask.OnKeyDownEvent, with None standing for NaN.
- Key names longer than one character (`Shift`, `F5`): `Key` is Backspace or a single character. The unanchored regular expressions would accept such a name, and `replaceAt` would splice in several characters.
- Non-string inputs, such as a number passed to maskTransform, are out of scope: every value is a string.
- The token regular expressions are modelled as ASCII predicates on `char`.
- A string here is a sequence of Unicode scalar values, while the source indexes and measures UTF-16 code units. A character outside the Basic Multilingual Plane is one `char` here and two code units in the source. With mask `XX` the source puts the two surrogate halves into the two slots; the model puts the whole character into the first slot and leaves the second blank.
- The legacy version's listeners and constructor (index.ts:49-146) are not modelled separately. Besides the token table and the args form of maskTransform, they differ from the current ones in two ways. The legacy keydown listener always emits the value, never the element (index.ts:127-128, against src/index.ts:143). The legacy constructor has no native-input flag (index.ts:50-56, against src/index.ts:77-84).
- The constructor's initial refresh (src/index.ts:85) is a plain maskTransform of the element's value.
- Engine.UnmaskTransform: its own contract only bounds the result length. What it returns is stated for rendered buffers (Layout.UnmaskRender) and for digit-only masks (Engine.UnmaskOfDigitMask), not for arbitrary text. Its optional `parseToInt` flag (src/index.ts:294 and 305, index.ts:306 and 317) is not a parameter here: the function always returns the text. The flag's only use, the keydown listener (src/index.ts:140), is modelled in CurrentMask.OnKeyDownEvent, which applies its `parseInt` parameter to the unmasked text.
- LegacyMask.MaskTransform: it does not promise that filled slots come first. A `*` slot may take a blank from the input, and that blank is followed by filled slots.
- Engine.OnKeyDown: the invariant is stated for a well-formed buffer and a caret inside the mask. For other inputs the handlers' contracts still hold, but the invariant is not claimed.

## Findings

| source | as written | input that shows it | evidently intended | confidence | as-written member | corrected member |
|---|---|---|---|---|---|---|
| index.ts:175 | After filling, the legacy maskTransform blanks token symbols starting at the last written slot itself. A character the user typed that equals a token symbol (`D`, `X`, `A`, `*`) is therefore erased when it is the last one written. | unmasked value `AD`, mask `XX` (two letter slots): the result is `A ` | Blank only the slots after the last written one (from 0 when nothing was written); the result `AD` keeps every accepted character | not executed; high | LegacyMask.MaskTransform (shown by Scenarios.LegacyTrimLosesLastSymbol) | LegacyMask.MaskTransformFixed |
