/** Concrete runs of both engines on small masks. */
module Scenarios {
  import opened Wrappers
  import opened TokenTable
  import opened Engine
  import opened Layout
  import opened CurrentMask
  import LegacyMask

  /** Rendering one step at a time: a token slot takes the next character of the fill. */
  lemma RenderTokenCons(m: char, mask: string, d: char, fill: string)
    requires IsToken(Current, m)
    ensures Render(Current, [m] + mask, [d] + fill) == [d] + Render(Current, mask, fill)
  {
    assert ([m] + mask)[1..] == mask;
    assert ([d] + fill)[1..] == fill;
  }

  /** A token slot with nothing left to place is blank. */
  lemma RenderBlankCons(m: char, mask: string)
    requires IsToken(Current, m)
    ensures Render(Current, [m] + mask, []) == [' '] + Render(Current, mask, [])
  {
    assert ([m] + mask)[1..] == mask;
  }

  /** A literal of the mask is copied and consumes nothing. */
  lemma RenderLiteralCons(m: char, mask: string, fill: string)
    requires !IsToken(Current, m)
    ensures Render(Current, [m] + mask, fill) == [m] + Render(Current, mask, fill)
  {
    assert ([m] + mask)[1..] == mask;
  }

  lemma RenderPhoneTail()
    ensures Render(Current, "-NNN", "45") == "-45 "
  {
    RenderBlankCons('N', "");
    RenderTokenCons('N', "N", '5', "");
    RenderTokenCons('N', "NN", '4', "5");
    RenderLiteralCons('-', "NNN", "45");
  }

  lemma RenderPhone()
    ensures Render(Current, "NNN-NNN", "12345") == "123-45 "
  {
    RenderPhoneTail();
    RenderTokenCons('N', "-NNN", '3', "45");
    RenderTokenCons('N', "N-NNN", '2', "345");
    RenderTokenCons('N', "NN-NNN", '1', "2345");
  }

  lemma TokensPhone()
    ensures Tokens(Current, "NNN-NNN") == [Digit, Digit, Digit, Digit, Digit, Digit]
  {
    assert Tokens(Current, "NNN") == [Digit, Digit, Digit];
    assert Tokens(Current, "-NNN") == [Digit, Digit, Digit];
  }

  lemma DigitsHaveNoBlank()
    ensures NoSpaces("12345") == "12345"
  {
  }

  lemma DigitsFit()
    ensures Fits([Digit, Digit, Digit, Digit, Digit, Digit], "12345")
  {
  }

  lemma AcceptedPhone()
    ensures Accepted(Tokens(Current, "NNN-NNN"), NoSpaces("12345")) == "12345"
  {
    TokensPhone();
    DigitsHaveNoBlank();
    DigitsFit();
    AcceptedOfFitting([Digit, Digit, Digit, Digit, Digit, Digit], "12345");
  }

  /** Masking `12345` with `NNN-NNN` fills five slots and leaves the last one blank. */
  lemma MaskTransformScenario()
    ensures MaskTransform("12345", "NNN-NNN") == "123-45 "
  {
    MaskTransformFillOrder("12345", "NNN-NNN");
    AcceptedPhone();
    RenderPhone();
  }

  /** After that, a click puts the caret on the blank slot 6. */
  lemma ClickScenario(clicked: nat)
    ensures OnClickInput(Current, "123-45 ", "NNN-NNN", clicked) == 6
  {
    var v, m := "123-45 ", "NNN-NNN";
    assert BlankSlot(Current, v, m, 6);
    assert FirstBlank(Current, v, m, 6);
  }

  /**
    Backspace with the caret right after the literals `) ` of a full phone
    number clears the last digit of the whole number, not of the area code.
   */
  lemma BackspaceScenario()
    ensures OnRemoveCharFromMask(Current, "(123) 456-7890", "(NNN) NNN-NNNN", 6) == Edit("(123) 456-789 ", 13)
  {
    var v, m := "(123) 456-7890", "(NNN) NNN-NNNN";
    assert !TokenAt(Current, m, 5);
    assert FilledSlot(Current, v, m, 13);
    assert LastFilled(Current, v, m, 13);
    assert v[13 := ' '] == "(123) 456-789 ";
  }

  lemma UnmaskDay()
    ensures UnmaskTransform(Current, "31", "NN") == "31"
  {
    UnmaskHead(Current, "1", "N");
    UnmaskHead(Current, "31", "NN");
  }

  lemma UnmaskSlashDay()
    ensures UnmaskTransform(Current, "/31", "/NN") == "31"
  {
    UnmaskDay();
    UnmaskHead(Current, "/31", "/NN");
  }

  lemma UnmaskTwoDigits(d1: char, d2: char, t: string, m: string)
    requires '0' <= d1 <= '9' && '0' <= d2 <= '9'
    ensures UnmaskTransform(Current, [d1] + ([d2] + t), ['N'] + (['N'] + m)) == [d1, d2] + UnmaskTransform(Current, t, m)
  {
    assert ([d2] + t)[1..] == t && (['N'] + m)[1..] == m;
    assert ([d1] + ([d2] + t))[1..] == [d2] + t && (['N'] + (['N'] + m))[1..] == ['N'] + m;
    UnmaskHead(Current, [d2] + t, ['N'] + m);
    UnmaskHead(Current, [d1] + ([d2] + t), ['N'] + (['N'] + m));
  }

  lemma DateSplit()
    ensures "12/31" == ['1'] + (['2'] + "/31")
    ensures "NN/NN" == ['N'] + (['N'] + "/NN")
    ensures "1231" == ['1', '2'] + "31"
  {
  }

  /** Unmasking a date keeps the digits and drops the slash. */
  lemma UnmaskScenario()
    ensures UnmaskTransform(Current, "12/31", "NN/NN") == "1231"
  {
    UnmaskSlashDay();
    DateSplit();
    UnmaskTwoDigits('1', '2', "/31", "/NN");
  }

  lemma LegacyTokensXX()
    ensures Tokens(Legacy, "XX") == [Letter, Letter]
  {
    assert Tokens(Legacy, "X") == [Letter];
  }

  lemma LegacyAcceptedAD()
    ensures Accepted([Letter, Letter], "AD") == "AD"
  {
    assert Accepted([Letter], "D") == "D";
  }

  lemma LegacyRenderXX(a: char, b: char)
    ensures Render(Legacy, "XX", [a, b]) == [a, b]
  {
    assert Render(Legacy, "X", [b]) == [b];
  }

  /**
    The legacy transform loses a typed letter that is itself a token symbol
    when it lands in the last filled slot: `AD` into a two-letter mask comes
    out as `A ` (the corrected transform keeps `AD`).
   */
  lemma LegacyTrimLosesLastSymbol()
    ensures LegacyMask.MaskTransform(Some("AD"), None, "XX") == "A "
    ensures LegacyMask.MaskTransformFixed(Some("AD"), None, "XX") == "AD"
  {
    assert LegacyMask.SourceText(Some("AD"), None, "XX") == "AD";
    LegacyTokensXX();
    LegacyAcceptedAD();
    assert LegacyMask.BlankLast("AD") == "A ";
    LegacyRenderXX('A', ' ');
    LegacyRenderXX('A', 'D');
    LegacyMask.MaskTransformFillOrder(Some("AD"), None, "XX");
  }
}
