/**
  The token tables of the two versions of the masking engine. A mask character
  is a token when its table maps it to a character class; every other
  character is a literal. Each class is an ASCII test on a single character,
  standing for its regular expression in MASK_TOKEN_PATTERN (src/index.ts for
  the current version, index.ts for the legacy one).
 */
module TokenTable {
  import opened Wrappers

  /** The character classes a token can stand for. */
  datatype Class =
    | Digit   // /[0-9]/
    | Letter  // /[a-z]|[A-Z]/
    | Alnum   // /[0-9]|[a-z]|[A-Z]/
    | Any     // /.*/, which matches every string, the blank included

  /** The current table (`N S A X`) and the older one (`D X A *`). */
  datatype Table = Current | Legacy

  predicate IsDigit(c: char) {
    '0' <= c <= '9'
  }

  predicate IsLetter(c: char) {
    'a' <= c <= 'z' || 'A' <= c <= 'Z'
  }

  /** Whether the class's pattern matches the one-character string `c`. */
  predicate Accepts(cls: Class, c: char) {
    match cls
    case Digit => IsDigit(c)
    case Letter => IsLetter(c)
    case Alnum => IsDigit(c) || IsLetter(c)
    case Any => true
  }

  /** The class a mask character stands for, or None for a literal. */
  function ClassOf(table: Table, c: char): Option<Class> {
    match table
    case Current =>
      if c == 'N' then Some(Digit)
      else if c == 'S' then Some(Letter)
      else if c == 'A' then Some(Alnum)
      else if c == 'X' then Some(Any)
      else None
    case Legacy =>
      if c == 'D' then Some(Digit)
      else if c == 'X' then Some(Letter)
      else if c == 'A' then Some(Alnum)
      else if c == '*' then Some(Any)
      else None
  }

  predicate IsToken(table: Table, c: char) {
    ClassOf(table, c).Some?
  }

  /** The blank sentinel satisfies exactly the wildcard class. */
  lemma BlankFitsOnlyAny(cls: Class)
    ensures Accepts(cls, ' ') <==> cls == Any
  {
  }

  /** In the current table the only token whose slot a blank satisfies is `X`. */
  lemma CurrentBlankToken(c: char)
    ensures IsToken(Current, c) && Accepts(ClassOf(Current, c).value, ' ') <==> c == 'X'
  {
  }

  /** In the older table the only token whose slot a blank satisfies is `*`. */
  lemma LegacyBlankToken(c: char)
    ensures IsToken(Legacy, c) && Accepts(ClassOf(Legacy, c).value, ' ') <==> c == '*'
  {
  }
}
