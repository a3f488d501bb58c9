/** Small things every module shares. */
module Common {

  datatype Option<T> = None | Some(value: T)

  datatype Result<T> = Ok(value: T) | Err(message: string)

  function Min(x: int, y: int): int { if x <= y then x else y }
  function Max(x: int, y: int): int { if x >= y then x else y }

  predicate IsDigit(c: char) { '0' <= c <= '9' }

  function DigitValue(c: char): (n: nat)
    requires IsDigit(c)
    ensures n < 10
  {
    c as int - '0' as int
  }

  function DigitChar(n: nat): (c: char)
    requires n < 10
    ensures IsDigit(c) && DigitValue(c) == n
  {
    ('0' as int + n) as char
  }

  /** Upper case, within ASCII. */
  function UpperChar(c: char): char
  {
    if 'a' <= c <= 'z' then (c as int - 32) as char else c
  }

  /** The twenty-six small letters go to their capitals, and every other character to itself. */
  lemma UpperExactly(c: char, k: nat)
    requires k < 26
    ensures UpperChar(('a' as int + k) as char) == ('A' as int + k) as char
    ensures !('a' <= c <= 'z') ==> UpperChar(c) == c
  {
  }
}
