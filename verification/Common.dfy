/** What several modules share. */
module Common {

  const TWO_64: nat := 0x1_0000_0000_0000_0000

  const HEX_DIGITS := "0123456789abcdef"

  const FIRST_HIGH: char := '\U{80}'

  predicate Ascii(s: string) {
    forall i :: 0 <= i < |s| ==> s[i] < FIRST_HIGH
  }

  function Take<T>(s: seq<T>, n: nat): seq<T> {
    if |s| <= n then s else s[..n]
  }

  /** What snprintf() or strscpy() leaves of a string in a buffer of size bytes, before the terminating NUL. */
  function Truncated(text: string, size: nat): string
    requires size > 0
  {
    Take(text, size - 1)
  }

  type Byte = b: nat | b < 0x100

  datatype Option<T> = None | Some(value: T) {
    predicate IsFailure() { None? }

    function PropagateFailure<U>(): Option<U>
      requires None?
    {
      None
    }

    function Extract(): T
      requires Some?
    {
      value
    }

    function GetOr(default: T): T {
      if Some? then value else default
    }
  }

  /** A JSON value as far as the server looks at it: a text, a number, or something else. */
  datatype Value = Text(text: string) | Number(number: real) | Other

  function Min(a: int, b: int): int {
    if a < b then a else b
  }
}
