/** Machine-level types shared by every model: bytes, words and a few character codes. */
module Machine {
  type byte = x: int | 0 <= x < 0x100
  type uint16 = x: int | 0 <= x < 0x1_0000
  type uint32 = x: int | 0 <= x < 0x1_0000_0000

  const NUL: byte := 0
  const NEWLINE: byte := 10
  const RETURN: byte := 13
  const SPACE: byte := 32

  /** A two's-complement reading of a 16-bit word, as `cmpw`/`jg` see it. */
  function Signed16(x: uint16): int {
    if x < 0x8000 then x else x - 0x1_0000
  }

  function Dec16(x: uint16): uint16 {
    (x + 0xFFFF) % 0x1_0000
  }

  function Min(a: int, b: int): int {
    if a <= b then a else b
  }

  ghost predicate Distinct<T>(s: seq<T>) {
    forall i, j :: 0 <= i < j < |s| ==> s[i] != s[j]
  }
}
