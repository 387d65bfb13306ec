/** `SpaceFactory.make` (`src/SpaceFactory.ts`): a string built by a counting loop. */
module SpaceFactory {

  /** `c` written `n` times in a row. */
  function Repeat(c: string, n: nat): (r: string)
    ensures |r| == n * |c|
  {
    if n == 0 then "" else Repeat(c, n - 1) + c
  }

  /** How often `for (let i = 0; i < length; i++)` runs its body. */
  function Count(length: int): nat {
    if length > 0 then length else 0
  }

  /** `make(length, char)`: `char` appended once per loop turn; nothing for a
      length of zero or less. */
  method Make(length: int, ch: string) returns (r: string)
    ensures r == Repeat(ch, Count(length))
    ensures length <= 0 ==> r == ""
  {
    r := "";
    var i := 0;
    while i < length
      invariant 0 <= i <= Count(length)
      invariant r == Repeat(ch, i)
    {
      r := r + ch;
      i := i + 1;
    }
  }

  /** `make(length)` with the default character: `length` spaces. */
  method MakeSpaces(length: int) returns (r: string)
    ensures |r| == Count(length)
    ensures forall i :: 0 <= i < |r| ==> r[i] == ' '
  {
    r := Make(length, " ");
    RepeatSingle(' ', Count(length));
  }

  /** Repeating a one-character string gives only that character. */
  lemma {:induction false} RepeatSingle(c: char, n: nat)
    ensures forall i :: 0 <= i < |Repeat([c], n)| ==> Repeat([c], n)[i] == c
  {
    if n > 0 {
      RepeatSingle(c, n - 1);
    }
  }

  /** `make(a + b, c) == make(a, c) + make(b, c)` for non-negative lengths. */
  lemma {:induction false} RepeatAdd(c: string, a: nat, b: nat)
    ensures Repeat(c, a + b) == Repeat(c, a) + Repeat(c, b)
    decreases b
  {
    if b > 0 {
      RepeatAdd(c, a, b - 1);
    }
  }
}
