/** `Spaces.make` (`src/spaces.ts`), a second copy of `SpaceFactory.make` with its
    own loop; it is specified by the same `Repeat`. */
module Spaces {
  import SpaceFactory

  /** `make(length, char)` */
  method Make(length: int, ch: string) returns (r: string)
    ensures r == SpaceFactory.Repeat(ch, SpaceFactory.Count(length))
    ensures length <= 0 ==> r == ""
  {
    r := "";
    var i := 0;
    while i < length
      invariant 0 <= i <= SpaceFactory.Count(length)
      invariant r == SpaceFactory.Repeat(ch, i)
    {
      r := r + ch;
      i := i + 1;
    }
  }
}
