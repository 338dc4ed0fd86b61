/** Small pieces that several linked structures share. */
module Links {
  const NULL := -1   // no element, where the code has a null pointer

  /** A sequence without its `i`-th element. */
  function Drop<T>(s: seq<T>, i: nat): seq<T>
    requires i < |s|
  {
    s[..i] + s[i + 1..]
  }

  /** What the `i`-th element of a list that runs through `o` is linked to. */
  function Follower(o: seq<int>, i: int): int
    requires 0 <= i < |o|
  {
    if i + 1 < |o| then o[i + 1] else NULL
  }

  function Min(a: nat, b: nat): nat { if a < b then a else b }
}
