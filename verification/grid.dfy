/** Rectangular pixel arrays as values: what an `array2` holds at one moment. */
module Grid {

  type Image<T> = seq<seq<T>>

  ghost predicate Sized<T>(g: Image<T>, w: nat, h: nat) {
    |g| == h && forall y :: 0 <= y < h ==> |g[y]| == w
  }

  /** The rows of `a`, top to bottom. */
  ghost function View<T>(a: array2<T>): (g: Image<T>)
    reads a
    ensures Sized(g, a.Length1, a.Length0)
    ensures forall y, x :: 0 <= y < a.Length0 && 0 <= x < a.Length1 ==> g[y][x] == a[y, x]
  {
    seq(a.Length0, y requires 0 <= y < a.Length0 reads a =>
      seq(a.Length1, x requires 0 <= x < a.Length1 reads a => a[y, x]))
  }

  /** Two images of one size with the same pixels are the same image. */
  lemma SameImage<T>(f: Image<T>, g: Image<T>, w: nat, h: nat)
    requires Sized(f, w, h) && Sized(g, w, h)
    requires forall y, x :: 0 <= y < h && 0 <= x < w ==> f[y][x] == g[y][x]
    ensures f == g
  {
    forall y | 0 <= y < h
      ensures f[y] == g[y]
    {
    }
  }

  /** Copies an array out as a value. */
  method ToImage<T>(a: array2<T>) returns (g: Image<T>)
    ensures g == View(a)
  {
    g := [];
    for y := 0 to a.Length0
      invariant g == View(a)[..y]
    {
      var row := [];
      for x := 0 to a.Length1
        invariant row == View(a)[y][..x]
      {
        row := row + [a[y, x]];
      }
      assert row == View(a)[y];
      g := g + [row];
    }
  }
}
