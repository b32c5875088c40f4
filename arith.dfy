/** Facts about Euclidean division by a positive bucket width. */
module Arith {

  lemma MulGap(x: int, y: int, w: int)
    requires x > y && w > 0
    ensures x * w >= y * w + w
  {
    assert x * w - y * w == (x - y - 1) * w + w;
    assert (x - y - 1) * w >= 0;
  }

  lemma Split(a: int, w: int)
    requires w > 0
    ensures a == (a / w) * w + a % w && 0 <= a % w < w
  {
  }

  lemma DivUnique(a: int, w: int, q: int)
    requires w > 0 && q * w <= a < q * w + w
    ensures a / w == q
  {
    var d := a / w;
    Split(a, w);
    if d < q {
      MulGap(q, d, w);
    } else if d > q {
      MulGap(d, q, w);
    }
  }

  lemma DivMono(a: int, b: int, w: int)
    requires w > 0 && a <= b
    ensures a / w <= b / w
  {
    var da, db := a / w, b / w;
    Split(a, w);
    Split(b, w);
    if da > db {
      MulGap(da, db, w);
    }
  }

  lemma DivShift(a: int, w: int)
    requires w > 0
    ensures (a + w) / w == a / w + 1
  {
    Split(a, w);
    assert (a / w + 1) * w == (a / w) * w + w;
    DivUnique(a + w, w, a / w + 1);
  }

  lemma BucketBounds(t: int, w: int)
    requires w > 0
    ensures (t / w) * w <= t < (t / w) * w + w
  {
    Split(t, w);
  }

  lemma MulStrict(i: int, j: int, w: int)
    requires w > 0 && j < i
    ensures j * w < i * w
  {
    MulGap(i, j, w);
  }
}
