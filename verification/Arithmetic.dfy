/** Products and quotients of variables, in the small steps the other modules need. */
module Arithmetic {

  lemma MulMono(a: int, b: int, c: nat)
    requires a <= b
    ensures a * c <= b * c
  {
  }

  lemma NextBlock(b: int, c: int, W: nat)
    requires b < c
    ensures b * W + W <= c * W
  {
    MulMono(b + 1, c, W);
  }

  lemma DivOf(b: nat, W: nat, w: nat)
    requires w < W
    ensures (b * W + w) / W == b && (b * W + w) % W == w
  {
    var x := b * W + w;
    assert x == (x / W) * W + x % W;
    var d := x / W - b;
    assert d * W == (x / W) * W - b * W;
    if d >= 1 { MulMono(1, d, W); }
    if d <= -1 { MulMono(d, -1, W); }
  }

  lemma Split(W: nat, t: nat, total: nat)
    requires W > 0 && t < total * W
    ensures t / W < total && t % W < W && t == (t / W) * W + t % W
  {
    if t / W >= total { MulMono(total, t / W, W); }
  }

  lemma Distribute(a: nat, q: nat, r: nat, L: nat)
    ensures (a * q + r) * L == a * (q * L) + r * L
  {
  }
}
