/** Canary bytes and the one specification that every checker refines: the least canary
    offset whose byte is not the fill, or INT_MAX when there is none. */
module Canary {

  type byte = bv8

  const FILL: byte := 0xC2
  const POISON_FILL_32B: bv32 := 0xC2C2_C2C2
  const POISON_FILL_LENGTH: nat := 4096
  const POISON_REGIONS: nat := 2

  /** The length of the whole canary of one linear buffer: front region and back region. */
  const CANARY_LENGTH: nat := POISON_REGIONS * POISON_FILL_LENGTH

  /** The "nothing found" value of every result slot. */
  const INT_MAX: nat := 0x7FFF_FFFF

  function Min(a: nat, b: nat): nat { if a < b then a else b }

  ghost predicate Intact(s: seq<byte>) {
    forall i | 0 <= i < |s| :: s[i] == FILL
  }

  ghost predicate IsFirstBad(s: seq<byte>, r: nat) {
    if r == INT_MAX then Intact(s)
    else r < |s| && s[r] != FILL && forall i | 0 <= i < r :: s[i] == FILL
  }

  /** The least index at or after i whose byte is not the fill. */
  function FirstBadFrom(s: seq<byte>, i: nat): (r: nat)
    requires i <= |s| <= INT_MAX
    ensures r == INT_MAX ==> forall k | i <= k < |s| :: s[k] == FILL
    ensures r != INT_MAX ==> i <= r < |s| && s[r] != FILL && forall k | i <= k < r :: s[k] == FILL
    decreases |s| - i
  {
    if i == |s| then INT_MAX else if s[i] != FILL then i else FirstBadFrom(s, i + 1)
  }

  function FirstBad(s: seq<byte>): (r: nat)
    requires |s| <= INT_MAX
    ensures IsFirstBad(s, r)
  {
    FirstBadFrom(s, 0)
  }

  lemma FirstBadUnique(s: seq<byte>, r: nat)
    requires |s| <= INT_MAX && IsFirstBad(s, r)
    ensures r == FirstBad(s)
  {
  }

  /** A two-region canary is checked region by region in the single-buffer path; this is the law
      that lets the halves be recombined. */
  lemma FirstBadConcat(front: seq<byte>, back: seq<byte>)
    requires |front| + |back| <= INT_MAX
    ensures FirstBad(front + back)
         == (var b := FirstBad(back); Min(FirstBad(front), if b < INT_MAX then b + |front| else INT_MAX))
  {
    var f, b := FirstBad(front), FirstBad(back);
    var r := Min(f, if b < INT_MAX then b + |front| else INT_MAX);
    var s := front + back;
    assert forall i | 0 <= i < |front| :: s[i] == front[i];
    assert forall i | 0 <= i < |back| :: s[|front| + i] == back[i];
    if r == INT_MAX {
      forall i | 0 <= i < |s| ensures s[i] == FILL {
        if i >= |front| { assert s[i] == back[i - |front|]; }
      }
    } else if r == f {
      assert s[r] != FILL;
    } else {
      assert s[r] == back[b];
      forall i | 0 <= i < r ensures s[i] == FILL {
        if i >= |front| { assert s[i] == back[i - |front|]; }
      }
    }
    FirstBadUnique(s, r);
  }

  // ----- 32-bit words: the device compares four bytes at a time -----

  function Word(b0: byte, b1: byte, b2: byte, b3: byte): bv32 {
    (b0 as bv32) | ((b1 as bv32) << 8) | ((b2 as bv32) << 16) | ((b3 as bv32) << 24)
  }

  /** A word reinterpreted as its four little-endian bytes. */
  function BytesOf(w: bv32): (b: seq<byte>)
    ensures |b| == 4
  {
    [(w & 0xFF) as byte, ((w >> 8) & 0xFF) as byte, ((w >> 16) & 0xFF) as byte, ((w >> 24) & 0xFF) as byte]
  }

  lemma WordIsPoison(b0: byte, b1: byte, b2: byte, b3: byte)
    ensures Word(b0, b1, b2, b3) == POISON_FILL_32B <==> b0 == FILL && b1 == FILL && b2 == FILL && b3 == FILL
  {
  }

  lemma XorBytes(b0: byte, b1: byte, b2: byte, b3: byte)
    ensures var x := BytesOf(POISON_FILL_32B ^ Word(b0, b1, b2, b3));
      (x[0] != 0 <==> b0 != FILL) && (x[1] != 0 <==> b1 != FILL) && (x[2] != 0 <==> b2 != FILL) && (x[3] != 0 <==> b3 != FILL)
  {
  }

  lemma XorIsZero(b0: byte, b1: byte, b2: byte, b3: byte)
    ensures POISON_FILL_32B ^ Word(b0, b1, b2, b3) == 0 <==> b0 == FILL && b1 == FILL && b2 == FILL && b3 == FILL
  {
  }
}
