/** The facts about the kernel bitmap (lib/kernel/bitmap.c, which is not
    part of this model) that the free map and the buffer cache rely on:
    the number of set bits and the lowest clear bit. */
module Bitmap {
  /** Number of set bits. */
  function Count(bits: seq<bool>): (n: nat)
    ensures n <= |bits|
  {
    if bits == [] then 0 else (if bits[|bits| - 1] then 1 else 0) + Count(bits[..|bits| - 1])
  }

  lemma {:induction false} CountSet(bits: seq<bool>, i: nat, v: bool)
    requires i < |bits|
    ensures Count(bits[i := v]) == Count(bits) - (if bits[i] then 1 else 0) + (if v then 1 else 0)
    decreases |bits|
  {
    var n := |bits| - 1;
    if i < n {
      assert bits[i := v][..n] == bits[..n][i := v];
      CountSet(bits[..n], i, v);
    } else {
      assert bits[i := v][..n] == bits[..n];
    }
  }

  lemma {:induction false} CountAllClear(n: nat)
    ensures Count(seq(n, _ => false)) == 0
  {
    if n > 0 {
      assert seq(n, _ => false)[..n - 1] == seq(n - 1, _ => false);
      CountAllClear(n - 1);
    }
  }

  /** bitmap_scan_and_flip (b, 0, 1, false) looks for this bit: the lowest
      clear one, or -1 (BITMAP_ERROR) when every bit is set. */
  function FirstFree(bits: seq<bool>): (r: int)
    ensures -1 <= r < |bits|
    ensures r == -1 <==> forall j :: 0 <= j < |bits| ==> bits[j]
    ensures r >= 0 ==> !bits[r] && forall j :: 0 <= j < r ==> bits[j]
  {
    if bits == [] then -1
    else if !bits[0] then 0
    else var r := FirstFree(bits[1..]); if r == -1 then -1 else r + 1
  }

  /** While fewer bits are set than there are bits, some bit is clear. */
  lemma {:induction false} CountFreeExists(bits: seq<bool>)
    requires Count(bits) < |bits|
    ensures FirstFree(bits) >= 0
  {
    if FirstFree(bits) == -1 { AllSetCount(bits); }
  }

  lemma {:induction false} AllSetCount(bits: seq<bool>)
    requires forall j :: 0 <= j < |bits| ==> bits[j]
    ensures Count(bits) == |bits|
  {
    if bits != [] { AllSetCount(bits[..|bits| - 1]); }
  }

  lemma FirstFreeNone(bits: seq<bool>)
    requires FirstFree(bits) == -1
    ensures Count(bits) == |bits|
  {
    AllSetCount(bits);
  }

  lemma {:induction false} AllSetIff(bits: seq<bool>)
    ensures Count(bits) == |bits| <==> forall j :: 0 <= j < |bits| ==> bits[j]
  {
    if j :| 0 <= j < |bits| && !bits[j] {
      CountSet(bits, j, true);
    } else {
      AllSetCount(bits);
    }
  }

  lemma {:induction false} NoneSetIff(bits: seq<bool>)
    ensures Count(bits) == 0 <==> forall j :: 0 <= j < |bits| ==> !bits[j]
  {
    if j :| 0 <= j < |bits| && bits[j] {
      CountSet(bits, j, false);
    } else if bits != [] {
      NoneSetIff(bits[..|bits| - 1]);
    }
  }
}
