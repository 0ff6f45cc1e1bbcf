/** Sums and counts over a table of weights, where weight zero means "not in use". */
module Tally {
  function Sum(s: seq<nat>): nat {
    if s == [] then 0 else s[0] + Sum(s[1..])
  }

  function InUse(s: seq<nat>): nat {
    if s == [] then 0 else (if s[0] > 0 then 1 else 0) + InUse(s[1..])
  }

  lemma {:induction false} InUseAtMostSum(s: seq<nat>)
    ensures InUse(s) <= Sum(s) && InUse(s) <= |s|
  {
    if s != [] {
      InUseAtMostSum(s[1..]);
    }
  }

  lemma {:induction false} UpdateTally(s: seq<nat>, i: nat, w: nat)
    requires i < |s|
    ensures Sum(s[i := w]) + s[i] == Sum(s) + w
    ensures InUse(s[i := w]) + (if s[i] > 0 then 1 else 0) == InUse(s) + (if w > 0 then 1 else 0)
  {
    if i == 0 {
      assert s[i := w][1..] == s[1..];
    } else {
      UpdateTally(s[1..], i - 1, w);
      assert s[i := w][1..] == s[1..][i - 1 := w];
    }
  }

  lemma {:induction false} TallyOfZeros(n: nat)
    ensures Sum(seq(n, _ => 0)) == 0 && InUse(seq(n, _ => 0)) == 0
  {
    if n > 0 {
      TallyOfZeros(n - 1);
      assert seq(n, _ => 0)[1..] == seq(n - 1, _ => 0);
    }
  }
}
