/** How many positions of a selection are marked. */
module Counting {
  import opened Cells

  function Tally(s: seq<bool>): (n: nat)
    ensures n <= |s|
  {
    if s == [] then 0 else Tally(s[..|s| - 1]) + Flag(s[|s| - 1])
  }

  lemma {:induction false} TallyConcat(s: seq<bool>, t: seq<bool>)
    ensures Tally(s + t) == Tally(s) + Tally(t)
  {
    if t == [] {
      assert s + t == s;
    } else {
      TallyConcat(s, t[..|t| - 1]);
      assert (s + t)[..|s + t| - 1] == s + t[..|t| - 1];
    }
  }

  lemma TallyAround(s: seq<bool>, i: nat)
    requires i < |s|
    ensures Tally(s) == Tally(s[..i]) + Flag(s[i]) + Tally(s[i + 1..])
  {
    TallyConcat(s[..i + 1], s[i + 1..]);
    assert s == s[..i + 1] + s[i + 1..] && s[..i + 1][..i] == s[..i];
  }

  lemma TallyUpdate(s: seq<bool>, i: nat, b: bool)
    requires i < |s|
    ensures Tally(s[i := b]) == Tally(s) - Flag(s[i]) + Flag(b)
  {
    var t := s[i := b];
    TallyAround(s, i);
    TallyAround(t, i);
    assert t[..i] == s[..i] && t[i + 1..] == s[i + 1..];
  }

  /** What comes first does not matter. */
  lemma TallySwap(s: seq<bool>, m: nat)
    requires m <= |s|
    ensures Tally(s[m..] + s[..m]) == Tally(s)
  {
    TallyConcat(s[m..], s[..m]);
    TallyConcat(s[..m], s[m..]);
    assert s == s[..m] + s[m..];
  }

  lemma {:induction false} NoneTallied(s: seq<bool>)
    ensures Tally(s) == 0 <==> forall i :: 0 <= i < |s| ==> !s[i]
  {
    if s == [] {
    } else {
      var n := |s| - 1;
      NoneTallied(s[..n]);
      assert (forall i :: 0 <= i < n ==> !s[i]) <==> (forall i :: 0 <= i < n ==> !s[..n][i]);
    }
  }

  lemma {:induction false} AllTallied(s: seq<bool>)
    ensures Tally(s) == |s| <==> forall i :: 0 <= i < |s| ==> s[i]
  {
    if s == [] {
    } else {
      var n := |s| - 1;
      AllTallied(s[..n]);
      assert (forall i :: 0 <= i < n ==> s[i]) <==> (forall i :: 0 <= i < n ==> s[..n][i]);
    }
  }

  lemma OneTallied(s: seq<bool>, x: nat)
    requires x < |s| && forall i :: 0 <= i < |s| ==> (s[i] <==> i == x)
    ensures Tally(s) == 1
  {
    NoneTallied(s[..x]);
    NoneTallied(s[x + 1..]);
    TallyAround(s, x);
  }
}
