/** Sequence helpers shared by the read paths. */
module Seqs {
  function Reverse<T>(s: seq<T>): (r: seq<T>)
    ensures |r| == |s|
    ensures forall i :: 0 <= i < |s| ==> r[i] == s[|s| - 1 - i]
  {
    seq(|s|, i requires 0 <= i < |s| => s[|s| - 1 - i])
  }

  lemma ReverseSnoc<T>(s: seq<T>, x: T)
    ensures Reverse(s + [x]) == [x] + Reverse(s)
  {
    var l := Reverse(s + [x]);
    var r := [x] + Reverse(s);
    assert |l| == |r|;
    forall i | 0 <= i < |l|
      ensures l[i] == r[i]
    {
      if i > 0 {
        assert r[i] == Reverse(s)[i - 1];
      }
    }
  }

  lemma ReversePrefix<T>(s: seq<T>, k: nat)
    requires k <= |s|
    ensures Reverse(s)[..k] == Reverse(s[|s| - k..])
  {
    var r := Reverse(s);
    var tail := s[|s| - k..];
    var rt := Reverse(tail);
    assert |r[..k]| == |rt|;
    forall i | 0 <= i < k
      ensures r[..k][i] == rt[i]
    {
      assert r[i] == s[|s| - 1 - i];
      assert rt[i] == tail[k - 1 - i];
    }
  }
}
