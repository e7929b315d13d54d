/** Small things that several modules share. */
module Prelude {

  datatype Option<T> = None | Some(value: T)

  function Reverse<T>(s: seq<T>): (r: seq<T>)
    ensures |r| == |s| && forall i :: 0 <= i < |s| ==> r[i] == s[|s|-1-i]
  {
    seq(|s|, i requires 0 <= i < |s| => s[|s|-1-i])
  }

  /** Reversing twice changes nothing. */
  lemma ReverseReverse<T>(s: seq<T>)
    ensures Reverse(Reverse(s)) == s
  {
  }

  /** Different multiples of w are at least w apart. */
  lemma MultipleGap(a: nat, b: nat, w: nat)
    ensures a < b ==> b * w >= a * w + w
  {
    if a < b {
      var d: nat := b - a - 1;
      assert d * w >= 0;
      assert (a + 1 + d) * w == a * w + w + d * w;
    }
  }
}
