/** The show/hide flags of the share list on the create and decrypt pages. */
module Visibility {

  /** `Array(n).fill(false)`: every share hidden. */
  function Hidden(n: nat): (r: seq<bool>)
    ensures |r| == n
    ensures forall k :: 0 <= k < n ==> !r[k]
  {
    seq(n, k => false)
  }

  /** `toggleShareVisibility(index)`: `prev.map((show, i) => i === index ?
      !show : show)`. */
  function Toggle(show: seq<bool>, index: int): (r: seq<bool>)
    ensures |r| == |show|
    ensures 0 <= index < |show| ==> r[index] == !show[index]
    ensures forall k :: 0 <= k < |show| && k != index ==> r[k] == show[k]
  {
    seq(|show|, k requires 0 <= k < |show| => if k == index then !show[k] else show[k])
  }

  /** Toggling the same share twice restores the flags. */
  lemma {:induction false} ToggleTwice(show: seq<bool>, index: int)
    ensures Toggle(Toggle(show, index), index) == show
  {
    var once := Toggle(show, index);
    var twice := Toggle(once, index);
    forall k | 0 <= k < |show| ensures twice[k] == show[k] {
      if k == index {
        assert once[k] == !show[k];
      }
    }
  }

  /** Toggles of different shares commute. */
  lemma {:induction false} TogglesCommute(show: seq<bool>, i: int, j: int)
    ensures Toggle(Toggle(show, i), j) == Toggle(Toggle(show, j), i)
  {
    var a := Toggle(Toggle(show, i), j);
    var b := Toggle(Toggle(show, j), i);
    forall k | 0 <= k < |show| ensures a[k] == b[k] {
      assert Toggle(show, i)[k] == (if k == i then !show[k] else show[k]);
      assert Toggle(show, j)[k] == (if k == j then !show[k] else show[k]);
    }
  }
}
