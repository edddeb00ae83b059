/** The grid of amounts that is quoted. */
module Volumes {
  import opened Types

  function Reversed<T>(s: seq<T>): (r: seq<T>)
    ensures |r| == |s|
    ensures forall k :: 0 <= k < |s| ==> r[k] == s[|s| - 1 - k]
  {
    if s == [] then [] else [s[|s| - 1]] + Reversed(s[..|s| - 1])
  }

  /** `count` amounts in descending order with one step between neighbours and down to zero, the largest
      less than `count` below the distance. The start of the range shifts nothing: it only shortens it. */
  method GetVolumes(from: U256, to: U256, count: U64) returns (volumes: seq<U256>)
    requires 0 < count < TWO_64 - 1
    ensures |volumes| == count
    ensures volumes[0] as int <= (to - from) % TWO_256 < volumes[0] as int + count
    ensures forall k :: 0 <= k < count - 1 ==> volumes[k] as int == volumes[k + 1] as int + volumes[count - 1] as int
    ensures forall k :: 0 <= k < count ==> volumes[k] <= (to - from) % TWO_256
  {
    var distance := (to - from) % TWO_256;
    var step := distance / count;
    StepsFit(distance, count);
    var ascending: seq<U256> := [];
    for i := 1 to count + 1
      invariant IsGrid(ascending, step, i - 1, distance)
    {
      var current := (0 + (step * i) % TWO_256) % TWO_256;
      NextStep(step, i, count, distance);
      ExtendGrid(ascending, step, i, distance);
      ascending := ascending + [current];
    }
    volumes := Reversed(ascending);
    ReversedGrid(ascending, step, count, distance);
  }

  /** The first `n` multiples of the step, none above the distance. */
  ghost predicate IsGrid(s: seq<U256>, step: nat, n: nat, distance: nat) {
    && |s| == n
    && (n > 0 ==> s[0] == step && s[n - 1] == step * n)
    && (forall k :: 0 <= k < n - 1 ==> s[k + 1] as int == s[k] as int + step)
    && (forall k :: 0 <= k < n ==> s[k] <= distance)
  }

  lemma ExtendGrid(s: seq<U256>, step: nat, i: nat, distance: nat)
    requires i > 0 && IsGrid(s, step, i - 1, distance) && step * i <= distance < TWO_256
    requires step * i == step * (i - 1) + step
    ensures IsGrid(s + [step * i], step, i, distance)
  {
    if i == 1 {
      assert step * 1 == step;
    }
  }

  lemma ReversedGrid(s: seq<U256>, step: nat, n: nat, distance: nat)
    requires n > 0 && IsGrid(s, step, n, distance)
    ensures var v := Reversed(s);
            && v[0] == step * n
            && (forall k :: 0 <= k < n - 1 ==> v[k] as int == v[k + 1] as int + v[n - 1] as int)
            && (forall k :: 0 <= k < n ==> v[k] <= distance)
  {
    var v := Reversed(s);
    forall k | 0 <= k < n - 1 ensures v[k] as int == v[k + 1] as int + v[n - 1] as int {
      var j := n - 2 - k;
      assert v[k] == s[j + 1] && v[k + 1] == s[j] && v[n - 1] == s[0];
    }
  }

  lemma NextStep(step: nat, i: nat, count: nat, distance: nat)
    requires 1 <= i <= count && step * count <= distance < TWO_256
    ensures (0 + (step * i) % TWO_256) % TWO_256 == step * i == step * (i - 1) + step
    ensures step * i <= distance
  {
    StepFits(step, i, count, distance);
  }

  lemma StepsFit(distance: nat, count: nat)
    requires count > 0
    ensures (distance / count) * count <= distance < (distance / count) * count + count
  {
  }

  lemma StepFits(step: nat, i: nat, count: nat, distance: nat)
    requires i <= count && step * count <= distance
    ensures step * i <= distance
  {
    assert step * i + step * (count - i) == step * count;
  }
}
