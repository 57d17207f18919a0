/** Concatenation of a sequence of strings, and where each part lands in it. */
module StringParts {

  /** The parts of `ps` joined in order, with nothing between them. */
  function Flatten(ps: seq<string>): (joined: string)
    decreases |ps|
  {
    if ps == [] then "" else Flatten(ps[..|ps| - 1]) + ps[|ps| - 1]
  }

  /** Flattening one more part appends that part. */
  lemma FlattenNext(ps: seq<string>, j: nat)
    requires j < |ps|
    ensures Flatten(ps[..j + 1]) == Flatten(ps[..j]) + ps[j]
  {
    assert ps[..j + 1][..j] == ps[..j];
  }

  /** Flattening a longer prefix only extends the result. */
  lemma {:induction false} FlattenGrows(ps: seq<string>, j: nat, k: nat)
    requires j <= k <= |ps|
    ensures Flatten(ps[..j]) <= Flatten(ps[..k])
    decreases k
  {
    if j < k {
      FlattenGrows(ps, j, k - 1);
      assert ps[..k][..k - 1] == ps[..k - 1];
      var a, b := Flatten(ps[..k - 1]), ps[k - 1];
      assert (a + b)[..|a|] == a;
    }
  }

  lemma AppendAssoc(x: string, y: string, z: string)
    ensures x + (y + z) == (x + y) + z
  {
  }

  /** A string that follows a known prefix inside `out` can be read back
      from `out` at the prefix's length. */
  lemma InfixAt(out: string, pre: string, x: string)
    requires pre + x <= out
    ensures |pre| + |x| <= |out| && out[|pre| .. |pre| + |x|] == x
  {
    assert out[|pre| .. |pre| + |x|] == (pre + x)[|pre|..];
  }

  /** Part `j` sits right after the flattened parts before it. */
  lemma FlattenPart(ps: seq<string>, j: nat)
    requires j < |ps|
    ensures Flatten(ps[..j]) + ps[j] <= Flatten(ps)
    ensures |Flatten(ps[..j])| + |ps[j]| <= |Flatten(ps)|
    ensures Flatten(ps)[|Flatten(ps[..j])| .. |Flatten(ps[..j])| + |ps[j]|] == ps[j]
  {
    FlattenGrows(ps, j + 1, |ps|);
    assert ps[..j + 1][..j] == ps[..j];
    assert ps[..|ps|] == ps;
    InfixAt(Flatten(ps), Flatten(ps[..j]), ps[j]);
  }

  /** The length of the flattening is the sum of the parts' lengths. */
  function TotalLength(ps: seq<string>): (total: nat)
    decreases |ps|
  {
    if ps == [] then 0 else TotalLength(ps[..|ps| - 1]) + |ps[|ps| - 1]|
  }

  lemma {:induction false} FlattenLength(ps: seq<string>)
    ensures |Flatten(ps)| == TotalLength(ps)
    decreases |ps|
  {
    if ps != [] {
      FlattenLength(ps[..|ps| - 1]);
    }
  }

  /** Only empty parts flatten to the empty string. */
  lemma {:induction false} FlattenEmpty(ps: seq<string>)
    ensures Flatten(ps) == "" <==> forall i :: 0 <= i < |ps| ==> ps[i] == ""
    decreases |ps|
  {
    if ps != [] {
      var init := ps[..|ps| - 1];
      FlattenEmpty(init);
      assert forall i :: 0 <= i < |init| ==> init[i] == ps[i];
    }
  }
}
