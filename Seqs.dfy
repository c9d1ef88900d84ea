/** Sequence helpers shared by the search: concatenating a list of lists. */
module Seqs {
  /** The lists of `xss`, one after the other (`pd.concat`, or nested appends). */
  function Flatten<T>(xss: seq<seq<T>>): seq<T> {
    if xss == [] then [] else Flatten(xss[..|xss| - 1]) + xss[|xss| - 1]
  }

  /** Flattening distributes over appending lists of lists. */
  lemma {:induction false} FlattenAppend<T>(xss: seq<seq<T>>, yss: seq<seq<T>>)
    ensures Flatten(xss + yss) == Flatten(xss) + Flatten(yss)
    decreases |yss|
  {
    if yss == [] {
      assert xss + yss == xss;
    } else {
      var n := |yss|;
      FlattenAppend(xss, yss[..n - 1]);
      assert (xss + yss)[..|xss + yss| - 1] == xss + yss[..n - 1];
      assert Flatten(xss + yss) == Flatten(xss + yss[..n - 1]) + yss[n - 1];
      assert Flatten(yss) == Flatten(yss[..n - 1]) + yss[n - 1];
    }
  }

  /** Flattening one more list appends it. */
  lemma FlattenStep<T>(xss: seq<seq<T>>, i: nat)
    requires i < |xss|
    ensures Flatten(xss[..i + 1]) == Flatten(xss[..i]) + xss[i]
  {
    assert xss[..i + 1][..i] == xss[..i];
  }

  /** Flattening lists that are all empty gives the empty list. */
  lemma {:induction false} FlattenEmpty<T>(xss: seq<seq<T>>)
    requires forall i :: 0 <= i < |xss| ==> xss[i] == []
    ensures Flatten(xss) == []
    decreases |xss|
  {
    if xss != [] {
      FlattenEmpty(xss[..|xss| - 1]);
    }
  }

  /** An element of the flattened list comes from one of the lists, and every element of every list is in it. */
  lemma {:induction false} FlattenMembers<T>(xss: seq<seq<T>>)
    ensures forall x :: x in Flatten(xss) <==> exists i :: 0 <= i < |xss| && x in xss[i]
    decreases |xss|
  {
    if xss != [] {
      var n := |xss|;
      FlattenMembers(xss[..n - 1]);
      forall x
        ensures x in Flatten(xss) <==> exists i :: 0 <= i < n && x in xss[i]
      {
        if x in Flatten(xss[..n - 1]) {
          var i :| 0 <= i < n - 1 && x in xss[..n - 1][i];
          assert x in xss[i];
        }
        if i :| 0 <= i < n && x in xss[i] {
          if i < n - 1 {
            assert x in xss[..n - 1][i];
          }
        }
      }
    }
  }
}
