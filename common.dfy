/** Vocabulary shared by the modules of the model: optional values,
    sequences without repetitions, flattening and reversal of sequences. */
module Common {

  /** A value that may be missing (pandas' NaN, Python's None, a raised error). */
  datatype Option<T> = None | Some(value: T)

  /** No element occurs twice. */
  predicate Distinct<T(==)>(s: seq<T>) {
    forall i, j :: 0 <= i < j < |s| ==> s[i] != s[j]
  }

  /** Concatenation of a sequence of sequences, in order. */
  function Flatten<T>(ss: seq<seq<T>>): seq<T> {
    if ss == [] then [] else ss[0] + Flatten(ss[1..])
  }

  lemma {:induction false} FlattenAppend<T>(a: seq<seq<T>>, b: seq<seq<T>>)
    ensures Flatten(a + b) == Flatten(a) + Flatten(b)
  {
    if a == [] {
      assert a + b == b;
    } else {
      assert (a + b)[1..] == a[1..] + b;
      FlattenAppend(a[1..], b);
    }
  }

  /** The `i`-th part of a flattened sequence is the slice of the whole that
      starts after the parts before it. */
  lemma FlattenSlice<T>(ss: seq<seq<T>>, i: nat)
    requires i < |ss|
    ensures var a := |Flatten(ss[..i])|;
      a + |ss[i]| <= |Flatten(ss)| && Flatten(ss)[a..a + |ss[i]|] == ss[i]
  {
    assert ss == ss[..i] + [ss[i]] + ss[i + 1..];
    FlattenAppend(ss[..i] + [ss[i]], ss[i + 1..]);
    FlattenAppend(ss[..i], [ss[i]]);
    assert Flatten([ss[i]]) == ss[i] + Flatten([]);
  }

  /** `s[::-1]`: the elements of `s` back to front. */
  function Reverse<T>(s: seq<T>): (r: seq<T>)
    ensures |r| == |s|
    ensures forall i :: 0 <= i < |s| ==> r[i] == s[|s| - 1 - i]
  {
    if s == [] then [] else Reverse(s[1..]) + [s[0]]
  }
}
