/** Failure-carrying results: the model's stand-in for C++ exceptions. */
module Wrappers {

  /** The value an operation computes, or the error it throws. */
  datatype Result<T, E> = Ok(value: T) | Err(error: E)

  /** Success of an operation that computes nothing, or the error it throws. */
  datatype Outcome<E> = Pass | Fail(error: E)

  /** The outcome of an operation whose only result is its success. */
  function Verdict<T, E>(res: Result<T, E>): (r: Outcome<E>)
    ensures r.Pass? <==> res.Ok?
    ensures r.Fail? ==> r.error == res.error
  {
    if res.Ok? then Pass else Fail(res.error)
  }
}

/** Sequence helpers shared by the bit vector and the partition table. */
module Seqs {

  /** `s` with the element at `pos` deleted: `vector::erase` at an iterator, `Taxon::remove`. */
  function RemoveAt<T>(s: seq<T>, pos: nat): (r: seq<T>)
    requires pos < |s|
    ensures |r| == |s| - 1
    ensures forall i :: 0 <= i < pos ==> r[i] == s[i]
    ensures forall i :: pos <= i < |r| ==> r[i] == s[i + 1]
  {
    s[..pos] + s[pos + 1..]
  }

  /** Sum of a sequence of counters. */
  function Sum(s: seq<nat>): nat
  {
    if |s| == 0 then 0 else Sum(s[..|s| - 1]) + s[|s| - 1]
  }

  lemma {:induction false} SumIncrement(s: seq<nat>, i: nat)
    requires i < |s|
    ensures Sum(s[i := s[i] + 1]) == Sum(s) + 1
    decreases |s|
  {
    var t := s[i := s[i] + 1];
    if i < |s| - 1 {
      assert t[..|t| - 1] == s[..|s| - 1][i := s[i] + 1];
      SumIncrement(s[..|s| - 1], i);
    } else {
      assert t[..|t| - 1] == s[..|s| - 1];
    }
  }

  lemma {:induction false} SumRemoveAt(s: seq<nat>, i: nat)
    requires i < |s|
    ensures Sum(RemoveAt(s, i)) + s[i] == Sum(s)
    decreases |s|
  {
    var r := RemoveAt(s, i);
    if i == |s| - 1 {
      assert r == s[..|s| - 1];
    } else {
      var s' := s[..|s| - 1];
      assert r[..|r| - 1] == RemoveAt(s', i);
      assert r[|r| - 1] == s[|s| - 1];
      SumRemoveAt(s', i);
    }
  }
}
