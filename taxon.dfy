/**
 * The Taxon: a fixed-length bit vector (one surviving character per bit) with
 * content equality, the set ordering, Hamming distance, first-difference index,
 * single-bit flip and positional delete.
 *
 * The read-only operations are functions on the contents, `Bits`; the class
 * `Taxon` holds the buffer that `remove`, `flip` and the constructors update.
 */
module Taxa {
  import opened Wrappers
  import Seqs

  /** The contents of a Taxon: `internal[0 .. size)`. */
  type Bits = seq<bool>

  /** The exceptions Taxon throws. */
  datatype Error =
    | LogicError   // std::logic_error: length mismatch, position out of bounds
    | OutOfRange   // std::out_of_range: a bitstring character other than '0'/'1'

  /** `(size_t) -1`, what `difference` returns for equal contents. */
  const NPOS: nat := 0xFFFF_FFFF_FFFF_FFFF

  /**
   * The scanning loop shared by `difference`, `operator<` and `operator==`:
   * the first index at or after `i` where `a` and `b` differ, or `|a|` if none.
   */
  function Scan(a: Bits, b: Bits, i: nat): (r: nat)
    requires |a| == |b| && i <= |a|
    ensures i <= r <= |a|
    ensures forall k :: i <= k < r ==> a[k] == b[k]
    ensures r < |a| ==> a[r] != b[r]
    decreases |a| - i
  {
    if i == |a| || a[i] != b[i] then i else Scan(a, b, i + 1)
  }

  /** `d` is the smallest index at which `a` and `b` differ. */
  predicate IsFirstDifference(a: Bits, b: Bits, d: nat)
  {
    d < |a| && d < |b| && a[d] != b[d] && forall k :: 0 <= k < d ==> a[k] == b[k]
  }

  /** `operator==`: equal lengths and equal bits. */
  function Equal(a: Bits, b: Bits): (r: bool)
    ensures r <==> a == b
  {
    |a| == |b| && Scan(a, b, 0) == |a|
  }

  /**
   * `operator<`, the node-set order: false for different lengths; otherwise the
   * vector holding `true` at the first differing bit sorts first.
   */
  function Less(a: Bits, b: Bits): (r: bool)
    ensures r <==> |a| == |b| && exists d: nat :: IsFirstDifference(a, b, d) && a[d]
  {
    |a| == |b| && var d := Scan(a, b, 0); d < |a| && a[d]
  }

  /** `difference`: the first differing index, `NPOS` for equal contents, `logic_error` on a length mismatch. */
  function Difference(a: Bits, b: Bits): (r: Result<nat, Error>)
    ensures r.Err? <==> |a| != |b|
    ensures r.Err? ==> r.error == LogicError
    ensures r.Ok? && a == b ==> r.value == NPOS
    ensures r.Ok? && a != b ==> IsFirstDifference(a, b, r.value)
  {
    if |a| != |b| then Err(LogicError)
    else
      var d := Scan(a, b, 0);
      if d == |a| then Ok(NPOS) else Ok(d)
  }

  /** Number of differing positions among the first `|a|`, counted as `distance`'s loop does. */
  function Hamming(a: Bits, b: Bits): nat
    requires |a| == |b|
  {
    if |a| == 0 then 0
    else Hamming(a[..|a| - 1], b[..|b| - 1]) + (if a[|a| - 1] != b[|b| - 1] then 1 else 0)
  }

  /** The positions at which `a` and `b` differ. */
  ghost function DiffPositions(a: Bits, b: Bits): set<nat>
  {
    set i: nat | i < |a| && i < |b| && a[i] != b[i]
  }

  lemma {:induction false} HammingCountsDifferences(a: Bits, b: Bits)
    requires |a| == |b|
    ensures Hamming(a, b) == |DiffPositions(a, b)|
    decreases |a|
  {
    if |a| > 0 {
      var n := |a| - 1;
      var a', b' := a[..n], b[..n];
      HammingCountsDifferences(a', b');
      if a[n] != b[n] {
        assert DiffPositions(a, b) == DiffPositions(a', b') + {n};
        assert n !in DiffPositions(a', b');
      } else {
        assert DiffPositions(a, b) == DiffPositions(a', b');
      }
    }
  }

  /** `distance`: the Hamming distance, `logic_error` on a length mismatch. */
  function Distance(a: Bits, b: Bits): (r: Result<nat, Error>)
    ensures r.Err? <==> |a| != |b|
    ensures r.Err? ==> r.error == LogicError
    ensures r.Ok? ==> r.value == |DiffPositions(a, b)|
  {
    if |a| != |b| then Err(LogicError)
    else
      HammingCountsDifferences(a, b);
      Ok(Hamming(a, b))
  }

  /** `flip(pos)`: the same vector with bit `pos` toggled. */
  function Flipped(s: Bits, pos: nat): (r: Bits)
    requires pos < |s|
    ensures |r| == |s| && r[pos] == !s[pos]
    ensures forall i :: 0 <= i < |s| && i != pos ==> r[i] == s[i]
  {
    s[pos := !s[pos]]
  }

  /** A character the bitstring constructor accepts. */
  predicate IsBitChar(c: char)
  {
    c == '0' || c == '1'
  }

  /** The bitstring constructor's decoding: `'1'` is true, `'0'` false, anything else `out_of_range`. */
  function ParseBits(s: seq<char>): (r: Result<Bits, Error>)
    ensures r.Ok? <==> forall j :: 0 <= j < |s| ==> IsBitChar(s[j])
    ensures r.Err? ==> r.error == OutOfRange
    ensures r.Ok? ==> |r.value| == |s| && forall j :: 0 <= j < |s| ==> (r.value[j] <==> s[j] == '1')
  {
    if |s| == 0 then Ok([])
    else if !IsBitChar(s[0]) then Err(OutOfRange)
    else match ParseBits(s[1..])
      case Ok(rest) => Ok([s[0] == '1'] + rest)
      case Err(e) => Err(e)
  }

  /** `operator<<`: the vector as a string of `'0'` and `'1'`. */
  function Show(s: Bits): (r: string)
    ensures |r| == |s|
    ensures forall j :: 0 <= j < |s| ==> r[j] == if s[j] then '1' else '0'
  {
    if |s| == 0 then "" else Show(s[..|s| - 1]) + [if s[|s| - 1] then '1' else '0']
  }

  // ---------------------------------------------------------------------------
  // Properties of the read-only operations
  // ---------------------------------------------------------------------------

  /** Printing a vector and reading it back with the bitstring constructor gives the same vector. */
  lemma ShowParseRoundTrip(s: Bits)
    ensures ParseBits(Show(s)) == Ok(s)
  {
    var r := ParseBits(Show(s));
    assert r.Ok?;
    assert r.value == s;
  }

  /** `distance` is symmetric. */
  lemma DistanceSymmetric(a: Bits, b: Bits)
    ensures Distance(a, b) == Distance(b, a)
  {
    assert DiffPositions(a, b) == DiffPositions(b, a);
  }

  /** For equal lengths, `distance` is 0 exactly when `operator==` holds. */
  lemma DistanceZeroIffEqual(a: Bits, b: Bits)
    requires |a| == |b|
    ensures Distance(a, b) == Ok(0) <==> Equal(a, b)
  {
    if a != b {
      var d := Scan(a, b, 0);
      assert d in DiffPositions(a, b);
    } else {
      assert DiffPositions(a, b) == {};
    }
  }

  /** At distance 1, `difference` is the only position where the two vectors differ. */
  lemma DistanceOneDifference(a: Bits, b: Bits)
    requires Distance(a, b) == Ok(1)
    ensures Difference(a, b).Ok? && Difference(a, b).value < |a|
    ensures b == Flipped(a, Difference(a, b).value)
  {
    var ds := DiffPositions(a, b);
    var d :| d in ds;
    assert |ds - {d}| == 0;
    forall i | 0 <= i < |a| && i != d
      ensures a[i] == b[i]
    {
      assert i !in ds - {d};
    }
    assert IsFirstDifference(a, b, Difference(a, b).value);
  }

  /** A one-bit flip is at distance 1, and `difference` finds the flipped bit. */
  lemma FlipDistance(s: Bits, pos: nat)
    requires pos < |s|
    ensures Distance(s, Flipped(s, pos)) == Ok(1)
    ensures Difference(s, Flipped(s, pos)) == Ok(pos)
  {
    var t := Flipped(s, pos);
    assert DiffPositions(s, t) == {pos};
  }

  /** Flipping the same bit twice restores the original vector. */
  lemma FlipInvolution(s: Bits, pos: nat)
    requires pos < |s|
    ensures Flipped(Flipped(s, pos), pos) == s
  {
  }

  lemma LessIrreflexive(a: Bits)
    ensures !Less(a, a)
  {
  }

  /** Two vectors have one first difference, whichever is read first. */
  lemma FirstDifferenceUnique(a: Bits, b: Bits, d: nat, e: nat)
    requires IsFirstDifference(a, b, d) && IsFirstDifference(b, a, e)
    ensures d == e
  {
  }

  lemma LessAsymmetric(a: Bits, b: Bits)
    requires Less(a, b)
    ensures !Less(b, a)
  {
    var d: nat :| IsFirstDifference(a, b, d) && a[d];
    forall e: nat | IsFirstDifference(b, a, e)
      ensures !b[e]
    {
      FirstDifferenceUnique(a, b, d, e);
    }
  }

  lemma LessTransitive(a: Bits, b: Bits, c: Bits)
    requires Less(a, b) && Less(b, c)
    ensures Less(a, c)
  {
    var d: nat :| IsFirstDifference(a, b, d) && a[d];
    var e: nat :| IsFirstDifference(b, c, e) && b[e];
    if d < e {
      assert IsFirstDifference(a, c, d);
    } else if e < d {
      assert IsFirstDifference(a, c, e);
    } else {
      assert false;
    }
  }

  /** Two distinct vectors of equal length are comparable. */
  lemma LessTotal(a: Bits, b: Bits)
    requires |a| == |b| && a != b
    ensures Less(a, b) || Less(b, a)
  {
    var d := Scan(a, b, 0);
    assert d < |a|;
    assert IsFirstDifference(a, b, d) && IsFirstDifference(b, a, d);
  }

  /** For equal lengths, the order's equivalence (neither sorts first) is content equality. */
  lemma EquivalentIffEqual(a: Bits, b: Bits)
    requires |a| == |b|
    ensures (!Less(a, b) && !Less(b, a)) <==> Equal(a, b)
  {
    if a != b {
      LessTotal(a, b);
    }
  }

  /** Vectors of different lengths are never ordered and never equal. */
  lemma DifferentLengthsUnordered(a: Bits, b: Bits)
    requires |a| != |b|
    ensures !Less(a, b) && !Less(b, a) && !Equal(a, b)
  {
  }

  // ---------------------------------------------------------------------------
  // The buffer
  // ---------------------------------------------------------------------------

  /** The mutable bit vector: a heap buffer `internal` whose first `size` slots are the contents. */
  class Taxon {
    var internal: array<bool>
    var size: nat
    var Terminal: bool
    var Index: nat

    ghost predicate Valid()
      reads this
    {
      size <= internal.Length
    }

    /** The contents. */
    function Bits(): Bits
      reads this, internal
      requires Valid()
    {
      internal[..size]
    }

    /** `length()`. */
    function Length(): (r: nat)
      reads this, internal
      requires Valid()
      ensures r == |Bits()|
    {
      size
    }

    /** `Taxon(size_t n)`: an all-false vector of `n` bits, not terminal, index 0. */
    constructor Zero(n: nat)
      ensures Valid() && fresh(internal)
      ensures Bits() == seq(n, _ => false)
      ensures !Terminal && Index == 0
    {
      var a := new bool[n];
      for i := 0 to n
        invariant forall k :: 0 <= k < i ==> !a[k]
      {
        a[i] := false;
      }
      internal, size := a, n;
      Terminal, Index := false, 0;
    }

    /** The copy constructor: same bits, `Terminal` reset to false and `Index` to 0. */
    constructor Copy(other: Taxon)
      requires other.Valid()
      ensures Valid() && fresh(internal)
      ensures Bits() == other.Bits()
      ensures !Terminal && Index == 0
    {
      var a := new bool[other.size];
      for i := 0 to other.size
        invariant forall k :: 0 <= k < i ==> a[k] == other.internal[k]
      {
        a[i] := other.internal[i];
      }
      internal, size := a, other.size;
      Terminal, Index := false, 0;
    }

    /**
     * The bitstring constructor `Taxon(bitstring, len)`: decodes the first `len`
     * characters and marks the vector terminal, or throws `out_of_range`.
     */
    static method FromBitstring(bitstring: seq<char>, len: nat) returns (r: Result<Taxon, Error>)
      requires len <= |bitstring|
      ensures r.Ok? <==> ParseBits(bitstring[..len]).Ok?
      ensures r.Err? ==> r.error == OutOfRange
      ensures r.Ok? ==> fresh(r.value) && fresh(r.value.internal) && r.value.Valid()
      ensures r.Ok? ==> r.value.Bits() == ParseBits(bitstring[..len]).value
      ensures r.Ok? ==> r.value.Terminal && r.value.Index == 0
    {
      var t := new Taxon.Zero(len);
      for j := 0 to len
        invariant t.Valid() && t.size == len && fresh(t.internal)
        invariant !t.Terminal && t.Index == 0
        invariant forall k :: 0 <= k < j ==> IsBitChar(bitstring[k])
        invariant forall k :: 0 <= k < j ==> (t.internal[k] <==> bitstring[k] == '1')
      {
        if bitstring[j] == '1' {
          t.internal[j] := true;
        } else if bitstring[j] == '0' {
          t.internal[j] := false;
        } else {
          assert !IsBitChar(bitstring[..len][j]);
          return Err(OutOfRange);
        }
      }
      t.Terminal := true;
      var decoded := ParseBits(bitstring[..len]);
      assert decoded.Ok?;
      assert t.Bits() == decoded.value;
      return Ok(t);
    }

    /**
     * `remove(pos)`: deletes bit `pos` by shifting the tail of the buffer left by
     * one in place; `logic_error` when `pos >= size`. The buffer keeps its capacity.
     */
    method Remove(pos: nat) returns (r: Outcome<Error>)
      requires Valid()
      modifies this`size, internal
      ensures Valid() && internal == old(internal)
      ensures r == if pos < old(size) then Pass else Fail(LogicError)
      ensures r.Pass? ==> Bits() == Seqs.RemoveAt(old(Bits()), pos)
      ensures r.Fail? ==> Bits() == old(Bits())
      ensures Terminal == old(Terminal) && Index == old(Index)
    {
      if pos >= size {
        return Fail(LogicError);
      }
      ghost var before := Bits();
      var k := pos;
      while k < size - 1
        invariant Valid() && internal == old(internal) && size == old(size)
        invariant pos <= k <= size - 1
        invariant forall i :: 0 <= i < pos ==> internal[i] == old(internal[i])
        invariant forall i :: pos <= i < k ==> internal[i] == old(internal[i + 1])
        invariant forall i :: k <= i < size ==> internal[i] == old(internal[i])
      {
        internal[k] := internal[k + 1];
        k := k + 1;
      }
      size := size - 1;
      assert forall i :: 0 <= i < size ==> Bits()[i] == Seqs.RemoveAt(before, pos)[i];
      return Pass;
    }

    /** `flip(pos)`: toggles bit `pos`; there is no bounds check, so `pos < size` is the caller's duty. */
    method Flip(pos: nat)
      requires Valid() && pos < size
      modifies internal
      ensures Bits() == Flipped(old(Bits()), pos)
    {
      internal[pos] := !internal[pos];
    }
  }
}
