/**
 * The FASTA-to-bits converter: every nucleotide of a record becomes four
 * characters '0'/'1', and every record one output line of at least
 * `RECORD_LEN` nucleotides' worth of bits, padded with "0000".
 *
 * The header parser is pure (`find`/`substr` expressions, with the
 * `size_t`/`int` conversions written out); the line encoder and the record
 * loop of the converter are methods with loops, proved against the functions
 * `Encode` and `Render`.
 */
module ConvertFasta {
  import opened Wrappers

  /** `std::string::npos`, also what `find` returns when nothing is found. */
  const NPOS: nat := 0xFFFF_FFFF_FFFF_FFFF

  /** Records shorter than this many nucleotides are padded up to it (`len`). */
  const RECORD_LEN: nat := 16578

  /** The exception `substr` throws. */
  datatype Thrown = OutOfRange

  /** An integer converted to `size_t` (reduced modulo 2^64). */
  function SizeT(x: int): (r: nat)
    ensures r <= NPOS
    ensures 0 <= x <= NPOS ==> r == x
    ensures x < 0 && 0 <= x + NPOS ==> r == x + NPOS + 1
  {
    x % (NPOS + 1)
  }

  /** A `size_t` converted to a 32-bit `int` (two's complement wrap-around). */
  function Int32(x: nat): (r: int)
    ensures -0x8000_0000 <= r < 0x8000_0000
    ensures (r - x) % 0x1_0000_0000 == 0
  {
    var low := x % 0x1_0000_0000;
    if low < 0x8000_0000 then low else low - 0x1_0000_0000
  }

  /** `s.find(c, from)`: the first position at or after `from` holding `c`, or `NPOS`. */
  function Find(s: string, c: char, from: nat): (r: nat)
    ensures r == NPOS || (from <= r < |s| && s[r] == c)
    ensures forall k :: from <= k < |s| && k < r ==> s[k] != c
    decreases |s| - from
  {
    if from >= |s| then NPOS
    else if s[from] == c then from
    else Find(s, c, from + 1)
  }

  /** `s.substr(pos, n)`: at most `n` characters from `pos`; `out_of_range` past the end. */
  function Substr(s: string, pos: nat, n: nat): (r: Result<string, Thrown>)
    ensures r.Ok? <==> pos <= |s|
    ensures r.Ok? ==> pos + |r.value| <= |s| && r.value == s[pos..pos + |r.value|]
    ensures r.Ok? ==> |r.value| <= n && (|r.value| == n || pos + |r.value| == |s|)
  {
    if pos > |s| then Err(OutOfRange)
    else if n < |s| - pos then Ok(s[pos..pos + n])
    else Ok(s[pos..])
  }

  // ---------------------------------------------------------------------------
  // parse_identifier
  // ---------------------------------------------------------------------------

  /** The three fields of a header line `>id|num|... desc`. */
  datatype Identifier = Identifier(id: string, num: string, desc: string)

  /**
   * `parse_identifier`: `id` runs from position 1 up to the first '|', `num`
   * from there to the next '|', `desc` from after the first space to the end.
   */
  function ParseIdentifier(s: string): (r: Result<Identifier, Thrown>)
    ensures |s| == 0 ==> r.Err?
  {
    var i := BarOffset(s);
    var id := Substr(s, 1, SizeT(i));
    var num := NumOf(s, i);
    var desc := DescOf(s);
    if id.Err? then Err(id.error)
    else if num.Err? then Err(num.error)
    else if desc.Err? then Err(desc.error)
    else Ok(Identifier(id.value, num.value, desc.value))
  }

  /** `i`: the position of the first '|' minus one, as an `int`. */
  function BarOffset(s: string): int
  {
    Int32(SizeT(Find(s, '|', 0) - 1))
  }

  /** `num`: from `i + 2` up to the next '|'. */
  function NumOf(s: string, i: int): Result<string, Thrown>
  {
    Substr(s, SizeT(i + 2), SizeT(Find(s, '|', SizeT(i + 2)) - i - 2))
  }

  /** `desc`: from after the first space to the end. */
  function DescOf(s: string): Result<string, Thrown>
  {
    Substr(s, SizeT(Find(s, ' ', 0) + 1), NPOS)
  }

  /** The first occurrence of `c` at or after `from`, when the line has one at `p`. */
  lemma FindAt(s: string, c: char, from: nat, p: nat)
    requires from <= p < |s| < NPOS && s[p] == c && forall k :: from <= k < p ==> s[k] != c
    ensures Find(s, c, from) == p
  {
  }

  /** `Find` of a character the line does not hold from `from` on. */
  lemma FindNone(s: string, c: char, from: nat)
    requires |s| < NPOS && forall k :: from <= k < |s| ==> s[k] != c
    ensures Find(s, c, from) == NPOS
  {
  }

  /** With the first '|' at p > 0, `i` is p - 1. */
  lemma OffsetAt(s: string, p: nat)
    requires 0 < p < |s| < 0x8000_0000 && s[p] == '|' && forall k :: 0 <= k < p ==> s[k] != '|'
    ensures BarOffset(s) == p - 1
  {
    FindAt(s, '|', 0, p);
    assert SizeT(p - 1) == p - 1;
  }

  /** Without any '|', `i` is `(int) (npos - 1)`, which is -2. */
  lemma OffsetNone(s: string)
    requires |s| < 0x8000_0000 && forall k :: 0 <= k < |s| ==> s[k] != '|'
    ensures BarOffset(s) == -2
  {
    FindNone(s, '|', 0);
    assert SizeT(NPOS - 1) == NPOS - 1;
  }

  /** `desc` once the first space is at d (or there is none, d = |s|). */
  lemma DescAt(s: string, d: nat)
    requires d <= |s| < 0x8000_0000 && (d == |s| || s[d] == ' ') && forall k :: 0 <= k < d ==> s[k] != ' '
    ensures DescOf(s) == Ok(if d < |s| then s[d + 1..] else s)
  {
    if d < |s| {
      FindAt(s, ' ', 0, d);
      assert SizeT(d + 1) == d + 1;
    } else {
      FindNone(s, ' ', 0);
      assert SizeT(NPOS + 1) == 0;
    }
  }

  /** `num` after the first '|' at p, with the next '|' at q (or none, q = |s|). */
  lemma NumAt(s: string, p: nat, q: nat)
    requires 0 < p < q <= |s| < 0x8000_0000 && (q == |s| || s[q] == '|') && forall k :: p < k < q ==> s[k] != '|'
    ensures NumOf(s, p - 1) == Ok(s[p + 1..q])
  {
    assert SizeT(p + 1) == p + 1;
    if q < |s| {
      FindAt(s, '|', p + 1, q);
      assert SizeT(q - (p - 1) - 2) == q - p - 1;
    } else {
      FindNone(s, '|', p + 1);
      assert SizeT(NPOS - (p - 1) - 2) == NPOS - p - 1;
    }
  }

  /**
   * A header with its first '|' at p > 0, its next '|' at q (or none, q =
   * |s|) and its first space at d (or none, d = |s|): `id` is what lies
   * strictly between position 0 and p, `num` what lies between p and q, and
   * `desc` everything after the space (the whole line without one).
   */
  lemma HeaderFields(s: string, p: nat, q: nat, d: nat)
    requires 0 < p < q <= |s| < 0x8000_0000 && s[p] == '|' && forall k :: 0 <= k < p ==> s[k] != '|'
    requires (q == |s| || s[q] == '|') && forall k :: p < k < q ==> s[k] != '|'
    requires d <= |s| && (d == |s| || s[d] == ' ') && forall k :: 0 <= k < d ==> s[k] != ' '
    ensures ParseIdentifier(s) == Ok(Identifier(s[1..p], s[p + 1..q], if d < |s| then s[d + 1..] else s))
  {
    OffsetAt(s, p);
    IdAt(s, p);
    NumAt(s, p, q);
    DescAt(s, d);
    Assemble(s, s[1..p], s[p + 1..q], if d < |s| then s[d + 1..] else s);
  }

  /** `id` once `i` is p - 1. */
  lemma IdAt(s: string, p: nat)
    requires 0 < p < |s| < 0x8000_0000
    ensures Substr(s, 1, SizeT(p - 1)) == Ok(s[1..p])
  {
    assert SizeT(p - 1) == p - 1;
  }

  /** `parse_identifier` puts the three fields together when none throws. */
  lemma Assemble(s: string, id: string, num: string, desc: string)
    requires Substr(s, 1, SizeT(BarOffset(s))) == Ok(id) && NumOf(s, BarOffset(s)) == Ok(num) && DescOf(s) == Ok(desc)
    ensures ParseIdentifier(s) == Ok(Identifier(id, num, desc))
  {
  }

  /** On a line shorter than 2^31 characters `parse_identifier` throws only when the line is empty. */
  lemma IdentifierTotal(s: string)
    requires |s| < 0x8000_0000
    ensures ParseIdentifier(s).Ok? <==> |s| > 0
  {
    if |s| > 0 {
      var f := Find(s, '|', 0);
      if f == NPOS {
        OffsetNone(s);
        assert SizeT(0) == 0;
      } else if f == 0 {
        assert SizeT(-1) == NPOS && NPOS % 0x1_0000_0000 == 0xFFFF_FFFF;
        assert SizeT(1) == 1;
      } else {
        OffsetAt(s, f);
        assert SizeT(f + 1) == f + 1;
      }
      var d := Find(s, ' ', 0);
      if d == NPOS {
        assert SizeT(NPOS + 1) == 0;
      } else {
        assert SizeT(d + 1) == d + 1;
      }
    }
  }

  /**
   * Without any '|' the header is not split at all: `id` is everything after
   * position 0 and `num` the whole line.
   */
  lemma NoBarFields(s: string, d: nat)
    requires 0 < |s| < 0x8000_0000 && forall k :: 0 <= k < |s| ==> s[k] != '|'
    requires d <= |s| && (d == |s| || s[d] == ' ') && forall k :: 0 <= k < d ==> s[k] != ' '
    ensures ParseIdentifier(s) == Ok(Identifier(s[1..], s, if d < |s| then s[d + 1..] else s))
  {
    OffsetNone(s);
    NumNone(s);
    DescAt(s, d);
    assert SizeT(-2) == NPOS - 1;
    Assemble(s, s[1..], s, if d < |s| then s[d + 1..] else s);
  }

  /** `num` from `i` = -2 without any '|': the whole line. */
  lemma NumNone(s: string)
    requires |s| < 0x8000_0000 && forall k :: 0 <= k < |s| ==> s[k] != '|'
    ensures NumOf(s, -2) == Ok(s)
  {
    FindNone(s, '|', 0);
    assert SizeT(0) == 0;
    assert SizeT(NPOS - (-2) - 2) == NPOS;
  }

  // ---------------------------------------------------------------------------
  // parse_line
  // ---------------------------------------------------------------------------

  /** The four characters written for one nucleotide; anything else is written like 'A'. */
  function Code(c: char): (r: string)
    ensures |r| == 4 && IsBit(r[0]) && IsBit(r[1]) && IsBit(r[2]) && IsBit(r[3])
  {
    match c
    case 'T' => "0001"
    case 'G' => "0010"
    case 'C' => "0100"
    case 'A' => "0000"
    case _ => "0000"
  }

  /** True iff `c` is one of the characters written for one nucleotide. */
  predicate IsBit(c: char)
  {
    c == '0' || c == '1'
  }

  /** What `parse_line` writes for `s`: the codes of its characters in order. */
  function Encode(s: string): (r: string)
    ensures |r| == 4 * |s|
  {
    if |s| == 0 then "" else Encode(s[..|s| - 1]) + Code(s[|s| - 1])
  }

  /** The output holds only '0' and '1'. */
  lemma {:induction false} EncodeBits(s: string)
    ensures forall i :: 0 <= i < |Encode(s)| ==> IsBit(Encode(s)[i])
    decreases |s|
  {
    if |s| > 0 {
      var p := s[..|s| - 1];
      EncodeBits(p);
      var e := Encode(s);
      forall i | 0 <= i < |e| ensures IsBit(e[i]) {
        if i < 4 * |p| {
          assert e[i] == Encode(p)[i];
        } else {
          var c := Code(s[|s| - 1]);
          assert e[i] == c[i - 4 * |p|];
        }
      }
    }
  }

  /** `parse_line`: writes the code of every character of `s` and returns how many there were. */
  method ParseLine(out0: string, s: string) returns (out: string, count: int)
    ensures out == out0 + Encode(s) && count == |s|
  {
    out, count := out0, 0;
    for i := 0 to |s|
      invariant out == out0 + Encode(s[..i]) && count == i
    {
      assert s[..i + 1][..i] == s[..i];
      out := out + Code(s[i]);
      count := count + 1;
    }
    assert s[..|s|] == s;
  }

  /** Encoding is per character: the codes of `s + t` are those of `s`, then those of `t`. */
  lemma {:induction false} EncodeConcat(s: string, t: string)
    ensures Encode(s + t) == Encode(s) + Encode(t)
    decreases |t|
  {
    if |t| == 0 {
      assert s + t == s;
    } else {
      var t' := t[..|t| - 1];
      assert (s + t)[..|s + t| - 1] == s + t';
      EncodeConcat(s, t');
    }
  }

  /** Character i of `s` is written at positions 4i .. 4i + 3. */
  lemma {:induction false} EncodeBlock(s: string, i: nat)
    requires i < |s|
    ensures Encode(s)[4 * i..4 * i + 4] == Code(s[i])
    decreases |s|
  {
    var p := s[..|s| - 1];
    if i < |s| - 1 {
      EncodeBlock(p, i);
      assert Encode(s)[4 * i..4 * i + 4] == Encode(p)[4 * i..4 * i + 4];
    }
  }

  /** Every character not written as a nucleotide of its own becomes 'A'. */
  function Normalize(s: string): (r: string)
    ensures |r| == |s|
    ensures forall i :: 0 <= i < |s| ==> r[i] == (if s[i] == 'T' || s[i] == 'G' || s[i] == 'C' then s[i] else 'A')
  {
    if |s| == 0 then "" else Normalize(s[..|s| - 1]) + [Letter(Code(s[|s| - 1]))]
  }

  /** The nucleotide a four-character code is read back as. */
  function Letter(code: string): (c: char)
  {
    if code == "0001" then 'T'
    else if code == "0010" then 'G'
    else if code == "0100" then 'C'
    else 'A'
  }

  /** Reads an encoding back, four characters per nucleotide. */
  function Decode(bits: string): (r: string)
    requires |bits| % 4 == 0
    ensures 4 * |r| == |bits|
  {
    if |bits| == 0 then "" else Decode(bits[..|bits| - 4]) + [Letter(bits[|bits| - 4..])]
  }

  /** Decoding recovers the line up to the characters written like 'A'. */
  lemma {:induction false} DecodeEncode(s: string)
    ensures Decode(Encode(s)) == Normalize(s)
    decreases |s|
  {
    if |s| > 0 {
      var p := s[..|s| - 1];
      var e := Encode(s);
      assert e[..|e| - 4] == Encode(p) && e[|e| - 4..] == Code(s[|s| - 1]);
      DecodeEncode(p);
    }
  }

  /** Normalizing first changes nothing in the output. */
  lemma {:induction false} EncodeNormalize(s: string)
    ensures Encode(Normalize(s)) == Encode(s)
    decreases |s|
  {
    if |s| > 0 {
      var n := Normalize(s);
      assert n[..|n| - 1] == Normalize(s[..|s| - 1]);
      EncodeNormalize(s[..|s| - 1]);
    }
  }

  /**
   * Two lines are written alike exactly when they agree once every character
   * other than 'T', 'G', 'C' is read as 'A': an 'A' cannot be told from an
   * unknown character.
   */
  lemma EncodeSame(s: string, t: string)
    ensures Encode(s) == Encode(t) <==> Normalize(s) == Normalize(t)
  {
    DecodeEncode(s);
    DecodeEncode(t);
    EncodeNormalize(s);
    EncodeNormalize(t);
  }

  // ---------------------------------------------------------------------------
  // The record loop of the converter
  // ---------------------------------------------------------------------------

  /** A line that starts a new record; `s[0]` of an empty line is the terminating NUL. */
  predicate IsHeader(s: string)
  {
    |s| > 0 && s[0] == '>'
  }

  /** `k` copies of "0000". */
  function Zeros(k: nat): (r: string)
    ensures |r| == 4 * k
  {
    if k == 0 then "" else Zeros(k - 1) + "0000"
  }

  /** Padding is all '0'. */
  lemma {:induction false} ZerosBits(k: nat)
    ensures forall i :: 0 <= i < |Zeros(k)| ==> Zeros(k)[i] == '0'
  {
    if k > 0 {
      ZerosBits(k - 1);
      var z := Zeros(k);
      assert forall i :: 0 <= i < 4 * (k - 1) ==> z[i] == Zeros(k - 1)[i];
    }
  }

  /** The padding after a record of `t` nucleotides: up to `RECORD_LEN`, nothing beyond. */
  function Padding(t: nat): (r: string)
    ensures |r| == if t < RECORD_LEN then 4 * (RECORD_LEN - t) else 0
  {
    Zeros(if t < RECORD_LEN then RECORD_LEN - t else 0)
  }

  /** The padding loop: `len - t` copies of "0000" when `len > t`. */
  method Pad(out0: string, t: nat) returns (out: string)
    ensures out == out0 + Padding(t)
  {
    out := out0;
    if RECORD_LEN > t {
      for i := 0 to RECORD_LEN - t
        invariant out == out0 + Zeros(i)
      {
        out := out + "0000";
      }
    }
  }

  /** The records closed so far and the nucleotides of the open one. */
  datatype Progress = Progress(done: seq<string>, current: string)

  /** The lines after the first header, grouped: a header closes the open record. */
  function Split(lines: seq<string>): Progress
  {
    if |lines| == 0 then Progress([], "")
    else
      var p := Split(lines[..|lines| - 1]);
      var s := lines[|lines| - 1];
      if IsHeader(s) then Progress(p.done + [p.current], "") else Progress(p.done, p.current + s)
  }

  /** The nucleotides of every record, the last one closed by the end of input. */
  function Records(lines: seq<string>): (r: seq<string>)
    ensures |r| > 0
  {
    Split(lines).done + [Split(lines).current]
  }

  /** The count of header lines. */
  function Headers(lines: seq<string>): nat
  {
    if |lines| == 0 then 0 else Headers(lines[..|lines| - 1]) + if IsHeader(lines[|lines| - 1]) then 1 else 0
  }

  /** The non-header lines, joined. */
  function Body(lines: seq<string>): string
  {
    if |lines| == 0 then ""
    else Body(lines[..|lines| - 1]) + if IsHeader(lines[|lines| - 1]) then "" else lines[|lines| - 1]
  }

  /** The records joined, in order. */
  function Join(rs: seq<string>): string
  {
    if |rs| == 0 then "" else Join(rs[..|rs| - 1]) + rs[|rs| - 1]
  }

  lemma JoinSnoc(rs: seq<string>, r: string)
    ensures Join(rs + [r]) == Join(rs) + r
  {
    assert (rs + [r])[..|rs|] == rs;
  }

  /**
   * The records partition the sequence lines: one more record than there
   * are headers, and together they hold every non-header line in order.
   */
  lemma RecordsCover(lines: seq<string>)
    ensures |Records(lines)| == Headers(lines) + 1
    ensures Join(Records(lines)) == Body(lines)
  {
    RecordsCount(lines);
    RecordsJoin(lines);
  }

  /** Each header line closes one record. */
  lemma {:induction false} RecordsCount(lines: seq<string>)
    ensures |Split(lines).done| == Headers(lines)
    decreases |lines|
  {
    if |lines| > 0 {
      RecordsCount(lines[..|lines| - 1]);
    }
  }

  /** The closed records, then the open one, hold the non-header lines in order. */
  lemma {:induction false} RecordsJoin(lines: seq<string>)
    ensures Join(Split(lines).done) + Split(lines).current == Body(lines)
    decreases |lines|
  {
    if |lines| > 0 {
      var init := lines[..|lines| - 1];
      var s := lines[|lines| - 1];
      var p := Split(init);
      RecordsJoin(init);
      if IsHeader(s) {
        JoinSnoc(p.done, p.current);
        assert Split(lines).done == p.done + [p.current] && Split(lines).current == "";
      } else {
        assert Split(lines).done == p.done && Split(lines).current == p.current + s;
        assert Join(p.done) + (p.current + s) == (Join(p.done) + p.current) + s;
      }
    }
  }

  /** One output line: the record's codes, its padding and the newline. */
  function Rendered(rec: string): string
  {
    Encode(rec) + Padding(|rec|) + "\n"
  }

  /** Every output line holds `4 * max(t, RECORD_LEN)` bits, then the newline. */
  lemma RenderedShape(rec: string)
    ensures |Rendered(rec)| == 4 * (if |rec| < RECORD_LEN then RECORD_LEN else |rec|) + 1
    ensures Rendered(rec)[|Rendered(rec)| - 1] == '\n'
    ensures forall i :: 0 <= i < |Rendered(rec)| - 1 ==> IsBit(Rendered(rec)[i])
    ensures Rendered(rec)[..4 * |rec|] == Encode(rec)
  {
    var r := Rendered(rec);
    EncodeBits(rec);
    ZerosBits(if |rec| < RECORD_LEN then RECORD_LEN - |rec| else 0);
    forall i | 0 <= i < |r| - 1 ensures IsBit(r[i]) {
      if i >= 4 * |rec| {
        assert r[i] == Padding(|rec|)[i - 4 * |rec|];
      } else {
        assert r[i] == Encode(rec)[i];
      }
    }
  }

  /** The output lines of all records. */
  function Render(rs: seq<string>): string
  {
    if |rs| == 0 then "" else Render(rs[..|rs| - 1]) + Rendered(rs[|rs| - 1])
  }

  /** The length of the longest record, 0 for none (`max_len`). */
  function MaxLen(rs: seq<string>): nat
  {
    if |rs| == 0 then 0
    else
      var m := MaxLen(rs[..|rs| - 1]);
      if |rs[|rs| - 1]| > m then |rs[|rs| - 1]| else m
  }

  /** `max_len` bounds every record and is the length of one of them. */
  lemma {:induction false} MaxLenIsMax(rs: seq<string>)
    ensures forall i :: 0 <= i < |rs| ==> |rs[i]| <= MaxLen(rs)
    ensures |rs| > 0 ==> exists i :: 0 <= i < |rs| && |rs[i]| == MaxLen(rs)
    decreases |rs|
  {
    if |rs| > 0 {
      var init := rs[..|rs| - 1];
      MaxLenIsMax(init);
      assert forall i :: 0 <= i < |init| ==> rs[i] == init[i];
      if |rs[|rs| - 1]| <= MaxLen(init) && |init| > 0 {
        var i :| 0 <= i < |init| && |init[i]| == MaxLen(init);
        assert |rs[i]| == MaxLen(rs);
      }
    }
  }

  /** The converter's state after the first `i` lines: as if the open record ended here. */
  ghost predicate Converted(lines: seq<string>, i: nat, out: string, t: int, maxLen: int)
    requires i <= |lines|
  {
    var p := Split(lines[..i]);
    out == Render(p.done) + Encode(p.current) && t == |p.current| && maxLen == MaxLen(p.done)
  }

  /** One more line read: a header closes the open record, any other line extends it. */
  lemma SplitStep(lines: seq<string>, i: nat)
    requires i < |lines|
    ensures Split(lines[..i + 1]) ==
      var p := Split(lines[..i]);
      if IsHeader(lines[i]) then Progress(p.done + [p.current], "") else Progress(p.done, p.current + lines[i])
  {
    assert lines[..i + 1][..i] == lines[..i];
  }

  /** Closing the open record renders it after the others and may raise `max_len`. */
  lemma CloseRecord(p: Progress, out: string, t: int, maxLen: int)
    requires out == Render(p.done) + Encode(p.current) && t == |p.current| && maxLen == MaxLen(p.done)
    ensures out + Padding(t) + "\n" == Render(p.done + [p.current])
    ensures (if t > maxLen then t else maxLen) == MaxLen(p.done + [p.current])
  {
    assert (p.done + [p.current])[..|p.done|] == p.done;
    assert out + Padding(t) + "\n" == Render(p.done) + (Encode(p.current) + Padding(t) + "\n");
  }

  /** A header line closes the open record: padding, newline, `max_len` updated, count reset. */
  lemma HeaderStep(lines: seq<string>, i: nat, out: string, t: int, maxLen: int)
    requires i < |lines| && IsHeader(lines[i]) && Converted(lines, i, out, t, maxLen)
    ensures Converted(lines, i + 1, out + Padding(t) + "\n", 0, if t > maxLen then t else maxLen)
  {
    SplitStep(lines, i);
    CloseRecord(Split(lines[..i]), out, t, maxLen);
    assert Encode("") == "";
  }

  /** The output of the open record grows by the codes of the line. */
  lemma ExtendRecord(rendered: string, current: string, out: string, s: string)
    requires out == rendered + Encode(current)
    ensures out + Encode(s) == rendered + Encode(current + s)
  {
    EncodeConcat(current, s);
    AppendAssoc(rendered, Encode(current), Encode(s));
  }

  lemma AppendAssoc(a: string, b: string, c: string)
    ensures (a + b) + c == a + (b + c)
  {
  }

  /** Any other line extends the open record. */
  lemma SequenceStep(lines: seq<string>, i: nat, out: string, t: int, maxLen: int)
    requires i < |lines| && !IsHeader(lines[i]) && Converted(lines, i, out, t, maxLen)
    ensures Converted(lines, i + 1, out + Encode(lines[i]), t + |lines[i]|, maxLen)
  {
    var p := Split(lines[..i]);
    var s := lines[i];
    SplitStep(lines, i);
    ExtendRecord(Render(p.done), p.current, out, s);
  }

  /** One line of the record loop, and what it does to the state. */
  method ConvertLine(lines: seq<string>, i: nat, out0: string, t0: int, maxLen0: int) returns (out: string, t: int, maxLen: int)
    requires i < |lines| && Converted(lines, i, out0, t0, maxLen0)
    ensures Converted(lines, i + 1, out, t, maxLen)
  {
    var s := lines[i];
    if |s| > 0 && s[0] == '>' {
      out := Pad(out0, t0);
      maxLen := maxLen0;
      if t0 > maxLen0 {
        maxLen := t0;
      }
      out := out + "\n";
      t := 0;
      HeaderStep(lines, i, out0, t0, maxLen0);
    } else {
      var count;
      out, count := ParseLine(out0, s);
      t, maxLen := t0 + count, maxLen0;
      SequenceStep(lines, i, out0, t0, maxLen0);
    }
  }

  /**
   * The record loop of the converter over the lines after the first header:
   * the output is one rendered line per record and `max_len` the longest record.
   */
  method ConvertRecords(lines: seq<string>) returns (out: string, maxLen: int)
    ensures out == Render(Records(lines)) && maxLen == MaxLen(Records(lines))
  {
    var t := 0;
    out, maxLen := "", 0;
    for i := 0 to |lines|
      invariant Converted(lines, i, out, t, maxLen)
    {
      out, t, maxLen := ConvertLine(lines, i, out, t, maxLen);
    }
    assert lines[..|lines|] == lines;
    ghost var out0, t0, maxLen0 := out, t, maxLen;
    out := Pad(out, t);
    if t > maxLen {
      maxLen := t;
    }
    out := out + "\n";
    CloseRecord(Split(lines), out0, t0, maxLen0);
  }

  /** What the converter reports: the output file name, the header fields, the bits and `max_len`. */
  datatype Conversion = Conversion(header: Identifier, fileName: string, bits: string, maxLen: int)

  /** Why the converter stops before any record is read. */
  datatype ConvertError =
    | NoHeader               // the first line does not begin with '>'
    | HeaderThrown(Thrown)   // `parse_identifier` threw on the first line

  /**
   * The converter on the lines of a file: the first line must be a header;
   * the output is named after its `id` and `num`, and holds one line per
   * record that follows.
   */
  method Convert(lines: seq<string>) returns (r: Result<Conversion, ConvertError>)
    ensures r == Err(NoHeader) <==> |lines| == 0 || !IsHeader(lines[0])
    ensures r.Ok? <==> r != Err(NoHeader) && ParseIdentifier(lines[0]).Ok?
    ensures r.Ok? ==> r.value.header == ParseIdentifier(lines[0]).value
    ensures r.Ok? ==> r.value.fileName == r.value.header.id + "-" + r.value.header.num + ".txt"
    ensures r.Ok? ==> r.value.bits == Render(Records(lines[1..])) && r.value.maxLen == MaxLen(Records(lines[1..]))
  {
    if |lines| == 0 || !IsHeader(lines[0]) {
      return Err(NoHeader);
    }
    var h := ParseIdentifier(lines[0]);
    if h.Err? {
      return Err(HeaderThrown(h.error));
    }
    var bits, maxLen := ConvertRecords(lines[1..]);
    r := Ok(Conversion(h.value, h.value.id + "-" + h.value.num + ".txt", bits, maxLen));
  }
}
