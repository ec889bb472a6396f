/**
 * The line rules of `PhylogeneticLoader::read`. `ReadTaxa` works on the
 * chunks the loop body sees, one per pass; `Seen` derives those chunks from
 * the text that follows the header, as the `feof` test at the top of the
 * loop and the `fgets` call after it produce them.
 */
module Reading {
  import opened Wrappers
  import opened Taxa

  /** What `parse` and `read` report before giving up. */
  datatype LoadError =
    | NonBinary                          // k != 2: "Cannot Process non binary markers!"
    | UnexpectedEnd(line: nat)           // end of file before n Taxa were read
    | BadLength(length: nat, line: nat)  // "Unexpected length of taxon"
    | NotBitstring                       // the bitstring constructor throws out_of_range

  /** `strlen`: the characters before the first NUL. */
  function StrLen(s: string): (r: nat)
    ensures r <= |s|
    ensures forall i :: 0 <= i < r ==> s[i] != '\0'
    ensures r < |s| ==> s[r] == '\0'
  {
    if |s| == 0 || s[0] == '\0' then 0 else 1 + StrLen(s[1..])
  }

  /** `taxon[0]`: the terminating NUL for an empty chunk. */
  function FirstChar(s: string): char
  {
    if |s| == 0 then '\0' else s[0]
  }

  /** Blank lines (starting with `\n` or `\r`) and comments (starting with `#`) are skipped without counting. */
  predicate Skipped(s: string)
  {
    FirstChar(s) == '\n' || FirstChar(s) == '\r' || FirstChar(s) == '#'
  }

  /** The length of a chunk without its line terminator (`\n` or `\r\n`). */
  function ContentLength(s: string): (r: nat)
    ensures r <= StrLen(s)
    ensures forall i :: r <= i < StrLen(s) ==> s[i] == '\n' || s[i] == '\r'
    ensures r == StrLen(s) || s[StrLen(s) - 1] == '\n'
  {
    var l := StrLen(s);
    if l > 0 && s[l - 1] == '\n' then
      if l > 1 && s[l - 2] == '\r' then l - 2 else l - 1
    else l
  }

  /** Which length the `len < m` check measures. */
  datatype LengthRule =
    | AsWritten  // `strlen(taxon)`, which counts the newline `fgets` keeps
    | Intended   // the Taxon's own characters

  function Measured(rule: LengthRule, s: string): (r: nat)
    ensures r <= StrLen(s) <= |s|
  {
    match rule
    case AsWritten => StrLen(s)
    case Intended => ContentLength(s)
  }

  /**
   * The loop of `read`: `want` more Taxa of `m` bits from `chunks`, `line`
   * being the number of the line before the next chunk. Skipped chunks do
   * not count; a short chunk, an undecodable one or the end of the input
   * stops it with the error `read` reports.
   */
  function ReadTaxa(chunks: seq<string>, want: nat, m: nat, line: nat, rule: LengthRule): Result<seq<Bits>, LoadError>
    decreases |chunks|
  {
    if want == 0 then Ok([])
    else if |chunks| == 0 then Err(UnexpectedEnd(line + 1))
    else
      var s := chunks[0];
      if Skipped(s) then ReadTaxa(chunks[1..], want, m, line + 1, rule)
      else if Measured(rule, s) < m then Err(BadLength(Measured(rule, s), line + 1))
      else match ParseBits(s[..m])
        case Err(_) => Err(NotBitstring)
        case Ok(v) =>
          match ReadTaxa(chunks[1..], want - 1, m, line + 1, rule)
          case Err(e) => Err(e)
          case Ok(vs) => Ok([v] + vs)
  }

  /** The chunks that are not skipped. */
  function DataLines(chunks: seq<string>): seq<string>
  {
    if |chunks| == 0 then []
    else (if Skipped(chunks[0]) then [] else [chunks[0]]) + DataLines(chunks[1..])
  }

  /** A data line `read` turns into a Taxon. */
  predicate Accepts(rule: LengthRule, s: string, m: nat)
  {
    Measured(rule, s) >= m && ParseBits(s[..m]).Ok?
  }

  /** The first `want` lines exist and are all accepted. */
  ghost predicate AllAccepted(rule: LengthRule, lines: seq<string>, want: nat, m: nat)
  {
    want <= |lines| && forall i :: 0 <= i < want ==> Accepts(rule, lines[i], m)
  }

  lemma AllAcceptedCons(rule: LengthRule, s: string, rest: seq<string>, want: nat, m: nat)
    requires want > 0
    ensures AllAccepted(rule, [s] + rest, want, m) <==> Accepts(rule, s, m) && AllAccepted(rule, rest, want - 1, m)
  {
    var data := [s] + rest;
    assert data[0] == s;
    if AllAccepted(rule, data, want, m) {
      forall i | 0 <= i < want - 1 ensures Accepts(rule, rest[i], m) {
        assert data[i + 1] == rest[i];
      }
    }
    if Accepts(rule, s, m) && AllAccepted(rule, rest, want - 1, m) {
      forall i | 0 <= i < want ensures Accepts(rule, data[i], m) {
        if i > 0 { assert data[i] == rest[i - 1]; }
      }
    }
  }

  /** `read` succeeds exactly when the first `want` data lines exist and are all accepted. */
  lemma {:induction false} ReadTaxaSucceeds(chunks: seq<string>, want: nat, m: nat, line: nat, rule: LengthRule)
    ensures ReadTaxa(chunks, want, m, line, rule).Ok? <==> AllAccepted(rule, DataLines(chunks), want, m)
    decreases |chunks|
  {
    if want > 0 && |chunks| > 0 {
      var s := chunks[0];
      ReadTaxaSucceeds(chunks[1..], if Skipped(s) then want else want - 1, m, line + 1, rule);
      if Skipped(s) {
        assert DataLines(chunks) == DataLines(chunks[1..]);
      } else {
        assert DataLines(chunks) == [s] + DataLines(chunks[1..]);
        AllAcceptedCons(rule, s, DataLines(chunks[1..]), want, m);
      }
    }
  }

  /** On success `read` yields the decodings of the first `want` data lines, in order. */
  lemma {:induction false} ReadTaxaYields(chunks: seq<string>, want: nat, m: nat, line: nat, rule: LengthRule)
    ensures ReadTaxa(chunks, want, m, line, rule).Ok? ==>
      var vs := ReadTaxa(chunks, want, m, line, rule).value;
      |vs| == want <= |DataLines(chunks)| &&
      forall i :: 0 <= i < want ==> Accepts(rule, DataLines(chunks)[i], m) && vs[i] == ParseBits(DataLines(chunks)[i][..m]).value
    decreases |chunks|
  {
    if want > 0 && |chunks| > 0 {
      var s := chunks[0];
      ReadTaxaYields(chunks[1..], if Skipped(s) then want else want - 1, m, line + 1, rule);
      if Skipped(s) {
        assert DataLines(chunks) == DataLines(chunks[1..]);
      } else if Accepts(rule, s, m) {
        var rest := DataLines(chunks[1..]);
        var data := DataLines(chunks);
        assert data == [s] + rest;
        var r := ReadTaxa(chunks, want, m, line, rule);
        var inner := ReadTaxa(chunks[1..], want - 1, m, line + 1, rule);
        if inner.Ok? {
          assert r.value == [ParseBits(s[..m]).value] + inner.value;
          forall i | 0 <= i < want ensures Accepts(rule, data[i], m) && r.value[i] == ParseBits(data[i][..m]).value {
            if i > 0 {
              assert data[i] == rest[i - 1] && r.value[i] == inner.value[i - 1];
            }
          }
        }
      }
    }
  }

  /** A data line accepted under one rule is accepted under the other: the terminator is never a bit. */
  lemma AcceptsAgree(s: string, m: nat)
    ensures Accepts(AsWritten, s, m) <==> Accepts(Intended, s, m)
  {
    if Accepts(AsWritten, s, m) {
      forall i | 0 <= i < m ensures s[i] != '\n' && s[i] != '\r' {
        assert s[..m][i] == s[i];
        assert IsBitChar(s[..m][i]);
      }
    }
  }

  /** The finding changes only which error is reported: on success both rules read the same Taxa. */
  lemma {:induction false} RulesAgreeOnSuccess(chunks: seq<string>, want: nat, m: nat, line: nat)
    ensures ReadTaxa(chunks, want, m, line, AsWritten).Ok? <==> ReadTaxa(chunks, want, m, line, Intended).Ok?
    ensures ReadTaxa(chunks, want, m, line, AsWritten).Ok? ==>
      ReadTaxa(chunks, want, m, line, AsWritten) == ReadTaxa(chunks, want, m, line, Intended)
    decreases |chunks|
  {
    if want > 0 && |chunks| > 0 {
      var s := chunks[0];
      AcceptsAgree(s, m);
      RulesAgreeOnSuccess(chunks[1..], if Skipped(s) then want else want - 1, m, line + 1);
    }
  }

  /** The outcome is a length error reported on line `line`. */
  predicate ReportedTooShort(r: Result<seq<Bits>, LoadError>, line: nat)
  {
    r.Err? && r.error.BadLength? && r.error.line == line
  }

  /** Length errors are reported on a line after `line`. */
  lemma {:induction false} BadLengthLater(chunks: seq<string>, want: nat, m: nat, line: nat, rule: LengthRule)
    ensures ReadTaxa(chunks, want, m, line, rule).Err? && ReadTaxa(chunks, want, m, line, rule).error.BadLength? ==>
      ReadTaxa(chunks, want, m, line, rule).error.line > line
    decreases |chunks|
  {
    if want > 0 && |chunks| > 0 {
      BadLengthLater(chunks[1..], if Skipped(chunks[0]) then want else want - 1, m, line + 1, rule);
    }
  }

  /**
   * Under the corrected rule a data line is reported as too short exactly when
   * its content, without the terminator, is shorter than `m`.
   */
  lemma IntendedLengthCheck(chunks: seq<string>, want: nat, m: nat, line: nat)
    requires want > 0 && |chunks| > 0 && !Skipped(chunks[0])
    ensures ReportedTooShort(ReadTaxa(chunks, want, m, line, Intended), line + 1) <==> ContentLength(chunks[0]) < m
    ensures ContentLength(chunks[0]) < m ==>
      ReadTaxa(chunks, want, m, line, Intended) == Err(BadLength(ContentLength(chunks[0]), line + 1))
  {
    var s := chunks[0];
    if ContentLength(s) >= m && ParseBits(s[..m]).Ok? {
      BadLengthLater(chunks[1..], want - 1, m, line + 1, Intended);
    }
  }

  // ---------------------------------------------------------------------------
  // From the file text to the chunks: `fgets` and `feof`
  // ---------------------------------------------------------------------------

  /** `fgets(taxon, m + 4, fp)` stores at most m + 3 characters before the NUL. */
  function Room(m: nat): nat
  {
    m + 3
  }

  /** The number of characters one `fgets` call takes from `text`: up to `room`, stopping after a newline. */
  function ChunkLength(text: string, room: nat): (r: nat)
    ensures r <= |text| && r <= room
    ensures 0 < |text| && 0 < room ==> 0 < r
    ensures forall i :: 0 <= i < r - 1 ==> text[i] != '\n'
    ensures r == |text| || r == room || (0 < r && text[r - 1] == '\n')
    decreases |text|
  {
    if |text| == 0 || room == 0 then 0
    else if text[0] == '\n' then 1
    else 1 + ChunkLength(text[1..], room - 1)
  }

  /** The end-of-file indicator after that call: set when the text ran out before a newline or a full buffer. */
  predicate HitsEnd(text: string, room: nat)
  {
    var l := ChunkLength(text, room);
    l == |text| && l < room && (l == 0 || text[l - 1] != '\n')
  }

  /** What `read` does once `fgets` returns NULL at the end of the file. */
  datatype EndRule =
    | Reread     // as written: `feof` is checked before the call, so the buffer it leaves unchanged is processed again
    | NullIsEnd  // the failed call ends the input

  /**
   * The chunks `read`'s loop body sees, one per pass: `rest` is the unread
   * text, `atEnd` the end-of-file indicator and `last` the buffer the
   * previous `fgets` left.
   */
  function Seen(rest: string, atEnd: bool, last: string, m: nat, ends: EndRule): seq<string>
    decreases |rest|
  {
    if atEnd then []
    else if |rest| == 0 then (if ends == Reread then [last] else [])
    else
      var l := ChunkLength(rest, Room(m));
      [rest[..l]] + Seen(rest[l..], HitsEnd(rest, Room(m)), rest[..l], m, ends)
  }

  /**
   * `read` on the text that follows `k` in the header. The `fscanf` of `k`
   * has set the end-of-file indicator exactly when nothing follows; the
   * buffer is then never looked at, so `last` starts empty.
   */
  function ReadFile(text: string, n: nat, m: nat, rule: LengthRule, ends: EndRule): Result<seq<Bits>, LoadError>
  {
    ReadTaxa(Seen(text, |text| == 0, "", m, ends), n, m, 3, rule)
  }

  /** The successive `fgets` results until the text is used up. */
  function Chunks(text: string, m: nat): seq<string>
    decreases |text|
  {
    if |text| == 0 then []
    else
      var l := ChunkLength(text, Room(m));
      [text[..l]] + Chunks(text[l..], m)
  }

  function Concat(cs: seq<string>): string
  {
    if |cs| == 0 then "" else cs[0] + Concat(cs[1..])
  }

  /** What one `fgets` call returns: 1 to `room` characters, with a newline at most at the end. */
  ghost predicate IsChunk(c: string, room: nat)
  {
    0 < |c| <= room && forall p :: 0 <= p < |c| - 1 ==> c[p] != '\n'
  }

  /** The call stopped at a newline or a full buffer, not at the end of the text. */
  predicate Ended(c: string, room: nat)
  {
    |c| == room || (0 < |c| && c[|c| - 1] == '\n')
  }

  /** The chunks put back together are the text; each is one `fgets` result, and all but the last stopped at a newline or a full buffer. */
  lemma {:induction false} ChunksJoin(text: string, m: nat)
    ensures Concat(Chunks(text, m)) == text
    ensures forall i :: 0 <= i < |Chunks(text, m)| ==> IsChunk(Chunks(text, m)[i], Room(m))
    ensures forall i :: 0 <= i < |Chunks(text, m)| - 1 ==> Ended(Chunks(text, m)[i], Room(m))
  {
    ChunksConcat(text, m);
    ChunksShape(text, m);
  }

  lemma {:induction false} ChunksConcat(text: string, m: nat)
    ensures Concat(Chunks(text, m)) == text
    decreases |text|
  {
    if |text| > 0 {
      var l := ChunkLength(text, Room(m));
      ChunksConcat(text[l..], m);
      assert Chunks(text, m) == [text[..l]] + Chunks(text[l..], m);
      assert text == text[..l] + text[l..];
    }
  }

  lemma {:induction false} ChunksShape(text: string, m: nat)
    ensures forall i :: 0 <= i < |Chunks(text, m)| ==> IsChunk(Chunks(text, m)[i], Room(m))
    ensures forall i :: 0 <= i < |Chunks(text, m)| - 1 ==> Ended(Chunks(text, m)[i], Room(m))
    decreases |text|
  {
    if |text| > 0 {
      var l := ChunkLength(text, Room(m));
      var c, rest := text[..l], text[l..];
      ChunksShape(rest, m);
      var cs := Chunks(text, m);
      assert cs == [c] + Chunks(rest, m);
      assert forall p :: 0 <= p < |c| - 1 ==> c[p] == text[p];
      forall i | 0 <= i < |cs| ensures IsChunk(cs[i], Room(m)) && (i < |cs| - 1 ==> Ended(cs[i], Room(m))) {
        if i > 0 {
          assert cs[i] == Chunks(rest, m)[i - 1];
        }
      }
    }
  }

  /** The stale buffer processed once more: the last chunk, when it did not set the end-of-file indicator. */
  function Stale(cs: seq<string>, m: nat): seq<string>
  {
    if |cs| > 0 && Ended(cs[|cs| - 1], Room(m)) then [cs[|cs| - 1]] else []
  }

  lemma {:induction false} SeenWithoutReread(rest: string, atEnd: bool, last: string, m: nat)
    requires atEnd ==> |rest| == 0
    ensures Seen(rest, atEnd, last, m, NullIsEnd) == Chunks(rest, m)
    decreases |rest|
  {
    if !atEnd && |rest| > 0 {
      var l := ChunkLength(rest, Room(m));
      SeenWithoutReread(rest[l..], HitsEnd(rest, Room(m)), rest[..l], m);
    }
  }

  lemma {:induction false} SeenWithReread(rest: string, last: string, m: nat)
    requires |rest| > 0
    ensures Seen(rest, false, last, m, Reread) == Chunks(rest, m) + Stale(Chunks(rest, m), m)
    decreases |rest|
  {
    var l := ChunkLength(rest, Room(m));
    var c, r2 := rest[..l], rest[l..];
    assert Chunks(rest, m) == [c] + Chunks(r2, m);
    if |r2| == 0 {
      assert c == rest;
      assert Chunks(rest, m) == [c];
    } else {
      SeenWithReread(r2, c, m);
      assert !HitsEnd(rest, Room(m));
      var cs2 := Chunks(r2, m);
      assert |cs2| > 0;
      assert ([c] + cs2)[|cs2|] == cs2[|cs2| - 1];
    }
  }

  /**
   * As written, the loop body sees the chunks of the text and then, when the
   * last one stopped at a newline or a full buffer, that chunk a second time;
   * with the failed read taken as the end it sees exactly the chunks.
   */
  lemma {:induction false} ReadFileChunks(text: string, m: nat)
    ensures Seen(text, |text| == 0, "", m, NullIsEnd) == Chunks(text, m)
    ensures Seen(text, |text| == 0, "", m, Reread) == Chunks(text, m) + Stale(Chunks(text, m), m)
  {
    SeenWithoutReread(text, |text| == 0, "", m);
    if |text| > 0 {
      SeenWithReread(text, "", m);
    }
  }

  /** `read` succeeds exactly when the first n data lines of the chunks it sees exist and are all accepted. */
  lemma ReadFileSucceeds(text: string, n: nat, m: nat, rule: LengthRule)
    ensures ReadFile(text, n, m, rule, NullIsEnd).Ok? <==> AllAccepted(rule, DataLines(Chunks(text, m)), n, m)
    ensures ReadFile(text, n, m, rule, Reread).Ok? <==>
      AllAccepted(rule, DataLines(Chunks(text, m) + Stale(Chunks(text, m), m)), n, m)
  {
    ReadFileChunks(text, m);
    ReadTaxaSucceeds(Chunks(text, m), n, m, 3, rule);
    ReadTaxaSucceeds(Chunks(text, m) + Stale(Chunks(text, m), m), n, m, 3, rule);
  }

  /** With the failed read taken as the end, the Taxa read are the decodings of the first n data lines of the text, in order. */
  lemma ReadFileYields(text: string, n: nat, m: nat, rule: LengthRule)
    ensures ReadFile(text, n, m, rule, NullIsEnd).Ok? ==>
      var vs, data := ReadFile(text, n, m, rule, NullIsEnd).value, DataLines(Chunks(text, m));
      |vs| == n <= |data| &&
      forall i :: 0 <= i < n ==> Accepts(rule, data[i], m) && vs[i] == ParseBits(data[i][..m]).value
  {
    ReadFileChunks(text, m);
    ReadTaxaYields(Chunks(text, m), n, m, 3, rule);
  }

  /** The example text: the newline that ends the header line, then one Taxon line. */
  lemma ExampleChunks(m: nat)
    requires 2 <= m
    ensures Chunks("\n01\n", m) == ["\n", "01\n"]
    ensures Stale(Chunks("\n01\n", m), m) == ["01\n"]
  {
    var text, line := "\n01\n", "01\n";
    assert text[..1] == "\n" && text[1..] == line;
    assert line[1..] == "1\n" && line[1..][1..] == "\n";
    assert ChunkLength(line, Room(m)) == 3;
    assert line[..3] == line && line[3..] == "";
  }

  /** The example Taxon line: `strlen` 3, its first two characters the bits 0 1. */
  lemma ExampleLine()
    ensures StrLen("01\n") == 3 && ContentLength("01\n") == 2 && !Skipped("01\n")
    ensures ParseBits("01\n"[..2]) == Ok([false, true]) && ParseBits("01\n"[..3]).Err?
  {
    var s := "01\n";
    assert s[1..] == "1\n" && s[1..][1..] == "\n" && s[1..][1..][1..] == "";
    assert s[..2] == "01" && s[..3] == s;
    assert !IsBitChar(s[..3][2]);
    var r := ParseBits(s[..2]);
    assert r.Ok? && |r.value| == 2 && !r.value[0] && r.value[1];
    assert r.value == [false, true];
  }

  /**
   * As written, a file whose last Taxon line ends in a newline has that line
   * read twice: n = 2 is met by a single Taxon line.
   */
  lemma StaleRereadAsWritten()
    ensures ReadFile("\n01\n", 2, 2, AsWritten, Reread) == Ok([[false, true], [false, true]])
  {
    ExampleChunks(2);
    ReadFileChunks("\n01\n", 2);
    ExampleLine();
    var cs := ["\n", "01\n", "01\n"];
    assert ["\n", "01\n"] + ["01\n"] == cs;
    assert cs[1..] == ["01\n", "01\n"] && cs[1..][1..] == ["01\n"] && cs[1..][1..][1..] == [];
    var t := cs[1..][1..];
    assert t[0] == "01\n" && t[1..] == [];
    assert Measured(AsWritten, t[0]) == 3;
    assert ReadTaxa(t[1..], 0, 2, 6, AsWritten) == Ok([]);
    assert [[false, true]] + [] == [[false, true]];
    assert ReadTaxa(t, 1, 2, 5, AsWritten) == Ok([[false, true]]);
    assert cs[1..][0] == "01\n" && [[false, true]] + [[false, true]] == [[false, true], [false, true]];
    assert ReadTaxa(cs[1..], 2, 2, 4, AsWritten) == Ok([[false, true], [false, true]]);
    assert ReadTaxa(cs, 2, 2, 3, AsWritten) == Ok([[false, true], [false, true]]);
  }

  /** With the failed read taken as the end, the missing second Taxon is reported on line 6. */
  lemma StaleRereadIntended()
    ensures ReadFile("\n01\n", 2, 2, AsWritten, NullIsEnd) == Err(UnexpectedEnd(6))
  {
    ExampleChunks(2);
    ReadFileChunks("\n01\n", 2);
    ExampleLine();
    var cs := ["\n", "01\n"];
    assert cs[1..] == ["01\n"] && cs[1..][1..] == [];
    assert ReadTaxa(cs[1..][1..], 1, 2, 5, AsWritten) == Err(UnexpectedEnd(6));
  }

  /**
   * As written, a Taxon line one character short is not reported as too
   * short: its newline fills the length check and the bitstring constructor
   * then rejects the newline.
   */
  lemma ShortLineAsWritten()
    ensures ReadFile("\n01\n", 1, 3, AsWritten, Reread) == Err(NotBitstring)
  {
    ExampleChunks(3);
    ReadFileChunks("\n01\n", 3);
    ExampleLine();
    var cs := ["\n", "01\n", "01\n"];
    assert ["\n", "01\n"] + ["01\n"] == cs;
    assert cs[1..] == ["01\n", "01\n"];
    assert ReadTaxa(cs[1..], 1, 3, 4, AsWritten) == Err(NotBitstring);
  }

  /** With the terminator not counted, the same line is reported as a Taxon of length 2 on line 5. */
  lemma ShortLineIntended()
    ensures ReadFile("\n01\n", 1, 3, Intended, Reread) == Err(BadLength(2, 5))
  {
    ExampleChunks(3);
    ReadFileChunks("\n01\n", 3);
    ExampleLine();
    var cs := ["\n", "01\n", "01\n"];
    assert ["\n", "01\n"] + ["01\n"] == cs;
    assert cs[1..] == ["01\n", "01\n"];
    assert ReadTaxa(cs[1..], 1, 3, 4, Intended) == Err(BadLength(2, 5));
  }
}
