/** dataseq_melting.py: materialises each variant's amino-acid sequence by applying
    its mutation notation (`V4L`, or segments joined by `:` such as `A2K:T6Q`) to
    the reference sequence, and appends it as a last CSV column. */
module Melting {
  import opened Wrappers
  import opened PyStr

  /** `line.rstrip().split(',')[mutpos]`: the mutation cell of a CSV line. */
  function Field(line: string, mutpos: int): Result<string> {
    var sline := Cells(line);
    match PyIndex(|sline|, mutpos)
    case None => Raise(IndexError)
    case Some(k) => Ok(sline[k])
  }

  /** The line with `s` appended as a new last column. */
  function WithColumn(line: string, s: string): string {
    RStrip(line) + "," + s + "\n"
  }

  /** The position a segment `<origin><position><target>` points at, counted from
      0 and with Python's wrap-around for position 0 and negative positions; None
      when Python raises instead. */
  function SegmentIndex(n: nat, mut: string): Option<nat> {
    if |mut| == 0 then None
    else match ParseInt(Mid(mut))
      case None => None
      case Some(p) => PyIndex(n, p - 1)
  }

  /** The exception a segment raises in the combination loop, if any: IndexError
      for an empty segment, ValueError for a position that is not an integer,
      IndexError for a position outside the sequence. */
  function SegmentError(n: nat, mut: string): (e: Option<PyError>)
    ensures e.None? <==> SegmentIndex(n, mut).Some?
    ensures e == None || e == Some(IndexError) || e == Some(ValueError)
    ensures e == Some(ValueError) <==> |mut| > 0 && ParseInt(Mid(mut)).None?
    ensures e == Some(IndexError) <==>
      |mut| == 0 || (ParseInt(Mid(mut)).Some? && !(-(n as int) <= ParseInt(Mid(mut)).value - 1 < n))
  {
    if |mut| == 0 then Some(IndexError)
    else match ParseInt(Mid(mut))
      case None => Some(ValueError)
      case Some(p) => if PyIndex(n, p - 1).None? then Some(IndexError) else None
  }

  /** One pass of the combination loop over the working buffer: the residue is
      overwritten only when it equals the segment's origin residue. */
  function ApplySegment(buf: string, mut: string): (r: Result<string>)
    ensures r.Raise? ==> r.error == IndexError || r.error == ValueError
  {
    match SegmentError(|buf|, mut)
    case Some(e) => Raise(e)
    case None =>
      var i := SegmentIndex(|buf|, mut).value;
      Ok(if buf[i] == mut[0] then buf[i := mut[|mut| - 1]] else buf)
  }

  /** The combination loop: segments applied left to right to one working buffer;
      the first segment that raises ends it. */
  function ApplySegments(buf: string, muts: seq<string>): (r: Result<string>)
    ensures r.Raise? ==> r.error == IndexError || r.error == ValueError
    decreases |muts|
  {
    if |muts| == 0 then Ok(buf)
    else match ApplySegments(buf, muts[..|muts| - 1])
      case Raise(e) => Raise(e)
      case Ok(b) => ApplySegment(b, muts[|muts| - 1])
  }

  /** The single-token branch of `seq_muting` for a mutation cell `f`: IndexError
      for an empty cell, the unchanged reference when the position is not an
      integer, IndexError outside the sequence, the mutated reference when the
      origin residue matches, and None (Python falls off the end of the function)
      when it does not. */
  function Single(line: string, f: string, sequence: string): (r: Result<Option<string>>)
    ensures r.Raise? ==> r.error == IndexError
  {
    if |f| == 0 then Raise(IndexError)
    else match ParseInt(Mid(f))
      case None => Ok(Some(WithColumn(line, sequence)))
      case Some(p) =>
        match PyIndex(|sequence|, p - 1)
        case None => Raise(IndexError)
        case Some(i) =>
          if sequence[i] == f[0] then Ok(Some(WithColumn(line, sequence[i := f[|f| - 1]])))
          else Ok(None)
  }

  /** What `seq_muting(line, mutpos, sequence)` returns: the extended line, None,
      or the exception it raises. */
  function Muting(line: string, mutpos: int, sequence: string): (r: Result<Option<string>>)
    ensures r.Raise? ==> r.error == IndexError || r.error == ValueError
  {
    match Field(line, mutpos)
    case Raise(e) => Raise(e)
    case Ok(f) =>
      if ':' !in f then Single(line, f, sequence)
      else
        match ApplySegments(sequence, Split(f, ':'))
        case Raise(e) => Raise(e)
        case Ok(s) => Ok(Some(WithColumn(line, s)))
  }

  /** Once a segment has raised, the later segments are never reached. */
  lemma {:induction false} RaiseSticks(buf: string, muts: seq<string>, n: nat)
    requires n <= |muts| && ApplySegments(buf, muts[..n]).Raise?
    ensures ApplySegments(buf, muts) == ApplySegments(buf, muts[..n])
    decreases |muts| - n
  {
    if n < |muts| {
      assert muts[..n + 1][..n] == muts[..n];
      RaiseSticks(buf, muts, n + 1);
    } else {
      assert muts[..n] == muts;
    }
  }

  /** The single-token branch, on a mutable copy of the reference. */
  method MutateSingle(line: string, field: string, sequence: string) returns (r: Result<Option<string>>)
    ensures r == Single(line, field, sequence)
  {
    var tempseq := new char[|sequence|](i requires 0 <= i < |sequence| => sequence[i]);
    if |field| == 0 {
      return Raise(IndexError);
    }
    var baseaa := field[0];
    var posaa := ParseInt(Mid(field));
    if posaa.None? {
      return Ok(Some(WithColumn(line, sequence)));
    }
    var mutaa := field[|field| - 1];
    var idx := PyIndex(tempseq.Length, posaa.value - 1);
    if idx.None? {
      return Raise(IndexError);
    }
    assert tempseq[..] == sequence;
    if tempseq[idx.value] == baseaa {
      tempseq[idx.value] := mutaa;
      assert tempseq[..] == sequence[idx.value := mutaa];
      return Ok(Some(WithColumn(line, tempseq[..])));
    }
    return Ok(None);
  }

  /** One more segment applies to the buffer the earlier ones left. */
  lemma SegmentStep(buf: string, muts: seq<string>, n: nat, cur: string)
    requires n < |muts| && ApplySegments(buf, muts[..n]) == Ok(cur)
    ensures ApplySegments(buf, muts[..n + 1]) == ApplySegment(cur, muts[n])
  {
    assert muts[..n + 1][..n] == muts[..n];
  }

  /** The combination loop, overwriting a mutable copy of the reference in place. */
  method MutateCombination(sequence: string, splmut: seq<string>) returns (r: Result<string>)
    ensures r == ApplySegments(sequence, splmut)
  {
    var tempseq := new char[|sequence|](i requires 0 <= i < |sequence| => sequence[i]);
    assert tempseq[..] == sequence;
    for n := 0 to |splmut|
      invariant ApplySegments(sequence, splmut[..n]) == Ok(tempseq[..])
    {
      ghost var cur := tempseq[..];
      var mut := splmut[n];
      SegmentStep(sequence, splmut, n, cur);
      var err := SegmentError(tempseq.Length, mut);
      if err.Some? {
        RaiseSticks(sequence, splmut, n + 1);
        return Raise(err.value);
      }
      var posaa := SegmentIndex(tempseq.Length, mut).value;
      if tempseq[posaa] == mut[0] {
        tempseq[posaa] := mut[|mut| - 1];
        assert tempseq[..] == cur[posaa := mut[|mut| - 1]];
      }
    }
    assert splmut[..|splmut|] == splmut;
    return Ok(tempseq[..]);
  }

  /** The imperative `seq_muting`: the mutation cell is looked up, then one of the
      two branches overwrites a copy of the reference. */
  method SeqMuting(line: string, mutpos: int, sequence: string) returns (r: Result<Option<string>>)
    ensures r == Muting(line, mutpos, sequence)
  {
    var sline := Cells(line);
    var k := PyIndex(|sline|, mutpos);
    if k.None? {
      return Raise(IndexError);
    }
    var field := sline[k.value];
    if ':' !in field {
      r := MutateSingle(line, field, sequence);
    } else {
      var tempseq := MutateCombination(sequence, Split(field, ':'));
      if tempseq.Raise? {
        return Raise(tempseq.error);
      }
      r := Ok(Some(WithColumn(line, tempseq.value)));
    }
  }

  /** A single-token field `<o><p><t>`: the residue at position p is replaced when
      it is o; a mismatch makes the function return None; a position outside the
      sequence raises IndexError. */
  lemma SingleToken(line: string, mutpos: int, sequence: string, o: char, p: int, t: char)
    requires Field(line, mutpos) == Ok([o] + IntToDecimal(p) + [t])
    requires o != ':' && t != ':'
    ensures var r := Muting(line, mutpos, sequence);
      match PyIndex(|sequence|, p - 1)
      case None => r == Raise(IndexError)
      case Some(i) =>
        if sequence[i] == o then r == Ok(Some(WithColumn(line, sequence[i := t])))
        else r == Ok(None)
  {
    var f := [o] + IntToDecimal(p) + [t];
    ParseIntRoundTrip(p);
    assert Mid(f) == IntToDecimal(p);
    assert ':' !in f by {
      forall i | 0 <= i < |f| ensures f[i] != ':' {
        if 0 < i < |f| - 1 {
          assert f[i] == IntToDecimal(p)[i - 1];
        }
      }
    }
  }

  /** A single-token field whose middle is not an integer (always so for one- and
      two-character fields) yields the line extended with the unchanged reference. */
  lemma NonNumericKeepsReference(line: string, mutpos: int, sequence: string, f: string)
    requires Field(line, mutpos) == Ok(f)
    requires |f| > 0 && ':' !in f
    requires |f| <= 2 || ParseInt(Mid(f)).None?
    ensures Muting(line, mutpos, sequence) == Ok(Some(WithColumn(line, sequence)))
  {
  }

  /** An empty mutation cell raises IndexError at `sline[mutpos][0]`. */
  lemma EmptyFieldRaises(line: string, mutpos: int, sequence: string)
    requires Field(line, mutpos) == Ok("")
    ensures Muting(line, mutpos, sequence) == Raise(IndexError)
  {
  }

  /** One segment keeps the length of the buffer and changes at most the residue
      at the position it points at, to its target residue. */
  lemma SegmentShape(buf: string, mut: string)
    ensures ApplySegment(buf, mut).Ok? <==> SegmentError(|buf|, mut).None?
    ensures ApplySegment(buf, mut).Ok? ==>
      var out := ApplySegment(buf, mut).value;
      && |out| == |buf|
      && forall i :: 0 <= i < |buf| && out[i] != buf[i] ==>
           SegmentIndex(|buf|, mut) == Some(i) && out[i] == Last(mut)
  {
  }

  /** The combination loop succeeds exactly when no segment raises; it then keeps
      the length of the reference, and every residue that differs from the
      reference was written by some segment that points at that position. */
  lemma {:induction false} SegmentsShape(buf: string, muts: seq<string>)
    ensures ApplySegments(buf, muts).Ok? <==>
      forall k :: 0 <= k < |muts| ==> SegmentError(|buf|, muts[k]).None?
    ensures ApplySegments(buf, muts).Ok? ==>
      var out := ApplySegments(buf, muts).value;
      && |out| == |buf|
      && forall i :: 0 <= i < |buf| && out[i] != buf[i] ==>
           exists k :: 0 <= k < |muts| && SegmentIndex(|buf|, muts[k]) == Some(i) && out[i] == Last(muts[k])
    decreases |muts|
  {
    if |muts| > 0 {
      var n := |muts|;
      var pre := muts[..n - 1];
      var m := muts[n - 1];
      SegmentsShape(buf, pre);
      assert forall k :: 0 <= k < n - 1 ==> muts[k] == pre[k];
      assert muts == pre + [m];
      var acc := ApplySegments(buf, pre);
      if acc.Ok? {
        var b := acc.value;
        SegmentShape(b, m);
        assert ApplySegments(buf, muts) == ApplySegment(b, m);
        if ApplySegment(b, m).Ok? {
          var out := ApplySegment(b, m).value;
          forall i | 0 <= i < |buf| && out[i] != buf[i]
            ensures exists k :: 0 <= k < n && SegmentIndex(|buf|, muts[k]) == Some(i) && out[i] == Last(muts[k])
          {
            if out[i] != b[i] {
              assert SegmentIndex(|buf|, muts[n - 1]) == Some(i);
            } else {
              var k :| 0 <= k < n - 1 && SegmentIndex(|buf|, pre[k]) == Some(i) && b[i] == Last(pre[k]);
              assert muts[k] == pre[k];
            }
          }
        }
      }
    }
  }

  /** The exception of a combination is the one its first failing segment raises. */
  lemma {:induction false} FirstFailure(buf: string, muts: seq<string>, k: nat)
    requires k < |muts| && SegmentError(|buf|, muts[k]).Some?
    requires forall j :: 0 <= j < k ==> SegmentError(|buf|, muts[j]).None?
    ensures ApplySegments(buf, muts) == Raise(SegmentError(|buf|, muts[k]).value)
  {
    var pre := muts[..k];
    SegmentsShape(buf, pre);
    assert muts[..k + 1][..k] == pre;
    RaiseSticks(buf, muts, k + 1);
  }

  /** Segments at pairwise different positions act independently: each checks its
      origin residue against the reference itself. */
  lemma {:induction false} DisjointSegments(buf: string, muts: seq<string>)
    requires forall k :: 0 <= k < |muts| ==> SegmentIndex(|buf|, muts[k]).Some?
    requires forall j, k :: 0 <= j < k < |muts| ==> SegmentIndex(|buf|, muts[j]) != SegmentIndex(|buf|, muts[k])
    ensures ApplySegments(buf, muts).Ok? && |ApplySegments(buf, muts).value| == |buf|
    ensures forall k :: 0 <= k < |muts| ==>
      var i := SegmentIndex(|buf|, muts[k]).value;
      ApplySegments(buf, muts).value[i] == if buf[i] == muts[k][0] then Last(muts[k]) else buf[i]
    decreases |muts|
  {
    SegmentsShape(buf, muts);
    if |muts| > 0 {
      var n := |muts|;
      var pre := muts[..n - 1];
      SegmentsShape(buf, pre);
      DisjointSegments(buf, pre);
      var b := ApplySegments(buf, pre).value;
      var out := ApplySegments(buf, muts).value;
      var j := SegmentIndex(|buf|, muts[n - 1]).value;
      assert b[j] == buf[j];
      forall k | 0 <= k < n
        ensures var i := SegmentIndex(|buf|, muts[k]).value;
          out[i] == if buf[i] == muts[k][0] then Last(muts[k]) else buf[i]
      {
        if k < n - 1 {
          assert muts[k] == pre[k];
        }
      }
    }
  }

  /** Two segments at the same position: the second checks its origin against the
      residue the first wrote, so `a<p>b:b<p>c` rewrites a to c. */
  lemma ChainedSamePosition(buf: string, p: int, a: char, b: char, c: char)
    requires PyIndex(|buf|, p - 1).Some? && buf[PyIndex(|buf|, p - 1).value] == a
    ensures ApplySegments(buf, [[a] + IntToDecimal(p) + [b], [b] + IntToDecimal(p) + [c]])
      == Ok(buf[PyIndex(|buf|, p - 1).value := c])
  {
    var i := PyIndex(|buf|, p - 1).value;
    var d := IntToDecimal(p);
    var m1, m2 := [a] + d + [b], [b] + d + [c];
    SegmentAt(buf, a, b, p);
    SegmentAt(buf[i := b], b, c, p);
    assert buf[i := b][i := c] == buf[i := c];
    var muts := [m1, m2];
    assert muts[..1] == [m1];
    assert [m1][..0] == [];
    assert ApplySegments(buf, [m1]) == Ok(buf[i := b]);
  }

  /** A segment written with the decimal text of its position acts at that
      position. */
  lemma SegmentAt(buf: string, x: char, y: char, p: int)
    requires PyIndex(|buf|, p - 1).Some?
    ensures var i := PyIndex(|buf|, p - 1).value;
      ApplySegment(buf, [x] + IntToDecimal(p) + [y]) == Ok(if buf[i] == x then buf[i := y] else buf)
  {
    var m := [x] + IntToDecimal(p) + [y];
    ParseIntRoundTrip(p);
    assert Mid(m) == IntToDecimal(p);
    assert m[0] == x && m[|m| - 1] == y;
  }

  /** The cell at column 1 of a line holding two cells. */
  lemma SecondField(line: string, a: string, b: string)
    requires RStrip(line) == a + [','] + b && ',' !in a && ',' !in b
    ensures Field(line, 1) == Ok(b)
  {
    SplitPrefix(a, b, ',');
  }

  /** The example line `1,V4L` without its newline. */
  lemma StripV4L()
    ensures RStrip("1,V4L\n") == "1,V4L"
  {
    assert IsSpace('\n') && !IsSpace('L');
    assert "1,V4L\n"[..5] == "1,V4L";
  }

  /** The mutation cell of the example line `1,V4L`. */
  lemma CellV4L()
    ensures Field("1,V4L\n", 1) == Ok("V4L")
  {
    StripV4L();
    assert "1,V4L" == "1" + [','] + "V4L";
    assert ',' !in "V4L";
    SecondField("1,V4L\n", "1", "V4L");
  }

  /** The example line `1,V4L` extended with MASLLT. */
  lemma ExtendV4L()
    ensures WithColumn("1,V4L\n", "MASLLT") == "1,V4L,MASLLT\n"
  {
    assert "1,V4L" + "," + "MASLLT" + "\n" == "1,V4L,MASLLT\n";
    StripV4L();
  }

  /** The token `V4L` on MASVLT, whatever the line. */
  lemma SingleV4L(line: string)
    ensures Single(line, "V4L", "MASVLT") == Ok(Some(WithColumn(line, "MASLLT")))
  {
    assert Mid("V4L") == "4";
    assert ParseInt("4") == Some(4);
    assert PyIndex(6, 3) == Some(3);
    assert "MASVLT"[3 := 'L'] == "MASLLT";
  }

  /** `V4L` on MASVLT. */
  lemma ExampleSingle()
    ensures Muting("1,V4L\n", 1, "MASVLT") == Ok(Some("1,V4L,MASLLT\n"))
  {
    CellV4L();
    ExtendV4L();
    SingleV4L("1,V4L\n");
    assert ':' !in "V4L";
  }

  /** `A2K:T6Q` on MASVLT: the combination loop alone. */
  lemma ExampleSegments()
    ensures ApplySegments("MASVLT", ["A2K", "T6Q"]) == Ok("MKSVLQ")
  {
    assert ApplySegment("MASVLT", "A2K") == Ok("MKSVLT") by {
      assert Mid("A2K") == "2" && ParseInt("2") == Some(2);
      assert "MASVLT"[1 := 'K'] == "MKSVLT";
    }
    assert ApplySegment("MKSVLT", "T6Q") == Ok("MKSVLQ") by {
      assert Mid("T6Q") == "6" && ParseInt("6") == Some(6);
      assert "MKSVLT"[5 := 'Q'] == "MKSVLQ";
    }
    var muts := ["A2K", "T6Q"];
    assert muts[..1] == ["A2K"] && ["A2K"][..0] == [];
  }

  /** The example cell split into its segments. */
  lemma ExampleCombinationSplit()
    ensures ':' in "A2K:T6Q" && Split("A2K:T6Q", ':') == ["A2K", "T6Q"]
  {
    assert "A2K:T6Q" == "A2K" + [':'] + "T6Q";
    SplitPrefix("A2K", "T6Q", ':');
    assert ':' !in "T6Q";
    assert ["A2K"] + ["T6Q"] == ["A2K", "T6Q"];
  }

  /** The example line `7,A2K:T6Q` without its newline. */
  lemma StripA2KT6Q()
    ensures RStrip("7,A2K:T6Q\n") == "7,A2K:T6Q"
  {
    assert IsSpace('\n') && !IsSpace('Q');
    assert "7,A2K:T6Q\n"[..9] == "7,A2K:T6Q";
  }

  /** The mutation cell of the example line `7,A2K:T6Q`. */
  lemma CellA2KT6Q()
    ensures Field("7,A2K:T6Q\n", 1) == Ok("A2K:T6Q")
  {
    StripA2KT6Q();
    assert "7,A2K:T6Q" == "7" + [','] + "A2K:T6Q";
    assert ',' !in "A2K:T6Q";
    SecondField("7,A2K:T6Q\n", "7", "A2K:T6Q");
  }

  /** The example line `7,A2K:T6Q` extended with MKSVLQ. */
  lemma ExtendA2KT6Q()
    ensures WithColumn("7,A2K:T6Q\n", "MKSVLQ") == "7,A2K:T6Q,MKSVLQ\n"
  {
    assert "7,A2K:T6Q" + "," + "MKSVLQ" + "\n" == "7,A2K:T6Q,MKSVLQ\n";
    StripA2KT6Q();
  }

  /** `A2K:T6Q` on MASVLT, through the whole line. */
  lemma ExampleCombination()
    ensures Muting("7,A2K:T6Q\n", 1, "MASVLT") == Ok(Some("7,A2K:T6Q,MKSVLQ\n"))
  {
    CellA2KT6Q();
    ExtendA2KT6Q();
    ExampleCombinationSplit();
    ExampleSegments();
  }

  /** `filename(data)`: the first two `.`-separated pieces joined by `_seq.`;
      IndexError when the name has no `.`. */
  function Filename(data: string): (r: Result<string>)
    ensures r.Raise? <==> '.' !in data
  {
    var bdata := Split(data, '.');
    CountPositive(data, '.');
    if |bdata| < 2 then Raise(IndexError) else Ok(bdata[0] + "_seq." + bdata[1])
  }

  lemma FilenameOfStemAndExtension(name: string, ext: string, rest: string)
    requires '.' !in name && '.' !in ext
    requires rest == [] || rest[0] == '.'
    ensures Filename(name + "." + ext + rest) == Ok(name + "_seq." + ext)
  {
    var tail := ext + rest;
    assert name + "." + ext + rest == name + ['.'] + tail;
    SplitPrefix(name, tail, '.');
    var parts := Split(name + "." + ext + rest, '.');
    assert parts == [name] + Split(tail, '.');
    if rest == [] {
      assert tail == ext;
    } else {
      assert tail == ext + ['.'] + rest[1..];
      SplitPrefix(ext, rest[1..], '.');
    }
    assert parts[0] == name && parts[1] == ext;
  }

  /** The header line of the extended dataset. */
  function Header(firstline: string): string {
    RStrip(firstline) + ",sequence\n"
  }

  /** What `filout.write(seq_muting(...))` does with one result: a string is
      written, None makes `write` raise TypeError, an exception propagates. */
  function WriteFailure(r: Result<Option<string>>): Option<PyError> {
    match r
    case Raise(e) => Some(e)
    case Ok(None) => Some(TypeError)
    case Ok(Some(_)) => None
  }

  /** `seq_adding` over the lines of the dataset: the lines written to the new
      file before it ends, and the exception that ended it, if any. */
  method SeqAdding(lines: seq<string>, mutpos: int, sequence: string)
    returns (written: seq<string>, failure: Option<PyError>)
    ensures failure == Some(StopIteration) <==> |lines| == 0
    ensures |written| <= |lines|
    ensures |lines| > 0 ==> 1 <= |written| <= |lines| && written[0] == Header(lines[0])
    ensures forall k :: 1 <= k < |written| ==> Muting(lines[k], mutpos, sequence) == Ok(Some(written[k]))
    ensures failure.None? ==> |written| == |lines|
    ensures |lines| > 0 && failure.Some? ==>
      |written| < |lines| && failure == WriteFailure(Muting(lines[|written|], mutpos, sequence))
  {
    if |lines| == 0 {
      return [], Some(StopIteration);
    }
    written := [Header(lines[0])];
    for k := 1 to |lines|
      invariant |written| == k && written[0] == Header(lines[0])
      invariant forall j :: 1 <= j < k ==> Muting(lines[j], mutpos, sequence) == Ok(Some(written[j]))
    {
      var newline := SeqMuting(lines[k], mutpos, sequence);
      if newline.Raise? {
        return written, Some(newline.error);
      }
      if newline.value.None? {
        return written, Some(TypeError);
      }
      written := written + [newline.value.value];
    }
    failure := None;
  }
}
