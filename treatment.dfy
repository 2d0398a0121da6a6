/** Preparation of a variant dataset for training: rows are filtered into
    `[sequence, fitness, mutation]` records, split into parallel lists, ranked by
    fitness for the ten best mutations, and the reference sequence is read from a
    FASTA text. */
module Treatment {
  import opened Wrappers
  import opened PyStr
  import Ranker

  /** The twenty standard amino acids, by their one-letter codes. */
  const Aat: seq<char> := "ARNDCQEGHILKMFPSTWYV"

  /** One dataset entry as the script stores it: the variant's sequence (the last
      cell of its row), its fitness text and its mutation notation. */
  datatype Record = Record(sequence: string, fitness: string, mutation: string)

  /** Every residue of `s` is a known amino acid. */
  predicate Clean(s: string, aas: seq<char>) {
    forall i :: 0 <= i < |s| ==> s[i] in aas
  }

  /** With the standard alphabet, a sequence of standard residues is clean and a
      sequence holding an `X` is not. */
  lemma ExampleClean()
    ensures Clean("MASVLT", Aat)
    ensures !Clean("MAXVLT", Aat)
  {
    assert "MAXVLT"[2] == 'X' && 'X' !in Aat;
  }

  /** `check_aa`: 0 for a sequence made only of known amino acids, 1 as soon as an
      unknown one is met. */
  method CheckAa(s: string, aas: seq<char>) returns (r: int)
    ensures r == 0 || r == 1
    ensures r == 0 <==> Clean(s, aas)
  {
    for i := 0 to |s|
      invariant forall k :: 0 <= k < i ==> s[k] in aas
    {
      if s[i] !in aas {
        return 1;
      }
    }
    return 0;
  }

  /** The record read from one data line: the last cell, then the fitness cell, then
      the mutation cell, each of which raises IndexError when the row is too short. */
  function RowRecord(line: string, cellmut: int, cellfit: int): (r: Result<Record>)
    ensures var n := |Cells(line)|;
      r.Ok? <==> -(n as int) <= cellfit < n && -(n as int) <= cellmut < n
    ensures r.Raise? ==> r.error == IndexError
    ensures r.Ok? ==> r.value.sequence == Last(Cells(line))
    ensures r.Ok? ==> r.value.fitness == Cells(line)[PyIndex(|Cells(line)|, cellfit).value]
    ensures r.Ok? ==> r.value.mutation == Cells(line)[PyIndex(|Cells(line)|, cellmut).value]
    ensures r.Ok? ==> ',' !in r.value.sequence && ',' !in r.value.fitness && ',' !in r.value.mutation
  {
    var sline := Cells(line);
    match PyIndex(|sline|, cellfit)
    case None => Raise(IndexError)
    case Some(f) =>
      match PyIndex(|sline|, cellmut)
      case None => Raise(IndexError)
      case Some(m) => Ok(Record(sline[|sline| - 1], sline[f], sline[m]))
  }

  /** A line starting with `id` is the header and is skipped. */
  predicate IsHeader(line: string) {
    "id" <= line
  }

  /** A record is kept when its fitness is present and its sequence is clean. */
  predicate Keep(rec: Record, aas: seq<char>) {
    rec.fitness != "" && Clean(rec.sequence, aas)
  }

  /** The records `data_retrieve` collects from the lines read so far, in order. */
  function Retrieved(lines: seq<string>, aas: seq<char>, cellmut: int, cellfit: int): (r: Result<seq<Record>>)
    ensures r.Ok? ==> |r.value| <= |lines|
    ensures r.Ok? ==> forall rec :: rec in r.value ==> Keep(rec, aas)
    ensures r.Raise? ==> r.error == IndexError
  {
    if |lines| == 0 then Ok([])
    else
      var front := lines[..|lines| - 1];
      var line := lines[|lines| - 1];
      match Retrieved(front, aas, cellmut, cellfit)
      case Raise(e) => Raise(e)
      case Ok(ds) =>
        if IsHeader(line) then Ok(ds)
        else
          match RowRecord(line, cellmut, cellfit)
          case Raise(e) => Raise(e)
          case Ok(rec) => Ok(if Keep(rec, aas) then ds + [rec] else ds)
  }

  /** `data_retrieve` over the lines of the dataset file. */
  method DataRetrieve(lines: seq<string>, aas: seq<char>, cellmut: int, cellfit: int)
    returns (r: Result<seq<Record>>)
    ensures r == Retrieved(lines, aas, cellmut, cellfit)
  {
    var dataset: seq<Record> := [];
    for n := 0 to |lines|
      invariant Retrieved(lines[..n], aas, cellmut, cellfit) == Ok(dataset)
    {
      assert lines[..n + 1][..n] == lines[..n];
      var line := lines[n];
      if !IsHeader(line) {
        var tempDat := RowRecord(line, cellmut, cellfit);
        if tempDat.Raise? {
          RetrievedRaiseSticks(lines, aas, cellmut, cellfit, n + 1);
          return Raise(tempDat.error);
        }
        if tempDat.value.fitness != "" {
          var bad := CheckAa(tempDat.value.sequence, aas);
          if bad == 0 {
            dataset := dataset + [tempDat.value];
          }
        }
      }
    }
    assert lines[..|lines|] == lines;
    return Ok(dataset);
  }

  lemma {:induction false} RetrievedRaiseSticks(lines: seq<string>, aas: seq<char>, cellmut: int, cellfit: int, n: nat)
    requires n <= |lines| && Retrieved(lines[..n], aas, cellmut, cellfit).Raise?
    ensures Retrieved(lines, aas, cellmut, cellfit) == Retrieved(lines[..n], aas, cellmut, cellfit)
    decreases |lines| - n
  {
    if n < |lines| {
      assert lines[..n + 1][..n] == lines[..n];
      RetrievedRaiseSticks(lines, aas, cellmut, cellfit, n + 1);
    } else {
      assert lines[..n] == lines;
    }
  }

  /** Lines are filtered one at a time: the records of two consecutive blocks of
      lines are the records of the first block followed by those of the second. */
  lemma {:induction false} RetrievedConcat(a: seq<string>, b: seq<string>, aas: seq<char>, cellmut: int, cellfit: int)
    requires Retrieved(a, aas, cellmut, cellfit).Ok?
    ensures Retrieved(a + b, aas, cellmut, cellfit) ==
      match Retrieved(b, aas, cellmut, cellfit)
      case Raise(e) => Raise(e)
      case Ok(rb) => Ok(Retrieved(a, aas, cellmut, cellfit).value + rb)
    decreases |b|
  {
    if |b| == 0 {
      assert a + b == a;
      assert Retrieved(a, aas, cellmut, cellfit).value + [] == Retrieved(a, aas, cellmut, cellfit).value;
    } else {
      var b' := b[..|b| - 1];
      var line := b[|b| - 1];
      assert (a + b)[..|a + b| - 1] == a + b';
      assert (a + b)[|a + b| - 1] == line;
      RetrievedConcat(a, b', aas, cellmut, cellfit);
      var ra := Retrieved(a, aas, cellmut, cellfit).value;
      match Retrieved(b', aas, cellmut, cellfit)
      case Raise(e) =>
      case Ok(rb) =>
        if !IsHeader(line) && RowRecord(line, cellmut, cellfit).Ok? {
          var rec := RowRecord(line, cellmut, cellfit).value;
          if Keep(rec, aas) {
            assert ra + rb + [rec] == ra + (rb + [rec]);
          }
        }
    }
  }

  /** A single data line gives its record when it is kept, and nothing otherwise. */
  lemma RetrievedSingle(line: string, aas: seq<char>, cellmut: int, cellfit: int)
    requires !IsHeader(line) && RowRecord(line, cellmut, cellfit).Ok?
    ensures var rec := RowRecord(line, cellmut, cellfit).value;
      Retrieved([line], aas, cellmut, cellfit) == Ok(if Keep(rec, aas) then [rec] else [])
  {
    assert [line][..0] == [];
    var rec := RowRecord(line, cellmut, cellfit).value;
    assert [] + [rec] == [rec];
  }

  /** A line that does not raise follows lines that did not, and can only add a
      record. */
  lemma RetrievedGrows(lines: seq<string>, aas: seq<char>, cellmut: int, cellfit: int, n: nat)
    requires n < |lines| && Retrieved(lines[..n + 1], aas, cellmut, cellfit).Ok?
    ensures Retrieved(lines[..n], aas, cellmut, cellfit).Ok?
    ensures Retrieved(lines[..n], aas, cellmut, cellfit).value <= Retrieved(lines[..n + 1], aas, cellmut, cellfit).value
  {
    assert lines[..n + 1][..n] == lines[..n];
  }

  /** When no line raises, no prefix of the lines raises either, and the records of
      a prefix are a prefix of the records. */
  lemma {:induction false} RetrievedPrefix(lines: seq<string>, aas: seq<char>, cellmut: int, cellfit: int, n: nat)
    requires Retrieved(lines, aas, cellmut, cellfit).Ok? && n <= |lines|
    ensures Retrieved(lines[..n], aas, cellmut, cellfit).Ok?
    ensures Retrieved(lines[..n], aas, cellmut, cellfit).value <= Retrieved(lines, aas, cellmut, cellfit).value
    decreases |lines| - n
  {
    if n == |lines| {
      assert lines[..n] == lines;
    } else {
      RetrievedPrefix(lines, aas, cellmut, cellfit, n + 1);
      RetrievedGrows(lines, aas, cellmut, cellfit, n);
      PrefixTrans(Retrieved(lines[..n], aas, cellmut, cellfit).value,
        Retrieved(lines[..n + 1], aas, cellmut, cellfit).value, Retrieved(lines, aas, cellmut, cellfit).value);
    }
  }

  /** Every data line whose record is kept has its record in the result: a line
      with a fitness and a clean sequence is never dropped. */
  lemma {:induction false} RetrievedComplete(lines: seq<string>, aas: seq<char>, cellmut: int, cellfit: int, j: nat)
    requires Retrieved(lines, aas, cellmut, cellfit).Ok? && j < |lines|
    requires !IsHeader(lines[j]) && RowRecord(lines[j], cellmut, cellfit).Ok?
    requires Keep(RowRecord(lines[j], cellmut, cellfit).value, aas)
    ensures RowRecord(lines[j], cellmut, cellfit).value in Retrieved(lines, aas, cellmut, cellfit).value
  {
    RetrievedPrefix(lines, aas, cellmut, cellfit, j + 1);
    assert lines[..j + 1][..j] == lines[..j];
    assert lines[..j + 1][j] == lines[j];
    var rec := RowRecord(lines[j], cellmut, cellfit).value;
    var pre := Retrieved(lines[..j + 1], aas, cellmut, cellfit).value;
    assert pre[|pre| - 1] == rec;
    assert Retrieved(lines, aas, cellmut, cellfit).value[|pre| - 1] == rec;
  }

  /** Every record kept comes from a data line of the input, read by RowRecord. */
  lemma {:induction false} RetrievedProvenance(lines: seq<string>, aas: seq<char>, cellmut: int, cellfit: int, rec: Record)
    requires Retrieved(lines, aas, cellmut, cellfit).Ok?
    requires rec in Retrieved(lines, aas, cellmut, cellfit).value
    ensures exists j :: 0 <= j < |lines| && !IsHeader(lines[j]) && RowRecord(lines[j], cellmut, cellfit) == Ok(rec)
  {
    var front := lines[..|lines| - 1];
    var line := lines[|lines| - 1];
    var ds := Retrieved(front, aas, cellmut, cellfit).value;
    if rec in ds {
      RetrievedProvenance(front, aas, cellmut, cellfit, rec);
      var j :| 0 <= j < |front| && !IsHeader(front[j]) && RowRecord(front[j], cellmut, cellfit) == Ok(rec);
      assert lines[j] == front[j];
    } else {
      assert RowRecord(line, cellmut, cellfit) == Ok(rec);
    }
  }

  /** A header line contributes nothing, wherever it appears. */
  lemma RetrievedHeaderIgnored(a: seq<string>, h: string, b: seq<string>, aas: seq<char>, cellmut: int, cellfit: int)
    requires IsHeader(h)
    ensures Retrieved(a + [h] + b, aas, cellmut, cellfit) == Retrieved(a + b, aas, cellmut, cellfit)
  {
    match Retrieved(a, aas, cellmut, cellfit)
    case Raise(e) =>
      assert (a + [h] + b)[..|a|] == a;
      assert (a + b)[..|a|] == a;
      RetrievedRaiseSticks(a + [h] + b, aas, cellmut, cellfit, |a|);
      RetrievedRaiseSticks(a + b, aas, cellmut, cellfit, |a|);
    case Ok(ra) =>
      assert Retrieved([h], aas, cellmut, cellfit) == Ok([]) by {
        assert [h][..0] == [];
      }
      RetrievedConcat(a, [h], aas, cellmut, cellfit);
      RetrievedConcat(a + [h], b, aas, cellmut, cellfit);
      RetrievedConcat(a, b, aas, cellmut, cellfit);
      assert ra + [] == ra;
  }

  /** `data_sep`: the sequences and the fitness texts of the records, as two lists
      in the records' order. */
  method DataSep(data: seq<Record>) returns (seqs: seq<string>, fits: seq<string>)
    ensures |seqs| == |data| && |fits| == |data|
    ensures forall i :: 0 <= i < |data| ==> seqs[i] == data[i].sequence && fits[i] == data[i].fitness
  {
    seqs, fits := [], [];
    for i := 0 to |data|
      invariant |seqs| == i && |fits| == i
      invariant forall k :: 0 <= k < i ==> seqs[k] == data[k].sequence && fits[k] == data[k].fitness
    {
      seqs := seqs + [data[i].sequence];
      fits := fits + [data[i].fitness];
    }
  }

  function Min(a: int, b: int): int {
    if a <= b then a else b
  }

  /** `sort_key` for every record: its fitness converted by `float()`. */
  function Keys(dataset: seq<Record>, toFloat: string -> real): (keys: seq<real>)
    ensures |keys| == |dataset|
    ensures forall i :: 0 <= i < |dataset| ==> keys[i] == toFloat(dataset[i].fitness)
  {
    seq(|dataset|, i requires 0 <= i < |dataset| => toFloat(dataset[i].fitness))
  }

  /** The positions of the records in `sorted(dataset, key=sort_key, reverse=True)`. */
  function Ranking(dataset: seq<Record>, toFloat: string -> real): seq<nat> {
    Ranker.StableOrder(Keys(dataset, toFloat), |dataset|)
  }

  /** `mut_comb_s`: the mutations of the best-ranked records, at most ten. */
  method MutCombS(dataset: seq<Record>, toFloat: string -> real) returns (muta: seq<string>)
    ensures |muta| == Min(10, |dataset|)
    ensures forall k :: 0 <= k < |muta| ==> muta[k] == dataset[Ranking(dataset, toFloat)[k]].mutation
  {
    var order := Ranking(dataset, toFloat);
    var sortedFit := seq(|order|, k requires 0 <= k < |order| => dataset[order[k]]);
    muta := [];
    for k := 0 to |sortedFit|
      invariant |muta| == k && k < 10
      invariant forall j :: 0 <= j < k ==> muta[j] == dataset[order[j]].mutation
    {
      muta := muta + [sortedFit[k].mutation];
      if |muta| >= 10 {
        return;
      }
    }
  }

  /** The ranking lists every record once, fitness descending, equal fitness in
      input order; and the ten mutations returned belong to records at least as fit
      as every record left out. */
  lemma RankingProperties(dataset: seq<Record>, toFloat: string -> real)
    ensures var o := Ranking(dataset, toFloat);
      && |o| == |dataset|
      && (forall i :: 0 <= i < |dataset| ==> i in o)
      && (forall a, b :: 0 <= a < b < |o| ==> o[a] != o[b])
      && (forall a, b :: 0 <= a < b < |o| ==>
            toFloat(dataset[o[a]].fitness) >= toFloat(dataset[o[b]].fitness))
      && (forall a, b :: 0 <= a < b < |o| && toFloat(dataset[o[a]].fitness) == toFloat(dataset[o[b]].fitness) ==>
            o[a] < o[b])
  {
    Ranker.SortedOrder(Keys(dataset, toFloat));
  }

  /** Every record whose mutation `mut_comb_s` returns is at least as fit as every
      record it leaves out. */
  lemma TopTenDominates(dataset: seq<Record>, toFloat: string -> real, j: nat)
    requires j < |dataset|
    requires j !in Ranking(dataset, toFloat)[..Min(10, |dataset|)]
    ensures forall k :: 0 <= k < Min(10, |dataset|) ==>
      toFloat(dataset[Ranking(dataset, toFloat)[k]].fitness) >= toFloat(dataset[j].fitness)
  {
    Ranker.PrefixDominates(Keys(dataset, toFloat), Min(10, |dataset|), j);
  }

  /** The name of the output directory `making_directory` creates for a dataset
      path (the creation itself is not modelled): the file name without its
      directories and extension. */
  method MakingDirectory(path: string) returns (name: string)
    ensures name == Stem(path)
    ensures '/' !in name && '.' !in name
  {
    StemShape(path);
    var parts: seq<string>;
    if '/' in path {
      var splpath := Split(path, '/');
      parts := Split(splpath[|splpath| - 1], '.');
    } else {
      parts := Split(path, '.');
    }
    name := parts[0];
  }

  /** The sequence text of a FASTA file: its lines that do not start with `>`,
      stripped on the right, concatenated in order. */
  function FastaBody(lines: seq<string>): string {
    if |lines| == 0 then ""
    else
      var line := lines[|lines| - 1];
      FastaBody(lines[..|lines| - 1]) + (if ">" <= line then "" else RStrip(line))
  }

  /** `retrieve_seq` over the lines of a FASTA file. */
  method RetrieveSeq(lines: seq<string>) returns (sequence: string)
    ensures sequence == FastaBody(lines)
  {
    sequence := "";
    for n := 0 to |lines|
      invariant sequence == FastaBody(lines[..n])
    {
      assert lines[..n + 1][..n] == lines[..n];
      if !(">" <= lines[n]) {
        sequence := sequence + RStrip(lines[n]);
      }
    }
    assert lines[..|lines|] == lines;
  }

  /** The sequence of two blocks of lines is the first block's followed by the
      second's: a record per file, or several files, read alike. */
  lemma {:induction false} FastaBodyConcat(a: seq<string>, b: seq<string>)
    ensures FastaBody(a + b) == FastaBody(a) + FastaBody(b)
    decreases |b|
  {
    if |b| == 0 {
      assert a + b == a;
    } else {
      var b' := b[..|b| - 1];
      assert (a + b)[..|a + b| - 1] == a + b';
      assert (a + b)[|a + b| - 1] == b[|b| - 1];
      FastaBodyConcat(a, b');
    }
  }

  /** Lines read from a file end with their only newline; none of those newlines
      reaches the sequence. */
  lemma {:induction false} FastaBodyNoNewline(lines: seq<string>)
    requires forall k :: 0 <= k < |lines| ==> '\n' !in lines[k][..if |lines[k]| == 0 then 0 else |lines[k]| - 1]
    ensures '\n' !in FastaBody(lines)
  {
    if |lines| > 0 {
      var line := lines[|lines| - 1];
      FastaBodyNoNewline(lines[..|lines| - 1]);
      if !(">" <= line) {
        var r := RStrip(line);
        forall i | 0 <= i < |r| ensures r[i] != '\n' {
          if i < |line| - 1 {
            assert r[i] == line[..|line| - 1][i];
          } else {
            assert r[|r| - 1] == line[|line| - 1];
          }
        }
      }
    }
  }
}
