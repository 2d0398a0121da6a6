/** seq_checker_V2.py: audits a dataset against a reference sequence. Each claim is
    the origin-residue text of a row followed by its position text (`M1`, `V4`);
    the checker compares the claimed residue with the reference, writes one log line
    per claim whose position parses, then a summary, and returns 0 (corresponds) or
    1 (does not). */
module Checker {
  import opened Wrappers
  import opened PyStr

  /** `int(posaa[1:])`: the 1-based position of a claim, or None when Python's
      int() raises ValueError and the claim is skipped. */
  function ClaimPosition(claim: string): Option<int> {
    ParseInt(Drop1(claim))
  }

  /** A claim that is not skipped. */
  predicate Checked(claim: string) {
    ClaimPosition(claim).Some?
  }

  /** The index `position - 1` reaches, with Python's wrap-around; None when
      `fastaseq[pos]` raises IndexError. */
  function ClaimIndex(fasta: string, claim: string): Option<nat>
    requires Checked(claim)
  {
    PyIndex(|fasta|, ClaimPosition(claim).value - 1)
  }

  /** The reference holds the claimed residue at the claimed position. */
  predicate Corresponds(fasta: string, claim: string)
    requires Checked(claim)
  {
    ClaimIndex(fasta, claim).Some? && fasta[ClaimIndex(fasta, claim).value] == claim[0]
  }

  /** The fixed texts of the log lines. */
  const NotFound := " Not found in sequence's range|Sequence too short(most likely) checked -> False"
    + "------------------\n"
  const Matched := "  checked -> True\n"
  const Mismatched := "  checked -> False -----------" + "-----------\n"

  /** The log line written for a claim at a position inside the reference. */
  function Comparison(claim: string, found: char, trueaa: char, verdict: string): string {
    claim + " fasta aa = " + [found] + "  true aa = " + [trueaa] + verdict
  }

  /** The log line written for a checked claim. */
  function EntryLine(fasta: string, claim: string): string
    requires Checked(claim)
  {
    match ClaimIndex(fasta, claim)
    case None => claim + NotFound
    case Some(i) => Comparison(claim, fasta[i], claim[0], if Corresponds(fasta, claim) then Matched else Mismatched)
  }

  /** The closing lines of the log. */
  function SummaryLine(check: int): string {
    if check == 0 then "\nFull sequence checked\nResult : Sequence corresponds to dataset"
    else "\nFull sequence checked\nResult : Sequence does not correspond to dataset"
  }

  /** The claims that are not skipped, in input order. */
  function CheckedClaims(claims: seq<string>): (cs: seq<string>)
    ensures |cs| <= |claims|
    ensures forall c :: c in cs <==> c in claims && Checked(c)
  {
    if |claims| == 0 then []
    else
      var last := claims[|claims| - 1];
      assert claims == claims[..|claims| - 1] + [last];
      CheckedClaims(claims[..|claims| - 1]) + (if Checked(last) then [last] else [])
  }

  /** One log line per claim of `cs`, in order. */
  function AuditLines(fasta: string, cs: seq<string>): seq<string>
    requires forall c :: c in cs ==> Checked(c)
  {
    seq(|cs|, k requires 0 <= k < |cs| => EntryLine(fasta, cs[k]))
  }

  /** The value of the flag after the claims: set to 1 by the first checked claim
      that does not correspond, and never reset. */
  function Verdict(fasta: string, claims: seq<string>): int {
    if |claims| == 0 then 0
    else
      var last := claims[|claims| - 1];
      if Checked(last) && !Corresponds(fasta, last) then 1
      else Verdict(fasta, claims[..|claims| - 1])
  }

  /** The verdict is 0 exactly when every checked claim corresponds. */
  lemma {:induction false} VerdictMeaning(fasta: string, claims: seq<string>)
    ensures Verdict(fasta, claims) == 0 || Verdict(fasta, claims) == 1
    ensures Verdict(fasta, claims) == 0 <==>
      forall k :: 0 <= k < |claims| && Checked(claims[k]) ==> Corresponds(fasta, claims[k])
  {
    if |claims| > 0 {
      var n := |claims|;
      var pre, last := claims[..n - 1], claims[n - 1];
      VerdictMeaning(fasta, pre);
      if Verdict(fasta, claims) == 0 {
        forall k | 0 <= k < n && Checked(claims[k]) ensures Corresponds(fasta, claims[k]) {
          if k < n - 1 {
            assert pre[k] == claims[k];
          }
        }
      } else if Checked(last) && !Corresponds(fasta, last) {
        assert claims[n - 1] == last;
      } else {
        var k :| 0 <= k < n - 1 && Checked(pre[k]) && !Corresponds(fasta, pre[k]);
        assert claims[k] == pre[k];
      }
    }
  }

  /** The verdict after one more claim. */
  lemma VerdictStep(fasta: string, claims: seq<string>, n: nat)
    requires n < |claims|
    ensures Verdict(fasta, claims[..n + 1]) ==
      if Checked(claims[n]) && !Corresponds(fasta, claims[n]) then 1 else Verdict(fasta, claims[..n])
  {
    assert claims[..n + 1][..n] == claims[..n];
  }

  /** The body of the loop of `check_correspondence` for one claim: the log lines it
      writes (none when its position does not parse), and whether it sets the
      flag. */
  method AuditClaim(fastaseq: string, posaa: string) returns (entry: seq<string>, failed: bool)
    ensures entry == if Checked(posaa) then [EntryLine(fastaseq, posaa)] else []
    ensures failed <==> Checked(posaa) && !Corresponds(fastaseq, posaa)
  {
    var pos := ClaimPosition(posaa);
    if pos.None? {
      return [], false;
    }
    var trueaa := posaa[0];
    var idx := PyIndex(|fastaseq|, pos.value - 1);
    if idx.Some? {
      if fastaseq[idx.value] == trueaa {
        entry, failed := [Comparison(posaa, fastaseq[idx.value], trueaa, Matched)], false;
      } else {
        entry, failed := [Comparison(posaa, fastaseq[idx.value], trueaa, Mismatched)], true;
      }
    } else {
      entry, failed := [posaa + NotFound], true;
    }
  }

  /** `check_correspondence`: the flag `check` starts at 0 and is set to 1 by a
      mismatch or an out-of-range position; the log is the sequence of writes to the
      log file. */
  method CheckCorrespondence(fastaseq: string, aapos: seq<string>) returns (check: int, log: seq<string>)
    ensures check == Verdict(fastaseq, aapos)
    ensures log == AuditLines(fastaseq, CheckedClaims(aapos)) + [SummaryLine(check)]
  {
    check := 0;
    log := [];
    for n := 0 to |aapos|
      invariant check == Verdict(fastaseq, aapos[..n])
      invariant log == AuditLines(fastaseq, CheckedClaims(aapos[..n]))
    {
      VerdictStep(fastaseq, aapos, n);
      AuditStep(fastaseq, aapos, n);
      var entry, failed := AuditClaim(fastaseq, aapos[n]);
      if failed {
        check := 1;
      }
      log := log + entry;
    }
    assert aapos[..|aapos|] == aapos;
    log := log + [SummaryLine(check)];
  }

  /** The log after one more claim. */
  lemma AuditStep(fasta: string, claims: seq<string>, n: nat)
    requires n < |claims|
    ensures AuditLines(fasta, CheckedClaims(claims[..n + 1]))
      == AuditLines(fasta, CheckedClaims(claims[..n])) + if Checked(claims[n]) then [EntryLine(fasta, claims[n])] else []
  {
    AuditSnoc(fasta, claims[..n], claims[n]);
    assert claims[..n] + [claims[n]] == claims[..n + 1];
  }

  lemma AuditSnoc(fasta: string, claims: seq<string>, c: string)
    ensures AuditLines(fasta, CheckedClaims(claims + [c]))
      == AuditLines(fasta, CheckedClaims(claims)) + if Checked(c) then [EntryLine(fasta, c)] else []
  {
    assert (claims + [c])[..|claims|] == claims;
  }

  /** The claims kept from two consecutive blocks are those kept from the first
      followed by those kept from the second: order and repetitions are preserved. */
  lemma {:induction false} CheckedClaimsConcat(a: seq<string>, b: seq<string>)
    ensures CheckedClaims(a + b) == CheckedClaims(a) + CheckedClaims(b)
    decreases |b|
  {
    if |b| == 0 {
      assert a + b == a;
      assert CheckedClaims(a) + [] == CheckedClaims(a);
    } else {
      var b', c := b[..|b| - 1], b[|b| - 1];
      assert (a + b)[..|a + b| - 1] == a + b';
      assert (a + b)[|a + b| - 1] == c;
      CheckedClaimsConcat(a, b');
      var tail := if Checked(c) then [c] else [];
      assert CheckedClaims(a) + CheckedClaims(b') + tail == CheckedClaims(a) + (CheckedClaims(b') + tail);
    }
  }

  /** A single claim is kept exactly when it is checked. */
  lemma CheckedClaimsSingle(c: string)
    ensures CheckedClaims([c]) == if Checked(c) then [c] else []
  {
    assert [c][..0] == [];
  }

  /** The flag never returns to 0: a failing prefix fails the whole list. */
  lemma VerdictMonotone(fasta: string, a: seq<string>, b: seq<string>)
    ensures Verdict(fasta, a + b) == if Verdict(fasta, a) == 1 || Verdict(fasta, b) == 1 then 1 else 0
  {
    VerdictMeaning(fasta, a);
    VerdictMeaning(fasta, b);
    VerdictMeaning(fasta, a + b);
    assert forall k :: 0 <= k < |a| ==> (a + b)[k] == a[k];
    assert forall k :: 0 <= k < |b| ==> (a + b)[|a| + k] == b[k];
    if Verdict(fasta, a + b) == 1 {
      var k :| 0 <= k < |a + b| && Checked((a + b)[k]) && !Corresponds(fasta, (a + b)[k]);
      if k >= |a| {
        assert (a + b)[k] == b[k - |a|];
      }
    }
  }

  /** An empty claim list, or one whose claims are all skipped, corresponds. */
  lemma NothingCheckedCorresponds(fasta: string, claims: seq<string>)
    requires CheckedClaims(claims) == []
    ensures Verdict(fasta, claims) == 0
    ensures AuditLines(fasta, CheckedClaims(claims)) + [SummaryLine(0)]
      == ["\nFull sequence checked\nResult : Sequence corresponds to dataset"]
  {
    VerdictMeaning(fasta, claims);
    forall k | 0 <= k < |claims| ensures !Checked(claims[k]) {
      assert claims[k] !in CheckedClaims(claims);
    }
  }

  /** A claim outside the reference gets the "Not found" line and fails the check. */
  lemma OutOfRangeFails(fasta: string, claims: seq<string>, k: nat)
    requires k < |claims| && Checked(claims[k]) && ClaimIndex(fasta, claims[k]).None?
    ensures Verdict(fasta, claims) == 1
    ensures EntryLine(fasta, claims[k]) == claims[k] + NotFound
  {
    VerdictMeaning(fasta, claims);
  }

  /** Position 0 is not out of range: it compares with the last residue. */
  lemma PositionZeroWraps(fasta: string, r: char)
    requires |fasta| > 0
    ensures Checked([r, '0'])
    ensures Corresponds(fasta, [r, '0']) <==> fasta[|fasta| - 1] == r
  {
    assert Drop1([r, '0']) == "0";
    assert ParseInt("0") == Some(0);
  }

  /** Claims M1 and X2 against MASVLT: the first matches, the second does not. */
  lemma ExampleAudit()
    ensures Checked("M1") && Corresponds("MASVLT", "M1")
    ensures Checked("X2") && !Corresponds("MASVLT", "X2")
    ensures Verdict("MASVLT", ["M1", "X2"]) == 1
  {
    assert Drop1("M1") == "1" && ParseInt("1") == Some(1);
    assert Drop1("X2") == "2" && ParseInt("2") == Some(2);
    assert "X2" in ["M1", "X2"];
  }

  /** `mutpos = sline[trueaapos] + sline[posp]` for one dataset line. */
  function ClaimOf(line: string, trueaapos: int, posp: int): Result<string> {
    var sline := Cells(line);
    match PyIndex(|sline|, trueaapos)
    case None => Raise(IndexError)
    case Some(a) =>
      match PyIndex(|sline|, posp)
      case None => Raise(IndexError)
      case Some(b) => Ok(sline[a] + sline[b])
  }

  /** One pass of the loop of `retrieve_pos`: the claim of the line is kept when
      its first character is in the alphabet; an empty claim raises IndexError. */
  function ClaimsNext(prev: Result<seq<string>>, line: string, aa: seq<char>, trueaapos: int, posp: int): Result<seq<string>> {
    match prev
    case Raise(e) => Raise(e)
    case Ok(cs) =>
      match ClaimOf(line, trueaapos, posp)
      case Raise(e) => Raise(e)
      case Ok(m) =>
        if |m| == 0 then Raise(IndexError)
        else Ok(if m[0] in aa then cs + [m] else cs)
  }

  /** The claims `retrieve_pos` collects from the lines after the skipped ones: those
      whose first character is in the alphabet, in order. */
  function Claims(lines: seq<string>, aa: seq<char>, trueaapos: int, posp: int): (r: Result<seq<string>>)
    ensures r.Ok? ==> |r.value| <= |lines|
    ensures r.Ok? ==> forall c :: c in r.value ==> |c| > 0 && c[0] in aa
  {
    if |lines| == 0 then Ok([])
    else ClaimsNext(Claims(lines[..|lines| - 1], aa, trueaapos, posp), lines[|lines| - 1], aa, trueaapos, posp)
  }

  /** `retrieve_pos` over the lines of the dataset: skipping `jump` lines raises
      StopIteration when the file has fewer. */
  method RetrievePos(lines: seq<string>, aa: seq<char>, trueaapos: int, posp: int, jump: int)
    returns (r: Result<seq<string>>)
    ensures jump > |lines| ==> r == Raise(StopIteration)
    ensures jump <= |lines| ==> r == Claims(lines[if jump < 0 then 0 else jump..], aa, trueaapos, posp)
  {
    if jump > |lines| {
      return Raise(StopIteration);
    }
    var start := if jump < 0 then 0 else jump;
    var rest := lines[start..];
    var truePos: seq<string> := [];
    for n := 0 to |rest|
      invariant Claims(rest[..n], aa, trueaapos, posp) == Ok(truePos)
    {
      ClaimsStep(rest, aa, trueaapos, posp, n);
      var mutpos := ClaimOf(rest[n], trueaapos, posp);
      if mutpos.Raise? || |mutpos.value| == 0 {
        RaiseSticks(rest, aa, trueaapos, posp, n + 1);
        return Raise(if mutpos.Raise? then mutpos.error else IndexError);
      }
      if mutpos.value[0] in aa {
        truePos := truePos + [mutpos.value];
      }
    }
    assert rest[..|rest|] == rest;
    return Ok(truePos);
  }

  /** The claims after one more line. */
  lemma ClaimsStep(lines: seq<string>, aa: seq<char>, trueaapos: int, posp: int, n: nat)
    requires n < |lines|
    ensures Claims(lines[..n + 1], aa, trueaapos, posp) ==
      ClaimsNext(Claims(lines[..n], aa, trueaapos, posp), lines[n], aa, trueaapos, posp)
  {
    assert lines[..n + 1][..n] == lines[..n];
  }

  lemma {:induction false} RaiseSticks(lines: seq<string>, aa: seq<char>, trueaapos: int, posp: int, n: nat)
    requires n <= |lines| && Claims(lines[..n], aa, trueaapos, posp).Raise?
    ensures Claims(lines, aa, trueaapos, posp) == Claims(lines[..n], aa, trueaapos, posp)
    decreases |lines| - n
  {
    if n < |lines| {
      assert lines[..n + 1][..n] == lines[..n];
      RaiseSticks(lines, aa, trueaapos, posp, n + 1);
    } else {
      assert lines[..n] == lines;
    }
  }

  /** A claim that `retrieve_pos` keeps: it exists and starts with a residue of the
      alphabet. */
  predicate StartsInAlphabet(m: Result<string>, aa: seq<char>) {
    m.Ok? && |m.value| > 0 && m.value[0] in aa
  }

  /** A pass of the loop that does not raise follows passes that did not, and reads a
      non-empty claim from its line. */
  lemma ClaimsNextRead(prev: Result<seq<string>>, line: string, aa: seq<char>, trueaapos: int, posp: int)
    requires ClaimsNext(prev, line, aa, trueaapos, posp).Ok?
    ensures prev.Ok? && ClaimOf(line, trueaapos, posp).Ok? && |ClaimOf(line, trueaapos, posp).value| > 0
  {
  }

  /** A pass of the loop that does not raise reads a non-empty claim from its line
      and appends it exactly when it starts with a residue of the alphabet. */
  lemma ClaimsNextOk(prev: Result<seq<string>>, line: string, aa: seq<char>, trueaapos: int, posp: int)
    requires ClaimsNext(prev, line, aa, trueaapos, posp).Ok?
    ensures prev.Ok? && ClaimOf(line, trueaapos, posp).Ok? && |ClaimOf(line, trueaapos, posp).value| > 0
    ensures ClaimsNext(prev, line, aa, trueaapos, posp).value ==
      prev.value + if StartsInAlphabet(ClaimOf(line, trueaapos, posp), aa) then [ClaimOf(line, trueaapos, posp).value] else []
  {
    assert prev.value + [] == prev.value;
  }

  /** The claims of a non-empty list of lines are those of all but its last line,
      followed by the pass over the last one. */
  lemma ClaimsLast(lines: seq<string>, aa: seq<char>, trueaapos: int, posp: int)
    requires |lines| > 0
    ensures Claims(lines, aa, trueaapos, posp) ==
      ClaimsNext(Claims(lines[..|lines| - 1], aa, trueaapos, posp), lines[|lines| - 1], aa, trueaapos, posp)
  {
  }

  /** Claims collected before, put in front of an outcome: a raise stays a raise. */
  function Prepend(before: seq<string>, r: Result<seq<string>>): Result<seq<string>> {
    if r.Ok? then Ok(before + r.value) else r
  }

  /** A pass of the loop commutes with putting earlier claims in front. */
  lemma ClaimsNextPrepend(before: seq<string>, r: Result<seq<string>>, line: string, aa: seq<char>, trueaapos: int, posp: int)
    ensures ClaimsNext(Prepend(before, r), line, aa, trueaapos, posp) == Prepend(before, ClaimsNext(r, line, aa, trueaapos, posp))
  {
    if r.Ok? && ClaimOf(line, trueaapos, posp).Ok? {
      var m := ClaimOf(line, trueaapos, posp).value;
      assert before + r.value + [m] == before + (r.value + [m]);
    }
  }

  /** Lines are read one at a time: the claims of two consecutive blocks of lines are
      the claims of the first block followed by those of the second, and a raise in
      the second block is the outcome of the whole. */
  lemma {:induction false} ClaimsConcat(a: seq<string>, b: seq<string>, aa: seq<char>, trueaapos: int, posp: int)
    requires Claims(a, aa, trueaapos, posp).Ok?
    ensures Claims(b, aa, trueaapos, posp).Raise? ==>
      Claims(a + b, aa, trueaapos, posp) == Claims(b, aa, trueaapos, posp)
    ensures Claims(b, aa, trueaapos, posp).Ok? ==>
      Claims(a + b, aa, trueaapos, posp) == Ok(Claims(a, aa, trueaapos, posp).value + Claims(b, aa, trueaapos, posp).value)
    decreases |b|
  {
    var ra := Claims(a, aa, trueaapos, posp).value;
    if |b| == 0 {
      assert a + b == a;
      assert ra + [] == ra;
    } else {
      var b', line := b[..|b| - 1], b[|b| - 1];
      assert (a + b)[..|a + b| - 1] == a + b';
      assert (a + b)[|a + b| - 1] == line;
      ClaimsLast(a + b, aa, trueaapos, posp);
      ClaimsLast(b, aa, trueaapos, posp);
      ClaimsConcat(a, b', aa, trueaapos, posp);
      assert Claims(a + b', aa, trueaapos, posp) == Prepend(ra, Claims(b', aa, trueaapos, posp));
      ClaimsNextPrepend(ra, Claims(b', aa, trueaapos, posp), line, aa, trueaapos, posp);
      assert Claims(a + b, aa, trueaapos, posp) == Prepend(ra, Claims(b, aa, trueaapos, posp));
    }
  }

  /** A line that does not raise follows lines that did not, and can only add a
      claim. */
  lemma ClaimsGrows(lines: seq<string>, aa: seq<char>, trueaapos: int, posp: int, n: nat)
    requires n < |lines| && Claims(lines[..n + 1], aa, trueaapos, posp).Ok?
    ensures Claims(lines[..n], aa, trueaapos, posp).Ok?
    ensures Claims(lines[..n], aa, trueaapos, posp).value <= Claims(lines[..n + 1], aa, trueaapos, posp).value
  {
    ClaimsStep(lines, aa, trueaapos, posp, n);
    ClaimsNextOk(Claims(lines[..n], aa, trueaapos, posp), lines[n], aa, trueaapos, posp);
  }

  /** When no line raises, no prefix of the lines raises either, and the claims of a
      prefix are a prefix of the claims. */
  lemma {:induction false} ClaimsPrefix(lines: seq<string>, aa: seq<char>, trueaapos: int, posp: int, n: nat)
    requires Claims(lines, aa, trueaapos, posp).Ok? && n <= |lines|
    ensures Claims(lines[..n], aa, trueaapos, posp).Ok?
    ensures Claims(lines[..n], aa, trueaapos, posp).value <= Claims(lines, aa, trueaapos, posp).value
    decreases |lines| - n
  {
    if n == |lines| {
      assert lines[..n] == lines;
    } else {
      ClaimsPrefix(lines, aa, trueaapos, posp, n + 1);
      ClaimsGrows(lines, aa, trueaapos, posp, n);
      PrefixTrans(Claims(lines[..n], aa, trueaapos, posp).value,
        Claims(lines[..n + 1], aa, trueaapos, posp).value, Claims(lines, aa, trueaapos, posp).value);
    }
  }

  /** When no line raises, line k has a non-empty claim. */
  lemma ClaimRead(lines: seq<string>, aa: seq<char>, trueaapos: int, posp: int, k: nat)
    requires Claims(lines, aa, trueaapos, posp).Ok? && k < |lines|
    ensures ClaimOf(lines[k], trueaapos, posp).Ok? && |ClaimOf(lines[k], trueaapos, posp).value| > 0
  {
    ClaimsPrefix(lines, aa, trueaapos, posp, k + 1);
    ClaimsStep(lines, aa, trueaapos, posp, k);
    ClaimsNextRead(Claims(lines[..k], aa, trueaapos, posp), lines[k], aa, trueaapos, posp);
  }

  /** When no line raises, every line has a non-empty claim
      `sline[trueaapos] + sline[posp]`. */
  lemma ClaimsAllRead(lines: seq<string>, aa: seq<char>, trueaapos: int, posp: int)
    requires Claims(lines, aa, trueaapos, posp).Ok?
    ensures forall k :: 0 <= k < |lines| ==>
      ClaimOf(lines[k], trueaapos, posp).Ok? && |ClaimOf(lines[k], trueaapos, posp).value| > 0
  {
    forall k | 0 <= k < |lines|
      ensures ClaimOf(lines[k], trueaapos, posp).Ok? && |ClaimOf(lines[k], trueaapos, posp).value| > 0
    {
      ClaimRead(lines, aa, trueaapos, posp, k);
    }
  }

  /** The claim of line k, when it starts with a residue of the alphabet, is
      collected. */
  lemma ClaimCollected(lines: seq<string>, aa: seq<char>, trueaapos: int, posp: int, k: nat)
    requires Claims(lines, aa, trueaapos, posp).Ok?
    requires k < |lines| && StartsInAlphabet(ClaimOf(lines[k], trueaapos, posp), aa)
    ensures ClaimOf(lines[k], trueaapos, posp).value in Claims(lines, aa, trueaapos, posp).value
  {
    ClaimsPrefix(lines, aa, trueaapos, posp, k + 1);
    ClaimsStep(lines, aa, trueaapos, posp, k);
    ClaimsNextOk(Claims(lines[..k], aa, trueaapos, posp), lines[k], aa, trueaapos, posp);
    var m := ClaimOf(lines[k], trueaapos, posp).value;
    var pre := Claims(lines[..k + 1], aa, trueaapos, posp).value;
    assert pre[|pre| - 1] == m;
    assert Claims(lines, aa, trueaapos, posp).value[|pre| - 1] == m;
  }

  /** Every line whose claim starts with a residue of the alphabet has its claim
      collected. */
  lemma ClaimsComplete(lines: seq<string>, aa: seq<char>, trueaapos: int, posp: int)
    requires Claims(lines, aa, trueaapos, posp).Ok?
    ensures forall k :: 0 <= k < |lines| && StartsInAlphabet(ClaimOf(lines[k], trueaapos, posp), aa) ==>
      ClaimOf(lines[k], trueaapos, posp).value in Claims(lines, aa, trueaapos, posp).value
  {
    forall k | 0 <= k < |lines| && StartsInAlphabet(ClaimOf(lines[k], trueaapos, posp), aa)
      ensures ClaimOf(lines[k], trueaapos, posp).value in Claims(lines, aa, trueaapos, posp).value
    {
      ClaimCollected(lines, aa, trueaapos, posp, k);
    }
  }

  /** Every collected text is the claim of some line. */
  lemma {:induction false} ClaimsProvenance(lines: seq<string>, aa: seq<char>, trueaapos: int, posp: int, c: string)
    requires Claims(lines, aa, trueaapos, posp).Ok?
    requires c in Claims(lines, aa, trueaapos, posp).value
    ensures exists k :: 0 <= k < |lines| && ClaimOf(lines[k], trueaapos, posp) == Ok(c)
  {
    var n := |lines|;
    var front, line := lines[..n - 1], lines[n - 1];
    ClaimsLast(lines, aa, trueaapos, posp);
    ClaimsNextOk(Claims(front, aa, trueaapos, posp), line, aa, trueaapos, posp);
    var cs := Claims(front, aa, trueaapos, posp).value;
    if c in cs {
      ClaimsProvenance(front, aa, trueaapos, posp, c);
      var k :| 0 <= k < n - 1 && ClaimOf(front[k], trueaapos, posp) == Ok(c);
      assert lines[k] == front[k];
    } else {
      assert ClaimOf(lines[n - 1], trueaapos, posp) == Ok(c);
    }
  }

  /** One line alone: its claim, kept when it starts with a residue of the alphabet. */
  lemma ClaimsSingle(line: string, aa: seq<char>, trueaapos: int, posp: int)
    requires ClaimOf(line, trueaapos, posp).Ok? && |ClaimOf(line, trueaapos, posp).value| > 0
    ensures var m := ClaimOf(line, trueaapos, posp).value;
      Claims([line], aa, trueaapos, posp) == Ok(if m[0] in aa then [m] else [])
  {
    assert [line][..0] == [];
    assert Claims([line], aa, trueaapos, posp) == ClaimsNext(Ok([]), line, aa, trueaapos, posp);
    var m := ClaimOf(line, trueaapos, posp).value;
    assert [] + [m] == [m];
  }

  /** `get_name`: the file name of a path without its directories and extension. */
  function GetName(name: string): (r: string)
    ensures r == Stem(name)
    ensures '/' !in r && '.' !in r
  {
    StemShape(name);
    if '/' in name then
      var partname := Split(name, '/');
      Split(partname[|partname| - 1], '.')[0]
    else
      Split(name, '.')[0]
  }

  /** `get_logname`: the two base names joined by `_`. */
  function GetLogname(dataname: string, fastaname: string): (r: string)
    ensures '/' !in r && '.' !in r
    ensures |r| == |Stem(dataname)| + 1 + |Stem(fastaname)|
    ensures r[..|Stem(dataname)|] == Stem(dataname) && r[|Stem(dataname)|] == '_'
    ensures r[|Stem(dataname)| + 1..] == Stem(fastaname)
  {
    GetName(dataname) + "_" + GetName(fastaname)
  }
}
