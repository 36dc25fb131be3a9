/** The kernel process finder: `pgrep -f <match>` lists the pids whose command
    line contains the match text, one per line; the finder keeps the lines that
    are a number once stripped. The run of `pgrep` itself is an input. */
module Finder {
  import opened Basics
  import opened Text
  import opened ProcessInspector

  /** The numbers of the lines that are all digits once stripped, in output order. */
  function DigitLineValues(lines: seq<string>): (pids: seq<int>)
    ensures |pids| <= |lines|
    ensures forall k :: 0 <= k < |pids| ==> pids[k] >= 0
  {
    if lines == [] then []
    else
      var last := Strip(lines[|lines| - 1]);
      DigitLineValues(lines[..|lines| - 1]) + (if IsDigits(last) then [DigitsValue(last) as int] else [])
  }

  /** `list_ipykernel_pids` (the tracer's comprehension) and what `get_ipykernel_pids`
      computes: a non-zero exit of `pgrep` (it found nothing) gives no pids; a `pgrep`
      that cannot be started raises out of the caller. */
  function PgrepPids(run: CommandRun): (r: Result<seq<int>>)
    ensures run.LaunchFailed? <==> r.Uncaught?
    ensures run.Completed? && run.exitCode != 0 ==> r == Ok([])
    ensures r.Ok? ==> forall k :: 0 <= k < |r.value| ==> r.value[k] >= 0
  {
    match run
    case LaunchFailed => Uncaught
    case Completed(code, out) => if code == 0 then Ok(DigitLineValues(Lines(out))) else Ok([])
  }

  /** `get_ipykernel_pids`: the loop over the output's lines that appends every number. */
  method GetIpykernelPids(run: CommandRun) returns (r: Result<seq<int>>)
    ensures r == PgrepPids(run)
  {
    if run.LaunchFailed? {
      return Uncaught;
    }
    if run.exitCode != 0 {
      return Ok([]);
    }
    var lines := Lines(run.stdout);
    var pids: seq<int> := [];
    for i := 0 to |lines|
      invariant pids == DigitLineValues(lines[..i])
    {
      var line := Strip(lines[i]);
      if IsDigits(line) {
        pids := pids + [DigitsValue(line)];
      }
      assert lines[..i + 1][..i] == lines[..i];
    }
    assert lines[..|lines|] == lines;
    return Ok(pids);
  }

  /** Lines are read independently: the numbers of two blocks of output are the numbers
      of the first block followed by those of the second, so no line that is not a
      number changes what is read from the others. */
  lemma {:induction false} DigitLineValuesAppend(a: seq<string>, b: seq<string>)
    ensures DigitLineValues(a + b) == DigitLineValues(a) + DigitLineValues(b)
    decreases |b|
  {
    if b == [] {
      assert a + b == a;
    } else {
      var b' := b[..|b| - 1];
      assert (a + b)[..|a + b| - 1] == a + b';
      assert (a + b)[|a + b| - 1] == b[|b| - 1];
      DigitLineValuesAppend(a, b');
    }
  }

  /** A line that is not a number once stripped contributes nothing. */
  lemma NonDigitLineIgnored(a: seq<string>, line: string, b: seq<string>)
    requires !IsDigits(Strip(line))
    ensures DigitLineValues(a + [line] + b) == DigitLineValues(a) + DigitLineValues(b)
  {
    SkippedLine(line);
    DigitLineValuesAppend(a, [line]);
    DigitLineValuesAppend(a + [line], b);
    var va := DigitLineValues(a);
    assert va + [] == va;
  }

  /** A line that is a number once stripped, whatever whitespace pads it, adds that
      number in its place. */
  lemma PaddedDigitLine(a: seq<string>, line: string, b: seq<string>)
    requires IsDigits(Strip(line))
    ensures DigitLineValues(a + [line] + b) ==
              DigitLineValues(a) + [DigitsValue(Strip(line))] + DigitLineValues(b)
  {
    assert DigitLineValues([line]) == [DigitsValue(Strip(line))] by {
      assert [line][..0] == [];
    }
    DigitLineValuesAppend(a, [line]);
    DigitLineValuesAppend(a + [line], b);
  }

  lemma SkippedLine(line: string)
    requires !IsDigits(Strip(line))
    ensures DigitLineValues([line]) == []
  {
    assert [line][..0] == [];
  }

  /** The decimal renderings of the pids, one per line. */
  function DecimalLines(pids: seq<nat>): (ls: seq<string>)
    ensures |ls| == |pids|
    ensures forall k :: 0 <= k < |ls| ==> IsDigits(ls[k])
  {
    if pids == [] then [] else DecimalLines(pids[..|pids| - 1]) + [Decimal(pids[|pids| - 1])]
  }

  /** What `pgrep` prints for a list of pids: each in decimal on its own line. */
  function PgrepOutput(pids: seq<nat>): string {
    Terminated(DecimalLines(pids))
  }

  /** Reading `pgrep`'s output gives back exactly the pids it printed, in order. */
  lemma PgrepRoundTrip(pids: seq<nat>)
    ensures PgrepPids(Completed(0, PgrepOutput(pids))) == Ok(pids)
  {
    var ls := DecimalLines(pids);
    forall k | 0 <= k < |ls| ensures forall c <- ls[k] :: !IsLineBreak(c) {
      assert IsDigits(ls[k]);
    }
    LinesOfTerminated(ls);
    DecimalLinesValues(pids);
  }

  lemma StripDigits(d: string)
    requires IsDigits(d)
    ensures Strip(d) == d
  {
    forall c | c in d ensures !IsSpace(c) {
      var i :| 0 <= i < |d| && d[i] == c;
      assert IsDigit(d[i]);
    }
    StripKeeps(d);
  }

  /** A line of digits adds its value. */
  lemma DigitLineValuesSnoc(ls: seq<string>, d: string)
    requires IsDigits(d)
    ensures DigitLineValues(ls + [d]) == DigitLineValues(ls) + [DigitsValue(d)]
  {
    StripDigits(d);
    assert (ls + [d])[..|ls|] == ls;
  }

  lemma {:induction false} DecimalLinesValues(pids: seq<nat>)
    ensures DigitLineValues(DecimalLines(pids)) == pids
    decreases |pids|
  {
    if pids != [] {
      var n := |pids|;
      var front := pids[..n - 1];
      var d := Decimal(pids[n - 1]);
      var ls := DecimalLines(front);
      calc {
        DigitLineValues(DecimalLines(pids));
        DigitLineValues(ls + [d]);
        { DigitLineValuesSnoc(ls, d); }
        DigitLineValues(ls) + [DigitsValue(d)];
        { DecimalLinesValues(front); DecimalRoundTrip(pids[n - 1]); }
        front + [pids[n - 1]];
        pids;
      }
    }
  }
}
