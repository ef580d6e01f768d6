/**
 * The 16x2 character display (components/LCDSimulator.tsx): each line is
 * padded with spaces to 16 columns and cut to 16 columns.
 */
module LcdSimulator {
  import opened JsString

  const Columns: nat := 16

  /** `line.padEnd(16, ' ').substring(0, 16)`. */
  function NormalizeLine(line: string): (r: string)
    ensures |r| == Columns
    ensures |line| <= Columns ==> r == line + Repeat(' ', Columns - |line|)
    ensures |line| > Columns ==> r == line[..Columns]
  {
    var padded := PadEnd(line, Columns, ' ');
    assert |line| <= Columns ==> padded == line + Repeat(' ', Columns - |line|);
    Substring(padded, 0, Columns)
  }

  /** The first `min(|line|, 16)` characters of the line are shown unchanged. */
  lemma NormalizeKeepsPrefix(line: string)
    ensures var k := if |line| < Columns then |line| else Columns;
      NormalizeLine(line)[..k] == line[..k]
  {
  }

  /** Normalising a normalised line changes nothing. */
  lemma NormalizeIdempotent(line: string)
    ensures NormalizeLine(NormalizeLine(line)) == NormalizeLine(line)
  {
    var r := NormalizeLine(line);
    assert Repeat(' ', 0) == [];
    assert r + [] == r;
  }

  lemma NormalizeExamples()
    ensures NormalizeLine("LECTIVO") == "LECTIVO         "
    ensures NormalizeLine("ABCDEFGHIJKLMNOPQRST") == "ABCDEFGHIJKLMNOP"
  {
    assert Repeat(' ', 9) == "         ";
  }
}
