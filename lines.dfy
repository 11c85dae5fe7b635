/** The lines of a text file as Kotlin's `useLines` delivers them, which is
    how `java.io.BufferedReader.readLine` cuts a stream: a line ends at a
    line feed, a carriage return, or a carriage return followed by a line
    feed; the terminator is not part of the line; a terminator at the very
    end does not start another line; and an empty text has no lines. */
module Lines {

  predicate IsTerminator(c: char) {
    c == '\n' || c == '\r'
  }

  predicate NoTerminator(line: string) {
    forall i :: 0 <= i < |line| ==> !IsTerminator(line[i])
  }

  /** The index of the first line terminator in `s`, or `|s|` if there is none. */
  function LineEnd(s: string): (n: nat)
    ensures n <= |s|
    ensures NoTerminator(s[..n])
    ensures n < |s| ==> IsTerminator(s[n])
  {
    if s == [] || IsTerminator(s[0]) then 0 else 1 + LineEnd(s[1..])
  }

  /** The first terminator is where the terminator-free prefix stops. */
  lemma {:induction false} LineEndAt(s: string, n: nat)
    requires n < |s| && NoTerminator(s[..n]) && IsTerminator(s[n])
    ensures LineEnd(s) == n
  {
    if n > 0 {
      assert s[0] == s[..n][0];
      assert s[1..][..n - 1] == s[..n][1..];
      LineEndAt(s[1..], n - 1);
    }
  }

  /** Where the next line starts after the terminator at `n`; "\r\n" is one terminator. */
  function NextLineStart(s: string, n: nat): (m: nat)
    requires n < |s|
    ensures n < m <= |s|
  {
    if s[n] == '\r' && n + 1 < |s| && s[n + 1] == '\n' then n + 2 else n + 1
  }

  /** The lines of text `s`. */
  function ReadLines(s: string): (lines: seq<string>)
    ensures forall k :: 0 <= k < |lines| ==> NoTerminator(lines[k])
    ensures lines == [] <==> s == []
    decreases |s|
  {
    if s == [] then []
    else
      var n := LineEnd(s);
      if n == |s| then [s]
      else [s[..n]] + ReadLines(s[NextLineStart(s, n)..])
  }

  /** A text made of the given lines, each one ended by a line feed. */
  function JoinLines(lines: seq<string>): string {
    if lines == [] then "" else lines[0] + "\n" + JoinLines(lines[1..])
  }

  /** Reading back lines written one per line gives the same lines. */
  lemma {:induction false} ReadJoinLines(lines: seq<string>)
    requires forall k :: 0 <= k < |lines| ==> NoTerminator(lines[k])
    ensures ReadLines(JoinLines(lines)) == lines
  {
    if lines != [] {
      var l := lines[0];
      var s := JoinLines(lines);
      assert s == l + "\n" + JoinLines(lines[1..]);
      assert s[..|l|] == l;
      LineEndAt(s, |l|);
      assert s[|l| + 1..] == JoinLines(lines[1..]);
      ReadJoinLines(lines[1..]);
    }
  }
}
