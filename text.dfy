/** Character and string operations that the upload guards and the row parser
    rely on, with the meaning each has in Kotlin on the JVM: the whitespace
    test behind `trim()` and `isBlank()`, `trim()` itself, `split` on a single
    delimiter and its inverse, `endsWith`, and lower-casing of ASCII letters. */
module Text {

  /** Kotlin's `Char.isWhitespace()` on the JVM, which is
      `Character.isWhitespace(c) || Character.isSpaceChar(c)`: the ASCII
      controls TAB..CR, the separators FS..US, and every Unicode space,
      line or paragraph separator. */
  predicate IsWhitespace(c: char) {
    || c == ' '
    || '\t' <= c <= '\r'
    || '\U{1C}' <= c <= '\U{1F}'
    || c == '\U{A0}' || c == '\U{1680}'
    || '\U{2000}' <= c <= '\U{200A}'
    || c == '\U{2028}' || c == '\U{2029}' || c == '\U{202F}'
    || c == '\U{205F}' || c == '\U{3000}'
  }

  /** Kotlin's `isBlank()`: empty, or whitespace only. */
  predicate IsBlank(s: string) {
    forall i :: 0 <= i < |s| ==> IsWhitespace(s[i])
  }

  /** Drops the leading whitespace. */
  function TrimStart(s: string): string {
    if s != [] && IsWhitespace(s[0]) then TrimStart(s[1..]) else s
  }

  /** Drops the trailing whitespace. */
  function TrimEnd(s: string): string {
    if s != [] && IsWhitespace(s[|s| - 1]) then TrimEnd(s[..|s| - 1]) else s
  }

  /** `TrimStart` leaves the suffix of `s` that starts at its first
      non-whitespace character. */
  lemma {:induction false} TrimStartSpec(s: string)
    ensures |TrimStart(s)| <= |s| && TrimStart(s) == s[|s| - |TrimStart(s)|..]
    ensures forall i :: 0 <= i < |s| - |TrimStart(s)| ==> IsWhitespace(s[i])
    ensures TrimStart(s) != [] ==> !IsWhitespace(TrimStart(s)[0])
  {
    if s != [] && IsWhitespace(s[0]) {
      var t := TrimStart(s[1..]);
      TrimStartSpec(s[1..]);
      assert TrimStart(s) == t;
      assert s[1..][|s| - 1 - |t|..] == s[|s| - |t|..];
    }
  }

  /** `TrimEnd` leaves the prefix of `s` that ends at its last
      non-whitespace character. */
  lemma {:induction false} TrimEndSpec(s: string)
    ensures |TrimEnd(s)| <= |s| && TrimEnd(s) == s[..|TrimEnd(s)|]
    ensures forall i :: |TrimEnd(s)| <= i < |s| ==> IsWhitespace(s[i])
    ensures TrimEnd(s) != [] ==> !IsWhitespace(TrimEnd(s)[|TrimEnd(s)| - 1])
  {
    if s != [] && IsWhitespace(s[|s| - 1]) {
      var t := TrimEnd(s[..|s| - 1]);
      TrimEndSpec(s[..|s| - 1]);
      assert TrimEnd(s) == t;
      assert s[..|s| - 1][..|t|] == s[..|t|];
    }
  }

  /** No whitespace at either end. */
  predicate IsTrimmed(s: string) {
    s != [] ==> !IsWhitespace(s[0]) && !IsWhitespace(s[|s| - 1])
  }

  /** Kotlin's `String.trim()`. */
  function Trim(s: string): string {
    TrimEnd(TrimStart(s))
  }

  /** `Trim(s)` is the part of `s` between its whitespace margins: a slice
      `s[i..j]` with only whitespace outside it and none at its two ends. */
  lemma TrimSlice(s: string) returns (i: nat, j: nat)
    ensures i <= j <= |s| && Trim(s) == s[i..j]
    ensures forall k :: 0 <= k < i ==> IsWhitespace(s[k])
    ensures forall k :: j <= k < |s| ==> IsWhitespace(s[k])
    ensures IsTrimmed(Trim(s))
  {
    var t := TrimStart(s);
    var r := TrimEnd(t);
    TrimStartSpec(s);
    TrimEndSpec(t);
    assert Trim(s) == r;
    i := |s| - |t|;
    j := i + |r|;
    assert r == s[i..j] by {
      assert t == s[i..];
      assert r == t[..|r|];
      assert s[i..][..|r|] == s[i..j];
    }
    forall k | j <= k < |s|
      ensures IsWhitespace(s[k])
    {
      assert s[k] == t[k - i];
    }
    if r != [] {
      assert r[0] == t[0];
      assert !IsWhitespace(r[|r| - 1]);
    }
  }

  /** `parts.map { it.trim() }` */
  function TrimAll(parts: seq<string>): (r: seq<string>)
    ensures |r| == |parts|
  {
    if parts == [] then [] else [Trim(parts[0])] + TrimAll(parts[1..])
  }

  /** Each part is trimmed in place. */
  lemma {:induction false} TrimAllAt(parts: seq<string>, k: nat)
    requires k < |parts|
    ensures TrimAll(parts)[k] == Trim(parts[k])
  {
    if k > 0 {
      TrimAllAt(parts[1..], k - 1);
    }
  }

  /** A string is blank exactly when trimming leaves nothing. */
  lemma BlankIffTrimmedEmpty(s: string)
    ensures IsBlank(s) <==> Trim(s) == []
  {
    var i, j := TrimSlice(s);
    if Trim(s) != [] {
      assert !IsWhitespace(s[i]);
    }
  }

  /** Trimming a string that has no whitespace at either end changes nothing. */
  lemma TrimUnchanged(s: string)
    requires IsTrimmed(s)
    ensures Trim(s) == s
  {
  }

  /** Trimming is idempotent. */
  lemma TrimIdempotent(s: string)
    ensures Trim(Trim(s)) == Trim(s)
  {
    var _, _ := TrimSlice(s);
    TrimUnchanged(Trim(s));
  }

  /** Trimming never introduces a character. */
  lemma TrimKeepsOut(s: string, c: char)
    requires c !in s
    ensures c !in Trim(s)
  {
    var i, j := TrimSlice(s);
  }

  /** Kotlin's `split` on a one-character delimiter with no limit: every
      delimiter separates two parts, so empty parts, including a trailing
      one, are kept. */
  function Split(s: string, d: char): (parts: seq<string>)
    ensures |parts| == Count(s, d) + 1
    ensures forall k :: 0 <= k < |parts| ==> d !in parts[k]
  {
    if s == [] then [""]
    else
      var rest := Split(s[1..], d);
      if s[0] == d then [""] + rest
      else [[s[0]] + rest[0]] + rest[1..]
  }

  /** The parts joined back with the delimiter between them. */
  function Join(parts: seq<string>, d: char): string {
    if |parts| == 0 then ""
    else if |parts| == 1 then parts[0]
    else parts[0] + [d] + Join(parts[1..], d)
  }

  /** The parts with the delimiter after each one. */
  function Terminated(parts: seq<string>, d: char): string {
    if parts == [] then "" else parts[0] + [d] + Terminated(parts[1..], d)
  }

  /** The number of occurrences of `c` in `s`. */
  function Count(s: string, c: char): nat {
    if s == [] then 0 else (if s[0] == c then 1 else 0) + Count(s[1..], c)
  }

  /** Splitting and joining again gives back the original string. */
  lemma {:induction false} JoinSplit(s: string, d: char)
    ensures Join(Split(s, d), d) == s
  {
    if s != [] {
      var rest := Split(s[1..], d);
      JoinSplit(s[1..], d);
      if s[0] == d {
        assert Join([""] + rest, d) == [d] + Join(rest, d);
      } else if |rest| == 1 {
        assert Split(s, d) == [[s[0]] + rest[0]];
      } else {
        assert Join(rest, d) == rest[0] + [d] + Join(rest[1..], d);
        assert ([[s[0]] + rest[0]] + rest[1..])[1..] == rest[1..];
      }
    }
  }

  /** A delimiter in the middle splits the string into the parts of each side. */
  lemma {:induction false} SplitAppend(a: string, b: string, d: char)
    ensures Split(a + [d] + b, d) == Split(a, d) + Split(b, d)
  {
    var s := a + [d] + b;
    if a == [] {
      assert s[1..] == b;
    } else {
      assert s[1..] == a[1..] + [d] + b;
      SplitAppend(a[1..], b, d);
    }
  }

  /** A string without the delimiter is a single part. */
  lemma {:induction false} SplitWhole(a: string, d: char)
    requires d !in a
    ensures Split(a, d) == [a]
  {
    if a != [] {
      SplitWhole(a[1..], d);
      assert [a[0]] + a[1..] == a;
    }
  }

  /** Joining parts that do not contain the delimiter and splitting again
      gives back the parts. */
  lemma {:induction false} SplitJoin(parts: seq<string>, d: char)
    requires |parts| >= 1
    requires forall k :: 0 <= k < |parts| ==> d !in parts[k]
    ensures Split(Join(parts, d), d) == parts
  {
    if |parts| == 1 {
      SplitWhole(parts[0], d);
    } else {
      SplitAppend(parts[0], Join(parts[1..], d), d);
      SplitWhole(parts[0], d);
      SplitJoin(parts[1..], d);
    }
  }

  /** Joining is the same as terminating every part but the last with the delimiter. */
  lemma {:induction false} JoinAsTerminated(parts: seq<string>, last: string, d: char)
    ensures Join(parts + [last], d) == Terminated(parts, d) + last
  {
    if parts != [] {
      assert (parts + [last])[1..] == parts[1..] + [last];
      JoinAsTerminated(parts[1..], last, d);
    }
  }

  /** A character other than the delimiter that is in no part is not in the join. */
  lemma {:induction false} JoinKeepsOut(parts: seq<string>, d: char, c: char)
    requires c != d
    requires forall k :: 0 <= k < |parts| ==> c !in parts[k]
    ensures c !in Join(parts, d)
  {
    if |parts| > 1 {
      JoinKeepsOut(parts[1..], d, c);
    }
  }

  /** Kotlin's `endsWith(suffix)`, case-sensitive. */
  predicate EndsWith(s: string, suffix: string) {
    |suffix| <= |s| && s[|s| - |suffix|..] == suffix
  }

  /** Lower case for one character, for the ASCII letters A..Z. */
  function LowerChar(c: char): char {
    if 'A' <= c <= 'Z' then (c as int + ('a' as int - 'A' as int)) as char else c
  }

  /** Lower case of a string, character by character. */
  function Lower(s: string): string {
    seq(|s|, i requires 0 <= i < |s| => LowerChar(s[i]))
  }

  /** Upper case for one character, for the ASCII letters a..z. */
  function UpperChar(c: char): char {
    if 'a' <= c <= 'z' then (c as int - ('a' as int - 'A' as int)) as char else c
  }

  /** `h` is `e` with the case of some ASCII letters changed. */
  predicate IsCaseVariant(h: string, e: string) {
    |h| == |e| &&
    forall i :: 0 <= i < |h| ==> h[i] == e[i] || h[i] == LowerChar(e[i]) || h[i] == UpperChar(e[i])
  }

  /** Two strings have the same lower case exactly when one is a case
      variant of the other. */
  lemma LowerEqualIffCaseVariant(h: string, e: string)
    ensures Lower(h) == Lower(e) <==> IsCaseVariant(h, e)
  {
    if Lower(h) == Lower(e) {
      forall i | 0 <= i < |h|
        ensures h[i] == e[i] || h[i] == LowerChar(e[i]) || h[i] == UpperChar(e[i])
      {
        assert Lower(h)[i] == Lower(e)[i];
      }
    }
    if IsCaseVariant(h, e) {
      forall i | 0 <= i < |h|
        ensures Lower(h)[i] == Lower(e)[i]
      {
      }
    }
  }
}
