/** The few Python `str` operations the extension relies on, with Python's
    semantics written out: `str.find`, slicing with possibly negative bounds,
    repetition, `%d` formatting and newline-terminated line concatenation. */
module PyStr {
  import opened Outcomes

  /** `sub` occurs in `s` starting at index `i`. */
  predicate OccursAt(s: string, sub: string, i: int) {
    0 <= i && i + |sub| <= |s| && s[i..i + |sub|] == sub
  }

  /** `str.find` searching from index `from`: the first occurrence at or
      after `from`, or -1. */
  function FindFrom(s: string, sub: string, from: nat): (r: int)
    ensures r == -1 || (from <= r && OccursAt(s, sub, r))
    decreases |s| - from
  {
    if from + |sub| > |s| then -1
    else if s[from..from + |sub|] == sub then from
    else FindFrom(s, sub, from + 1)
  }

  /** No occurrence lies between `from` and the index `FindFrom` returns. */
  lemma {:induction false} FindFromIsFirst(s: string, sub: string, from: nat, j: int)
    requires from <= j
    requires FindFrom(s, sub, from) == -1 || j < FindFrom(s, sub, from)
    ensures !OccursAt(s, sub, j)
    decreases |s| - from
  {
    if from + |sub| <= |s| && s[from..from + |sub|] != sub && from < j {
      FindFromIsFirst(s, sub, from + 1, j);
    }
  }

  /** `s.find(sub)`: the lowest index where `sub` occurs, or -1. */
  function Find(s: string, sub: string): (r: int)
    ensures r == -1 || OccursAt(s, sub, r)
  {
    FindFrom(s, sub, 0)
  }

  /** Nothing before the index `Find` returns is an occurrence, and nothing
      at all when it returns -1. */
  lemma FindIsFirst(s: string, sub: string, j: int)
    requires 0 <= j && (Find(s, sub) == -1 || j < Find(s, sub))
    ensures !OccursAt(s, sub, j)
  {
    FindFromIsFirst(s, sub, 0, j);
  }

  /** The first occurrence is determined by the occurrence property alone. */
  lemma FindIsFirstOccurrence(s: string, sub: string, i: nat)
    requires OccursAt(s, sub, i)
    requires forall j :: 0 <= j < i ==> !OccursAt(s, sub, j)
    ensures Find(s, sub) == i
  {
    var r := Find(s, sub);
    if r == -1 || i < r {
      FindIsFirst(s, sub, i);
      assert false;
    }
  }

  /** An occurrence found in `p` stays the first one in `p + q`. */
  lemma FindInPrefix(p: string, q: string, sub: string)
    requires Find(p, sub) >= 0
    ensures Find(p + q, sub) == Find(p, sub)
  {
    var i := Find(p, sub);
    assert (p + q)[i..i + |sub|] == p[i..i + |sub|];
    forall j | 0 <= j < i
      ensures !OccursAt(p + q, sub, j)
    {
      FindIsFirst(p, sub, j);
      assert (p + q)[j..j + |sub|] == p[j..j + |sub|];
    }
    FindIsFirstOccurrence(p + q, sub, i);
  }

  /** Python's `s[:k]`: negative `k` counts from the end, out-of-range `k`
      is clamped. */
  function SliceTo(s: string, k: int): (r: string)
    ensures 0 <= k <= |s| ==> r == s[..k]
    ensures k < 0 ==> r == s[..if |s| + k < 0 then 0 else |s| + k]
    ensures |s| < k ==> r == s
  {
    if k < 0 then s[..if |s| + k < 0 then 0 else |s| + k]
    else if k <= |s| then s[..k]
    else s
  }

  /** Python's `s[k:]`, with the same conventions as `SliceTo`. */
  function SliceFrom(s: string, k: int): (r: string)
    ensures 0 <= k <= |s| ==> r == s[k..]
    ensures k < 0 ==> r == s[if |s| + k < 0 then 0 else |s| + k..]
    ensures |s| < k ==> r == []
  {
    if k < 0 then s[if |s| + k < 0 then 0 else |s| + k..]
    else if k <= |s| then s[k..]
    else []
  }

  /** Python's `c * n` for a one-character string `c`. */
  function Repeat(c: char, n: nat): (r: string)
    ensures |r| == n
    ensures forall i :: 0 <= i < n ==> r[i] == c
  {
    if n == 0 then [] else [c] + Repeat(c, n - 1)
  }

  function DigitChar(d: nat): (c: char)
    requires d < 10
    ensures '0' <= c <= '9'
  {
    "0123456789"[d]
  }

  /** Decimal digits of a natural number, most significant first. */
  function NatDigits(n: nat): (r: string)
    ensures |r| >= 1
    ensures forall i :: 0 <= i < |r| ==> '0' <= r[i] <= '9'
    decreases n
  {
    if n < 10 then [DigitChar(n)]
    else NatDigits(n / 10) + [DigitChar(n % 10)]
  }

  /** Python's `'%d' % n`. */
  function DecimalString(n: int): (r: string)
    ensures |r| >= 1
    ensures n >= 0 ==> forall i :: 0 <= i < |r| ==> '0' <= r[i] <= '9'
    ensures n < 0 ==> r[0] == '-'
  {
    if n < 0 then "-" + NatDigits(-n) else NatDigits(n)
  }

  predicate HasNoNewline(s: string) {
    '\n' !in s
  }

  predicate AllHaveNoNewline(lines: seq<string>) {
    forall i :: 0 <= i < |lines| ==> HasNoNewline(lines[i])
  }

  /** Each line followed by a newline, in order (`for line in ...: s += line + '\n'`). */
  function TerminatedLines(lines: seq<string>): (r: string)
    ensures |lines| > 0 ==> |r| > 0 && r[|r| - 1] == '\n'
    ensures |r| >= |lines|
  {
    if lines == [] then [] else lines[0] + "\n" + TerminatedLines(lines[1..])
  }

  /** Index of the first newline in `s`, if any. */
  function NewlineIndex(s: string): (r: Option<nat>)
    ensures r.Some? ==> r.value < |s| && s[r.value] == '\n' && HasNoNewline(s[..r.value])
    ensures r.None? ==> HasNoNewline(s)
  {
    if s == [] then None
    else if s[0] == '\n' then Some(0)
    else match NewlineIndex(s[1..])
      case None => None
      case Some(i) =>
        assert s[..i + 1] == [s[0]] + s[1..][..i];
        Some(i + 1)
  }

  /** Reads back newline-terminated lines; None if some text is not
      followed by a newline. */
  function SplitTerminatedLines(s: string): (r: Option<seq<string>>)
    ensures r.Some? ==> AllHaveNoNewline(r.value)
    decreases |s|
  {
    if s == [] then Some([])
    else match NewlineIndex(s)
      case None => None
      case Some(i) =>
        match SplitTerminatedLines(s[i + 1..])
        case None => None
        case Some(rest) => Some([s[..i]] + rest)
  }

  lemma NewlineIndexAfterLine(line: string, rest: string)
    requires HasNoNewline(line)
    ensures NewlineIndex(line + "\n" + rest) == Some(|line|)
  {
    var s := line + "\n" + rest;
    assert s[|line|] == '\n';
    assert s[|line|] in s;
    forall j | 0 <= j < |line|
      ensures s[j] != '\n'
    {
      assert s[j] == line[j] && line[j] in line;
    }
    forall j | |line| < j <= |s|
      ensures !HasNoNewline(s[..j])
    {
      assert s[..j][|line|] == '\n';
    }
  }

  /** Splitting undoes `TerminatedLines` when no line holds a newline. */
  lemma {:induction false} SplitTerminatedLinesRoundTrip(lines: seq<string>)
    requires AllHaveNoNewline(lines)
    ensures SplitTerminatedLines(TerminatedLines(lines)) == Some(lines)
  {
    if lines != [] {
      var s := TerminatedLines(lines);
      var rest := TerminatedLines(lines[1..]);
      assert s == lines[0] + "\n" + rest;
      NewlineIndexAfterLine(lines[0], rest);
      assert s[|lines[0]| + 1..] == rest;
      assert s[..|lines[0]|] == lines[0];
      SplitTerminatedLinesRoundTrip(lines[1..]);
      assert [lines[0]] + lines[1..] == lines;
    }
  }
}
