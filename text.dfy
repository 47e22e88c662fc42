/**
 * The Python string operations the bots apply to user input, restricted to
 * ASCII: `str.strip()`, `str.lower()`, `sep.join(parts)` and, as the inverse of
 * joining, `str.split(sep)` with a one-character separator.
 */
module Text {

  /** `str.isspace()` on ASCII: space, tab, line feed, vertical tab, form feed, carriage return and \x1c-\x1f. */
  predicate IsSpace(c: char)
  {
    c == ' ' || ('\t' <= c <= '\r') || ('\U{1C}' <= c <= '\U{1F}')
  }

  /** Every character of `s[i..j]` is whitespace. */
  predicate SpaceBetween(s: string, i: nat, j: nat)
    requires i <= j <= |s|
  {
    forall k :: i <= k < j ==> IsSpace(s[k])
  }

  /** Every character of `s` is whitespace. */
  predicate AllSpace(s: string)
  {
    SpaceBetween(s, 0, |s|)
  }

  /** Two adjacent runs of whitespace make one. */
  lemma SpaceBetweenJoin(s: string, i: nat, j: nat, k: nat)
    requires i <= j <= k <= |s|
    ensures SpaceBetween(s, i, j) && SpaceBetween(s, j, k) ==> SpaceBetween(s, i, k)
  {
  }

  /** Where `strip()` starts keeping characters: the first non-whitespace index from `i` on, or `|s|`. */
  function StripStart(s: string, i: nat): (lo: nat)
    requires i <= |s|
    ensures i <= lo <= |s|
    ensures SpaceBetween(s, i, lo)
    ensures lo < |s| ==> !IsSpace(s[lo])
    decreases |s| - i
  {
    if i < |s| && IsSpace(s[i]) then StripStart(s, i + 1) else i
  }

  /** Where `strip()` stops keeping characters: `j` with the whitespace before it cut off, but not below `lo`. */
  function StripEnd(s: string, lo: nat, j: nat): (hi: nat)
    requires lo <= j <= |s|
    ensures lo <= hi <= j
    ensures SpaceBetween(s, hi, j)
    ensures hi > lo ==> !IsSpace(s[hi - 1])
    decreases j
  {
    if j > lo && IsSpace(s[j - 1]) then StripEnd(s, lo, j - 1) else j
  }

  /** A string that `strip()` leaves as it is. */
  predicate IsTrimmed(s: string)
  {
    s == [] || (!IsSpace(s[0]) && !IsSpace(s[|s| - 1]))
  }

  /** `str.strip()`: the result is trimmed, and it is empty exactly when `s` is all whitespace. */
  function Trim(s: string): (r: string)
    ensures IsTrimmed(r)
    ensures |r| <= |s|
    ensures r == [] <==> AllSpace(s)
  {
    var lo := StripStart(s, 0);
    var hi := StripEnd(s, lo, |s|);
    SpaceBetweenJoin(s, 0, lo, |s|);
    s[lo..hi]
  }

  /** What `Trim` keeps is a contiguous piece of `s`, and only whitespace is cut off either end. */
  lemma TrimIsSlice(s: string) returns (lo: nat, hi: nat)
    ensures lo <= hi <= |s| && Trim(s) == s[lo..hi]
    ensures SpaceBetween(s, 0, lo) && SpaceBetween(s, hi, |s|)
  {
    lo := StripStart(s, 0);
    hi := StripEnd(s, lo, |s|);
  }

  /** `strip()` leaves a trimmed string as it is. */
  lemma TrimOfTrimmed(s: string)
    requires IsTrimmed(s)
    ensures Trim(s) == s
  {
    assert StripStart(s, 0) == 0;
    assert StripEnd(s, 0, |s|) == |s|;
    assert s[0..|s|] == s;
  }

  /** Stripping twice is stripping once. */
  lemma TrimIdempotent(s: string)
    ensures Trim(Trim(s)) == Trim(s)
  {
    TrimOfTrimmed(Trim(s));
  }

  /** ASCII `str.lower()` on one character. */
  function LowerChar(c: char): char
  {
    if 'A' <= c <= 'Z' then (c as int + 32) as char else c
  }

  predicate HasUpper(s: string)
  {
    exists i :: 0 <= i < |s| && 'A' <= s[i] <= 'Z'
  }

  /** ASCII `str.lower()`: same length, no capital letter left, each character its own lower case. */
  function Lower(s: string): (r: string)
    ensures |r| == |s|
    ensures !HasUpper(r)
    ensures forall i :: 0 <= i < |s| ==> LowerChar(r[i]) == LowerChar(s[i])
  {
    seq(|s|, i requires 0 <= i < |s| => LowerChar(s[i]))
  }

  /** Lowering a string that has no capital letter changes nothing, so lowering is idempotent. */
  lemma LowerOfLowercase(s: string)
    requires !HasUpper(s)
    ensures Lower(s) == s
  {
    forall i | 0 <= i < |s| ensures Lower(s)[i] == s[i] {
      assert !('A' <= s[i] <= 'Z');
    }
  }

  /** `sep.join(parts)`. */
  function Join(parts: seq<string>, sep: string): string
  {
    if |parts| == 0 then []
    else if |parts| == 1 then parts[0]
    else parts[0] + sep + Join(parts[1..], sep)
  }

  /** `s.split(c)` for a one-character separator: never empty, and no piece contains the separator. */
  function Split(s: string, c: char): (r: seq<string>)
    ensures |r| >= 1
    ensures forall i :: 0 <= i < |r| ==> c !in r[i]
  {
    if s == [] then [[]]
    else if s[0] == c then [[]] + Split(s[1..], c)
    else
      var t := Split(s[1..], c);
      [[s[0]] + t[0]] + t[1..]
  }

  /** Joining the pieces of a split gives back the string. */
  lemma {:induction false} JoinSplit(s: string, c: char)
    ensures Join(Split(s, c), [c]) == s
  {
    if s != [] {
      JoinSplit(s[1..], c);
      var t := Split(s[1..], c);
      if s[0] == c {
        assert Split(s, c) == [[]] + t;
      } else {
        var u := Split(s, c);
        assert u == [[s[0]] + t[0]] + t[1..];
        if |t| == 1 {
          assert s == [s[0]] + s[1..];
        } else {
          assert u[1..] == t[1..];
          assert Join(t, [c]) == t[0] + [c] + Join(t[1..], [c]);
          assert s == [s[0]] + s[1..];
        }
      }
    }
  }

  /** A separator-free word in front of `rest` joins the first piece of `rest`'s split. */
  lemma {:induction false} SplitAfterWord(w: string, rest: string, c: char)
    requires c !in w
    ensures var t := Split(rest, c); Split(w + rest, c) == [w + t[0]] + t[1..]
  {
    var t := Split(rest, c);
    if w == [] {
      assert w + rest == rest && w + t[0] == t[0];
      assert t == [t[0]] + t[1..];
    } else {
      var ws := w + rest;
      assert ws[0] == w[0] && ws[1..] == w[1..] + rest;
      SplitAfterWord(w[1..], rest, c);
      var u := Split(ws[1..], c);
      assert u == [w[1..] + t[0]] + t[1..];
      assert Split(ws, c) == [[w[0]] + u[0]] + u[1..];
      assert [w[0]] + (w[1..] + t[0]) == w + t[0];
    }
  }

  /** Splitting a join of separator-free pieces gives back the pieces. */
  lemma {:induction false} SplitJoin(parts: seq<string>, c: char)
    requires |parts| >= 1
    requires forall i :: 0 <= i < |parts| ==> c !in parts[i]
    ensures Split(Join(parts, [c]), c) == parts
  {
    if |parts| == 1 {
      SplitAfterWord(parts[0], [], c);
      assert parts[0] + [] == parts[0];
    } else {
      var tail := parts[1..];
      SplitJoin(tail, c);
      var rest := [c] + Join(tail, [c]);
      assert Split(rest, c) == [[]] + tail;
      SplitAfterWord(parts[0], rest, c);
      assert parts[0] + rest == Join(parts, [c]);
      assert parts[0] + [] == parts[0];
      assert parts == [parts[0]] + tail;
    }
  }
}
