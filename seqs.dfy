/** Facts about sequences of strings that the catalog listing relies on. */
module Seqs {

  /** No element occurs twice. */
  predicate Distinct(s: seq<string>)
  {
    forall i, j :: 0 <= i < j < |s| ==> s[i] != s[j]
  }

  /** The position of the first occurrence of `x` in `s`. */
  function IndexOf(s: seq<string>, x: string): (i: nat)
    requires x in s
    ensures i < |s| && s[i] == x
    ensures forall j :: 0 <= j < i ==> s[j] != x
  {
    if s[0] == x then 0 else 1 + IndexOf(s[1..], x)
  }

  /** The elements of `s` occur in `ks`, and in the same order as there. */
  predicate InOrderOf(s: seq<string>, ks: seq<string>)
  {
    forall p, q :: 0 <= p < q < |s| ==> s[p] in ks && s[q] in ks && IndexOf(ks, s[p]) < IndexOf(ks, s[q])
  }

  /** Appending an element does not move the first occurrence of anything already present. */
  lemma IndexOfAppend(s: seq<string>, x: string, y: string)
    requires y in s
    ensures y in s + [x] && IndexOf(s + [x], y) == IndexOf(s, y)
  {
    var i := IndexOf(s, y);
    var t := s + [x];
    assert t[i] == y;
    var k := IndexOf(t, y);
    assert k <= i;
    assert s[k] == t[k];
  }

  /**
   * The distinct elements of `s`, each kept at its first occurrence: the order in
   * which Python's `dict.setdefault` inserts keys while scanning `s` from the left.
   */
  function Dedup(s: seq<string>): (r: seq<string>)
    ensures Distinct(r)
    ensures forall x :: x in r <==> x in s
  {
    if s == [] then []
    else
      var rest := Dedup(s[..|s| - 1]);
      var x := s[|s| - 1];
      assert s == s[..|s| - 1] + [x];
      if x in rest then rest else rest + [x]
  }

  /** Scanning one more element adds it at the end when it is new, and changes nothing otherwise. */
  lemma DedupAppend(s: seq<string>, x: string)
    ensures Dedup(s + [x]) == if x in Dedup(s) then Dedup(s) else Dedup(s) + [x]
  {
    assert (s + [x])[..|s|] == s;
  }

  /** `Dedup` lists the elements of `s` in the order of their first occurrence in `s`. */
  lemma {:induction false} DedupFirstSeenOrder(s: seq<string>)
    ensures InOrderOf(Dedup(s), s)
  {
    if s != [] {
      var p := s[..|s| - 1];
      var x := s[|s| - 1];
      assert s == p + [x];
      DedupFirstSeenOrder(p);
      var d, r := Dedup(p), Dedup(s);
      forall i | 0 <= i < |d|
        ensures IndexOf(s, d[i]) == IndexOf(p, d[i])
      {
        IndexOfAppend(p, x, d[i]);
      }
      if x !in d {
        assert r == d + [x];
        assert x !in p;
        assert IndexOf(s, x) == |p|;
      } else {
        assert r == d;
      }
    }
  }
}
