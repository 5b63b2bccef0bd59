/** Small facts about sequences that several parts of the model use. */
module Seqs {

  lemma HeadTail<T>(s: seq<T>)
    requires s != []
    ensures [s[0]] + s[1..] == s
  {
  }

  lemma AppendAssoc<T>(a: seq<T>, x: T, b: seq<T>)
    ensures a + ([x] + b) == (a + [x]) + b
  {
  }

  lemma PrefixCons<T>(s: seq<T>, n: nat)
    requires 0 < n <= |s|
    ensures s[..n] == [s[0]] + s[1..][..n - 1]
  {
  }

  lemma MultisetTail<T>(p: seq<T>)
    requires p != []
    ensures multiset(p[1..]) == multiset(p) - multiset{p[0]}
  {
    assert p == [p[0]] + p[1..];
  }

  /** A position at which a member of p occurs. */
  lemma MemberAt<T>(p: seq<T>, x: T) returns (j: nat)
    requires x in multiset(p)
    ensures j < |p| && p[j] == x
  {
    j :| 0 <= j < |p| && p[j] == x;
  }
}
