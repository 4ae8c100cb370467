/** Generic facts about sequences used to state order-preservation. */
module Seqs {

  /** `sub` can be obtained from `s` by deleting elements, keeping the rest in order. */
  ghost predicate IsSubsequence<T>(sub: seq<T>, s: seq<T>)
    decreases |s|
  {
    sub == [] ||
    (s != [] &&
     ((sub[|sub| - 1] == s[|s| - 1] && IsSubsequence(sub[..|sub| - 1], s[..|s| - 1])) ||
      IsSubsequence(sub, s[..|s| - 1])))
  }

  /** No element occurs twice. */
  ghost predicate Distinct<T>(s: seq<T>)
  {
    forall i, j :: 0 <= i < j < |s| ==> s[i] != s[j]
  }

  lemma {:induction false} SubsequenceElements<T>(sub: seq<T>, s: seq<T>)
    requires IsSubsequence(sub, s)
    ensures |sub| <= |s|
    ensures forall x :: x in sub ==> x in s
    decreases |s|
  {
    if sub != [] {
      if sub[|sub| - 1] == s[|s| - 1] && IsSubsequence(sub[..|sub| - 1], s[..|s| - 1]) {
        SubsequenceElements(sub[..|sub| - 1], s[..|s| - 1]);
        assert sub == sub[..|sub| - 1] + [s[|s| - 1]];
        assert s == s[..|s| - 1] + [s[|s| - 1]];
      } else {
        SubsequenceElements(sub, s[..|s| - 1]);
        assert s == s[..|s| - 1] + [s[|s| - 1]];
      }
    }
  }

  /** Extending both sides, or only the larger one, keeps the relation. */
  lemma SubsequenceSnoc<T>(sub: seq<T>, s: seq<T>, x: T, keep: bool)
    requires IsSubsequence(sub, s)
    ensures IsSubsequence(if keep then sub + [x] else sub, s + [x])
  {
    var s' := s + [x];
    assert s'[..|s'| - 1] == s;
    if keep {
      var sub' := sub + [x];
      assert sub'[..|sub'| - 1] == sub;
    }
  }

  /** Every occurrence of `c` deleted, the rest kept in order: `s.replace(/c/g, '')` on a
      string, `s.filter(x => x !== c)` on an array. */
  function RemoveAll<T(==)>(s: seq<T>, c: T): (r: seq<T>)
    ensures |r| <= |s|
    ensures c !in s ==> r == s
  {
    if s == [] then []
    else RemoveAll(s[..|s| - 1], c) + (if s[|s| - 1] == c then [] else [s[|s| - 1]])
  }

  /** What remains is exactly every element other than `c`. */
  lemma {:induction false} RemoveAllElements<T(!new)>(s: seq<T>, c: T)
    ensures forall x :: x in RemoveAll(s, c) <==> x in s && x != c
  {
    if s != [] {
      RemoveAllElements(s[..|s| - 1], c);
      assert s == s[..|s| - 1] + [s[|s| - 1]];
    }
  }

  /** Removal distributes over concatenation. */
  lemma {:induction false} RemoveAllAppend<T>(a: seq<T>, b: seq<T>, c: T)
    ensures RemoveAll(a + b, c) == RemoveAll(a, c) + RemoveAll(b, c)
  {
    if b == [] {
      assert a + b == a;
    } else {
      var ab := a + b;
      var n := |b| - 1;
      assert ab[..|ab| - 1] == a + b[..n] && ab[|ab| - 1] == b[n];
      var tail := if b[n] == c then [] else [b[n]];
      assert RemoveAll(ab, c) == RemoveAll(a + b[..n], c) + tail;
      RemoveAllAppend(a, b[..n], c);
      assert RemoveAll(b, c) == RemoveAll(b[..n], c) + tail;
    }
  }

  /** A concatenation ends with its second part. */
  lemma AppendSuffix<T>(a: seq<T>, b: seq<T>)
    ensures (a + b)[|a|..] == b
  {
  }
}
