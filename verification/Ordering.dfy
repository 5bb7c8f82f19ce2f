/**
 Python's `sorted(items, key=...)` with a string key: the order on strings, a
 stable sort, and the fact that a sort under an injective key forgets the input
 order and nothing else.
 */
module Ordering {

  /** Comparison of `str` values, by code point. */
  predicate StringLe(a: string, b: string) {
    || a == []
    || (b != [] && (a[0] < b[0] || (a[0] == b[0] && StringLe(a[1..], b[1..]))))
  }

  lemma {:induction false} StringLeTotal(a: string, b: string)
    ensures StringLe(a, b) || StringLe(b, a)
  {
    if a != [] && b != [] { StringLeTotal(a[1..], b[1..]); }
  }

  lemma {:induction false} StringLeAntisymmetric(a: string, b: string)
    requires StringLe(a, b) && StringLe(b, a)
    ensures a == b
  {
    if a != [] && b != [] {
      StringLeAntisymmetric(a[1..], b[1..]);
      assert a == [a[0]] + a[1..] && b == [b[0]] + b[1..];
    }
  }

  lemma {:induction false} StringLeTransitive(a: string, b: string, c: string)
    requires StringLe(a, b) && StringLe(b, c)
    ensures StringLe(a, c)
  {
    if a != [] && b != [] && c != [] && a[0] == b[0] == c[0] {
      StringLeTransitive(a[1..], b[1..], c[1..]);
    }
  }

  /** At `k` the strings differ for the first time, or one of them ends. */
  predicate DifferAt(a: string, b: string, k: nat) {
    && k <= |a| && k <= |b| && (forall i :: 0 <= i < k ==> a[i] == b[i])
    && (k < |a| && k < |b| ==> a[k] != b[k])
  }

  /** Strings are in order by the code points where they differ first, and a string after its beginnings. */
  lemma {:induction false} StringLeExactly(a: string, b: string, k: nat)
    requires DifferAt(a, b, k)
    ensures StringLe(a, b) <==> if k < |a| && k < |b| then a[k] as int < b[k] as int else k == |a|
    decreases k
  {
    if k > 0 {
      assert DifferAt(a[1..], b[1..], k - 1);
      StringLeExactly(a[1..], b[1..], k - 1);
    }
  }

  function Insert<T>(key: T -> string, x: T, s: seq<T>): seq<T> {
    if s == [] then [x]
    else if StringLe(key(x), key(s[0])) then [x] + s
    else [s[0]] + Insert(key, x, s[1..])
  }

  /** `sorted(s, key=key)`: elements with equal keys keep their order. */
  function SortBy<T>(key: T -> string, s: seq<T>): seq<T> {
    if s == [] then [] else Insert(key, s[0], SortBy(key, s[1..]))
  }

  ghost predicate SortedBy<T>(key: T -> string, s: seq<T>) {
    forall i, j :: 0 <= i < j < |s| ==> StringLe(key(s[i]), key(s[j]))
  }

  ghost predicate Injective<T(!new)>(key: T -> string) {
    forall x, y :: key(x) == key(y) ==> x == y
  }

  lemma HeadAndTail<T>(s: seq<T>)
    requires s != []
    ensures multiset(s) == multiset{s[0]} + multiset(s[1..])
    ensures multiset(s[1..]) == multiset(s) - multiset{s[0]}
  {
    assert s == [s[0]] + s[1..];
  }

  lemma FindIn<T>(s: seq<T>, x: T) returns (k: nat)
    requires x in multiset(s)
    ensures k < |s| && s[k] == x
  {
    assert x in s;
    k :| 0 <= k < |s| && s[k] == x;
  }

  lemma SameLength<T>(a: seq<T>, b: seq<T>)
    requires multiset(a) == multiset(b)
    ensures |a| == |b|
  {
    assert |multiset(a)| == |multiset(b)|;
  }

  lemma {:induction false} InsertPermutes<T>(key: T -> string, x: T, s: seq<T>)
    ensures multiset(Insert(key, x, s)) == multiset([x]) + multiset(s)
  {
    if s != [] {
      assert s == [s[0]] + s[1..];
      InsertPermutes(key, x, s[1..]);
    }
  }

  lemma {:induction false} SortPermutes<T>(key: T -> string, s: seq<T>)
    ensures multiset(SortBy(key, s)) == multiset(s)
    ensures |SortBy(key, s)| == |s|
  {
    if s != [] {
      assert s == [s[0]] + s[1..];
      SortPermutes(key, s[1..]);
      InsertPermutes(key, s[0], SortBy(key, s[1..]));
    }
    assert |multiset(SortBy(key, s))| == |multiset(s)|;
  }

  lemma {:induction false} InsertKeepsSorted<T>(key: T -> string, x: T, s: seq<T>)
    requires SortedBy(key, s)
    ensures SortedBy(key, Insert(key, x, s))
  {
    if s == [] {
    } else if StringLe(key(x), key(s[0])) {
      forall j | 0 <= j < |s| ensures StringLe(key(x), key(s[j])) {
        if j > 0 { StringLeTransitive(key(x), key(s[0]), key(s[j])); }
      }
    } else {
      StringLeTotal(key(x), key(s[0]));
      var rest := Insert(key, x, s[1..]);
      InsertKeepsSorted(key, x, s[1..]);
      InsertPermutes(key, x, s[1..]);
      forall j | 0 <= j < |rest| ensures StringLe(key(s[0]), key(rest[j])) {
        assert rest[j] in multiset(rest);
        assert rest[j] == x || rest[j] in s[1..];
      }
    }
  }

  lemma {:induction false} SortSorts<T>(key: T -> string, s: seq<T>)
    ensures SortedBy(key, SortBy(key, s))
  {
    if s != [] {
      SortSorts(key, s[1..]);
      InsertKeepsSorted(key, s[0], SortBy(key, s[1..]));
    }
  }

  lemma LeastComesFirst<T(!new)>(key: T -> string, a: seq<T>, b: seq<T>)
    requires a != [] && b != [] && Injective(key)
    requires SortedBy(key, a) && SortedBy(key, b)
    requires multiset(a) == multiset(b)
    ensures a[0] == b[0]
  {
    var i := FindIn(b, a[0]);
    var j := FindIn(a, b[0]);
    StringLeTotal(key(a[0]), key(a[0]));
    StringLeAntisymmetric(key(a[0]), key(b[0]));
  }

  /** Two sorted arrangements of the same elements are the same sequence. */
  lemma {:induction false} SortedIsUnique<T(!new)>(key: T -> string, a: seq<T>, b: seq<T>)
    requires Injective(key)
    requires SortedBy(key, a) && SortedBy(key, b)
    requires multiset(a) == multiset(b)
    ensures a == b
  {
    SameLength(a, b);
    if a != [] {
      LeastComesFirst(key, a, b);
      HeadAndTail(a);
      HeadAndTail(b);
      SortedIsUnique(key, a[1..], b[1..]);
      assert a == [a[0]] + a[1..] && b == [b[0]] + b[1..];
    }
  }

  /** Under an injective key, sorting identifies exactly the permutations. */
  lemma SortForgetsOrder<T(!new)>(key: T -> string, a: seq<T>, b: seq<T>)
    requires Injective(key)
    ensures SortBy(key, a) == SortBy(key, b) <==> multiset(a) == multiset(b)
  {
    SortPermutes(key, a);
    SortPermutes(key, b);
    if multiset(a) == multiset(b) {
      SortSorts(key, a);
      SortSorts(key, b);
      SortedIsUnique(key, SortBy(key, a), SortBy(key, b));
    }
  }

  // ----- permutations as index maps

  /** `p` lists every index below `n` once. */
  ghost predicate IsPermutation(p: seq<nat>, n: nat) {
    && |p| == n
    && (forall i :: 0 <= i < n ==> p[i] < n)
    && (forall i, j :: 0 <= i < j < n ==> p[i] != p[j])
  }

  function RemoveAt<T>(s: seq<T>, k: nat): (r: seq<T>)
    requires k < |s|
  {
    s[..k] + s[k + 1..]
  }

  lemma RemoveAtCounts<T>(s: seq<T>, k: nat)
    requires k < |s|
    ensures multiset(s) == multiset([s[k]]) + multiset(RemoveAt(s, k))
  {
    assert s == s[..k] + [s[k]] + s[k + 1..];
  }

  /** Rearrangements have the same multiset ... */
  lemma {:induction false} PermutationKeepsMultiset<T>(a: seq<T>, b: seq<T>, p: seq<nat>)
    requires |a| == |b| && IsPermutation(p, |a|)
    requires forall i :: 0 <= i < |a| ==> a[i] == b[p[i]]
    ensures multiset(a) == multiset(b)
  {
    if a != [] {
      var k := p[0];
      var rest := seq(|p| - 1, i requires 0 <= i < |p| - 1 => if p[i + 1] > k then (p[i + 1] - 1) as nat else p[i + 1]);
      var b' := RemoveAt(b, k);
      forall i | 0 <= i < |rest| ensures rest[i] < |rest| && a[1..][i] == b'[rest[i]] {
        assert p[0] != p[i + 1];
      }
      PermutationKeepsMultiset(a[1..], b', rest);
      RemoveAtCounts(b, k);
      assert a == [a[0]] + a[1..];
    }
  }

  /** `q` rearranges what is left of `b` without `b[k]`; put `b[k]` in front. */
  function Extend(q: seq<nat>, k: nat): seq<nat> {
    [k] + seq(|q|, i requires 0 <= i < |q| => if q[i] >= k then q[i] + 1 else q[i])
  }

  lemma ExtendIsPermutation(q: seq<nat>, k: nat)
    requires IsPermutation(q, |q|) && k <= |q|
    ensures IsPermutation(Extend(q, k), |q| + 1)
  {}

  lemma ExtendArranges<T>(a: seq<T>, b: seq<T>, q: seq<nat>, k: nat)
    requires k < |b| == |a| == |q| + 1 && IsPermutation(q, |q|)
    requires a[0] == b[k]
    requires forall i :: 0 <= i < |q| ==> a[i + 1] == RemoveAt(b, k)[q[i]]
    ensures forall i :: 0 <= i < |a| ==> Extend(q, k)[i] < |b| && a[i] == b[Extend(q, k)[i]]
  {
    forall i | 0 < i < |a| ensures Extend(q, k)[i] < |b| && a[i] == b[Extend(q, k)[i]] {
      assert a[(i - 1) + 1] == RemoveAt(b, k)[q[i - 1]];
    }
  }

  lemma RemoveMatched<T>(a: seq<T>, b: seq<T>, k: nat)
    requires a != [] && k < |b| && a[0] == b[k] && multiset(a) == multiset(b)
    ensures multiset(a[1..]) == multiset(RemoveAt(b, k))
  {
    HeadAndTail(a);
    RemoveAtCounts(b, k);
  }

  /** ... and sequences with the same multiset are rearrangements. */
  lemma {:induction false} SameMultisetHasPermutation<T>(a: seq<T>, b: seq<T>) returns (p: seq<nat>)
    requires multiset(a) == multiset(b)
    ensures |a| == |b| && IsPermutation(p, |a|)
    ensures forall i :: 0 <= i < |a| ==> a[i] == b[p[i]]
  {
    SameLength(a, b);
    if a == [] {
      p := [];
    } else {
      HeadAndTail(a);
      var k := FindIn(b, a[0]);
      RemoveMatched(a, b, k);
      var q := SameMultisetHasPermutation(a[1..], RemoveAt(b, k));
      p := Extend(q, k);
      ExtendIsPermutation(q, k);
      ExtendArranges(a, b, q, k);
    }
  }
}
