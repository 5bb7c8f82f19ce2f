/** Optional values, the size of a real number, and lists. */
module Basics {

  datatype Option<+T> = None | Some(value: T)

  function Abs(x: real): real { if x < 0.0 then -x else x }

  /** Each item once, in the order of first occurrence. */
  function Dedup<T(==)>(items: seq<T>): seq<T> {
    if items == [] then []
    else
      var seen := Dedup(items[..|items| - 1]);
      if items[|items| - 1] in seen then seen else seen + [items[|items| - 1]]
  }

  /** dedupe_texts and dedupe_strings, on texts that neither drops or strips. */
  method Once<T(==)>(items: seq<T>) returns (result: seq<T>)
    ensures result == Dedup(items)
    ensures forall x :: x in result <==> x in items
    ensures forall i, j :: 0 <= i < j < |result| ==> result[i] != result[j]
  {
    result := [];
    for i := 0 to |items|
      invariant result == Dedup(items[..i])
      invariant forall x :: x in result <==> x in items[..i]
      invariant forall i, j :: 0 <= i < j < |result| ==> result[i] != result[j]
    {
      assert items[..i + 1][..i] == items[..i];
      if items[i] !in result { result := result + [items[i]]; }
    }
    assert items[..|items|] == items;
  }

  lemma ConcatAssociates<T>(a: seq<T>, b: seq<T>, c: seq<T>)
    ensures a + b + c == a + (b + c)
  {
  }
}
