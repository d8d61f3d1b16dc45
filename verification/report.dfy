/** `sortKeys`: the categories of a totals map, in ascending order, so that the
    report lists them the same way on every run. */
module Report {

  /** Strict lexicographic order on strings, compared character by character,
      with a proper prefix before any longer string. */
  predicate Below(a: string, b: string)
  {
    if a == [] then b != []
    else b != [] && (a[0] < b[0] || (a[0] == b[0] && Below(a[1..], b[1..])))
  }

  lemma {:induction false} BelowAsymmetric(a: string, b: string)
    requires Below(a, b)
    ensures !Below(b, a)
  {
    if a != [] && a[0] == b[0] {
      BelowAsymmetric(a[1..], b[1..]);
    }
  }

  lemma {:induction false} BelowTransitive(a: string, b: string, c: string)
    requires Below(a, b) && Below(b, c)
    ensures Below(a, c)
  {
    if a != [] && a[0] == b[0] && b[0] == c[0] {
      BelowTransitive(a[1..], b[1..], c[1..]);
    }
  }

  lemma {:induction false} BelowTotal(a: string, b: string)
    requires a != b
    ensures Below(a, b) || Below(b, a)
  {
    if a != [] && b != [] && a[0] == b[0] {
      assert a == [a[0]] + a[1..] && b == [b[0]] + b[1..];
      BelowTotal(a[1..], b[1..]);
    }
  }

  /** Every string is strictly below each later one: sorted without duplicates. */
  predicate Ascending(s: seq<string>)
  {
    forall i, j :: 0 <= i < j < |s| ==> Below(s[i], s[j])
  }

  /** No string is strictly below the one before it. */
  predicate NonDescending(s: seq<string>)
  {
    forall k :: 0 < k < |s| ==> !Below(s[k], s[k - 1])
  }

  /** A non-descending sequence of distinct strings is ascending. */
  lemma {:induction false} DistinctNonDescendingIsAscending(s: seq<string>)
    requires NonDescending(s)
    requires forall i, j :: 0 <= i < j < |s| ==> s[i] != s[j]
    ensures Ascending(s)
  {
    if |s| > 1 {
      var s' := s[..|s| - 1];
      DistinctNonDescendingIsAscending(s');
      var n := |s| - 1;
      BelowTotal(s[n - 1], s[n]);
      forall i | 0 <= i < n ensures Below(s[i], s[n]) {
        if i < n - 1 {
          BelowTransitive(s[i], s[n - 1], s[n]);
        }
      }
    }
  }

  /** Exchanges `a[i]` and `a[j]`. */
  method Swap(a: array<string>, i: nat, j: nat)
    requires i < a.Length && j < a.Length
    modifies a
    ensures a[..] == old(a[..])[i := old(a[j])][j := old(a[i])]
    ensures multiset(a[..]) == old(multiset(a[..]))
  {
    a[i], a[j] := a[j], a[i];
  }

  /** Moves `a[i]` left past every larger string, so that a non-descending
      `a[..i]` becomes a non-descending `a[..i + 1]`. */
  method InsertAt(a: array<string>, i: nat)
    requires i < a.Length
    requires forall k :: 0 < k < i ==> !Below(a[k], a[k - 1])
    modifies a
    ensures forall k :: 0 < k <= i ==> !Below(a[k], a[k - 1])
    ensures multiset(a[..]) == old(multiset(a[..]))
  {
    var j := i;
    while j > 0 && Below(a[j], a[j - 1])
      invariant 0 <= j <= i
      invariant forall k :: 0 < k <= i && k != j ==> !Below(a[k], a[k - 1])
      invariant 0 < j < i ==> !Below(a[j + 1], a[j - 1])
      invariant multiset(a[..]) == old(multiset(a[..]))
    {
      BelowAsymmetric(a[j], a[j - 1]);
      Swap(a, j - 1, j);
      j := j - 1;
    }
  }

  /** Sorts `a` in place into non-descending order (insertion sort): the
      ordering step of the library sort the source calls. */
  method SortStrings(a: array<string>)
    modifies a
    ensures NonDescending(a[..])
    ensures multiset(a[..]) == old(multiset(a[..]))
  {
    var i := 0;
    while i < a.Length
      invariant 0 <= i <= a.Length
      invariant forall k :: 0 < k < i ==> !Below(a[k], a[k - 1])
      invariant multiset(a[..]) == old(multiset(a[..]))
    {
      InsertAt(a, i);
      i := i + 1;
    }
  }

  /** A sequence in which nothing occurs twice has no repeated entries. */
  lemma Distinct(s: seq<string>)
    requires forall x :: multiset(s)[x] <= 1
    ensures forall i, j :: 0 <= i < j < |s| ==> s[i] != s[j]
  {
    forall i, j | 0 <= i < j < |s| ensures s[i] != s[j] {
      assert s == s[..i] + [s[i]] + s[i + 1..j] + [s[j]] + s[j + 1..];
      assert multiset(s)[s[i]] >= 1 + (if s[j] == s[i] then 1 else 0);
    }
  }

  /** The keys of `t`, collected in the map's (arbitrary) iteration order and
      then sorted: each key once, in ascending order. */
  method SortKeys<V>(t: map<string, V>) returns (keys: seq<string>)
    ensures |keys| == |t|
    ensures forall k :: k in keys <==> k in t
    ensures Ascending(keys)
  {
    var collected: seq<string> := [];
    var unvisited := t.Keys;
    while unvisited != {}
      invariant unvisited <= t.Keys
      invariant forall x :: multiset(collected)[x] == if x in t && x !in unvisited then 1 else 0
      invariant |collected| + |unvisited| == |t|
      decreases |unvisited|
    {
      var k :| k in unvisited;
      collected := collected + [k];
      unvisited := unvisited - {k};
    }
    var a := new string[|collected|](i requires 0 <= i < |collected| => collected[i]);
    assert a[..] == collected;
    SortStrings(a);
    keys := a[..];
    assert forall x :: x in keys <==> x in multiset(keys);
    Distinct(keys);
    DistinctNonDescendingIsAscending(keys);
  }
}
