/** Node labels: the lexicographic order Rust's `String` sorts by, sortedness,
    duplicate freedom, and the two steps every label table of the router is
    built with: collect the distinct endpoint labels, then sort them. */
module Labels {

  /** `a <= b` in the order of Rust's `Ord for String`: byte-wise on UTF-8,
      which is the same as lexicographic on Unicode scalar values; a proper
      prefix sorts first. */
  predicate LexLe(a: string, b: string)
    decreases |a|
  {
    |a| == 0 || (|b| > 0 && (a[0] < b[0] || (a[0] == b[0] && LexLe(a[1..], b[1..]))))
  }

  /** The usual reading of the order: `a` is a prefix of `b`, or the two agree
      up to a first position where `a` has the smaller character. */
  ghost predicate LexLeSpec(a: string, b: string)
  {
    (|a| <= |b| && a == b[..|a|]) ||
    (exists k :: 0 <= k < |a| && k < |b| && a[..k] == b[..k] && a[k] < b[k])
  }

  lemma {:induction false} LexLeCharacterization(a: string, b: string)
    ensures LexLe(a, b) <==> LexLeSpec(a, b)
    decreases |a|
  {
    if |a| > 0 && |b| > 0 {
      if a[0] == b[0] {
        LexLeCharacterization(a[1..], b[1..]);
        SpecSameHead(a, b);
      } else {
        SpecDifferentHeads(a, b);
      }
    }
  }

  lemma SpecDifferentHeads(a: string, b: string)
    requires |a| > 0 && |b| > 0 && a[0] != b[0]
    ensures LexLeSpec(a, b) <==> a[0] < b[0]
  {
    assert a[..0] == b[..0];
    forall k | 0 < k < |a| && k < |b| ensures a[..k] != b[..k] {
      assert a[..k][0] != b[..k][0];
    }
    if |a| <= |b| {
      assert a[0] != b[..|a|][0];
    }
  }

  lemma SpecSameHead(a: string, b: string)
    requires |a| > 0 && |b| > 0 && a[0] == b[0]
    ensures LexLeSpec(a, b) <==> LexLeSpec(a[1..], b[1..])
  {
    var a', b' := a[1..], b[1..];
    if |a| <= |b| {
      assert b[..|a|] == [b[0]] + b'[..|a'|];
      assert a == [a[0]] + a';
    }
    forall k | 0 <= k < |a'| && k < |b'| && a'[..k] == b'[..k] && a'[k] < b'[k]
      ensures a[..k + 1] == b[..k + 1] && a[k + 1] < b[k + 1]
    {
      assert a[..k + 1] == [a[0]] + a'[..k] && b[..k + 1] == [b[0]] + b'[..k];
    }
    forall k | 0 < k < |a| && k < |b| && a[..k] == b[..k] && a[k] < b[k]
      ensures a'[..k - 1] == b'[..k - 1] && a'[k - 1] < b'[k - 1]
    {
      assert a'[..k - 1] == a[..k][1..] && b'[..k - 1] == b[..k][1..];
    }
  }

  lemma {:induction false} LexLeReflexive(a: string)
    ensures LexLe(a, a)
    decreases |a|
  {
    if |a| > 0 { LexLeReflexive(a[1..]); }
  }

  lemma {:induction false} LexLeTotal(a: string, b: string)
    ensures LexLe(a, b) || LexLe(b, a)
    decreases |a|
  {
    if |a| > 0 && |b| > 0 && a[0] == b[0] { LexLeTotal(a[1..], b[1..]); }
  }

  lemma {:induction false} LexLeAntisymmetric(a: string, b: string)
    requires LexLe(a, b) && LexLe(b, a)
    ensures a == b
    decreases |a|
  {
    if |a| > 0 {
      LexLeAntisymmetric(a[1..], b[1..]);
      assert a == [a[0]] + a[1..] && b == [b[0]] + b[1..];
    }
  }

  lemma {:induction false} LexLeTransitive(a: string, b: string, c: string)
    requires LexLe(a, b) && LexLe(b, c)
    ensures LexLe(a, c)
    decreases |a|
  {
    if |a| > 0 && a[0] == b[0] && b[0] == c[0] { LexLeTransitive(a[1..], b[1..], c[1..]); }
  }

  ghost predicate Sorted(s: seq<string>)
  {
    forall i, j :: 0 <= i < j < |s| ==> LexLe(s[i], s[j])
  }

  ghost predicate NoDuplicates(s: seq<string>)
  {
    forall i, j :: 0 <= i < j < |s| ==> s[i] != s[j]
  }

  /** Sorted without repetition: the shape of every label table. */
  ghost predicate StrictlySorted(s: seq<string>)
  {
    Sorted(s) && NoDuplicates(s)
  }

  /** `x` is the source or the destination of one of the `pairs`. */
  ghost predicate Occurs(pairs: seq<(string, string)>, x: string)
  {
    exists i :: 0 <= i < |pairs| && (pairs[i].0 == x || pairs[i].1 == x)
  }

  /** A strictly sorted label table is determined by the labels it holds. */
  lemma {:induction false} StrictlySortedUnique(s: seq<string>, t: seq<string>)
    requires StrictlySorted(s) && StrictlySorted(t)
    requires forall x :: x in s <==> x in t
    ensures s == t
    decreases |s|
  {
    assert (set x | x in s) == (set x | x in t);
    DistinctCardinality(s);
    DistinctCardinality(t);
    if s != [] {
      assert s[0] in t && t != [];
      assert t[0] in s;
      var k :| 0 <= k < |s| && s[k] == t[0];
      var m :| 0 <= m < |t| && t[m] == s[0];
      if k > 0 { assert LexLe(s[0], s[k]); } else { LexLeReflexive(s[0]); }
      if m > 0 { assert LexLe(t[0], t[m]); } else { LexLeReflexive(t[0]); }
      LexLeAntisymmetric(s[0], t[0]);
      forall x ensures x in s[1..] <==> x in t[1..] {
        if x in s[1..] {
          var p :| 1 <= p < |s| && s[p] == x;
          assert x != s[0];
          assert x in t;
          var q :| 0 <= q < |t| && t[q] == x;
          assert q != 0;
          assert t[1..][q - 1] == x;
        }
        if x in t[1..] {
          var q :| 1 <= q < |t| && t[q] == x;
          assert x != t[0];
          assert x in s;
          var p :| 0 <= p < |s| && s[p] == x;
          assert p != 0;
          assert s[1..][p - 1] == x;
        }
      }
      StrictlySortedUnique(s[1..], t[1..]);
      assert s == [s[0]] + s[1..] && t == [t[0]] + t[1..];
    }
  }

  /** The label table of the repository's five-node fixture. */
  lemma FixtureLabelsStrictlySorted()
    ensures StrictlySorted(["A", "B", "C", "D", "E"])
  {
    var t := ["A", "B", "C", "D", "E"];
    forall i, j | 0 <= i < j < |t| ensures LexLe(t[i], t[j]) && t[i] != t[j] {
      assert t[i][0] < t[j][0];
    }
  }

  /** Any label table of the fixture's endpoint pairs is A, B, C, D, E. */
  lemma FixtureLabels(labels: seq<string>, pairs: seq<(string, string)>)
    requires pairs == [("A", "B"), ("B", "C"), ("C", "D"), ("B", "D"), ("E", "A")]
    requires StrictlySorted(labels)
    requires forall x :: x in labels <==> Occurs(pairs, x)
    ensures labels == ["A", "B", "C", "D", "E"]
  {
    var expected := ["A", "B", "C", "D", "E"];
    FixtureLabelsStrictlySorted();
    forall x ensures x in labels <==> x in expected {
      if x in labels {
        var i :| 0 <= i < |pairs| && (pairs[i].0 == x || pairs[i].1 == x);
      }
      if x in expected {
        if x == "A" { assert pairs[0].0 == x; }
        else if x == "B" { assert pairs[0].1 == x; }
        else if x == "C" { assert pairs[1].1 == x; }
        else if x == "D" { assert pairs[2].1 == x; }
        else { assert pairs[4].0 == x; }
      }
    }
    StrictlySortedUnique(labels, expected);
  }

  /** Without repetition, a list has as many entries as distinct labels. */
  lemma {:induction false} DistinctCardinality(s: seq<string>)
    requires NoDuplicates(s)
    ensures |set x | x in s| == |s|
  {
    if s != [] {
      DistinctCardinality(s[1..]);
      assert (set x | x in s) == {s[0]} + (set x | x in s[1..]);
      assert s[0] !in s[1..];
    }
  }

  lemma {:induction false} DistinctCountsAtMostOne(s: seq<string>, x: string)
    requires NoDuplicates(s)
    ensures multiset(s)[x] <= 1
  {
    if s != [] {
      DistinctCountsAtMostOne(s[1..], x);
      assert s == [s[0]] + s[1..];
      assert s[0] !in s[1..];
    }
  }

  lemma RepeatCountsTwice(s: seq<string>, i: nat, j: nat)
    requires i < j < |s| && s[i] == s[j]
    ensures multiset(s)[s[i]] >= 2
  {
    assert s == s[..i] + [s[i]] + s[i + 1..j] + [s[j]] + s[j + 1..];
  }

  /** A sorted rearrangement of a duplicate-free list is strictly sorted and
      holds the same labels. */
  lemma SortedPermutationOfDistinct(s: seq<string>, t: seq<string>)
    requires NoDuplicates(s) && Sorted(t) && multiset(t) == multiset(s)
    ensures StrictlySorted(t)
    ensures forall x :: x in t <==> x in s
  {
    forall i, j | 0 <= i < j < |t| ensures t[i] != t[j] {
      if t[i] == t[j] {
        RepeatCountsTwice(t, i, j);
        DistinctCountsAtMostOne(s, t[i]);
      }
    }
    forall x ensures x in t <==> x in s {
      assert x in t <==> x in multiset(t);
      assert x in s <==> x in multiset(s);
    }
  }

  /** The fold that walks the edges in order and pushes each endpoint label
      not yet seen, source first. */
  method CollectLabels(pairs: seq<(string, string)>) returns (labels: seq<string>)
    ensures NoDuplicates(labels)
    ensures forall x :: x in labels <==> Occurs(pairs, x)
  {
    labels := [];
    for i := 0 to |pairs|
      invariant NoDuplicates(labels)
      invariant forall x :: x in labels <==> Occurs(pairs[..i], x)
    {
      var (src, dst) := pairs[i];
      if src !in labels {
        labels := labels + [src];
      }
      if dst !in labels {
        labels := labels + [dst];
      }
      forall x ensures Occurs(pairs[..i + 1], x) <==> Occurs(pairs[..i], x) || x == src || x == dst {
        if Occurs(pairs[..i + 1], x) {
          var k :| 0 <= k < i + 1 && (pairs[..i + 1][k].0 == x || pairs[..i + 1][k].1 == x);
          if k < i { assert pairs[..i][k] == pairs[..i + 1][k]; }
        }
        if Occurs(pairs[..i], x) {
          var k :| 0 <= k < i && (pairs[..i][k].0 == x || pairs[..i][k].1 == x);
          assert pairs[..i + 1][k] == pairs[..i][k];
        }
        if x == src || x == dst { assert pairs[..i + 1][i] == pairs[i]; }
      }
    }
    assert pairs[..|pairs|] == pairs;
  }

  /** `Vec::<String>::sort`, as an insertion sort in place. */
  method SortLabels(a: array<string>)
    modifies a
    ensures Sorted(a[..])
    ensures multiset(a[..]) == multiset(old(a[..]))
  {
    var i := 0;
    while i < a.Length
      invariant 0 <= i <= a.Length
      invariant forall p, q :: 0 <= p < q < i ==> LexLe(a[p], a[q])
      invariant multiset(a[..]) == multiset(old(a[..]))
    {
      InsertStep(a, i);
      i := i + 1;
    }
  }

  /** Exchanges two neighbouring entries. */
  method Swap(a: array<string>, j: nat)
    requires 0 < j < a.Length
    modifies a
    ensures a[..] == old(a[..])[j - 1 := old(a[j])][j := old(a[j - 1])]
    ensures multiset(a[..]) == multiset(old(a[..]))
  {
    a[j - 1], a[j] := a[j], a[j - 1];
  }

  /** Moves `a[i]` down into the sorted prefix `a[..i]`. */
  method InsertStep(a: array<string>, i: nat)
    requires i < a.Length
    requires forall p, q :: 0 <= p < q < i ==> LexLe(a[p], a[q])
    modifies a
    ensures forall p, q :: 0 <= p < q <= i ==> LexLe(a[p], a[q])
    ensures multiset(a[..]) == multiset(old(a[..]))
  {
    var j := i;
    while j > 0 && !LexLe(a[j - 1], a[j])
      invariant 0 <= j <= i
      invariant forall p, q :: 0 <= p < q <= i && p != j && q != j ==> LexLe(a[p], a[q])
      invariant forall q :: j < q <= i ==> LexLe(a[j], a[q])
      invariant multiset(a[..]) == multiset(old(a[..]))
    {
      LexLeTotal(a[j - 1], a[j]);
      Swap(a, j);
      j := j - 1;
    }
    forall p | 0 <= p < j - 1 ensures LexLe(a[p], a[j]) {
      LexLeTransitive(a[p], a[j - 1], a[j]);
    }
  }

  /** The label table of a list of endpoint pairs: collected, then sorted. */
  method SortedLabels(pairs: seq<(string, string)>) returns (labels: seq<string>)
    ensures StrictlySorted(labels)
    ensures forall x :: x in labels <==> Occurs(pairs, x)
  {
    var seen := CollectLabels(pairs);
    var a := new string[|seen|](i requires 0 <= i < |seen| => seen[i]);
    assert a[..] == seen;
    SortLabels(a);
    labels := a[..];
    SortedPermutationOfDistinct(seen, labels);
  }
}
