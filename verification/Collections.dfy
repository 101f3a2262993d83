/** The order of strings, and collecting over a list whose order must not matter. */
module Collections {
  import opened Sorting

  /** Lexicographic order by code point, which is the byte order of UTF-8 strings. */
  predicate LexLe(a: string, b: string) {
    if a == [] then true
    else if b == [] then false
    else if a[0] != b[0] then a[0] < b[0]
    else LexLe(a[1..], b[1..])
  }

  lemma {:induction false} LexTotal(a: string, b: string)
    ensures LexLe(a, b) || LexLe(b, a)
    ensures LexLe(a, b) && LexLe(b, a) ==> a == b
  {
    if a != [] && b != [] && a[0] == b[0] {
      LexTotal(a[1..], b[1..]);
      assert a == [a[0]] + a[1..] && b == [b[0]] + b[1..];
    }
  }

  lemma {:induction false} LexTransitive(a: string, b: string, c: string)
    requires LexLe(a, b) && LexLe(b, c)
    ensures LexLe(a, c)
  {
    if a != [] && b != [] && c != [] && a[0] == b[0] == c[0] {
      LexTransitive(a[1..], b[1..], c[1..]);
    }
  }

  lemma LexIsTotalPreorder()
    ensures TotalPreorder(LexLe)
    ensures forall x, y :: LexLe(x, y) && LexLe(y, x) ==> x == y
  {
    hide LexLe;
    forall x, y
      ensures (LexLe(x, y) || LexLe(y, x)) && (LexLe(x, y) && LexLe(y, x) ==> x == y)
    {
      LexTotal(x, y);
    }
    forall x, y, z | LexLe(x, y) && LexLe(y, z)
      ensures LexLe(x, z)
    {
      LexTransitive(x, y, z);
    }
  }

  /** The concatenation of `f` over a list. */
  function Collect<T, U>(s: seq<T>, f: T -> seq<U>): seq<U> {
    if s == [] then [] else Collect(s[..|s| - 1], f) + f(s[|s| - 1])
  }

  lemma CollectAppend<T, U>(s: seq<T>, x: T, f: T -> seq<U>)
    ensures Collect(s + [x], f) == Collect(s, f) + f(x)
  {
    assert (s + [x])[..|s|] == s;
  }

  lemma {:induction false} CollectConcat<T, U>(s: seq<T>, t: seq<T>, f: T -> seq<U>)
    ensures Collect(s + t, f) == Collect(s, f) + Collect(t, f)
  {
    if t == [] {
      assert s + t == s;
      assert Collect(t, f) == [];
    } else {
      hide Collect;
      var init, last := t[..|t| - 1], t[|t| - 1];
      CollectConcat(s, init, f);
      assert t == init + [last];
      assert s + t == (s + init) + [last];
      CollectAppend(s + init, last, f);
      CollectAppend(init, last, f);
      Associate(Collect(s, f), Collect(init, f), f(last));
    }
  }

  lemma Associate<U>(a: seq<U>, b: seq<U>, c: seq<U>)
    ensures (a + b) + c == a + (b + c)
  {
  }

  lemma {:induction false} CollectMembers<T, U>(s: seq<T>, f: T -> seq<U>)
    ensures forall u :: u in Collect(s, f) <==> exists x :: x in s && u in f(x)
  {
    if s != [] {
      CollectMembers(s[..|s| - 1], f);
      assert s == s[..|s| - 1] + [s[|s| - 1]];
    }
  }

  /** Reordering the list reorders what is collected. */
  lemma {:induction false} CollectPermuted<T, U>(s: seq<T>, t: seq<T>, f: T -> seq<U>)
    requires multiset(s) == multiset(t)
    ensures multiset(Collect(s, f)) == multiset(Collect(t, f))
    decreases |s|
  {
    if s == [] {
      assert |multiset(t)| == 0;
    } else {
      var init, x := s[..|s| - 1], s[|s| - 1];
      assert s == init + [x];
      assert x in multiset(t);
      var k :| 0 <= k < |t| && t[k] == x;
      var rest := t[..k] + t[k + 1..];
      assert t == t[..k] + [x] + t[k + 1..];
      assert multiset(rest) == multiset(t) - multiset{x};
      assert multiset(init) == multiset(s) - multiset{x};
      hide Collect;
      CollectPermuted(init, rest, f);
      CollectAppend(init, x, f);
      CollectAppend(t[..k], x, f);
      CollectConcat(t[..k] + [x], t[k + 1..], f);
      CollectConcat(t[..k], t[k + 1..], f);
    }
  }

  /** No value occurs twice. */
  ghost predicate NoDuplicates<T(!new)>(s: seq<T>) {
    forall x :: multiset(s)[x] <= 1
  }

  lemma NoDuplicatesDistinct<T(!new)>(s: seq<T>, i: nat, j: nat)
    requires NoDuplicates(s) && i < j < |s|
    ensures s[i] != s[j]
  {
    assert s == s[..j] + [s[j]] + s[j + 1..];
    assert multiset(s) == multiset(s[..j]) + multiset{s[j]} + multiset(s[j + 1..]);
    assert s[..j][i] == s[i];
    assert s[i] in multiset(s[..j]);
    assert multiset(s)[s[j]] == 1;
  }

  lemma {:induction false} DistinctNoDuplicates<T(!new)>(s: seq<T>)
    requires forall i, j :: 0 <= i < j < |s| ==> s[i] != s[j]
    ensures NoDuplicates(s)
  {
    if s != [] {
      var init := s[..|s| - 1];
      DistinctNoDuplicates(init);
      assert s == init + [s[|s| - 1]];
      assert s[|s| - 1] !in init;
      assert s[|s| - 1] !in multiset(init);
    }
  }

  /** Elements that differ in a key still do after reordering. */
  lemma DistinctKeysPermuted<T(!new), K>(s: seq<T>, t: seq<T>, key: T -> K)
    requires multiset(s) == multiset(t)
    requires forall i, j :: 0 <= i < j < |s| ==> key(s[i]) != key(s[j])
    ensures forall i, j :: 0 <= i < j < |t| ==> key(t[i]) != key(t[j])
  {
    DistinctNoDuplicates(s);
    forall i, j | 0 <= i < j < |t|
      ensures key(t[i]) != key(t[j])
    {
      NoDuplicatesDistinct(t, i, j);
      assert t[i] in multiset(t) && t[j] in multiset(t);
      assert t[i] in multiset(s) && t[j] in multiset(s);
    }
  }

  lemma NoDuplicatesPart<T(!new)>(s: seq<T>, t: seq<T>)
    requires NoDuplicates(s + t)
    ensures NoDuplicates(s) && NoDuplicates(t)
    ensures forall x :: x in s ==> x !in t
  {
    assert multiset(s + t) == multiset(s) + multiset(t);
    forall x
      ensures multiset(s)[x] + multiset(t)[x] <= 1
    {
      assert multiset(s + t)[x] <= 1;
    }
    forall x | x in s
      ensures x !in t
    {
      assert x in multiset(s);
      assert x in t ==> x in multiset(t);
    }
  }

  /** What two different elements contribute to a duplicate-free collection does not overlap. */
  lemma CollectedApart<T, U(!new)>(s: seq<T>, f: T -> seq<U>, i: nat, j: nat)
    requires NoDuplicates(Collect(s, f)) && i < j < |s|
    ensures forall u :: u in f(s[i]) ==> u !in f(s[j])
  {
    hide NoDuplicates, Collect;
    var before, rest := s[..j], s[j..];
    assert s == before + rest;
    CollectConcat(before, rest, f);
    NoDuplicatesPart(Collect(before, f), Collect(rest, f));
    assert before[i] == s[i] && rest[0] == s[j];
    forall u | u in f(s[i])
      ensures u !in f(s[j])
    {
      CollectedFrom(before, f, s[i], u);
      if u in f(s[j]) {
        CollectedFrom(rest, f, s[j], u);
      }
    }
  }

  lemma CollectedFrom<T, U>(s: seq<T>, f: T -> seq<U>, x: T, u: U)
    requires x in s && u in f(x)
    ensures u in Collect(s, f)
  {
    CollectMembers(s, f);
  }

  lemma CollectedPart<T, U(!new)>(s: seq<T>, f: T -> seq<U>, i: nat)
    requires NoDuplicates(Collect(s, f)) && i < |s|
    ensures NoDuplicates(f(s[i]))
  {
    hide NoDuplicates, Collect;
    assert s == (s[..i] + [s[i]]) + s[i + 1..];
    CollectConcat(s[..i] + [s[i]], s[i + 1..], f);
    NoDuplicatesPart(Collect(s[..i] + [s[i]], f), Collect(s[i + 1..], f));
    CollectAppend(s[..i], s[i], f);
    NoDuplicatesPart(Collect(s[..i], f), f(s[i]));
  }

  lemma {:induction false} SubsetSize<T>(a: set<T>, b: set<T>)
    requires a <= b
    ensures |a| <= |b|
  {
    if a != {} {
      var x :| x in a;
      SubsetSize(a - {x}, b - {x});
    }
  }

  // ----- A map filled by successive insertions -----

  function InsertAll<K, V>(entries: seq<(K, V)>): (m: map<K, V>)
    ensures forall k :: k in m ==> (k, m[k]) in entries
  {
    if entries == [] then map[]
    else
      var last := entries[|entries| - 1];
      InsertAll(entries[..|entries| - 1])[last.0 := last.1]
  }

  ghost predicate DistinctKeys<K, V>(entries: seq<(K, V)>) {
    forall i, j :: 0 <= i < j < |entries| ==> entries[i].0 != entries[j].0
  }

  /** With distinct keys every insertion stays visible. */
  lemma {:induction false} InsertedStays<K, V>(entries: seq<(K, V)>)
    requires DistinctKeys(entries)
    ensures forall e :: e in entries ==> e.0 in InsertAll(entries) && InsertAll(entries)[e.0] == e.1
  {
    if entries != [] {
      var init, last := entries[..|entries| - 1], entries[|entries| - 1];
      InsertedStays(init);
      assert entries == init + [last];
    }
  }

  lemma InsertAllPermuted<K, V>(s: seq<(K, V)>, t: seq<(K, V)>)
    requires DistinctKeys(s) && DistinctKeys(t) && multiset(s) == multiset(t)
    ensures InsertAll(s) == InsertAll(t)
  {
    hide InsertAll;
    InsertedStays(s);
    InsertedStays(t);
    forall e
      ensures e in s <==> e in t
    {
      assert e in s <==> e in multiset(s);
      assert e in t <==> e in multiset(t);
    }
  }

  // ----- Removing repetitions from a sorted list -----

  function Dedup(s: seq<string>): (r: seq<string>)
    ensures forall x :: x in r <==> x in s
    ensures s != [] ==> r != [] && r[|r| - 1] == s[|s| - 1]
  {
    if |s| <= 1 then s
    else
      var init, last := s[..|s| - 1], s[|s| - 1];
      assert s == init + [last];
      if last == init[|init| - 1] then Dedup(init) else Dedup(init) + [last]
  }

  /** In a sorted list without repetitions. */
  ghost predicate Ascending(s: seq<string>) {
    forall i, j :: 0 <= i < j < |s| ==> LexLe(s[i], s[j]) && s[i] != s[j]
  }

  lemma {:induction false} DedupSorted(s: seq<string>)
    requires Sorted(s, LexLe)
    ensures Ascending(Dedup(s))
  {
    if |s| > 1 {
      hide LexLe, Ascending;
      var init, last := s[..|s| - 1], s[|s| - 1];
      DedupSorted(init);
      if last != init[|init| - 1] {
        AscendingAppend(Dedup(init), last);
      }
    }
  }

  lemma AscendingAppend(s: seq<string>, x: string)
    requires Ascending(s) && s != [] && LexLe(s[|s| - 1], x) && s[|s| - 1] != x
    ensures Ascending(s + [x])
  {
    hide LexLe;
    forall i | 0 <= i < |s|
      ensures LexLe(s[i], x) && s[i] != x
    {
      if i < |s| - 1 {
        LexTransitive(s[i], s[|s| - 1], x);
        LexTotal(s[|s| - 1], x);
      }
    }
  }
}
