/** Python's order on strings and on lists, and its stable `sorted`. */
module Ordering {

  ghost predicate Total<T(!new)>(le: (T, T) -> bool) {
    && (forall a, b :: le(a, b) || le(b, a))
    && (forall a, b, c :: le(a, b) && le(b, c) ==> le(a, c))
  }

  ghost predicate TotalOrder<T(!new)>(le: (T, T) -> bool) {
    Total(le) && forall a, b :: le(a, b) && le(b, a) ==> a == b
  }

  /** Lexicographic order: the first difference decides, a prefix comes first. */
  predicate LexLe<T(==)>(le: (T, T) -> bool, a: seq<T>, b: seq<T>) {
    if a == [] then true
    else if b == [] then false
    else if a[0] == b[0] then LexLe(le, a[1..], b[1..])
    else le(a[0], b[0])
  }

  lemma {:induction false} LexTotal<T(!new)>(le: (T, T) -> bool, a: seq<T>, b: seq<T>)
    requires TotalOrder(le)
    ensures LexLe(le, a, b) || LexLe(le, b, a)
    ensures LexLe(le, a, b) && LexLe(le, b, a) ==> a == b
  {
    if a != [] && b != [] && a[0] == b[0] {
      LexTotal(le, a[1..], b[1..]);
      assert a == [a[0]] + a[1..] && b == [b[0]] + b[1..];
    }
  }

  lemma {:induction false} LexTransitive<T(!new)>(le: (T, T) -> bool, a: seq<T>, b: seq<T>, c: seq<T>)
    requires TotalOrder(le) && LexLe(le, a, b) && LexLe(le, b, c)
    ensures LexLe(le, a, c)
  {
    if a != [] && a[0] == b[0] && b[0] == c[0] {
      LexTransitive(le, a[1..], b[1..], c[1..]);
    }
  }

  predicate StrLe(a: string, b: string) {
    LexLe((x: char, y: char) => x <= y, a, b)
  }

  predicate ListLe(a: seq<string>, b: seq<string>) {
    LexLe(StrLe, a, b)
  }

  /** Up to k they agree; there one ends or has the smaller element. */
  predicate DecidedAt<T(==)>(le: (T, T) -> bool, a: seq<T>, b: seq<T>, k: nat) {
    k <= |a| && k <= |b| && a[..k] == b[..k] && (k == |a| || (k < |b| && a[k] != b[k] && le(a[k], b[k])))
  }

  lemma {:induction false} FirstDecides<T(!new)>(le: (T, T) -> bool, a: seq<T>, b: seq<T>, k: nat)
    requires a != [] && b != [] && a[0] != b[0] && DecidedAt(le, a, b, k)
    ensures le(a[0], b[0])
  {
    if k > 0 {
      SamePrefix(a, b, k);
    }
  }

  lemma {:induction false} SamePrefix<T>(a: seq<T>, b: seq<T>, k: nat)
    requires 0 < k <= |a| && k <= |b| && a[..k] == b[..k]
    ensures a[0] == b[0]
  {
    assert a[..k][0] == b[..k][0];
  }

  /** One list is at most another exactly when it is its beginning or has the smaller element
      where they first differ. */
  lemma {:induction false} LexExactly<T(!new)>(le: (T, T) -> bool, a: seq<T>, b: seq<T>)
    ensures LexLe(le, a, b) <==> exists k: nat :: DecidedAt(le, a, b, k)
  {
    if a == [] {
      assert DecidedAt(le, a, b, 0);
    } else if b != [] {
      if a[0] == b[0] {
        LexExactly(le, a[1..], b[1..]);
        if k: nat :| DecidedAt(le, a[1..], b[1..], k) {
          assert a[..k + 1] == [a[0]] + a[1..][..k] && b[..k + 1] == [b[0]] + b[1..][..k];
          assert DecidedAt(le, a, b, k + 1);
        }
        if k: nat :| DecidedAt(le, a, b, k) {
          assert k > 0;
          assert a[1..][..k - 1] == a[..k][1..] && b[1..][..k - 1] == b[..k][1..];
          assert DecidedAt(le, a[1..], b[1..], k - 1);
        }
      } else {
        assert le(a[0], b[0]) ==> DecidedAt(le, a, b, 0);
        forall k: nat | DecidedAt(le, a, b, k)
          ensures le(a[0], b[0])
        {
          FirstDecides(le, a, b, k);
        }
      }
    }
  }

  /** Strings compare by code point. */
  lemma {:induction false} StrExactly(a: string, b: string)
    ensures StrLe(a, b)
       <==> exists k: nat :: k <= |a| && k <= |b| && a[..k] == b[..k] && (k == |a| || (k < |b| && a[k] < b[k]))
  {
    var le := (x: char, y: char) => x <= y;
    LexExactly(le, a, b);
    if k: nat :| DecidedAt(le, a, b, k) {
      assert a[..k] == b[..k];
    }
    if k: nat :| k <= |a| && k <= |b| && a[..k] == b[..k] && (k == |a| || (k < |b| && a[k] < b[k])) {
      assert DecidedAt(le, a, b, k);
    }
  }

  /** Lists of strings compare string by string. */
  lemma {:induction false} ListExactly(a: seq<string>, b: seq<string>)
    ensures ListLe(a, b)
       <==> exists k: nat :: k <= |a| && k <= |b| && a[..k] == b[..k]
              && (k == |a| || (k < |b| && a[k] != b[k] && StrLe(a[k], b[k])))
  {
    LexExactly(StrLe, a, b);
    if k: nat :| DecidedAt(StrLe, a, b, k) {
      assert a[..k] == b[..k];
    }
    if k: nat :| k <= |a| && k <= |b| && a[..k] == b[..k]
                 && (k == |a| || (k < |b| && a[k] != b[k] && StrLe(a[k], b[k]))) {
      assert DecidedAt(StrLe, a, b, k);
    }
  }

  lemma {:induction false} StrOrder()
    ensures TotalOrder(StrLe)
  {
    var le := (x: char, y: char) => x <= y;
    forall a: string, b: string
      ensures StrLe(a, b) || StrLe(b, a)
      ensures StrLe(a, b) && StrLe(b, a) ==> a == b
    {
      LexTotal(le, a, b);
    }
    forall a: string, b: string, c: string | StrLe(a, b) && StrLe(b, c)
      ensures StrLe(a, c)
    {
      LexTransitive(le, a, b, c);
    }
  }

  lemma {:induction false} ListOrder()
    ensures TotalOrder(ListLe)
  {
    StrOrder();
    forall a: seq<string>, b: seq<string>
      ensures ListLe(a, b) || ListLe(b, a)
      ensures ListLe(a, b) && ListLe(b, a) ==> a == b
    {
      LexTotal(StrLe, a, b);
    }
    forall a: seq<string>, b: seq<string>, c: seq<string> | ListLe(a, b) && ListLe(b, c)
      ensures ListLe(a, c)
    {
      LexTransitive(StrLe, a, b, c);
    }
  }

  // ----- sorting ----------------------------------------------------------------

  ghost predicate Sorted<T>(le: (T, T) -> bool, s: seq<T>) {
    forall i, j :: 0 <= i < j < |s| ==> le(s[i], s[j])
  }

  /** `x` placed before the first element not below it, so equal keys keep their order. */
  function Insert<T>(le: (T, T) -> bool, x: T, s: seq<T>): (r: seq<T>)
    ensures multiset(r) == multiset(s) + multiset{x}
    ensures |r| == |s| + 1
  {
    if s == [] then [x]
    else if le(x, s[0]) then [x] + s
    else
      assert s == [s[0]] + s[1..];
      [s[0]] + Insert(le, x, s[1..])
  }

  /** Python's `sorted` with `le` comparing keys. */
  function SortBy<T>(le: (T, T) -> bool, s: seq<T>): (r: seq<T>)
    ensures multiset(r) == multiset(s)
    ensures |r| == |s|
  {
    if s == [] then []
    else
      assert s == [s[0]] + s[1..];
      Insert(le, s[0], SortBy(le, s[1..]))
  }

  lemma {:induction false} InsertSorted<T(!new)>(le: (T, T) -> bool, x: T, s: seq<T>)
    requires Total(le) && Sorted(le, s)
    ensures Sorted(le, Insert(le, x, s))
  {
    if s != [] && !le(x, s[0]) {
      InsertSorted(le, x, s[1..]);
      var r := Insert(le, x, s[1..]);
      assert s == [s[0]] + s[1..];
      forall j | 0 <= j < |r|
        ensures le(s[0], r[j])
      {
        assert r[j] in multiset(s[1..]) + multiset{x};
        if r[j] in s[1..] {
          var k :| 0 <= k < |s[1..]| && s[1..][k] == r[j];
          assert s[k + 1] == r[j];
        }
      }
    }
  }

  lemma {:induction false} SortBySorted<T(!new)>(le: (T, T) -> bool, s: seq<T>)
    requires Total(le)
    ensures Sorted(le, SortBy(le, s))
  {
    if s != [] {
      SortBySorted(le, s[1..]);
      InsertSorted(le, s[0], SortBy(le, s[1..]));
    }
  }

  /** Those of the list that the key does not tell from x. */
  function TiedWith<T>(le: (T, T) -> bool, x: T, s: seq<T>): seq<T> {
    if s == [] then [] else IfTied(le, x, s[0]) + TiedWith(le, x, s[1..])
  }

  ghost predicate PassesOn<T>(le: (T, T) -> bool, y: T, x: T, z: T) {
    le(y, x) && le(x, z) ==> le(y, z)
  }

  function IfTied<T>(le: (T, T) -> bool, x: T, y: T): seq<T> {
    if le(x, y) && le(y, x) then [y] else []
  }

  lemma {:induction false} TiedFirst<T>(le: (T, T) -> bool, x: T, y: T, rest: seq<T>)
    ensures TiedWith(le, x, [y] + rest) == IfTied(le, x, y) + TiedWith(le, x, rest)
  {
    assert ([y] + rest)[1..] == rest;
  }

  /** Elements that are not both tied may change places. */
  lemma {:induction false} Regroup<T>(a: seq<T>, b: seq<T>, c: seq<T>)
    requires a == [] || b == []
    ensures a + (b + c) == b + (a + c)
  {
  }

  lemma {:induction false} InsertKeepsTies<T(!new)>(le: (T, T) -> bool, y: T, s: seq<T>, x: T)
    requires forall z {:trigger PassesOn(le, y, x, z)} :: PassesOn(le, y, x, z)
    ensures TiedWith(le, x, Insert(le, y, s)) == IfTied(le, x, y) + TiedWith(le, x, s)
  {
    if s == [] {
      TiedFirst(le, x, y, []);
    } else if le(y, s[0]) {
      TiedFirst(le, x, y, s);
    } else {
      var first, rest := s[0], s[1..];
      assert s == [first] + rest;
      InsertKeepsTies(le, y, rest, x);
      TiedFirst(le, x, first, Insert(le, y, rest));
      TiedFirst(le, x, first, rest);
      assert PassesOn(le, y, x, first);
      Regroup(IfTied(le, x, first), IfTied(le, x, y), TiedWith(le, x, rest));
    }
  }

  lemma {:induction false} TotalPassesOn<T(!new)>(le: (T, T) -> bool, y: T, x: T)
    requires Total(le)
    ensures forall z {:trigger PassesOn(le, y, x, z)} :: PassesOn(le, y, x, z)
  {
  }

  /** Sorting is stable: what the key does not tell apart keeps its order. */
  lemma {:induction false} SortIsStable<T(!new)>(le: (T, T) -> bool, s: seq<T>, x: T)
    requires Total(le)
    ensures TiedWith(le, x, SortBy(le, s)) == TiedWith(le, x, s)
  {
    if s != [] {
      SortIsStable(le, s[1..], x);
      TotalPassesOn(le, s[0], x);
      InsertKeepsTies(le, s[0], SortBy(le, s[1..]), x);
    }
  }

  /** What the element at i is not below stands before it. */
  lemma {:induction false} ComesBefore<T(!new)>(le: (T, T) -> bool, s: seq<T>, i: nat, b: T)
    requires Total(le) && i < |s| && b in s && !le(SortBy(le, s)[i], b)
    ensures exists k :: 0 <= k < i && SortBy(le, s)[k] == b
  {
    var r := SortBy(le, s);
    SortBySorted(le, s);
    SameMembers(r, s, b);
    assert le(b, b);
    assert forall j :: i < j < |r| ==> le(r[i], r[j]);
  }

  /** Sorting neither adds nor drops an element. */
  lemma {:induction false} SameMembers<T>(a: seq<T>, b: seq<T>, x: T)
    requires multiset(a) == multiset(b)
    ensures x in a <==> x in b
  {
    assert x in a <==> x in multiset(a);
    assert x in b <==> x in multiset(b);
  }

  lemma {:induction false} CountTwo<T>(s: seq<T>, i: nat, j: nat)
    requires i < j < |s| && s[i] == s[j]
    ensures multiset(s)[s[i]] >= 2
  {
    assert s == s[..j] + [s[j]] + s[j + 1..];
    assert s[i] in multiset(s[..j]);
  }

  lemma {:induction false} TwoOccurrences<T>(s: seq<T>, x: T) returns (i: nat, j: nat)
    requires multiset(s)[x] >= 2
    ensures i < j < |s| && s[i] == x && s[j] == x
  {
    assert s == s[..|s| - 1] + [s[|s| - 1]];
    if s[|s| - 1] == x {
      assert x in multiset(s[..|s| - 1]);
      i :| 0 <= i < |s| - 1 && s[i] == x;
      j := |s| - 1;
    } else {
      i, j := TwoOccurrences(s[..|s| - 1], x);
    }
  }

  /** Two places of a list are two places of any reordering of it. */
  lemma {:induction false} PermutedPair<T>(s: seq<T>, t: seq<T>, i: nat, j: nat) returns (i': nat, j': nat)
    requires multiset(s) == multiset(t) && i < |s| && j < |s| && i != j
    ensures i' < |t| && j' < |t| && i' != j' && t[i'] == s[i] && t[j'] == s[j]
  {
    if s[i] == s[j] {
      CountTwo(s, if i < j then i else j, if i < j then j else i);
      i', j' := TwoOccurrences(t, s[i]);
    } else {
      SameMembers(s, t, s[i]);
      SameMembers(s, t, s[j]);
      i' :| 0 <= i' < |t| && t[i'] == s[i];
      j' :| 0 <= j' < |t| && t[j'] == s[j];
    }
  }

  function Flatten<T>(s: seq<seq<T>>): seq<T> {
    if s == [] then [] else Flatten(s[..|s| - 1]) + s[|s| - 1]
  }

  lemma {:induction false} FlattenSplit<T>(s: seq<seq<T>>, k: nat)
    requires k < |s|
    ensures multiset(Flatten(s)) == multiset(Flatten(s[..k] + s[k + 1..])) + multiset(s[k])
  {
    var rest := s[..k] + s[k + 1..];
    if k < |s| - 1 {
      FlattenSplit(s[..|s| - 1], k);
      assert s[..|s| - 1][..k] + s[..|s| - 1][k + 1..] == rest[..|rest| - 1];
    } else {
      assert rest == s[..|s| - 1];
    }
  }

  /** The elements of a list of lists, counted, do not depend on the order of the lists. */
  lemma {:induction false} FlattenPermuted<T>(s: seq<seq<T>>, t: seq<seq<T>>)
    requires multiset(s) == multiset(t)
    ensures multiset(Flatten(s)) == multiset(Flatten(t))
    decreases |s|
  {
    if s == [] {
      assert |multiset(t)| == 0;
    } else {
      var n := |s| - 1;
      SameMembers(s, t, s[n]);
      var k :| 0 <= k < |t| && t[k] == s[n];
      FlattenSplit(t, k);
      var rest := t[..k] + t[k + 1..];
      assert t == t[..k] + [t[k]] + t[k + 1..];
      assert s == s[..n] + [s[n]];
      assert multiset(s[..n]) == multiset(s) - multiset{s[n]};
      assert multiset(rest) == multiset(t) - multiset{s[n]};
      FlattenPermuted(s[..n], rest);
    }
  }

  lemma {:induction false} FlattenAppendAt<T>(s: seq<seq<T>>, k: nat, u: seq<T>)
    requires k < |s|
    ensures multiset(Flatten(s[k := s[k] + u])) == multiset(Flatten(s)) + multiset(u)
  {
    var t := s[k := s[k] + u];
    FlattenSplit(s, k);
    FlattenSplit(t, k);
    assert t[..k] == s[..k] && t[k + 1..] == s[k + 1..];
  }

  lemma {:induction false} FlattenEmpty<T>(s: seq<seq<T>>)
    requires forall i :: 0 <= i < |s| ==> s[i] == []
    ensures Flatten(s) == []
  {
    if s != [] {
      FlattenEmpty(s[..|s| - 1]);
    }
  }

  lemma {:induction false} FlattenRearranged<T>(s: seq<seq<T>>, t: seq<seq<T>>)
    requires |s| == |t| && forall i :: 0 <= i < |s| ==> multiset(s[i]) == multiset(t[i])
    ensures multiset(Flatten(s)) == multiset(Flatten(t))
  {
    if s != [] {
      FlattenRearranged(s[..|s| - 1], t[..|t| - 1]);
    }
  }

  lemma {:induction false} InFlatten<T>(s: seq<seq<T>>, x: T)
    ensures x in Flatten(s) <==> exists i :: 0 <= i < |s| && x in s[i]
  {
    if s != [] {
      InFlatten(s[..|s| - 1], x);
    }
  }
}
