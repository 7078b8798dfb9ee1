/** Stable sorting and the total order on strings, as the compiler uses them:
    `sort_by`, and the key order of `BTreeMap` and `BTreeSet`. */
module Sorting {

  ghost predicate TotalPreorder<T(!new)>(le: (T, T) -> bool) {
    && (forall x, y :: le(x, y) || le(y, x))
    && (forall x, y, z :: le(x, y) && le(y, z) ==> le(x, z))
  }

  ghost predicate Sorted<T>(s: seq<T>, le: (T, T) -> bool) {
    forall i, j | 0 <= i < j < |s| :: le(s[i], s[j])
  }

  predicate NoRepeats<T(==)>(s: seq<T>) {
    forall i, j | 0 <= i < j < |s| :: s[i] != s[j]
  }

  lemma NoRepeatsJoin<T>(s: seq<T>, t: seq<T>)
    requires NoRepeats(s) && NoRepeats(t) && forall x | x in s :: x !in t
    ensures NoRepeats(s + t)
  {
    forall i, j | 0 <= i < j < |s + t| ensures (s + t)[i] != (s + t)[j] {
      if i < |s| <= j { assert s[i] in s && t[j - |s|] in t; }
    }
  }

  lemma NoRepeatsTail<T>(s: seq<T>)
    requires s != []
    ensures NoRepeats(s) <==> NoRepeats(s[1..]) && s[0] !in s[1..]
  {
    if NoRepeats(s[1..]) && s[0] !in s[1..] {
      forall i, j | 0 <= i < j < |s| ensures s[i] != s[j] {
        assert s[j] == s[1..][j - 1];
        if i > 0 { assert s[i] == s[1..][i - 1]; }
      }
    }
  }

  lemma {:induction false} NoRepeatsCounts<T>(s: seq<T>)
    ensures NoRepeats(s) <==> forall x | x in s :: multiset(s)[x] == 1
  {
    if s != [] {
      NoRepeatsCounts(s[1..]);
      NoRepeatsTail(s);
      CountsOnce(s);
    }
  }

  lemma CountsOnce<T>(s: seq<T>)
    requires s != []
    ensures (forall x | x in s :: multiset(s)[x] == 1) <==>
            s[0] !in s[1..] && forall x | x in s[1..] :: multiset(s[1..])[x] == 1
  {
    assert s == [s[0]] + s[1..];
    assert multiset(s) == multiset([s[0]]) + multiset(s[1..]);
    assert s[0] in s[1..] <==> multiset(s[1..])[s[0]] > 0;
    assert forall x | x in s[1..] && x != s[0] :: multiset(s)[x] == multiset(s[1..])[x];
    assert multiset(s)[s[0]] == 1 + multiset(s[1..])[s[0]];
  }

  /** One list after another. */
  function Joined<T>(parts: seq<seq<T>>): seq<T> {
    if parts == [] then [] else parts[0] + Joined(parts[1..])
  }

  lemma {:induction false} JoinedLast<T>(parts: seq<seq<T>>, p: seq<T>)
    ensures Joined(parts + [p]) == Joined(parts) + p
  {
    if parts == [] {
      assert parts + [p] == [p];
    } else {
      JoinedLast(parts[1..], p);
      assert (parts + [p])[1..] == parts[1..] + [p];
    }
  }

  lemma JoinedAppend<T>(parts: seq<seq<T>>, init: seq<seq<T>>, p: seq<T>)
    requires |parts| == |init| + 1 && (forall i | 0 <= i < |init| :: parts[i] == init[i]) && parts[|init|] == p
    ensures Joined(parts) == Joined(init) + p
  {
    assert parts == init + [p];
    JoinedLast(init, p);
  }

  /** Puts `x` before the first element not below it, so equal elements keep their order. */
  function Insert<T>(x: T, s: seq<T>, le: (T, T) -> bool): seq<T> {
    if s == [] || le(x, s[0]) then [x] + s else [s[0]] + Insert(x, s[1..], le)
  }

  function Sort<T>(s: seq<T>, le: (T, T) -> bool): seq<T> {
    if s == [] then [] else Insert(s[0], Sort(s[1..], le), le)
  }

  lemma {:induction false} InsertSorts<T(!new)>(x: T, s: seq<T>, le: (T, T) -> bool)
    requires TotalPreorder(le) && Sorted(s, le)
    ensures multiset(Insert(x, s, le)) == multiset([x]) + multiset(s)
    ensures Sorted(Insert(x, s, le), le)
  {
    if s == [] || le(x, s[0]) {
      assert Sorted([x] + s, le);
    } else {
      InsertSorts(x, s[1..], le);
      assert s == [s[0]] + s[1..];
      InsertAbove(x, s, le);
    }
  }

  lemma InsertAbove<T(!new)>(x: T, s: seq<T>, le: (T, T) -> bool)
    requires s != [] && Sorted(s, le) && le(s[0], x)
    requires multiset(Insert(x, s[1..], le)) == multiset([x]) + multiset(s[1..]) && Sorted(Insert(x, s[1..], le), le)
    ensures Sorted([s[0]] + Insert(x, s[1..], le), le)
  {
    var rest := Insert(x, s[1..], le);
    forall j | 0 <= j < |rest| ensures le(s[0], rest[j]) {
      assert rest[j] in multiset(rest);
      if rest[j] in s[1..] {
        var k :| 0 <= k < |s[1..]| && s[1..][k] == rest[j];
        assert le(s[0], s[k + 1]);
      }
    }
  }

  lemma {:induction false} SortSorts<T(!new)>(s: seq<T>, le: (T, T) -> bool)
    requires TotalPreorder(le)
    ensures multiset(Sort(s, le)) == multiset(s)
    ensures Sorted(Sort(s, le), le)
  {
    if s != [] {
      SortSorts(s[1..], le);
      InsertSorts(s[0], Sort(s[1..], le), le);
      assert s == [s[0]] + s[1..];
    }
  }

  /** The elements that compare equal to `x`, in their order. */
  ghost function Alike<T>(s: seq<T>, x: T, le: (T, T) -> bool): seq<T> {
    if s == [] then []
    else if le(x, s[0]) && le(s[0], x) then [s[0]] + Alike(s[1..], x, le) else Alike(s[1..], x, le)
  }

  lemma {:induction false} InsertKeepsAlike<T(!new)>(y: T, s: seq<T>, x: T, le: (T, T) -> bool)
    requires TotalPreorder(le)
    ensures Alike(Insert(y, s, le), x, le) == Alike([y] + s, x, le)
  {
    if s != [] && !le(y, s[0]) {
      InsertKeepsAlike(y, s[1..], x, le);
      assert ([s[0]] + Insert(y, s[1..], le))[1..] == Insert(y, s[1..], le);
      assert ([y] + s)[1..] == s && ([y] + s[1..])[1..] == s[1..];
      assert !(le(y, x) && le(x, s[0]));
    }
  }

  /** Sorting is stable: what compares equal keeps its order. */
  lemma {:induction false} SortStable<T(!new)>(s: seq<T>, x: T, le: (T, T) -> bool)
    requires TotalPreorder(le)
    ensures Alike(Sort(s, le), x, le) == Alike(s, x, le)
  {
    if s != [] {
      SortStable(s[1..], x, le);
      InsertKeepsAlike(s[0], Sort(s[1..], le), x, le);
      assert ([s[0]] + Sort(s[1..], le))[1..] == Sort(s[1..], le);
    }
  }

  /** Elements that compare equal are equal. */
  ghost predicate Antisymmetric<T>(s: seq<T>, le: (T, T) -> bool) {
    forall x, y | x in s && y in s && le(x, y) && le(y, x) :: x == y
  }

  /** A list has one sorted arrangement when equal keys mean equal elements. */
  lemma {:induction false} SortedUnique<T(!new)>(s: seq<T>, t: seq<T>, le: (T, T) -> bool)
    requires multiset(s) == multiset(t) && Sorted(s, le) && Sorted(t, le) && Antisymmetric(s, le)
    ensures s == t
  {
    if s == [] {
      assert |multiset(t)| == 0;
    } else {
      SortedHeads(s, t, le);
      TailSorted(s, le);
      TailSorted(t, le);
      TailAntisymmetric(s, le);
      TailsPermute(s, t);
      SortedUnique(s[1..], t[1..], le);
      SameParts(s, t);
    }
  }

  lemma SortedHeads<T(!new)>(s: seq<T>, t: seq<T>, le: (T, T) -> bool)
    requires multiset(s) == multiset(t) && Sorted(s, le) && Sorted(t, le) && s != [] && Antisymmetric(s, le)
    ensures t != [] && s[0] == t[0]
  {
    assert |multiset(s)| == |multiset(t)|;
    assert s[0] in multiset(t) && t[0] in multiset(s);
    var i :| 0 <= i < |t| && t[i] == s[0];
    var j :| 0 <= j < |s| && s[j] == t[0];
  }

  lemma TailSorted<T>(s: seq<T>, le: (T, T) -> bool)
    requires s != [] && Sorted(s, le)
    ensures Sorted(s[1..], le)
  {
  }

  lemma TailAntisymmetric<T>(s: seq<T>, le: (T, T) -> bool)
    requires s != [] && Antisymmetric(s, le)
    ensures Antisymmetric(s[1..], le)
  {
  }

  lemma TailsPermute<T>(s: seq<T>, t: seq<T>)
    requires s != [] && t != [] && s[0] == t[0] && multiset(s) == multiset(t)
    ensures multiset(s[1..]) == multiset(t[1..])
  {
    RemoveHead(s);
    RemoveHead(t);
  }

  lemma SameParts<T>(s: seq<T>, t: seq<T>)
    requires s != [] && t != [] && s[0] == t[0] && s[1..] == t[1..]
    ensures s == t
  {
  }

  lemma SplitAt<T>(s: seq<T>, j: nat)
    requires j < |s|
    ensures s == s[..j] + ([s[j]] + s[j + 1..])
  {
  }

  lemma RemoveAt<T>(s: seq<T>, j: nat)
    requires j < |s|
    ensures multiset(s[..j] + s[j + 1..]) == multiset(s) - multiset([s[j]])
  {
    assert s == s[..j] + [s[j]] + s[j + 1..];
  }

  /** A permutation holds the first element somewhere, and permutes the rest around it. */
  lemma FindHead<T>(s: seq<T>, t: seq<T>) returns (j: nat)
    requires multiset(s) == multiset(t) && s != []
    ensures j < |t| && t[j] == s[0] && multiset(s[1..]) == multiset(t[..j] + t[j + 1..])
  {
    assert s[0] in multiset(t);
    j :| 0 <= j < |t| && t[j] == s[0];
    RemoveAt(t, j);
    RemoveHead(s);
  }

  lemma RemoveHead<T>(s: seq<T>)
    requires s != []
    ensures multiset(s[1..]) == multiset(s) - multiset([s[0]])
  {
    assert s == [s[0]] + s[1..];
  }

  lemma TakeOut<T>(s: seq<T>, x: T) returns (rest: seq<T>)
    requires x in s
    ensures multiset(s) == multiset([x]) + multiset(rest)
  {
    var i :| 0 <= i < |s| && s[i] == x;
    RemoveAt(s, i);
    rest := s[..i] + s[i + 1..];
    assert x in multiset(s);
  }

  /** Two elements can be brought to the front, either way round. */
  lemma BringForward<T>(s: seq<T>, x: T, y: T) returns (rest: seq<T>)
    requires x in s && y in s && x != y
    ensures multiset([x, y] + rest) == multiset(s) && multiset([y, x] + rest) == multiset(s)
  {
    var less := TakeOut(s, x);
    assert y in multiset(s) && y in multiset(less);
    rest := TakeOut(less, y);
    TwoInFront(x, y, rest);
    TwoInFront(y, x, rest);
  }

  lemma TwoInFront<T>(x: T, y: T, rest: seq<T>)
    ensures multiset([x, y] + rest) == multiset([x]) + multiset([y]) + multiset(rest)
  {
    assert [x, y] == [x] + [y];
  }

  /** Lexicographic order over code points, the order of Rust's `String`. */
  predicate Le(a: string, b: string) {
    a == [] || (b != [] && (a[0] < b[0] || (a[0] == b[0] && Le(a[1..], b[1..]))))
  }

  /** The strings first differ here, and the first one has the lesser character. */
  predicate FirstDiffers(a: string, b: string, k: nat) {
    k < |a| && k < |b| && a[..k] == b[..k] && a[k] < b[k]
  }

  lemma {:induction false} FirstDiffersLater(a: string, b: string, k: nat)
    requires a != [] && b != [] && a[0] == b[0] && FirstDiffers(a[1..], b[1..], k)
    ensures FirstDiffers(a, b, k + 1)
  {
    assert a[..k + 1] == [a[0]] + a[1..][..k] && b[..k + 1] == [b[0]] + b[1..][..k];
  }

  /** A prefix, or the lesser character at the first difference. */
  lemma {:induction false} LeMeans(a: string, b: string)
    ensures Le(a, b) <==> a <= b || exists k :: 0 <= k && FirstDiffers(a, b, k)
  {
    if a != [] && b != [] {
      if a[0] == b[0] {
        LeMeans(a[1..], b[1..]);
        assert a <= b <==> a[1..] <= b[1..];
        if k :| 0 <= k && FirstDiffers(a[1..], b[1..], k) { FirstDiffersLater(a, b, k); }
        if k :| 0 <= k && FirstDiffers(a, b, k) { FirstDiffersSooner(a, b, k); }
      } else if a[0] < b[0] {
        assert FirstDiffers(a, b, 0);
      } else {
        forall k: nat ensures !FirstDiffers(a, b, k) { NotBelow(a, b, k); }
      }
    }
  }

  lemma NotBelow(a: string, b: string, k: nat)
    requires a != [] && b != [] && a[0] > b[0]
    ensures !FirstDiffers(a, b, k)
  {
    assert 0 < k < |a| && k < |b| ==> a[..k][0] == a[0] && b[..k][0] == b[0];
  }

  lemma FirstDiffersSooner(a: string, b: string, k: nat)
    requires a != [] && b != [] && a[0] == b[0] && FirstDiffers(a, b, k)
    ensures k > 0 && FirstDiffers(a[1..], b[1..], k - 1)
  {
    assert a[1..][..k - 1] == a[..k][1..] && b[1..][..k - 1] == b[..k][1..];
  }

  lemma {:induction false} LeAntisymmetric(a: string, b: string)
    requires Le(a, b) && Le(b, a)
    ensures a == b
  {
    if a != [] && b != [] {
      LeAntisymmetric(a[1..], b[1..]);
      assert a == [a[0]] + a[1..] && b == [b[0]] + b[1..];
    }
  }

  lemma {:induction false} LeTransitive(a: string, b: string, c: string)
    requires Le(a, b) && Le(b, c)
    ensures Le(a, c)
  {
    if a != [] && a[0] == b[0] == c[0] {
      LeTransitive(a[1..], b[1..], c[1..]);
    }
  }

  lemma {:induction false} LeTotal(a: string, b: string)
    ensures Le(a, b) || Le(b, a)
  {
    if a != [] && b != [] && a[0] == b[0] {
      LeTotal(a[1..], b[1..]);
    }
  }

  lemma LeIsTotalPreorder()
    ensures TotalPreorder(Le)
  {
    forall x, y ensures Le(x, y) || Le(y, x) { LeTotal(x, y); }
    forall x, y, z | Le(x, y) && Le(y, z) ensures Le(x, z) { LeTransitive(x, y, z); }
  }

  /** The keys of a tree set, ascending: the one sorted list of its elements. */
  ghost predicate Ascending(keys: seq<string>) {
    Sorted(keys, Le) && NoRepeats(keys)
  }

  lemma LeastExists(s: set<string>)
    requires s != {}
    ensures exists k :: k in s && forall j | j in s :: Le(k, j)
  {
    var k :| k in s;
    LeTotal(k, k);
    var rest := s - {k};
    if rest != {} {
      LeastExists(rest);
      var m :| m in rest && forall j | j in rest :: Le(m, j);
      LeTotal(k, m);
      var least := if Le(k, m) then k else m;
      forall j | j in s
        ensures Le(least, j)
      {
        if j != k && Le(k, m) { LeTransitive(k, m, j); }
      }
    } else {
      assert s == {k};
    }
  }

  function Least(s: set<string>): (k: string)
    requires s != {}
    ensures k in s && forall j | j in s :: Le(k, j)
  {
    LeastExists(s);
    LeastUnique(s);
    var k :| k in s && forall j | j in s :: Le(k, j);
    k
  }

  lemma LeastUnique(s: set<string>)
    ensures forall x, y | x in s && y in s && Le(x, y) && Le(y, x) :: x == y
  {
    forall x, y | x in s && y in s && Le(x, y) && Le(y, x) ensures x == y { LeAntisymmetric(x, y); }
  }

  lemma AscendingCons(k: string, rest: seq<string>)
    requires Ascending(rest) && k !in rest && forall j | j in rest :: Le(k, j)
    ensures Ascending([k] + rest)
  {
  }

  /** Iteration order of a tree set or map. */
  function Keys(s: set<string>): (keys: seq<string>)
    ensures forall k :: k in keys <==> k in s
    decreases |s|
  {
    if s == {} then []
    else
      var k := Least(s);
      [k] + Keys(s - {k})
  }

  lemma {:induction false} KeysAscend(s: set<string>)
    ensures Ascending(Keys(s))
    decreases |s|
  {
    if s != {} {
      var k := Least(s);
      KeysAscend(s - {k});
      AscendingCons(k, Keys(s - {k}));
    }
  }

  /** A set has one ascending list. */
  lemma {:induction false} AscendingUnique(s: seq<string>, t: seq<string>)
    requires Ascending(s) && Ascending(t) && SameElements(s, t)
    ensures s == t
  {
    if s == [] || t == [] {
      EmptyTogether(s, t);
    } else {
      HeadIsLeast(s, t[0]);
      HeadIsLeast(t, s[0]);
      LeAntisymmetric(s[0], t[0]);
      TailsAscend(s, t);
      AscendingUnique(s[1..], t[1..]);
      SameParts(s, t);
    }
  }

  ghost predicate SameElements<T(!new)>(s: seq<T>, t: seq<T>) {
    forall x :: x in s <==> x in t
  }

  lemma EmptyTogether<T(!new)>(s: seq<T>, t: seq<T>)
    requires SameElements(s, t)
    ensures s == [] <==> t == []
  {
    if s != [] { assert s[0] in t; }
    if t != [] { assert t[0] in s; }
  }

  lemma TailsAscend(s: seq<string>, t: seq<string>)
    requires Ascending(s) && Ascending(t) && SameElements(s, t) && s != [] && t != [] && s[0] == t[0]
    ensures Ascending(s[1..]) && Ascending(t[1..]) && SameElements(s[1..], t[1..])
  {
    forall x ensures x in s[1..] <==> x in t[1..] {
      InTail(s, x);
      InTail(t, x);
    }
  }

  lemma InTail(s: seq<string>, x: string)
    requires Ascending(s) && s != []
    ensures x in s[1..] <==> x in s && x != s[0]
  {
  }

  lemma HeadIsLeast(s: seq<string>, x: string)
    requires Ascending(s) && x in s
    ensures Le(s[0], x)
  {
    var i :| 0 <= i < |s| && s[i] == x;
    if i == 0 { LeTotal(x, x); }
  }

  /** Walking a set in order, the first of some of its elements is their least. */
  lemma FirstIsLeast(all: set<string>, k: nat, some: set<string>)
    requires k < |Keys(all)| && some <= all && Keys(all)[k] in some && forall i | 0 <= i < k :: Keys(all)[i] !in some
    ensures Keys(all)[k] == Least(some)
  {
    var keys := Keys(all);
    KeysAscend(all);
    var least := Least(some);
    assert least in keys;
    var j :| 0 <= j < |keys| && keys[j] == least;
    if k < j { LeAntisymmetric(keys[k], least); }
  }
}
