/** Generic facts about sequences used as JavaScript arrays. */
module Seqs {
  import opened Wrappers

  /** No element occurs twice. */
  predicate NoDup<T(==)>(s: seq<T>) {
    forall i, j :: 0 <= i < j < |s| ==> s[i] != s[j]
  }

  /** Duplicate-freedom of a sequence built by prepending one element. */
  lemma NoDupCons<T>(x: T, s: seq<T>)
    ensures NoDup([x] + s) <==> x !in s && NoDup(s)
  {
    if x !in s && NoDup(s) {
      forall i, j | 0 <= i < j < |[x] + s| ensures ([x] + s)[i] != ([x] + s)[j] {
        if i > 0 {
          assert ([x] + s)[i] == s[i - 1];
        }
      }
    }
    if NoDup([x] + s) {
      forall k | 0 <= k < |s| ensures s[k] != x {
        assert ([x] + s)[0] != ([x] + s)[k + 1];
      }
      forall i, j | 0 <= i < j < |s| ensures s[i] != s[j] {
        assert s[i] == ([x] + s)[i + 1] && s[j] == ([x] + s)[j + 1];
      }
    }
  }

  /** The elements of `s` with every repeat dropped, in order of first occurrence:
      the iteration order of a JavaScript `Set` built from `s`. */
  function Dedup<T(==,!new)>(s: seq<T>): (r: seq<T>)
    ensures NoDup(r)
    ensures forall x :: x in r <==> x in s
    ensures |r| <= |s|
  {
    if |s| == 0 then []
    else
      var p := Dedup(s[..|s| - 1]);
      if s[|s| - 1] in p then p else p + [s[|s| - 1]]
  }

  /** The elements of `s` that satisfy `f`, in order (`Array.prototype.filter`). */
  function Filter<T(!new)>(s: seq<T>, f: T -> bool): (r: seq<T>)
    ensures forall x :: x in r <==> x in s && f(x)
    ensures forall i :: 0 <= i < |r| ==> f(r[i])
    ensures |r| <= |s|
  {
    if |s| == 0 then []
    else (if f(s[0]) then [s[0]] else []) + Filter(s[1..], f)
  }

  /** Filtering distributes over concatenation. */
  lemma {:induction false} FilterAppend<T(!new)>(a: seq<T>, b: seq<T>, f: T -> bool)
    ensures Filter(a + b, f) == Filter(a, f) + Filter(b, f)
  {
    if |a| == 0 {
      assert a + b == b;
    } else {
      assert (a + b)[1..] == a[1..] + b;
      FilterAppend(a[1..], b, f);
    }
  }

  /** Filtering keeps a duplicate-free sequence duplicate-free. */
  lemma {:induction false} NoDupFilter<T(!new)>(s: seq<T>, f: T -> bool)
    requires NoDup(s)
    ensures NoDup(Filter(s, f))
  {
    if |s| > 0 {
      assert s == [s[0]] + s[1..];
      NoDupCons(s[0], s[1..]);
      NoDupFilter(s[1..], f);
      if f(s[0]) {
        NoDupCons(s[0], Filter(s[1..], f));
      }
    }
  }

  /** Filtering a one-element sequence keeps the element exactly when it passes. */
  lemma FilterSingle<T(!new)>(x: T, f: T -> bool)
    ensures Filter([x], f) == if f(x) then [x] else []
  {
    assert [x][1..] == [];
  }

  /** Position of the first occurrence of `x` in `s`, or -1 when absent
      (`Array.prototype.indexOf`, and `findIndex` with an equality test). */
  function IndexOf<T(==)>(s: seq<T>, x: T): (i: int)
    ensures -1 <= i < |s|
    ensures i == -1 <==> x !in s
    ensures 0 <= i ==> s[i] == x && x !in s[..i]
  {
    if |s| == 0 then -1
    else if s[0] == x then 0
    else
      var j := IndexOf(s[1..], x);
      if j == -1 then -1
      else
        assert s[..j + 1] == [s[0]] + s[1..][..j];
        j + 1
  }

  /** `s` without its element at position `i` (`splice(i, 1)`). */
  function RemoveAt<T>(s: seq<T>, i: nat): (r: seq<T>)
    requires i < |s|
    ensures |r| == |s| - 1
    ensures forall j :: 0 <= j < i ==> r[j] == s[j]
    ensures forall j :: i <= j < |r| ==> r[j] == s[j + 1]
  {
    s[..i] + s[i + 1..]
  }

  /** `s` with `x` inserted before position `i` (`splice(i, 0, x)`). */
  function InsertAt<T>(s: seq<T>, i: nat, x: T): (r: seq<T>)
    requires i <= |s|
    ensures |r| == |s| + 1
    ensures r[i] == x
    ensures forall j :: 0 <= j < i ==> r[j] == s[j]
    ensures forall j :: i < j < |r| ==> r[j] == s[j - 1]
  {
    s[..i] + [x] + s[i..]
  }

  /** Removing the element just inserted gives the sequence back. */
  lemma InsertRemove<T>(s: seq<T>, i: nat, x: T)
    requires i <= |s|
    ensures RemoveAt(InsertAt(s, i, x), i) == s
  {
  }

  /** `arrayMove`: the element at `from` taken out and put back so that it ends at `to`;
      the others keep their relative order. */
  function ArrayMove<T>(s: seq<T>, from: nat, to: nat): (r: seq<T>)
    requires from < |s| && to < |s|
    ensures |r| == |s|
    ensures r[to] == s[from]
    ensures RemoveAt(r, to) == RemoveAt(s, from)
    ensures multiset(r) == multiset(s)
  {
    var rest := RemoveAt(s, from);
    InsertRemove(rest, to, s[from]);
    assert s == s[..from] + [s[from]] + s[from + 1..];
    assert InsertAt(rest, to, s[from]) == rest[..to] + [s[from]] + rest[to..];
    assert rest == rest[..to] + rest[to..];
    assert multiset(rest) == multiset(s[..from]) + multiset(s[from + 1..]);
    assert multiset(s) == multiset(s[..from]) + multiset{s[from]} + multiset(s[from + 1..]);
    assert multiset(rest) == multiset(rest[..to]) + multiset(rest[to..]);
    var r := InsertAt(rest, to, s[from]);
    assert multiset(r) == multiset(rest[..to]) + multiset{s[from]} + multiset(rest[to..]);
    assert multiset(r) == multiset(rest) + multiset{s[from]};
    assert multiset(s) == multiset(rest) + multiset{s[from]};
    r
  }

  lemma NoDupRemoveAt<T>(s: seq<T>, i: nat)
    requires NoDup(s) && i < |s|
    ensures NoDup(RemoveAt(s, i)) && s[i] !in RemoveAt(s, i)
  {
    var r := RemoveAt(s, i);
    forall a, b | 0 <= a < b < |r| ensures r[a] != r[b] {
      var a' := if a < i then a else a + 1;
      var b' := if b < i then b else b + 1;
      assert r[a] == s[a'] && r[b] == s[b'];
    }
    forall k | 0 <= k < |r| ensures r[k] != s[i] {
      assert r[k] == s[if k < i then k else k + 1];
    }
  }

  lemma NoDupInsertAt<T>(s: seq<T>, i: nat, x: T)
    requires NoDup(s) && x !in s && i <= |s|
    ensures NoDup(InsertAt(s, i, x))
  {
    var r := InsertAt(s, i, x);
    forall a, b | 0 <= a < b < |r| ensures r[a] != r[b] {
      if a != i && b != i {
        var a' := if a < i then a else a - 1;
        var b' := if b < i then b else b - 1;
        assert r[a] == s[a'] && r[b] == s[b'];
      } else if a == i {
        assert r[b] == s[b - 1];
      } else {
        assert r[a] == s[a];
      }
    }
  }

  /** Moving an element keeps a duplicate-free sequence duplicate-free. */
  lemma NoDupArrayMove<T>(s: seq<T>, from: nat, to: nat)
    requires NoDup(s) && from < |s| && to < |s|
    ensures NoDup(ArrayMove(s, from, to))
  {
    NoDupRemoveAt(s, from);
    NoDupInsertAt(RemoveAt(s, from), to, s[from]);
  }

  /** Concatenation of a sequence of sequences (`Array.prototype.flat`). */
  function Flatten<T(!new)>(ss: seq<seq<T>>): (r: seq<T>)
    ensures forall x :: x in r <==> exists i :: 0 <= i < |ss| && x in ss[i]
  {
    if |ss| == 0 then []
    else
      var r := ss[0] + Flatten(ss[1..]);
      assert forall i :: 1 <= i < |ss| ==> ss[i] == ss[1..][i - 1];
      r
  }

  /** The results of `f` on the elements of `s` that yield one, in order: the
      "skip or push" loop over a listing. */
  function Collect<A, T(!new)>(s: seq<A>, f: A -> Option<T>): (r: seq<T>)
    ensures |r| <= |s|
    ensures forall x :: x in r <==> exists i :: 0 <= i < |s| && f(s[i]) == Some(x)
  {
    if |s| == 0 then []
    else
      var prev := Collect(s[..|s| - 1], f);
      var r := prev + ToSeq(f(s[|s| - 1]));
      CollectStep(s, s[..|s| - 1], f, prev, r);
      r
  }

  lemma CollectStep<A, T(!new)>(s: seq<A>, pre: seq<A>, f: A -> Option<T>, prev: seq<T>, r: seq<T>)
    requires |s| > 0 && pre == s[..|s| - 1]
    requires forall x :: x in prev <==> exists i :: 0 <= i < |pre| && f(pre[i]) == Some(x)
    requires r == prev + ToSeq(f(s[|s| - 1]))
    ensures forall x :: x in r <==> exists i :: 0 <= i < |s| && f(s[i]) == Some(x)
  {
    forall x ensures x in r <==> exists i :: 0 <= i < |s| && f(s[i]) == Some(x) {
      if x in prev {
        var i :| 0 <= i < |pre| && f(pre[i]) == Some(x);
        assert pre[i] == s[i];
      }
      if exists i :: 0 <= i < |s| && f(s[i]) == Some(x) {
        var i :| 0 <= i < |s| && f(s[i]) == Some(x);
        if i < |s| - 1 {
          assert pre[i] == s[i];
        }
      }
    }
  }

  /** Each element is decided on its own: collecting a concatenation concatenates. */
  lemma {:induction false} CollectAppend<A, T(!new)>(a: seq<A>, b: seq<A>, f: A -> Option<T>)
    ensures Collect(a + b, f) == Collect(a, f) + Collect(b, f)
  {
    if |b| == 0 {
      assert a + b == a;
    } else {
      var b' := b[..|b| - 1];
      assert (a + b)[..|a + b| - 1] == a + b';
      assert (a + b)[|a + b| - 1] == b[|b| - 1];
      CollectAppend(a, b', f);
    }
  }

  lemma CollectSingle<A, T(!new)>(x: A, f: A -> Option<T>)
    ensures Collect([x], f) == ToSeq(f(x))
  {
    assert [x][..0] == [];
  }

  /** Collecting around one element: the results before it, its own, the results after it. */
  lemma CollectAround<A, T(!new)>(a: seq<A>, x: A, b: seq<A>, f: A -> Option<T>)
    ensures Collect(a + [x] + b, f) == Collect(a, f) + ToSeq(f(x)) + Collect(b, f)
  {
    CollectAppend(a + [x], b, f);
    CollectAppend(a, [x], f);
    CollectSingle(x, f);
  }

  /** An element that yields nothing has no effect on the results of its neighbours. */
  lemma CollectSkip<A, T(!new)>(a: seq<A>, x: A, b: seq<A>, f: A -> Option<T>)
    requires f(x).None?
    ensures Collect(a + [x] + b, f) == Collect(a + b, f)
  {
    CollectAround(a, x, b, f);
    CollectAppend(a, b, f);
  }
}
