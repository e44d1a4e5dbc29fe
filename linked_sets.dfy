/** The insertion-ordered `LinkedHashSet<Int>` in which both adapters keep their
    selected row indices, as a sequence without repetitions, oldest entry first.
    Each function below is one of the collection operations the adapters apply. */
module LinkedSets {

  /** No element occurs twice: what makes a sequence a set. */
  predicate NoDups(s: seq<int>) {
    forall i, j :: 0 <= i < j < |s| ==> s[i] != s[j]
  }

  predicate StrictlyIncreasing(s: seq<int>) {
    forall i, j :: 0 <= i < j < |s| ==> s[i] < s[j]
  }

  /** The members, forgetting the order (`HashSet(selectedSet)`). */
  function Elems(s: seq<int>): (r: set<int>)
    ensures forall x :: x in r <==> x in s
  {
    set x | x in s
  }

  /** The copy of a set has as many members as the set has entries. */
  lemma {:induction false} ElemsSize(s: seq<int>)
    requires NoDups(s)
    ensures |Elems(s)| == |s|
  {
    if s != [] {
      ElemsSize(s[1..]);
      assert s[0] !in s[1..];
      assert Elems(s) == {s[0]} + Elems(s[1..]);
    }
  }

  /** `add(x)` / `+= x`: appends x unless it is present; present entries keep their place. */
  function Add(s: seq<int>, x: int): (r: seq<int>)
    ensures forall y :: y in r <==> y in s || y == x
    ensures |s| <= |r| <= |s| + 1 && r[..|s|] == s
    ensures NoDups(s) ==> NoDups(r)
  {
    if x in s then s else s + [x]
  }

  /** `removeAll(t)`, and `remove(x)` / `-= x` with t = {x}: drops the members of t
      and keeps the rest in their order. */
  function Without(s: seq<int>, t: set<int>): (r: seq<int>)
    ensures forall y :: y in r <==> y in s && y !in t
    ensures |r| <= |s|
  {
    if s == [] then []
    else if s[0] in t then Without(s[1..], t)
    else [s[0]] + Without(s[1..], t)
  }

  /** Removing entries from a set leaves a set. */
  lemma {:induction false} WithoutNoDups(s: seq<int>, t: set<int>)
    requires NoDups(s)
    ensures NoDups(Without(s, t))
  {
    if s != [] {
      WithoutNoDups(s[1..], t);
      assert s[0] !in s[1..];
    }
  }

  /** Removing entries from an ascending sequence keeps it ascending. */
  lemma {:induction false} WithoutIncreasing(s: seq<int>, t: set<int>)
    requires StrictlyIncreasing(s)
    ensures StrictlyIncreasing(Without(s, t))
  {
    if s != [] {
      WithoutIncreasing(s[1..], t);
      var rest := Without(s[1..], t);
      forall y | y in rest
        ensures s[0] < y
      {
        var k :| 0 <= k < |s[1..]| && s[1..][k] == y;
        assert s[k + 1] == y;
      }
      if s[0] !in t {
        var r := [s[0]] + rest;
        forall i, j | 0 <= i < j < |r|
          ensures r[i] < r[j]
        {
          if i == 0 {
            assert r[j] == rest[j - 1];
            assert rest[j - 1] in rest;
          } else {
            assert r[i] == rest[i - 1] && r[j] == rest[j - 1];
          }
        }
      }
    }
  }

  /** `addAll(xs)` / `+= xs`: adds the elements of xs one after another. */
  function AddAll(s: seq<int>, xs: seq<int>): (r: seq<int>)
    ensures forall y :: y in r <==> y in s || y in xs
    ensures |s| <= |r| && r[..|s|] == s
    ensures NoDups(s) ==> NoDups(r)
    decreases |xs|
  {
    if xs == [] then s else AddAll(Add(s, xs[0]), xs[1..])
  }

  /** Kotlin's `lo until hi`: the integers from lo up to but excluding hi, ascending. */
  function Range(lo: int, hi: int): (r: seq<int>)
    ensures |r| == if lo < hi then hi - lo else 0
    ensures forall i :: 0 <= i < |r| ==> r[i] == lo + i
    decreases hi - lo
  {
    if lo >= hi then [] else [lo] + Range(lo + 1, hi)
  }

  lemma RangeFacts(lo: int, hi: int)
    ensures forall y :: y in Range(lo, hi) <==> lo <= y < hi
    ensures StrictlyIncreasing(Range(lo, hi)) && NoDups(Range(lo, hi))
  {
    var r := Range(lo, hi);
    forall y | lo <= y < hi
      ensures y in r
    {
      assert r[y - lo] == y;
    }
  }

  /** Removing values that do not occur changes nothing. */
  lemma {:induction false} WithoutAbsent(s: seq<int>, t: set<int>)
    requires forall y :: y in s ==> y !in t
    ensures Without(s, t) == s
  {
    if s != [] {
      var x := s[0];
      assert x in s;
      assert forall y :: y in s[1..] ==> y in s;
      WithoutAbsent(s[1..], t);
      assert Without(s, t) == [s[0]] + Without(s[1..], t);
      assert [s[0]] + s[1..] == s;
    }
  }

  /** Removing every member leaves nothing. */
  lemma {:induction false} WithoutCovered(s: seq<int>, t: set<int>)
    requires forall y :: y in s ==> y in t
    ensures Without(s, t) == []
  {
    if s != [] {
      var x := s[0];
      assert x in s;
      assert forall y :: y in s[1..] ==> y in s;
      WithoutCovered(s[1..], t);
      assert Without(s, t) == Without(s[1..], t);
    }
  }

  lemma {:induction false} WithoutConcat(a: seq<int>, b: seq<int>, t: set<int>)
    ensures Without(a + b, t) == Without(a, t) + Without(b, t)
  {
    if a != [] {
      assert (a + b)[0] == a[0];
      assert (a + b)[1..] == a[1..] + b;
      WithoutConcat(a[1..], b, t);
      if a[0] in t {
        assert Without(a + b, t) == Without(a[1..] + b, t);
        assert Without(a, t) == Without(a[1..], t);
      } else {
        assert Without(a + b, t) == [a[0]] + Without(a[1..] + b, t);
        assert Without(a, t) == [a[0]] + Without(a[1..], t);
        assert [a[0]] + (Without(a[1..], t) + Without(b, t))
            == ([a[0]] + Without(a[1..], t)) + Without(b, t);
      }
    } else {
      assert a + b == b;
    }
  }

  /** Two removals in a row are one removal of both sets. */
  lemma {:induction false} WithoutTwice(s: seq<int>, a: set<int>, b: set<int>)
    ensures Without(Without(s, a), b) == Without(s, a + b)
  {
    if s != [] {
      WithoutTwice(s[1..], a, b);
      if s[0] !in a {
        var rest := Without(s[1..], a);
        assert ([s[0]] + rest)[0] == s[0];
        assert ([s[0]] + rest)[1..] == rest;
      }
    }
  }

  /** Only the members of t that occur in s matter to `Without(s, t)`. */
  lemma {:induction false} WithoutAgree(s: seq<int>, t1: set<int>, t2: set<int>)
    requires forall y :: y in s ==> (y in t1 <==> y in t2)
    ensures Without(s, t1) == Without(s, t2)
  {
    if s != [] {
      var x := s[0];
      assert x in s;
      assert forall y :: y in s[1..] ==> y in s;
      WithoutAgree(s[1..], t1, t2);
      if s[0] in t1 {
        assert Without(s, t1) == Without(s[1..], t1);
        assert Without(s, t2) == Without(s[1..], t2);
      } else {
        assert Without(s, t1) == [s[0]] + Without(s[1..], t1);
        assert Without(s, t2) == [s[0]] + Without(s[1..], t2);
      }
    }
  }

  /** Dropping the last entry of a set by value (`-= last()`) drops only that entry. */
  lemma WithoutLast(s: seq<int>)
    requires NoDups(s) && s != []
    ensures Without(s, {s[|s| - 1]}) == s[..|s| - 1]
  {
    var x := s[|s| - 1];
    var init := s[..|s| - 1];
    assert s == init + [x];
    WithoutConcat(init, [x], {x});
    assert x !in init;
    WithoutAbsent(init, {x});
    assert Without([x], {x}) == Without([], {x});
  }

  /** `s += xs` with xs free of repetitions appends, in the order of xs, exactly
      the elements of xs that s lacks. */
  lemma {:induction false} AddAllAppendsMissing(s: seq<int>, xs: seq<int>)
    requires NoDups(xs)
    ensures AddAll(s, xs) == s + Without(xs, Elems(s))
    decreases |xs|
  {
    if xs == [] {
      assert s + [] == s;
    } else {
      var x := xs[0];
      var rest := xs[1..];
      assert xs == [x] + rest;
      assert NoDups(rest);
      assert x !in rest;
      assert AddAll(s, xs) == AddAll(Add(s, x), rest);
      AddAllAppendsMissing(Add(s, x), rest);
      if x in s {
        assert x in Elems(s);
        assert Without(xs, Elems(s)) == Without(rest, Elems(s));
      } else {
        var grown := s + [x];
        assert Add(s, x) == grown;
        forall y | y in rest
          ensures y in Elems(grown) <==> y in Elems(s)
        {
          assert y != x;
        }
        WithoutAgree(rest, Elems(grown), Elems(s));
        var tail := Without(rest, Elems(s));
        assert x !in Elems(s);
        assert Without(xs, Elems(s)) == [x] + tail;
        AppendAssoc(s, [x], tail);
      }
    }
  }

  /** Regrouping a concatenation. Stated as a lemma of its own: asserted inline in
      the proof above, it leaves that proof over the resource limit. */
  lemma AppendAssoc(a: seq<int>, b: seq<int>, c: seq<int>)
    ensures (a + b) + c == a + (b + c)
  {
  }

  /** A reverse selection (`+= r`, then `removeAll` of the old members) equals the
      elements of r that were not selected, in the order of r. */
  lemma ReverseIsComplement(s: seq<int>, r: seq<int>)
    requires NoDups(r)
    ensures Without(AddAll(s, r), Elems(s)) == Without(r, Elems(s))
  {
    AddAllAppendsMissing(s, r);
    var missing := Without(r, Elems(s));
    WithoutConcat(s, missing, Elems(s));
    WithoutCovered(s, Elems(s));
    WithoutAbsent(missing, Elems(s));
    assert [] + missing == missing;
  }

  /** Two strictly increasing sequences with the same members and the same head have
      tails with the same members: the head is the least member, and appears once. */
  lemma TailsAgree(a: seq<int>, b: seq<int>)
    requires StrictlyIncreasing(a) && StrictlyIncreasing(b)
    requires forall y :: y in a <==> y in b
    requires a != [] && b != [] && a[0] == b[0]
    ensures forall y :: y in a[1..] <==> y in b[1..]
  {
    forall y
      ensures y in a[1..] <==> y in b[1..]
    {
      if y in a[1..] {
        var k :| 0 <= k < |a[1..]| && a[1..][k] == y;
        assert a[k + 1] == y;
        assert y in a && y in b;
        var m :| 0 <= m < |b| && b[m] == y;
        assert m != 0;
        assert b[1..][m - 1] == y;
      }
      if y in b[1..] {
        var k :| 0 <= k < |b[1..]| && b[1..][k] == y;
        assert b[k + 1] == y;
        assert y in b && y in a;
        var m :| 0 <= m < |a| && a[m] == y;
        assert m != 0;
        assert a[1..][m - 1] == y;
      }
    }
  }

  /** Two strictly increasing sequences with the same members are equal. */
  lemma {:induction false} IncreasingUnique(a: seq<int>, b: seq<int>)
    requires StrictlyIncreasing(a) && StrictlyIncreasing(b)
    requires forall y :: y in a <==> y in b
    ensures a == b
    decreases |a|
  {
    if a != [] {
      var x := a[0];
      assert x in a;
    }
    if b != [] {
      var x := b[0];
      assert x in b;
    }
    if a != [] && b != [] {
      assert a[0] == b[0];
      TailsAgree(a, b);
      IncreasingUnique(a[1..], b[1..]);
      assert a == [a[0]] + a[1..];
      assert b == [b[0]] + b[1..];
    }
  }

  /** The elements of r that s lacks, in the order of r: `Without` with the members
      of a second sequence, which is how `selectAll` and `reverseSelected` use it (the
      rows of a range that the selection lacks). */
  function Complement(r: seq<int>, s: seq<int>): (c: seq<int>)
    ensures forall y :: y in c <==> y in r && y !in s
  {
    Without(r, Elems(s))
  }

  /** Complementing twice within an ascending r keeps exactly the members of s that
      lie in r, ascending; when s is itself ascending and inside r, that is s. */
  lemma ComplementTwice(r: seq<int>, s: seq<int>)
    requires StrictlyIncreasing(r)
    ensures forall y :: y in Complement(r, Complement(r, s)) <==> y in r && y in s
    ensures StrictlyIncreasing(Complement(r, Complement(r, s)))
    ensures StrictlyIncreasing(s) && (forall y :: y in s ==> y in r) ==>
              Complement(r, Complement(r, s)) == s
  {
    var twice := Complement(r, Complement(r, s));
    WithoutIncreasing(r, Elems(Complement(r, s)));
    if StrictlyIncreasing(s) && (forall y :: y in s ==> y in r) {
      IncreasingUnique(twice, s);
    }
  }
}
