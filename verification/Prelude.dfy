/** Option, Result, and the few facts about duplicate-free sequences that the recency order needs. */
module Prelude {

  datatype Option<+T> = None | Some(value: T)

  datatype Result<+T, +E> = Ok(value: T) | Err(error: E)

  ghost predicate Apart(o: object, s: set<object>) {
    o !in s
  }

  /** A position of x in s. */
  ghost function IndexOf<T>(s: seq<T>, x: T): (i: nat)
    requires x in s
    ensures i < |s| && s[i] == x
  {
    var i :| 0 <= i < |s| && s[i] == x;
    i
  }

  /** No element occurs twice: the position of every element is the only one. (Stated with IndexOf
      rather than with pairs of indices, which the verifier would try quadratically often.) */
  ghost predicate NoDup<T>(s: seq<T>) {
    forall i {:trigger s[i]} :: 0 <= i < |s| ==> IndexOf(s, s[i]) == i
  }

  lemma NoDupNone<T>()
    ensures NoDup<T>([])
  {
  }

  lemma NoDupPairs<T>(s: seq<T>)
    ensures NoDup(s) <==> forall i, j :: 0 <= i < j < |s| ==> s[i] != s[j]
  {
    if NoDup(s) {
      forall i, j | 0 <= i < j < |s| ensures s[i] != s[j] {
        assert IndexOf(s, s[i]) == i && IndexOf(s, s[j]) == j;
      }
    }
  }

  lemma NoDupWithout<T>(s: seq<T>, i: nat)
    requires NoDup(s) && i < |s|
    ensures NoDup(s[..i] + s[i + 1..]) && s[i] !in s[..i] + s[i + 1..]
  {
    NoDupPairs(s);
    NoDupPairs(s[..i] + s[i + 1..]);
  }

  lemma NoDupCons<T>(x: T, s: seq<T>)
    requires NoDup(s) && x !in s
    ensures NoDup([x] + s)
  {
    NoDupPairs(s);
    NoDupPairs([x] + s);
  }

  lemma NoDupSnoc<T>(s: seq<T>, x: T)
    requires NoDup(s) && x !in s
    ensures NoDup(s + [x]) && Elements(s + [x]) == Elements(s) + {x}
  {
    NoDupPairs(s);
    NoDupPairs(s + [x]);
  }

  lemma WithoutMembers<T>(s: seq<T>, i: nat)
    requires NoDup(s) && i < |s|
    ensures forall x :: x in s[..i] + s[i + 1..] <==> x in s && x != s[i]
  {
    NoDupWithout(s, i);
    assert s == s[..i] + [s[i]] + s[i + 1..];
  }

  /** Moving an element to the front keeps the elements. */
  lemma FrontMembers<T>(s: seq<T>, i: nat)
    requires i < |s|
    ensures forall x :: x in [s[i]] + s[..i] + s[i + 1..] <==> x in s
  {
    assert s == s[..i] + [s[i]] + s[i + 1..];
  }

  /** s without the elements of ks, in their old relative order. */
  function Drop<T(==, !new)>(s: seq<T>, ks: set<T>): seq<T> {
    if s == [] then [] else (if s[0] in ks then [] else [s[0]]) + Drop(s[1..], ks)
  }

  lemma {:induction false} DropMembers<T(!new)>(s: seq<T>, ks: set<T>)
    ensures forall x :: x in Drop(s, ks) <==> x in s && x !in ks
    ensures |Drop(s, ks)| <= |s|
  {
    if s != [] {
      DropMembers(s[1..], ks);
      assert forall x :: x in s <==> x == s[0] || x in s[1..];
    }
  }

  function ToFront<T(==, !new)>(s: seq<T>, x: T): seq<T> {
    [x] + Drop(s, {x})
  }

  lemma {:induction false} DropNoDup<T(!new)>(s: seq<T>, ks: set<T>)
    requires NoDup(s)
    ensures NoDup(Drop(s, ks))
  {
    if s != [] {
      NoDupPairs(s);
      NoDupPairs(s[1..]);
      DropNoDup(s[1..], ks);
      DropMembers(s[1..], ks);
      if s[0] !in ks {
        NoDupCons(s[0], Drop(s[1..], ks));
      }
    }
  }

  lemma {:induction false} DropNothing<T(!new)>(s: seq<T>, ks: set<T>)
    requires forall x :: x in ks ==> x !in s
    ensures Drop(s, ks) == s
  {
    if s != [] {
      assert s[0] in s;
      assert forall x :: x in s[1..] ==> x in s;
      DropNothing(s[1..], ks);
    }
  }

  lemma {:induction false} DropDrop<T(!new)>(s: seq<T>, a: set<T>, b: set<T>)
    ensures Drop(Drop(s, a), b) == Drop(s, a + b)
  {
    if s != [] {
      var x, rest := s[0], Drop(s[1..], a);
      DropDrop(s[1..], a, b);
      if x in a {
        assert Drop(s, a) == rest;
      } else {
        var kept := [x] + rest;
        assert Drop(s, a) == kept && kept[0] == x && kept[1..] == rest;
      }
    }
  }

  lemma {:induction false} DropAt<T(!new)>(s: seq<T>, i: nat)
    requires NoDup(s) && i < |s|
    ensures Drop(s, {s[i]}) == s[..i] + s[i + 1..]
  {
    if i == 0 {
      assert s[i] !in s[1..];
      DropNothing(s[1..], {s[i]});
    } else {
      DropAt(s[1..], i - 1);
      assert s[1..][i - 1] == s[i];
      assert s[..i] + s[i + 1..] == [s[0]] + (s[1..][..i - 1] + s[1..][i..]);
    }
  }

  lemma {:induction false} DropConcat<T(!new)>(a: seq<T>, b: seq<T>, ks: set<T>)
    ensures Drop(a + b, ks) == Drop(a, ks) + Drop(b, ks)
  {
    if a == [] {
      assert a + b == b;
    } else {
      DropConcat(a[1..], b, ks);
      var ab := a + b;
      assert ab[1..] == a[1..] + b && ab[0] == a[0];
      assert Drop(ab, ks) == (if a[0] in ks then [] else [a[0]]) + (Drop(a[1..], ks) + Drop(b, ks));
    }
  }

  function Elements<T>(s: seq<T>): set<T> {
    set x | x in s
  }

  lemma {:induction false} ElementsSize<T>(s: seq<T>)
    requires NoDup(s)
    ensures |Elements(s)| == |s|
  {
    if s != [] {
      ElementsSize(s[1..]);
      assert Elements(s) == {s[0]} + Elements(s[1..]);
      assert s[0] !in Elements(s[1..]);
    }
  }

  lemma ElementsPrefix<T>(s: seq<T>, i: nat)
    requires NoDup(s) && i < |s|
    ensures Elements(s[..i + 1]) == Elements(s[..i]) + {s[i]}
    ensures s[i] !in Elements(s[..i]) && s[i] in Elements(s)
  {
    NoDupPairs(s);
    assert s[..i + 1] == s[..i] + [s[i]];
  }
}
