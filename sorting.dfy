/**
 * Python's `sorted(items, key=k, reverse=True)`: a stable sort into
 * descending key order. Python keeps equal-key elements in their input
 * order even when `reverse=True`, and that stability is what fixes the order
 * of tied books on the results page.
 */
module Sorting {

  /** The elements of `s` whose key is `v`, in their order in `s`. */
  function Tied<T>(s: seq<T>, key: T -> int, v: int): seq<T>
  {
    if s == [] then [] else (if key(s[0]) == v then [s[0]] else []) + Tied(s[1..], key, v)
  }

  ghost predicate NonIncreasing<T>(s: seq<T>, key: T -> int)
  {
    forall i, j :: 0 <= i < j < |s| ==> key(s[i]) >= key(s[j])
  }

  /**
   * Puts `x` in front of the first element whose key is not larger: ahead of
   * every element with an equal key, behind every element with a larger one.
   */
  function Insert<T>(x: T, s: seq<T>, key: T -> int): (r: seq<T>)
    ensures multiset(r) == multiset(s) + multiset{x}
  {
    if s == [] || key(s[0]) <= key(x) then [x] + s
    else
      assert s == [s[0]] + s[1..];
      [s[0]] + Insert(x, s[1..], key)
  }

  lemma {:induction false} InsertTied<T>(x: T, s: seq<T>, key: T -> int, v: int)
    ensures Tied(Insert(x, s, key), key, v) == if key(x) == v then [x] + Tied(s, key, v) else Tied(s, key, v)
  {
    if s == [] || key(s[0]) <= key(x) {
      assert ([x] + s)[1..] == s;
    } else {
      var t := Insert(x, s[1..], key);
      InsertTied(x, s[1..], key, v);
      assert ([s[0]] + t)[1..] == t;
    }
  }

  /** Inserting an element no larger than a bound into elements no larger than it keeps them all under it. */
  lemma {:induction false} InsertBelow<T>(x: T, s: seq<T>, key: T -> int, b: int)
    requires key(x) <= b && forall i :: 0 <= i < |s| ==> key(s[i]) <= b
    ensures forall i :: 0 <= i < |Insert(x, s, key)| ==> key(Insert(x, s, key)[i]) <= b
  {
    var r := Insert(x, s, key);
    if s == [] || key(s[0]) <= key(x) {
      assert forall i :: 1 <= i < |r| ==> r[i] == s[i - 1];
    } else {
      var t := Insert(x, s[1..], key);
      InsertBelow(x, s[1..], key, b);
      assert forall i :: 1 <= i < |r| ==> r[i] == t[i - 1];
    }
  }

  lemma {:induction false} InsertSorted<T>(x: T, s: seq<T>, key: T -> int)
    requires NonIncreasing(s, key)
    ensures NonIncreasing(Insert(x, s, key), key)
  {
    var r := Insert(x, s, key);
    if s == [] || key(s[0]) <= key(x) {
      forall i, j | 0 <= i < j < |r| ensures key(r[i]) >= key(r[j]) {
        if i == 0 {
          assert r[j] == s[j - 1];
        } else {
          assert r[i] == s[i - 1] && r[j] == s[j - 1];
        }
      }
    } else {
      var t := Insert(x, s[1..], key);
      InsertSorted(x, s[1..], key);
      InsertBelow(x, s[1..], key, key(s[0]));
      forall i, j | 0 <= i < j < |r| ensures key(r[i]) >= key(r[j]) {
        if i == 0 {
          assert r[j] == t[j - 1];
        } else {
          assert r[i] == t[i - 1] && r[j] == t[j - 1];
        }
      }
    }
  }

  /** Insertion sort from the back: the first element is inserted last, ahead of its equals. */
  function SortDesc<T>(s: seq<T>, key: T -> int): (r: seq<T>)
    ensures |r| == |s|
    ensures multiset(r) == multiset(s)
    ensures NonIncreasing(r, key)
    ensures forall v :: Tied(r, key, v) == Tied(s, key, v)
  {
    if s == [] then []
    else
      var t := SortDesc(s[1..], key);
      assert s == [s[0]] + s[1..];
      InsertSorted(s[0], t, key);
      assert forall v :: Tied(s, key, v) == (if key(s[0]) == v then [s[0]] else []) + Tied(s[1..], key, v);
      assert forall v :: Tied(Insert(s[0], t, key), key, v) == Tied(s, key, v) by {
        forall v ensures Tied(Insert(s[0], t, key), key, v) == Tied(s, key, v) {
          InsertTied(s[0], t, key, v);
        }
      }
      assert multiset(s) == multiset{s[0]} + multiset(s[1..]);
      assert |multiset(Insert(s[0], t, key))| == |multiset(t)| + 1;
      Insert(s[0], t, key)
  }

  /** The ties among the first `k` elements come first among the ties of the whole. */
  lemma {:induction false} TiedOfPrefix<T>(s: seq<T>, key: T -> int, v: int, k: nat)
    requires k <= |s|
    ensures Tied(s[..k], key, v) <= Tied(s, key, v)
  {
    if k > 0 {
      TiedOfPrefix(s[1..], key, v, k - 1);
      assert s[..k][1..] == s[1..][..k - 1];
    }
  }

  /** An element of `s` shows up among the ties of its own key. */
  lemma {:induction false} TiedHas<T>(s: seq<T>, key: T -> int, j: nat)
    requires j < |s|
    ensures exists d :: 0 <= d < |Tied(s, key, key(s[j]))| && Tied(s, key, key(s[j]))[d] == s[j]
  {
    var v := key(s[j]);
    if j > 0 {
      TiedHas(s[1..], key, j - 1);
      assert s[1..][j - 1] == s[j];
      var tail := Tied(s[1..], key, v);
      var d :| 0 <= d < |tail| && tail[d] == s[j];
      var off := if key(s[0]) == v then 1 else 0;
      assert Tied(s, key, v)[d + off] == s[j];
    } else {
      assert Tied(s, key, v)[0] == s[0];
    }
  }

  /** Two equal-key elements of `s` appear among its ties in the order they have in `s`. */
  lemma {:induction false} TiedPairIn<T>(s: seq<T>, key: T -> int, i: nat, j: nat)
    requires i < j < |s| && key(s[i]) == key(s[j])
    ensures exists c, d :: 0 <= c < d < |Tied(s, key, key(s[i]))| &&
                           Tied(s, key, key(s[i]))[c] == s[i] && Tied(s, key, key(s[i]))[d] == s[j]
  {
    var v := key(s[i]);
    var tail := Tied(s[1..], key, v);
    assert s[1..][j - 1] == s[j];
    if i == 0 {
      TiedHas(s[1..], key, j - 1);
      var d :| 0 <= d < |tail| && tail[d] == s[j];
      assert Tied(s, key, v)[0] == s[0] && Tied(s, key, v)[d + 1] == s[j];
    } else {
      assert s[1..][i - 1] == s[i];
      TiedPairIn(s[1..], key, i - 1, j - 1);
      var c, d :| 0 <= c < d < |tail| && tail[c] == s[i] && tail[d] == s[j];
      var off := if key(s[0]) == v then 1 else 0;
      assert Tied(s, key, v)[c + off] == s[i] && Tied(s, key, v)[d + off] == s[j];
    }
  }

  /** Every tie of `s` is an element of `s`. */
  lemma {:induction false} TiedOut<T>(s: seq<T>, key: T -> int, v: int, d: nat)
    requires d < |Tied(s, key, v)|
    ensures exists q :: 0 <= q < |s| && s[q] == Tied(s, key, v)[d]
  {
    var tail := Tied(s[1..], key, v);
    if key(s[0]) == v && d == 0 {
      assert s[0] == Tied(s, key, v)[0];
    } else {
      var off := if key(s[0]) == v then 1 else 0;
      assert Tied(s, key, v)[d] == tail[d - off];
      TiedOut(s[1..], key, v, d - off);
      var q :| 0 <= q < |s[1..]| && s[1..][q] == tail[d - off];
      assert s[q + 1] == Tied(s, key, v)[d];
    }
  }

  /** The ties of `s`, in their order, come from positions of `s` in the same order. */
  lemma {:induction false} TiedPairOut<T>(s: seq<T>, key: T -> int, v: int, c: nat, d: nat)
    requires c < d < |Tied(s, key, v)|
    ensures exists p, q :: 0 <= p < q < |s| && s[p] == Tied(s, key, v)[c] && s[q] == Tied(s, key, v)[d]
  {
    var tail := Tied(s[1..], key, v);
    if key(s[0]) == v && c == 0 {
      assert Tied(s, key, v)[d] == tail[d - 1];
      TiedOut(s[1..], key, v, d - 1);
      var q :| 0 <= q < |s[1..]| && s[1..][q] == tail[d - 1];
      assert s[0] == Tied(s, key, v)[0] && s[q + 1] == Tied(s, key, v)[d];
    } else {
      var off := if key(s[0]) == v then 1 else 0;
      assert Tied(s, key, v)[c] == tail[c - off] && Tied(s, key, v)[d] == tail[d - off];
      TiedPairOut(s[1..], key, v, c - off, d - off);
      var p, q :| 0 <= p < q < |s[1..]| && s[1..][p] == tail[c - off] && s[1..][q] == tail[d - off];
      assert s[p + 1] == Tied(s, key, v)[c] && s[q + 1] == Tied(s, key, v)[d];
    }
  }

  /**
   * Stability read position by position: when `r` has the ties of `s` in the
   * same order, two equal-key elements of `r` come from positions of `s` in
   * the same order.
   */
  lemma StableKeepsOrder<T>(r: seq<T>, s: seq<T>, key: T -> int, i: nat, j: nat)
    requires forall v :: Tied(r, key, v) == Tied(s, key, v)
    requires i < j < |r| && key(r[i]) == key(r[j])
    ensures exists p, q :: 0 <= p < q < |s| && s[p] == r[i] && s[q] == r[j]
  {
    var v := key(r[i]);
    TiedPairIn(r, key, i, j);
    var c, d :| 0 <= c < d < |Tied(r, key, v)| && Tied(r, key, v)[c] == r[i] && Tied(r, key, v)[d] == r[j];
    assert Tied(r, key, v) == Tied(s, key, v);
    TiedPairOut(s, key, v, c, d);
  }

  /** What a prefix leaves behind of a sequence is exactly the rest of it. */
  lemma SuffixIsRemainder<T>(s: seq<T>, k: nat)
    requires k <= |s|
    ensures multiset(s) == multiset(s[..k]) + multiset(s[k..])
    ensures multiset(s) - multiset(s[..k]) == multiset(s[k..])
  {
    assert s == s[..k] + s[k..];
  }

  /**
   * A sorted sequence split after `k` elements: nothing behind the cut has a
   * larger key than anything in front of it.
   */
  lemma CutOfSorted<T>(s: seq<T>, key: T -> int, k: nat)
    requires k <= |s| && NonIncreasing(s, key)
    ensures forall x, y :: x in s[..k] && y in multiset(s) - multiset(s[..k]) ==> key(x) >= key(y)
  {
    SuffixIsRemainder(s, k);
    forall x, y | x in s[..k] && y in s[k..]
      ensures key(x) >= key(y)
    {
      var i :| 0 <= i < k && s[..k][i] == x;
      var j :| 0 <= j < |s| - k && s[k..][j] == y;
      assert s[i] == x && s[k + j] == y;
    }
  }

  /**
   * The first `k` elements of a stable descending arrangement `t` of `s`: in
   * order, drawn from `s`, never outscored by what is left out, and the ties
   * they hold are the first of `s`'s ties.
   */
  lemma SortedPrefix<T>(s: seq<T>, t: seq<T>, key: T -> int, k: nat)
    requires k <= |t| && NonIncreasing(t, key) && multiset(t) == multiset(s)
    requires forall v :: Tied(t, key, v) == Tied(s, key, v)
    ensures NonIncreasing(t[..k], key)
    ensures multiset(t[..k]) <= multiset(s)
    ensures forall x, y :: x in t[..k] && y in multiset(s) - multiset(t[..k]) ==> key(x) >= key(y)
    ensures forall v :: Tied(t[..k], key, v) <= Tied(s, key, v)
  {
    CutOfSorted(t, key, k);
    SuffixIsRemainder(t, k);
    forall v ensures Tied(t[..k], key, v) <= Tied(s, key, v) {
      TiedOfPrefix(t, key, v, k);
    }
  }
}
