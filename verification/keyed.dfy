/** Sequences of records identified by an integer key, and the array operations the cart code
    applies to them: `some`, `findIndex` and `filter` on a key, and uniqueness of keys.
    Both the cart (keyed by product id) and the local stock list (keyed by product id) use these. */
module Keyed {

  /** Some element of `s` carries key `k`. */
  predicate Any<T>(s: seq<T>, key: T -> int, k: int) {
    exists i :: 0 <= i < |s| && key(s[i]) == k
  }

  /** No two elements of `s` share a key. */
  predicate Unique<T>(s: seq<T>, key: T -> int) {
    forall i, j :: 0 <= i < j < |s| ==> key(s[i]) != key(s[j])
  }

  /** The set of distinct keys occurring in `s`. */
  function Keys<T>(s: seq<T>, key: T -> int): set<int> {
    set i | 0 <= i < |s| :: key(s[i])
  }

  /** The first position of `s` holding key `k`, or -1 when there is none. */
  function FindIndex<T>(s: seq<T>, key: T -> int, k: int): (i: int)
    ensures -1 <= i < |s|
    ensures i == -1 <==> !Any(s, key, k)
    ensures 0 <= i ==> key(s[i]) == k && forall j :: 0 <= j < i ==> key(s[j]) != k
  {
    if |s| == 0 then -1
    else if key(s[0]) == k then 0
    else
      var i := FindIndex(s[1..], key, k);
      assert forall j :: 0 < j < |s| ==> s[j] == s[1..][j - 1];
      if i == -1 then -1 else i + 1
  }

  /** The elements of `s` whose key is not `k`, in their original order. */
  function Without<T>(s: seq<T>, key: T -> int, k: int): (r: seq<T>)
    ensures |r| <= |s|
    ensures Any(s, key, k) ==> |r| < |s|
  {
    if |s| == 0 then []
    else if key(s[0]) != k then [s[0]] + Without(s[1..], key, k)
    else Without(s[1..], key, k)
  }

  /** The filter keeps exactly the elements whose key differs from `k`. */
  lemma {:induction false} WithoutMembers<T>(s: seq<T>, key: T -> int, k: int)
    ensures var r := Without(s, key, k);
      && (forall i :: 0 <= i < |r| ==> r[i] in s && key(r[i]) != k)
      && (forall i :: 0 <= i < |s| && key(s[i]) != k ==> s[i] in r)
  {
    if |s| > 0 {
      var tail := s[1..];
      var rest := Without(tail, key, k);
      WithoutMembers(tail, key, k);
      assert forall i :: 0 < i < |s| ==> s[i] == tail[i - 1];
      assert forall x :: x in tail ==> x in s;
      if key(s[0]) != k {
        var r := Without(s, key, k);
        assert r == [s[0]] + rest;
        assert forall i :: 0 < i < |r| ==> r[i] == rest[i - 1];
      }
    }
  }

  /** The filter works element by element: filtering a concatenation filters each part and keeps
      the parts in order. With the one-element cases of the definition, this fixes the order and
      multiplicity of what is kept. */
  lemma {:induction false} WithoutAppend<T>(a: seq<T>, b: seq<T>, key: T -> int, k: int)
    ensures Without(a + b, key, k) == Without(a, key, k) + Without(b, key, k)
  {
    if |a| == 0 {
      assert a + b == b;
    } else {
      assert (a + b)[1..] == a[1..] + b;
      WithoutAppend(a[1..], b, key, k);
    }
  }

  /** Filtering key `k` out leaves the elements of every other key `j` exactly as they were, in
      number and in order; none of key `k` are left. */
  lemma {:induction false} OnlyWithout<T>(s: seq<T>, key: T -> int, k: int, j: int)
    ensures |Only(Without(s, key, k), key, k)| == 0
    ensures j != k ==> Only(Without(s, key, k), key, j) == Only(s, key, j)
  {
    if |s| > 0 {
      OnlyWithout(s[1..], key, k, j);
      if key(s[0]) != k {
        WithoutHead(s, key, k);
        assert ([s[0]] + Without(s[1..], key, k))[1..] == Without(s[1..], key, k);
      }
    }
  }

  /** `OnlyWithout` for every other key at once. */
  lemma OthersUnchanged<T>(s: seq<T>, key: T -> int, k: int)
    ensures forall j :: j != k ==> Only(Without(s, key, k), key, j) == Only(s, key, j)
  {
    forall j | j != k
      ensures Only(Without(s, key, k), key, j) == Only(s, key, j)
    {
      OnlyWithout(s, key, k, j);
    }
  }

  /** The elements of `s` whose key is `k`, in their original order; the head, when there is one, is
      the element `FindIndex` finds. */
  function Only<T(==)>(s: seq<T>, key: T -> int, k: int): (r: seq<T>)
    ensures forall i :: 0 <= i < |r| ==> r[i] in s && key(r[i]) == k
    ensures forall i :: 0 <= i < |s| && key(s[i]) == k ==> s[i] in r
    ensures |r| > 0 <==> Any(s, key, k)
    ensures |r| > 0 ==> r[0] == s[FindIndex(s, key, k)]
  {
    if |s| == 0 then []
    else if key(s[0]) == k then [s[0]] + Only(s[1..], key, k)
    else
      assert forall j :: 0 < j < |s| ==> s[j] == s[1..][j - 1];
      Only(s[1..], key, k)
  }

  lemma {:induction false} AnyIsKey<T>(s: seq<T>, key: T -> int, k: int)
    ensures Any(s, key, k) <==> k in Keys(s, key)
  {
  }

  /** Prepending an element keeps keys unique exactly when its key is new. */
  lemma {:induction false} UniqueCons<T>(x: T, s: seq<T>, key: T -> int)
    ensures Unique([x] + s, key) <==> Unique(s, key) && !Any(s, key, key(x))
  {
    var t := [x] + s;
    assert forall j :: 0 <= j < |s| ==> t[j + 1] == s[j];
    if Unique(s, key) && !Any(s, key, key(x)) {
      forall i, j | 0 <= i < j < |t|
        ensures key(t[i]) != key(t[j])
      {
        if i == 0 {
          assert t[j] == s[j - 1];
        } else {
          assert t[i] == s[i - 1] && t[j] == s[j - 1];
        }
      }
    }
    if Unique(t, key) {
      forall i, j | 0 <= i < j < |s|
        ensures key(s[i]) != key(s[j])
      {
        assert key(t[i + 1]) != key(t[j + 1]);
      }
      forall j | 0 <= j < |s|
        ensures key(s[j]) != key(x)
      {
        assert key(t[0]) != key(t[j + 1]);
      }
    }
  }

  /** Appending an element keeps keys unique exactly when its key is new. */
  lemma {:induction false} UniqueSnoc<T>(s: seq<T>, x: T, key: T -> int)
    ensures Unique(s + [x], key) <==> Unique(s, key) && !Any(s, key, key(x))
  {
    var t := s + [x];
    assert forall j :: 0 <= j < |s| ==> t[j] == s[j];
    if Unique(t, key) {
      forall j | 0 <= j < |s|
        ensures key(s[j]) != key(x)
      {
        assert key(t[j]) != key(t[|s|]);
      }
    }
  }

  /** Filtering an absent key out changes nothing. */
  lemma {:induction false} WithoutAbsent<T>(s: seq<T>, key: T -> int, k: int)
    requires !Any(s, key, k)
    ensures Without(s, key, k) == s
  {
    if |s| > 0 {
      assert !Any(s[1..], key, k) by {
        assert forall j :: 0 <= j < |s| - 1 ==> s[1..][j] == s[j + 1];
      }
      WithoutAbsent(s[1..], key, k);
      assert [s[0]] + s[1..] == s;
    }
  }

  /** With unique keys, filtering key `k` out deletes exactly the one element holding it and keeps
      the others in their order. */
  lemma {:induction false} WithoutAt<T>(s: seq<T>, key: T -> int, i: int)
    requires Unique(s, key)
    requires 0 <= i < |s|
    ensures Without(s, key, key(s[i])) == s[..i] + s[i + 1..]
  {
    var k := key(s[i]);
    var tail := s[1..];
    UniqueTail(s, key);
    if i == 0 {
      WithoutFirst(s, key);
    } else {
      assert tail[i - 1] == s[i];
      WithoutAt(tail, key, i - 1);
      WithoutHead(s, key, k);
      assert tail[..i - 1] + tail[i..] == s[1..i] + s[i + 1..];
      assert [s[0]] + s[1..i] == s[..i];
    }
  }

  /** With unique keys, filtering out the head's key leaves the tail. */
  lemma WithoutFirst<T>(s: seq<T>, key: T -> int)
    requires Unique(s, key) && |s| > 0
    ensures Without(s, key, key(s[0])) == s[..0] + s[1..]
  {
    UniqueTail(s, key);
    WithoutAbsent(s[1..], key, key(s[0]));
    assert s[..0] + s[1..] == s[1..];
  }

  /** The tail of a sequence with unique keys has unique keys, none of them the head's. */
  lemma UniqueTail<T>(s: seq<T>, key: T -> int)
    requires Unique(s, key) && |s| > 0
    ensures Unique(s[1..], key) && !Any(s[1..], key, key(s[0]))
  {
    assert forall j :: 0 <= j < |s| - 1 ==> s[1..][j] == s[j + 1];
  }

  /** One step of the filter: an element that is kept stays in front. */
  lemma WithoutHead<T>(s: seq<T>, key: T -> int, k: int)
    requires |s| > 0 && key(s[0]) != k
    ensures Without(s, key, k) == [s[0]] + Without(s[1..], key, k)
  {
  }

  /** Filtering keeps keys unique. */
  lemma {:induction false} WithoutUnique<T>(s: seq<T>, key: T -> int, k: int)
    requires Unique(s, key)
    ensures Unique(Without(s, key, k), key)
  {
    if |s| > 0 {
      UniqueCons(s[0], s[1..], key);
      assert [s[0]] + s[1..] == s;
      WithoutUnique(s[1..], key, k);
      WithoutMembers(s[1..], key, k);
      var r := Without(s[1..], key, k);
      if key(s[0]) != k {
        UniqueCons(s[0], r, key);
      }
    }
  }

  /** Appending an element adds its key to the key set. */
  lemma {:induction false} KeysSnoc<T>(s: seq<T>, x: T, key: T -> int)
    ensures Keys(s + [x], key) == Keys(s, key) + {key(x)}
  {
    var t := s + [x];
    assert forall i :: 0 <= i < |s| ==> t[i] == s[i];
    assert t[|s|] == x;
  }

  /** Appending an element adds one to the number of elements carrying its key, and to no other. */
  lemma {:induction false} OnlySnoc<T>(s: seq<T>, x: T, key: T -> int, k: int)
    ensures |Only(s + [x], key, k)| == |Only(s, key, k)| + (if key(x) == k then 1 else 0)
  {
    if |s| == 0 {
      assert s + [x] == [x];
    } else {
      assert (s + [x])[1..] == s[1..] + [x];
      OnlySnoc(s[1..], x, key, k);
    }
  }

  /** There are never more distinct keys than elements, and as many exactly when keys are unique. */
  lemma {:induction false} KeysCount<T>(s: seq<T>, key: T -> int)
    ensures |Keys(s, key)| <= |s|
    ensures |Keys(s, key)| == |s| <==> Unique(s, key)
  {
    if |s| == 0 {
      assert Keys(s, key) == {};
    } else {
      var init := s[..|s| - 1];
      var x := s[|s| - 1];
      assert s == init + [x];
      KeysCount(init, key);
      UniqueSnoc(init, x, key);
      AnyIsKey(init, key, key(x));
      KeysSnoc(init, x, key);
    }
  }
}
