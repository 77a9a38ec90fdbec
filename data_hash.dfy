/**
 * The change-detection fingerprint `computeDataHash`: the sorted, comma-joined
 * `${booking_id}:${booking_status}` keys of the roster, a `|`, and the sorted
 * `${_id}:${status}:${people}` keys of the reservations. Because JavaScript's default
 * sort orders strings totally, the fingerprint depends only on the multiset of keys,
 * so the insertion sort used here gives the same result as the engine's own sort.
 */
module DataHash {
  import opened Js
  import opened Records

  /** `${b.booking_id}:${b.booking_status}` */
  function HotelKey(nb: HotelBooking): string {
    nb.bookingId + ":" + nb.status
  }

  /** `${b.people}`: a missing party size prints as "undefined"; a `null` one, which the source prints as "null", is not told apart from it. */
  function PeopleText(people: Option<nat>): string {
    match people
    case None => "undefined"
    case Some(n) => NatToDecimal(n)
  }

  /** `${b._id}:${b.status}:${b.people}` */
  function RestaurantKey(rb: RestaurantBooking): string {
    rb.id + ":" + rb.status + ":" + PeopleText(rb.people)
  }

  /** `records.map(key)` */
  function Keys<T>(s: seq<T>, key: T -> string): (r: seq<string>)
    ensures |r| == |s| && forall i :: 0 <= i < |s| ==> r[i] == key(s[i])
  {
    seq(|s|, i requires 0 <= i < |s| => key(s[i]))
  }

  // ---------------------------------------------------------------------
  // The default sort order of strings
  // ---------------------------------------------------------------------

  /** `a` sorts no later than `b`: a prefix comes first, otherwise the first differing character decides. */
  predicate LessEq(a: string, b: string)
    decreases |a|
  {
    if |a| == 0 then true
    else if |b| == 0 then false
    else if a[0] != b[0] then a[0] < b[0]
    else LessEq(a[1..], b[1..])
  }

  lemma {:induction false} LessEqReflexive(a: string)
    ensures LessEq(a, a)
    decreases |a|
  {
    if |a| > 0 {
      LessEqReflexive(a[1..]);
    }
  }

  lemma {:induction false} LessEqTotal(a: string, b: string)
    ensures LessEq(a, b) || LessEq(b, a)
    decreases |a|
  {
    if |a| > 0 && |b| > 0 && a[0] == b[0] {
      LessEqTotal(a[1..], b[1..]);
    }
  }

  lemma {:induction false} LessEqAntisymmetric(a: string, b: string)
    requires LessEq(a, b) && LessEq(b, a)
    ensures a == b
    decreases |a|
  {
    if |a| > 0 && |b| > 0 {
      LessEqAntisymmetric(a[1..], b[1..]);
      assert a == [a[0]] + a[1..] && b == [b[0]] + b[1..];
    }
  }

  lemma {:induction false} LessEqTransitive(a: string, b: string, c: string)
    requires LessEq(a, b) && LessEq(b, c)
    ensures LessEq(a, c)
    decreases |a|
  {
    if |a| > 0 && |b| > 0 && |c| > 0 && a[0] == b[0] && b[0] == c[0] {
      LessEqTransitive(a[1..], b[1..], c[1..]);
    }
  }

  predicate Sorted(s: seq<string>) {
    forall i, j :: 0 <= i < j < |s| ==> LessEq(s[i], s[j])
  }

  // ---------------------------------------------------------------------
  // Sorting
  // ---------------------------------------------------------------------

  function Insert(x: string, s: seq<string>): seq<string>
    decreases |s|
  {
    if |s| == 0 then [x]
    else if LessEq(x, s[0]) then [x] + s
    else [s[0]] + Insert(x, s[1..])
  }

  /** Inserting adds exactly one occurrence of `x`. */
  lemma {:induction false} InsertPermutes(x: string, s: seq<string>)
    ensures multiset(Insert(x, s)) == multiset(s) + multiset{x}
    decreases |s|
  {
    if |s| > 0 {
      assert s == [s[0]] + s[1..];
      if !LessEq(x, s[0]) {
        InsertPermutes(x, s[1..]);
      }
    }
  }

  lemma ConsSorted(a: string, t: seq<string>)
    requires Sorted(t)
    requires forall k :: 0 <= k < |t| ==> LessEq(a, t[k])
    ensures Sorted([a] + t)
  {
    var r := [a] + t;
    forall i, j | 0 <= i < j < |r| ensures LessEq(r[i], r[j]) {
      if i > 0 {
        assert r[i] == t[i - 1] && r[j] == t[j - 1];
      }
    }
  }

  /** Every element of `Insert(x, s)` is `x` or an element of `s`. */
  lemma InsertedFrom(x: string, s: seq<string>, y: string)
    requires y in Insert(x, s)
    ensures y == x || y in s
  {
    InsertPermutes(x, s);
    assert y in multiset(Insert(x, s));
  }

  lemma {:induction false} InsertSorted(x: string, s: seq<string>)
    requires Sorted(s)
    ensures Sorted(Insert(x, s))
    decreases |s|
  {
    if |s| == 0 {
    } else if LessEq(x, s[0]) {
      forall k | 0 <= k < |s| ensures LessEq(x, s[k]) {
        if k > 0 {
          LessEqTransitive(x, s[0], s[k]);
        }
      }
      ConsSorted(x, s);
    } else {
      LessEqTotal(x, s[0]);
      var t := Insert(x, s[1..]);
      InsertSorted(x, s[1..]);
      forall k | 0 <= k < |t| ensures LessEq(s[0], t[k]) {
        InsertedFrom(x, s[1..], t[k]);
        if t[k] != x {
          var m :| 0 <= m < |s[1..]| && s[1..][m] == t[k];
          assert s[m + 1] == t[k];
        }
      }
      ConsSorted(s[0], t);
    }
  }

  /** The insertion sort: a sorted permutation of its input. */
  function Sort(s: seq<string>): seq<string>
    decreases |s|
  {
    if |s| == 0 then [] else Insert(s[0], Sort(s[1..]))
  }

  /** The insertion sort returns a sorted permutation of its input. */
  lemma {:induction false} SortIsSortedPermutation(s: seq<string>)
    ensures multiset(Sort(s)) == multiset(s)
    ensures Sorted(Sort(s))
    decreases |s|
  {
    if |s| > 0 {
      assert s == [s[0]] + s[1..];
      SortIsSortedPermutation(s[1..]);
      InsertPermutes(s[0], Sort(s[1..]));
      InsertSorted(s[0], Sort(s[1..]));
    }
  }

  lemma MultisetCancel<T>(x: T, a: multiset<T>, b: multiset<T>)
    requires a + multiset{x} == b + multiset{x}
    ensures a == b
  {
    assert a == (a + multiset{x}) - multiset{x};
    assert b == (b + multiset{x}) - multiset{x};
  }

  /** Taking out the element at `k` takes one occurrence out of the multiset. */
  lemma RemoveAt<T>(t: seq<T>, k: int)
    requires 0 <= k < |t|
    ensures multiset(t) == multiset(t[..k] + t[k + 1..]) + multiset{t[k]}
  {
    assert t == t[..k] + [t[k]] + t[k + 1..];
  }

  /** The first element of a sorted sequence sorts no later than any of its elements. */
  lemma SortedHeadIsLeast(a: seq<string>, x: string)
    requires Sorted(a) && x in multiset(a)
    ensures |a| > 0 && LessEq(a[0], x)
  {
    var k :| 0 <= k < |a| && a[k] == x;
    if k > 0 {
      assert LessEq(a[0], a[k]);
    } else {
      LessEqReflexive(x);
    }
  }

  lemma SortedTail(a: seq<string>)
    requires Sorted(a) && |a| > 0
    ensures Sorted(a[1..])
  {
    forall i, j | 0 <= i < j < |a| - 1 ensures LessEq(a[1..][i], a[1..][j]) {
      assert a[1..][i] == a[i + 1] && a[1..][j] == a[j + 1];
    }
  }

  /** Two sorted sequences with the same elements start with the same element. */
  lemma SameHead(a: seq<string>, b: seq<string>)
    requires Sorted(a) && Sorted(b) && multiset(a) == multiset(b) && |a| > 0
    ensures |b| > 0 && a[0] == b[0]
  {
    assert a[0] in multiset(b);
    SortedHeadIsLeast(a, b[0]);
    SortedHeadIsLeast(b, a[0]);
    LessEqAntisymmetric(a[0], b[0]);
  }

  lemma SameTail<T>(a: seq<T>, b: seq<T>)
    requires |a| > 0 && |b| > 0 && a[0] == b[0] && multiset(a) == multiset(b)
    ensures multiset(a[1..]) == multiset(b[1..])
  {
    RemoveAt(a, 0);
    RemoveAt(b, 0);
    assert a[..0] + a[1..] == a[1..];
    assert b[..0] + b[1..] == b[1..];
    MultisetCancel(a[0], multiset(a[1..]), multiset(b[1..]));
  }

  /** Two sorted sequences with the same elements are equal: every correct sort gives the same result. */
  lemma {:induction false} SortedUnique(a: seq<string>, b: seq<string>)
    requires Sorted(a) && Sorted(b) && multiset(a) == multiset(b)
    ensures a == b
    decreases |a|
  {
    if |a| == 0 {
      assert |b| == |multiset(b)| == 0;
    } else {
      SameHead(a, b);
      SameTail(a, b);
      SortedTail(a);
      SortedTail(b);
      SortedUnique(a[1..], b[1..]);
      assert a == [a[0]] + a[1..] && b == [b[0]] + b[1..];
    }
  }

  /** `computeDataHash(newbookBookings, resosBookings)` */
  function ComputeDataHash(hotel: seq<HotelBooking>, resos: seq<RestaurantBooking>): string {
    Join(Sort(Keys(hotel, HotelKey)), ",") + "|" + Join(Sort(Keys(resos, RestaurantKey)), ",")
  }

  /** Keys are taken element by element, so reordering the records reorders the keys alike. */
  lemma {:induction false} KeysOfPermutation<T>(s: seq<T>, t: seq<T>, key: T -> string)
    requires multiset(s) == multiset(t)
    ensures multiset(Keys(s, key)) == multiset(Keys(t, key))
    decreases |s|
  {
    assert |s| == |multiset(s)| == |t|;
    if |s| > 0 {
      var n := |s| - 1;
      var x := s[n];
      assert x in multiset(t);
      var k :| 0 <= k < |t| && t[k] == x;
      var s' := s[..n];
      var t' := t[..k] + t[k + 1..];
      RemoveAt(s, n);
      RemoveAt(t, k);
      assert s[..n] + s[n + 1..] == s';
      MultisetCancel(x, multiset(s'), multiset(t'));
      KeysOfPermutation(s', t', key);
      var ks := Keys(s, key);
      var kt := Keys(t, key);
      RemoveAt(ks, n);
      RemoveAt(kt, k);
      assert ks[..n] + ks[n + 1..] == Keys(s', key);
      assert kt[..k] + kt[k + 1..] == Keys(t', key);
    }
  }

  lemma SortKeysOfPermutation<T>(s: seq<T>, t: seq<T>, key: T -> string)
    requires multiset(s) == multiset(t)
    ensures Sort(Keys(s, key)) == Sort(Keys(t, key))
  {
    KeysOfPermutation(s, t, key);
    SortIsSortedPermutation(Keys(s, key));
    SortIsSortedPermutation(Keys(t, key));
    SortedUnique(Sort(Keys(s, key)), Sort(Keys(t, key)));
  }

  /** The fingerprint does not depend on the order in which the two APIs return their records. */
  lemma HashIgnoresOrder(h1: seq<HotelBooking>, h2: seq<HotelBooking>,
                         r1: seq<RestaurantBooking>, r2: seq<RestaurantBooking>)
    requires multiset(h1) == multiset(h2) && multiset(r1) == multiset(r2)
    ensures ComputeDataHash(h1, r1) == ComputeDataHash(h2, r2)
  {
    SortKeysOfPermutation(h1, h2, HotelKey);
    SortKeysOfPermutation(r1, r2, RestaurantKey);
  }
}
