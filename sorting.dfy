/**
 * `sortStartups`: copies the list and sorts the copy with the host's stable
 * sort, newest first or most viewed first.
 */
module Sorting {
  import opened Listing

  /** The two orders the helper knows. */
  datatype SortKey = Newest | MostViewed

  /** The compared value: the creation time, or the view count with a missing count as 0. */
  function KeyOf(order: SortKey, s: Startup): int {
    match order
    case Newest => s.createdAt
    case MostViewed => ViewsOrZero(s)
  }

  /** Non-increasing in the key: what a comparator `b - a` asks of the result. */
  ghost predicate Descending(order: SortKey, s: seq<Startup>) {
    forall i, j :: 0 <= i < j < |s| ==> KeyOf(order, s[i]) >= KeyOf(order, s[j])
  }

  /** The listings of `s` whose key is `k`, in their order in `s`. */
  function WithKey(order: SortKey, k: int, s: seq<Startup>): seq<Startup> {
    if s == [] then []
    else (if KeyOf(order, s[0]) == k then [s[0]] else []) + WithKey(order, k, s[1..])
  }

  /** Listings with equal keys keep their relative order: a stable rearrangement. */
  ghost predicate KeepsTiesInOrder(order: SortKey, input: seq<Startup>, output: seq<Startup>) {
    forall k :: WithKey(order, k, output) == WithKey(order, k, input)
  }

  /** Places `x` after every listing whose key is at least its own. */
  function Insert(order: SortKey, x: Startup, s: seq<Startup>): (r: seq<Startup>)
    ensures |r| == |s| + 1
  {
    if s == [] || KeyOf(order, x) > KeyOf(order, s[0]) then [x] + s
    else [s[0]] + Insert(order, x, s[1..])
  }

  /** The stable descending sort: each listing inserted after the ones before it with a key at least its own. */
  function SortDescending(order: SortKey, s: seq<Startup>): (r: seq<Startup>)
    ensures |r| == |s|
  {
    if s == [] then []
    else Insert(order, s[|s| - 1], SortDescending(order, s[..|s| - 1]))
  }

  /** Inserting adds exactly `x`. */
  lemma {:induction false} InsertPermutation(order: SortKey, x: Startup, s: seq<Startup>)
    ensures multiset(Insert(order, x, s)) == multiset(s) + multiset{x}
  {
    if s != [] && KeyOf(order, x) <= KeyOf(order, s[0]) {
      InsertPermutation(order, x, s[1..]);
      assert s == [s[0]] + s[1..];
    }
  }

  /** The sort is a permutation of its input. */
  lemma {:induction false} SortDescendingPermutation(order: SortKey, s: seq<Startup>)
    ensures multiset(SortDescending(order, s)) == multiset(s)
  {
    if s != [] {
      var front, last := s[..|s| - 1], s[|s| - 1];
      var sorted := SortDescending(order, front);
      calc {
        multiset(SortDescending(order, s));
        multiset(Insert(order, last, sorted));
        { InsertPermutation(order, last, sorted); }
        multiset(sorted) + multiset{last};
        { SortDescendingPermutation(order, front); }
        multiset(front) + multiset{last};
        { assert s == front + [last]; }
        multiset(s);
      }
    }
  }

  /** The tail of a descending sequence is descending, and its head has the largest key. */
  lemma DescendingTail(order: SortKey, s: seq<Startup>)
    requires Descending(order, s) && s != []
    ensures Descending(order, s[1..])
    ensures forall k :: 0 <= k < |s| ==> KeyOf(order, s[k]) <= KeyOf(order, s[0])
  {
    assert forall i, j :: 0 <= i < j < |s| - 1 ==> s[1..][i] == s[i + 1] && s[1..][j] == s[j + 1];
  }

  /** Inserting `x` keeps every key at most `m` when `x`'s key and all of `s`'s are. */
  lemma {:induction false} InsertKeysAtMost(order: SortKey, x: Startup, s: seq<Startup>, m: int)
    requires KeyOf(order, x) <= m
    requires forall k :: 0 <= k < |s| ==> KeyOf(order, s[k]) <= m
    ensures forall k :: 0 <= k < |Insert(order, x, s)| ==> KeyOf(order, Insert(order, x, s)[k]) <= m
  {
    if s != [] && KeyOf(order, x) <= KeyOf(order, s[0]) {
      InsertKeysAtMost(order, x, s[1..], m);
      var r, t := Insert(order, x, s), Insert(order, x, s[1..]);
      assert r == [s[0]] + t;
      assert forall k :: 1 <= k < |r| ==> r[k] == t[k - 1];
    } else {
      var r := Insert(order, x, s);
      assert r == [x] + s;
      assert forall k :: 1 <= k < |r| ==> r[k] == s[k - 1];
    }
  }

  /** Inserting into a descending sequence keeps it descending. */
  lemma {:induction false} InsertDescending(order: SortKey, x: Startup, s: seq<Startup>)
    requires Descending(order, s)
    ensures Descending(order, Insert(order, x, s))
  {
    if s == [] {
      assert Insert(order, x, s) == [x];
    } else if KeyOf(order, x) > KeyOf(order, s[0]) {
      DescendingTail(order, s);
      assert Insert(order, x, s) == [x] + s;
      PrependDescending(order, x, s);
    } else {
      DescendingTail(order, s);
      InsertDescending(order, x, s[1..]);
      InsertKeysAtMost(order, x, s[1..], KeyOf(order, s[0]));
      assert Insert(order, x, s) == [s[0]] + Insert(order, x, s[1..]);
      PrependDescending(order, s[0], Insert(order, x, s[1..]));
    }
  }

  /** A listing whose key is at least every key of a descending sequence can go in front of it. */
  lemma PrependDescending(order: SortKey, y: Startup, t: seq<Startup>)
    requires Descending(order, t)
    requires forall k :: 0 <= k < |t| ==> KeyOf(order, t[k]) <= KeyOf(order, y)
    ensures Descending(order, [y] + t)
  {
    var r := [y] + t;
    forall i, j | 0 <= i < j < |r| ensures KeyOf(order, r[i]) >= KeyOf(order, r[j]) {
      assert r[j] == t[j - 1];
      if i > 0 {
        assert r[i] == t[i - 1];
      }
    }
  }

  /** Splitting off the last listing. */
  lemma {:induction false} WithKeyAppend(order: SortKey, k: int, s: seq<Startup>, x: Startup)
    ensures WithKey(order, k, s + [x]) == WithKey(order, k, s) + (if KeyOf(order, x) == k then [x] else [])
  {
    if s == [] {
      assert [] + [x] == [x];
      assert [x][1..] == [];
    } else {
      assert (s + [x])[0] == s[0] && (s + [x])[1..] == s[1..] + [x];
      WithKeyAppend(order, k, s[1..], x);
    }
  }

  /** In a descending sequence whose first key is below `k`, nothing has key `k`. */
  lemma {:induction false} WithKeyBelow(order: SortKey, k: int, s: seq<Startup>)
    requires Descending(order, s)
    requires s != [] ==> KeyOf(order, s[0]) < k
    ensures WithKey(order, k, s) == []
  {
    if s != [] {
      DescendingTail(order, s);
      WithKeyBelow(order, k, s[1..]);
    }
  }

  /** Inserting adds `x` at the end of the listings with its key. */
  lemma {:induction false} InsertWithKey(order: SortKey, k: int, x: Startup, s: seq<Startup>)
    requires Descending(order, s)
    ensures WithKey(order, k, Insert(order, x, s)) == WithKey(order, k, s) + (if KeyOf(order, x) == k then [x] else [])
  {
    if s == [] || KeyOf(order, x) > KeyOf(order, s[0]) {
      InsertInFront(order, k, x, s);
    } else {
      DescendingTail(order, s);
      InsertWithKey(order, k, x, s[1..]);
      var t := Insert(order, x, s[1..]);
      var head := if KeyOf(order, s[0]) == k then [s[0]] else [];
      var tail := if KeyOf(order, x) == k then [x] else [];
      WithKeyCons(order, k, s[0], t);
      WithKeyCons(order, k, s[0], s[1..]);
      assert s == [s[0]] + s[1..];
      calc {
        WithKey(order, k, Insert(order, x, s));
        WithKey(order, k, [s[0]] + t);
        head + WithKey(order, k, t);
        head + (WithKey(order, k, s[1..]) + tail);
        (head + WithKey(order, k, s[1..])) + tail;
        WithKey(order, k, s) + tail;
      }
    }
  }

  /** WithKey of a sequence with a given first listing. */
  lemma WithKeyCons(order: SortKey, k: int, y: Startup, t: seq<Startup>)
    ensures WithKey(order, k, [y] + t) == (if KeyOf(order, y) == k then [y] else []) + WithKey(order, k, t)
  {
    assert ([y] + t)[0] == y && ([y] + t)[1..] == t;
  }

  /** The case where `x` goes first: everything after it has a smaller key. */
  lemma InsertInFront(order: SortKey, k: int, x: Startup, s: seq<Startup>)
    requires Descending(order, s)
    requires s == [] || KeyOf(order, x) > KeyOf(order, s[0])
    ensures WithKey(order, k, Insert(order, x, s)) == WithKey(order, k, s) + (if KeyOf(order, x) == k then [x] else [])
  {
    if KeyOf(order, x) == k {
      WithKeyBelow(order, k, s);
    }
    assert Insert(order, x, s) == [x] + s;
    assert ([x] + s)[0] == x && ([x] + s)[1..] == s;
  }

  /** The sort orders its result by descending key. */
  lemma {:induction false} SortDescendingIsDescending(order: SortKey, s: seq<Startup>)
    ensures Descending(order, SortDescending(order, s))
  {
    if s != [] {
      SortDescendingIsDescending(order, s[..|s| - 1]);
      InsertDescending(order, s[|s| - 1], SortDescending(order, s[..|s| - 1]));
    }
  }

  /** The sort keeps listings with equal keys in their input order. */
  lemma {:induction false} SortDescendingKeepsTiesInOrder(order: SortKey, s: seq<Startup>)
    ensures KeepsTiesInOrder(order, s, SortDescending(order, s))
  {
    if s != [] {
      var front, x := s[..|s| - 1], s[|s| - 1];
      SortDescendingKeepsTiesInOrder(order, front);
      SortDescendingIsDescending(order, front);
      assert s == front + [x];
      forall k ensures WithKey(order, k, SortDescending(order, s)) == WithKey(order, k, s) {
        InsertWithKey(order, k, x, SortDescending(order, front));
        WithKeyAppend(order, k, front, x);
      }
    }
  }

  /** A listing with key `k` appears among WithKey(k, s). */
  lemma {:induction false} WithKeyHas(order: SortKey, s: seq<Startup>, i: int)
    requires 0 <= i < |s|
    ensures s[i] in WithKey(order, KeyOf(order, s[i]), s)
  {
    if i > 0 {
      WithKeyHas(order, s[1..], i - 1);
    }
  }

  /** Everything in WithKey(k, s) is a listing of `s` with key `k`. */
  lemma {:induction false} WithKeyMembers(order: SortKey, k: int, s: seq<Startup>, y: Startup)
    requires y in WithKey(order, k, s)
    ensures y in s && KeyOf(order, y) == k
  {
    if s != [] && (y != s[0] || KeyOf(order, s[0]) != k) {
      assert y in WithKey(order, k, s[1..]);
      WithKeyMembers(order, k, s[1..], y);
    }
  }

  /**
   * A stable descending arrangement is unique: two descending sequences
   * with the same listings per key, in the same order, are equal.
   */
  lemma {:induction false} DescendingArrangementUnique(order: SortKey, a: seq<Startup>, b: seq<Startup>)
    requires Descending(order, a) && Descending(order, b)
    requires forall k :: WithKey(order, k, a) == WithKey(order, k, b)
    ensures a == b
    decreases |a| + |b|
  {
    if a == [] {
      if b != [] {
        WithKeyHas(order, b, 0);
      }
    } else if b == [] {
      WithKeyHas(order, a, 0);
    } else {
      HeadsAgree(order, a, b);
      forall k ensures WithKey(order, k, a[1..]) == WithKey(order, k, b[1..]) {
        TailsAgree(order, k, a, b);
      }
      DescendingTail(order, a);
      DescendingTail(order, b);
      DescendingArrangementUnique(order, a[1..], b[1..]);
      assert a == [a[0]] + a[1..] && b == [b[0]] + b[1..];
    }
  }

  /** Two such sequences start with the same listing: the first one with the largest key. */
  lemma HeadsAgree(order: SortKey, a: seq<Startup>, b: seq<Startup>)
    requires Descending(order, a) && Descending(order, b) && a != [] && b != []
    requires forall k :: WithKey(order, k, a) == WithKey(order, k, b)
    ensures a[0] == b[0]
  {
    var ka, kb := KeyOf(order, a[0]), KeyOf(order, b[0]);
    DescendingTail(order, a);
    DescendingTail(order, b);
    WithKeyHas(order, a, 0);
    WithKeyHas(order, b, 0);
    WithKeyMembers(order, ka, b, a[0]);
    WithKeyMembers(order, kb, a, b[0]);
    assert ka == kb;
    assert WithKey(order, ka, a)[0] == a[0];
    assert WithKey(order, kb, b)[0] == b[0];
  }

  /** With equal heads, the tails have the same listings per key. */
  lemma TailsAgree(order: SortKey, k: int, a: seq<Startup>, b: seq<Startup>)
    requires a != [] && b != [] && a[0] == b[0]
    requires WithKey(order, k, a) == WithKey(order, k, b)
    ensures WithKey(order, k, a[1..]) == WithKey(order, k, b[1..])
  {
    var head := if KeyOf(order, a[0]) == k then [a[0]] else [];
    assert WithKey(order, k, a) == head + WithKey(order, k, a[1..]);
    assert WithKey(order, k, b) == head + WithKey(order, k, b[1..]);
    assert (head + WithKey(order, k, a[1..]))[|head|..] == WithKey(order, k, a[1..]);
    assert (head + WithKey(order, k, b[1..]))[|head|..] == WithKey(order, k, b[1..]);
  }

  /** Any stable descending rearrangement of the input is the one SortDescending computes. */
  lemma StableSortIsSortDescending(order: SortKey, input: seq<Startup>, output: seq<Startup>)
    requires Descending(order, output) && KeepsTiesInOrder(order, input, output)
    ensures output == SortDescending(order, input)
  {
    SortDescendingIsDescending(order, input);
    SortDescendingKeepsTiesInOrder(order, input);
    DescendingArrangementUnique(order, output, SortDescending(order, input));
  }

  /** Inserting `x` where the backward scan stops: after the listings with key at least its own. */
  lemma {:induction false} InsertAt(order: SortKey, x: Startup, s: seq<Startup>, j: int)
    requires Descending(order, s)
    requires 0 <= j <= |s|
    requires j > 0 ==> KeyOf(order, s[j - 1]) >= KeyOf(order, x)
    requires forall k :: j <= k < |s| ==> KeyOf(order, s[k]) < KeyOf(order, x)
    ensures Insert(order, x, s) == s[..j] + [x] + s[j..]
  {
    if j == 0 {
      assert s[..0] + [x] + s[0..] == [x] + s;
    } else {
      assert KeyOf(order, s[0]) >= KeyOf(order, s[j - 1]);
      InsertAt(order, x, s[1..], j - 1);
      assert s[..j] + [x] + s[j..] == [s[0]] + (s[1..][..j - 1] + [x] + s[1..][j - 1..]);
    }
  }

  /**
   * One step of the insertion sort: moves `a[i]` left past the listings of
   * the sorted prefix `a[..i]` whose key is below its own.
   */
  method InsertLast(a: array<Startup>, i: int, order: SortKey)
    requires 0 <= i < a.Length
    requires Descending(order, a[..i])
    modifies a
    ensures a[..i + 1] == Insert(order, old(a[i]), old(a[..i]))
    ensures a[i + 1..] == old(a[i + 1..])
  {
    var x := a[i];
    ghost var prefix := a[..i];
    ghost var rest := a[i + 1..];
    assert a[..i + 1] == prefix[..i] + [x] + prefix[i..];
    var j := i;
    while j > 0 && KeyOf(order, a[j - 1]) < KeyOf(order, x)
      invariant 0 <= j <= i
      invariant a[..i + 1] == prefix[..j] + [x] + prefix[j..]
      invariant a[i + 1..] == rest
      invariant forall k :: j <= k < i ==> KeyOf(order, prefix[k]) < KeyOf(order, x)
    {
      ghost var before := a[..i + 1];
      SwapStep(prefix, x, j);
      a[j - 1], a[j] := a[j], a[j - 1];
      assert a[..i + 1] == before[j - 1 := before[j]][j := before[j - 1]];
      j := j - 1;
    }
    assert j > 0 ==> a[j - 1] == prefix[j - 1];
    InsertAt(order, x, prefix, j);
  }

  /** Swapping `x` with its left neighbour moves it one place left. */
  lemma SwapStep(prefix: seq<Startup>, x: Startup, j: int)
    requires 0 < j <= |prefix|
    ensures var s := prefix[..j] + [x] + prefix[j..];
            s[j - 1] == prefix[j - 1] && s[j] == x
            && s[j - 1 := x][j := prefix[j - 1]] == prefix[..j - 1] + [x] + prefix[j - 1..]
  {
    var s := prefix[..j] + [x] + prefix[j..];
    var t := prefix[..j - 1] + [x] + prefix[j - 1..];
    assert |s| == |t|;
    forall k | 0 <= k < |s| ensures s[j - 1 := x][j := prefix[j - 1]][k] == t[k] {
      if k < j - 1 {
        assert s[k] == prefix[k] && t[k] == prefix[k];
      } else if k > j {
        assert s[k] == prefix[k - 1] && t[k] == prefix[k - 1];
      }
    }
  }

  /** Sorting one more listing inserts it into the sorted prefix. */
  lemma SortStep(order: SortKey, input: seq<Startup>, i: int)
    requires 0 <= i < |input|
    ensures SortDescending(order, input[..i + 1]) == Insert(order, input[i], SortDescending(order, input[..i]))
  {
    assert input[..i + 1][..i] == input[..i];
  }

  /** The host's in-place sort, as a stable insertion sort over the array. */
  method SortInPlace(a: array<Startup>, order: SortKey)
    modifies a
    ensures a[..] == SortDescending(order, old(a[..]))
  {
    ghost var input := a[..];
    var i := 0;
    while i < a.Length
      invariant 0 <= i <= a.Length
      invariant a[..i] == SortDescending(order, input[..i])
      invariant a[i..] == input[i..]
    {
      SortDescendingIsDescending(order, input[..i]);
      assert a[i] == input[i];
      ghost var rest := a[i + 1..];
      assert rest == input[i + 1..];
      InsertLast(a, i, order);
      SortStep(order, input, i);
      assert a[..i + 1] == SortDescending(order, input[..i + 1]);
      assert a[i + 1..] == input[i + 1..];
      i := i + 1;
    }
    assert input[..a.Length] == input;
  }

  /**
   * `sortStartups`: a sorted copy for "newest" and "most_viewed", the
   * unchanged copy for any other option; the input is a value and is never
   * changed.
   */
  method SortStartups(startups: seq<Startup>, sortBy: string) returns (sorted: seq<Startup>)
    ensures sortBy == "newest" ==> sorted == SortDescending(Newest, startups)
    ensures sortBy == "most_viewed" ==> sorted == SortDescending(MostViewed, startups)
    ensures sortBy != "newest" && sortBy != "most_viewed" ==> sorted == startups
    ensures multiset(sorted) == multiset(startups)
    ensures sortBy == "newest" ==> Descending(Newest, sorted) && KeepsTiesInOrder(Newest, startups, sorted)
    ensures sortBy == "most_viewed" ==> Descending(MostViewed, sorted) && KeepsTiesInOrder(MostViewed, startups, sorted)
  {
    var copy := new Startup[|startups|](i requires 0 <= i < |startups| => startups[i]);
    assert copy[..] == startups;
    if sortBy == "newest" {
      SortInPlace(copy, Newest);
      SortDescendingPermutation(Newest, startups);
      SortDescendingIsDescending(Newest, startups);
      SortDescendingKeepsTiesInOrder(Newest, startups);
    } else if sortBy == "most_viewed" {
      SortInPlace(copy, MostViewed);
      SortDescendingPermutation(MostViewed, startups);
      SortDescendingIsDescending(MostViewed, startups);
      SortDescendingKeepsTiesInOrder(MostViewed, startups);
    }
    sorted := copy[..];
  }
}
