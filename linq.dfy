/**
 * The query operators the repository composes (Where, Any, FirstOrDefault,
 * SingleOrDefault, Skip, Take, Select, OrderBy), as functions over the
 * sequence of rows a query would return. Each is specified by what it means
 * for its input, independently of how it is computed.
 */
module Linq {
  import opened Wrappers

  /** The error SingleOrDefault raises when two or more elements match. */
  datatype QueryError = MoreThanOneMatch

  function Min(a: int, b: int): int { if a <= b then a else b }
  function Max(a: int, b: int): int { if a <= b then b else a }

  // ---------------------------------------------------------------- Where

  /** Where: the elements of s satisfying p, in their order in s. */
  function Where<T(==,!new)>(s: seq<T>, p: T -> bool): (r: seq<T>)
    ensures |r| <= |s|
    ensures forall x :: x in r <==> x in s && p(x)
    ensures multiset(r) <= multiset(s)
  {
    if s == [] then []
    else
      assert s == [s[0]] + s[1..];
      if p(s[0]) then [s[0]] + Where(s[1..], p) else Where(s[1..], p)
  }

  /** An absent filter (null in the source) keeps every element. */
  predicate Satisfies<T>(filter: Option<T -> bool>, x: T) {
    filter.None? || filter.value(x)
  }

  /** `if (filter != null) query = query.Where(filter)`. */
  function Filtered<T(==,!new)>(s: seq<T>, filter: Option<T -> bool>): (r: seq<T>)
    ensures forall x :: x in r <==> x in s && Satisfies(filter, x)
    ensures multiset(r) <= multiset(s)
    ensures filter.None? ==> r == s
  {
    match filter
    case None => s
    case Some(p) => Where(s, p)
  }

  /** Where works piecewise: filtering a concatenation concatenates the filtered parts, so kept elements stay in input order. */
  lemma {:induction false} WhereAppend<T(!new)>(a: seq<T>, b: seq<T>, p: T -> bool)
    ensures Where(a + b, p) == Where(a, p) + Where(b, p)
  {
    if a == [] {
      assert a + b == b;
    } else {
      assert (a + b)[0] == a[0] && (a + b)[1..] == a[1..] + b;
      WhereAppend(a[1..], b, p);
      WhereStep(a + b, p);
      WhereStep(a, p);
      if p(a[0]) {
        SeqAppendAssoc([a[0]], Where(a[1..], p), Where(b, p));
      }
    }
  }

  /** Where keeps every occurrence of an element it accepts and none of one it rejects. */
  lemma {:induction false} WhereCount<T(!new)>(s: seq<T>, p: T -> bool, x: T)
    ensures multiset(Where(s, p))[x] == if p(x) then multiset(s)[x] else 0
  {
    if s != [] {
      var w := Where(s[1..], p);
      WhereCount(s[1..], p, x);
      WhereStep(s, p);
      if p(s[0]) {
        assert multiset(Where(s, p)) == multiset{s[0]} + multiset(w);
      }
      assert s == [s[0]] + s[1..];
      assert multiset(s) == multiset{s[0]} + multiset(s[1..]);
    }
  }

  /** A filter that every element passes removes nothing. */
  lemma {:induction false} WhereKeepsAll<T(!new)>(s: seq<T>, p: T -> bool)
    requires forall i :: 0 <= i < |s| ==> p(s[i])
    ensures Where(s, p) == s
  {
    if s != [] {
      WhereKeepsAll(s[1..], p);
    }
  }

  /** One step of Where: a kept head stays in front, a rejected head is dropped. */
  lemma WhereStep<T(!new)>(s: seq<T>, p: T -> bool)
    requires s != []
    ensures p(s[0]) ==> Where(s, p) == [s[0]] + Where(s[1..], p)
    ensures !p(s[0]) ==> Where(s, p) == Where(s[1..], p)
  {
  }

  /** A filter that rejects exactly the element at index i removes exactly that one. */
  lemma {:induction false} WhereDropsOne<T(!new)>(s: seq<T>, p: T -> bool, i: int)
    requires 0 <= i < |s| && !p(s[i])
    requires forall j :: 0 <= j < |s| && j != i ==> p(s[j])
    ensures Where(s, p) == s[..i] + s[i + 1..]
  {
    var tail := s[1..];
    assert forall j :: 0 <= j < |tail| ==> tail[j] == s[j + 1];
    if i == 0 {
      WhereKeepsAll(tail, p);
      WhereStep(s, p);
    } else {
      WhereDropsOne(tail, p, i - 1);
      WhereDropsLater(s, p, i);
    }
  }

  /** The step of WhereDropsOne for an index past the (kept) head. */
  lemma WhereDropsLater<T(!new)>(s: seq<T>, p: T -> bool, i: int)
    requires 0 < i < |s| && p(s[0])
    requires Where(s[1..], p) == s[1..][..i - 1] + s[1..][i..]
    ensures Where(s, p) == s[..i] + s[i + 1..]
  {
    WhereStep(s, p);
    DropAfterHead(s, i);
  }

  /** Dropping index i of s is keeping its head and dropping index i - 1 of its tail. */
  lemma DropAfterHead<T>(s: seq<T>, i: int)
    requires 0 < i < |s|
    ensures [s[0]] + (s[1..][..i - 1] + s[1..][i..]) == s[..i] + s[i + 1..]
  {
    assert s[1..][..i - 1] == s[1..i] && s[1..][i..] == s[i + 1..];
    calc {
      [s[0]] + (s[1..i] + s[i + 1..]);
      { SeqAppendAssoc([s[0]], s[1..i], s[i + 1..]); }
      ([s[0]] + s[1..i]) + s[i + 1..];
      { assert s[..i] == [s[0]] + s[1..i]; }
      s[..i] + s[i + 1..];
    }
  }

  lemma SeqAppendAssoc<T>(a: seq<T>, b: seq<T>, c: seq<T>)
    ensures a + (b + c) == (a + b) + c
  {
  }

  // ---------------------------------------------------------------- Any

  /** Any: some element satisfies p. */
  function Any<T>(s: seq<T>, p: T -> bool): (r: bool)
    ensures r <==> exists i :: 0 <= i < |s| && p(s[i])
  {
    if s == [] then false
    else if p(s[0]) then true
    else
      var rest := Any(s[1..], p);
      assert rest <==> exists i :: 1 <= i < |s| && p(s[i]) by {
        if rest {
          var k :| 0 <= k < |s[1..]| && p(s[1..][k]);
          assert p(s[k + 1]);
        }
      }
      rest
  }

  // ---------------------------------------------------------------- FirstOrDefault / SingleOrDefault

  /** FirstOrDefault(p): the first element satisfying p, or none; never fails. */
  function First<T>(s: seq<T>, p: T -> bool): (r: Option<T>)
    ensures r.None? <==> forall i :: 0 <= i < |s| ==> !p(s[i])
    ensures r.Some? ==> exists i :: 0 <= i < |s| && s[i] == r.value && p(s[i]) &&
                                    forall j :: 0 <= j < i ==> !p(s[j])
  {
    if s == [] then None
    else if p(s[0]) then Some(s[0])
    else
      var rest := First(s[1..], p);
      assert rest.None? ==> forall i :: 0 <= i < |s| ==> !p(s[i]) by {
        if rest.None? {
          forall i | 0 <= i < |s| ensures !p(s[i]) {
            if i > 0 { assert s[i] == s[1..][i - 1]; }
          }
        }
      }
      assert rest.Some? ==> exists i :: 0 <= i < |s| && s[i] == rest.value && p(s[i]) &&
                                        forall j :: 0 <= j < i ==> !p(s[j]) by {
        if rest.Some? {
          var k :| 0 <= k < |s[1..]| && s[1..][k] == rest.value && p(s[1..][k]) &&
                   forall j :: 0 <= j < k ==> !p(s[1..][j]);
          forall j | 0 <= j < k + 1 ensures !p(s[j]) {
            if j > 0 { assert s[j] == s[1..][j - 1]; }
          }
        }
      }
      rest
  }

  /** Two distinct positions of s hold elements satisfying p. */
  ghost predicate TwoMatches<T>(s: seq<T>, p: T -> bool) {
    exists i, j :: 0 <= i < j < |s| && p(s[i]) && p(s[j])
  }

  /**
   * SingleOrDefault(p): none when nothing matches, the one match when exactly
   * one element matches, and a failure when two or more match.
   */
  function Single<T(==)>(s: seq<T>, p: T -> bool): (r: Result<Option<T>, QueryError>)
    ensures r.Failure? <==> TwoMatches(s, p)
    ensures r.Success? && r.value.None? <==> forall i :: 0 <= i < |s| ==> !p(s[i])
    ensures r.Success? && r.value.Some? ==>
              exists i :: 0 <= i < |s| && s[i] == r.value.value && p(s[i]) &&
                          forall j :: 0 <= j < |s| && j != i ==> !p(s[j])
  {
    if s == [] then Success(None)
    else
      var rest := Single(s[1..], p);
      ShiftTwoMatches(s, p);
      if !p(s[0]) then
        NoMatchShift(s, p, rest);
        UniqueMatchShift(s, p, rest);
        rest
      else if rest.Failure? then Failure(MoreThanOneMatch)
      else if rest.value.None? then
        assert forall j :: 0 <= j < |s| && j != 0 ==> !p(s[j]) by {
          forall j | 0 <= j < |s| && j != 0 ensures !p(s[j]) { assert s[j] == s[1..][j - 1]; }
        }
        Success(Some(s[0]))
      else
        var k :| 0 <= k < |s[1..]| && s[1..][k] == rest.value.value && p(s[1..][k]);
        assert p(s[k + 1]);
        Failure(MoreThanOneMatch)
  }

  /** Two matches in s are two in its tail, or its head and one in the tail. */
  lemma ShiftTwoMatches<T>(s: seq<T>, p: T -> bool)
    requires s != []
    ensures TwoMatches(s, p) <==>
              TwoMatches(s[1..], p) || (p(s[0]) && exists i :: 0 <= i < |s[1..]| && p(s[1..][i]))
  {
    if TwoMatches(s, p) {
      var i, j :| 0 <= i < j < |s| && p(s[i]) && p(s[j]);
      if i > 0 { assert p(s[1..][i - 1]) && p(s[1..][j - 1]); }
      else { assert p(s[1..][j - 1]); }
    }
    if TwoMatches(s[1..], p) {
      var i, j :| 0 <= i < j < |s[1..]| && p(s[1..][i]) && p(s[1..][j]);
      assert p(s[i + 1]) && p(s[j + 1]);
    }
    if p(s[0]) && exists i :: 0 <= i < |s[1..]| && p(s[1..][i]) {
      var i :| 0 <= i < |s[1..]| && p(s[1..][i]);
      assert p(s[i + 1]);
    }
  }

  lemma NoMatchShift<T>(s: seq<T>, p: T -> bool, rest: Result<Option<T>, QueryError>)
    requires s != [] && !p(s[0])
    requires rest.Success? && rest.value.None? <==> forall i :: 0 <= i < |s[1..]| ==> !p(s[1..][i])
    ensures rest.Success? && rest.value.None? <==> forall i :: 0 <= i < |s| ==> !p(s[i])
  {
    if forall i :: 0 <= i < |s[1..]| ==> !p(s[1..][i]) {
      forall i | 0 <= i < |s| ensures !p(s[i]) {
        if i > 0 { assert s[i] == s[1..][i - 1]; }
      }
    }
  }

  lemma UniqueMatchShift<T>(s: seq<T>, p: T -> bool, rest: Result<Option<T>, QueryError>)
    requires s != [] && !p(s[0])
    requires rest.Success? && rest.value.Some? ==>
               exists i :: 0 <= i < |s[1..]| && s[1..][i] == rest.value.value && p(s[1..][i]) &&
                           forall j :: 0 <= j < |s[1..]| && j != i ==> !p(s[1..][j])
    ensures rest.Success? && rest.value.Some? ==>
              exists i :: 0 <= i < |s| && s[i] == rest.value.value && p(s[i]) &&
                          forall j :: 0 <= j < |s| && j != i ==> !p(s[j])
  {
    if rest.Success? && rest.value.Some? {
      var i :| 0 <= i < |s[1..]| && s[1..][i] == rest.value.value && p(s[1..][i]) &&
               forall j :: 0 <= j < |s[1..]| && j != i ==> !p(s[1..][j]);
      forall j | 0 <= j < |s| && j != i + 1 ensures !p(s[j]) {
        if j > 0 { assert s[j] == s[1..][j - 1]; }
      }
    }
  }

  // ---------------------------------------------------------------- Skip / Take / Select

  /** n clipped into 0..hi: how many elements Skip(n) or Take(n) consumes of hi. */
  function Clip(n: int, hi: nat): (r: nat)
    ensures r <= hi
  {
    if n <= 0 then 0 else if n >= hi then hi else n
  }

  /** Skip(n): drops the first n elements; a negative n drops none. */
  function Skip<T>(s: seq<T>, n: int): (r: seq<T>)
    ensures |r| == |s| - Clip(n, |s|)
    ensures forall i :: 0 <= i < |r| ==> r[i] == s[Clip(n, |s|) + i]
  {
    if n <= 0 then s else if n >= |s| then [] else s[n..]
  }

  /** Take(n): keeps the first n elements; a negative n keeps none. */
  function Take<T>(s: seq<T>, n: int): (r: seq<T>)
    ensures |r| == Clip(n, |s|)
    ensures forall i :: 0 <= i < |r| ==> r[i] == s[i]
  {
    if n <= 0 then [] else if n >= |s| then s else s[..n]
  }

  /**
   * Skip(offset).Take(count): the page window. For a non-negative offset and
   * count it holds min(count, max(0, |s| - offset)) elements, starting at s[offset].
   */
  function Window<T>(s: seq<T>, offset: int, count: int): (r: seq<T>)
    requires offset >= 0 && count >= 0
    ensures |r| == Min(count, Max(0, |s| - offset))
    ensures offset >= |s| ==> r == []
    ensures forall i :: 0 <= i < |r| ==> r[i] == s[offset + i]
  {
    Take(Skip(s, offset), count)
  }

  /** A window holds only elements of the sequence it is cut from. */
  lemma WindowMembers<T>(s: seq<T>, offset: int, count: int)
    requires offset >= 0 && count >= 0
    ensures forall x :: x in Window(s, offset, count) ==> x in s
  {
    var r := Window(s, offset, count);
    forall x | x in r ensures x in s {
      var i :| 0 <= i < |r| && r[i] == x;
      assert x == s[offset + i];
    }
  }

  /** Select(f): f applied element by element. */
  function Select<T, U>(s: seq<T>, f: T -> U): (r: seq<U>)
    ensures |r| == |s|
    ensures forall i :: 0 <= i < |s| ==> r[i] == f(s[i])
  {
    seq(|s|, i requires 0 <= i < |s| => f(s[i]))
  }

  // ---------------------------------------------------------------- OrderBy

  /** An ordering, as `le(a, b)`: a may be placed before b. */
  type Ordering<!T> = (T, T) -> bool

  /** le is total and transitive: what OrderBy/ThenBy key comparisons give. */
  ghost predicate TotalPreorder<T(!new)>(le: Ordering<T>) {
    && (forall a, b :: le(a, b) || le(b, a))
    && (forall a, b, c :: le(a, b) && le(b, c) ==> le(a, c))
  }

  /** Every element may be placed before every later one. */
  ghost predicate Sorted<T>(s: seq<T>, le: Ordering<T>) {
    forall i, j :: 0 <= i < j < |s| ==> le(s[i], s[j])
  }

  /** Inserts x before the first element it may precede. */
  function Insert<T(==)>(x: T, s: seq<T>, le: Ordering<T>): (r: seq<T>)
    ensures multiset(r) == multiset(s) + multiset{x}
  {
    if s == [] then [x]
    else if le(x, s[0]) then [x] + s
    else
      assert s == [s[0]] + s[1..];
      [s[0]] + Insert(x, s[1..], le)
  }

  lemma {:induction false} InsertSorted<T(!new)>(x: T, s: seq<T>, le: Ordering<T>)
    requires TotalPreorder(le) && Sorted(s, le)
    ensures Sorted(Insert(x, s, le), le)
  {
    if s != [] && !le(x, s[0]) {
      var tail := Insert(x, s[1..], le);
      InsertSorted(x, s[1..], le);
      forall k | 0 <= k < |tail| ensures le(s[0], tail[k]) {
        assert tail[k] in multiset(tail);
        if tail[k] != x {
          assert tail[k] in multiset(s[1..]);
          var j :| 0 <= j < |s[1..]| && s[1..][j] == tail[k];
          assert s[j + 1] == tail[k];
        }
      }
      var r := [s[0]] + tail;
      forall i, j | 0 <= i < j < |r| ensures le(r[i], r[j]) {
        if i > 0 { assert r[i] == tail[i - 1] && r[j] == tail[j - 1]; }
        else { assert r[j] == tail[j - 1]; }
      }
    } else if s != [] {
      var r := [x] + s;
      forall i, j | 0 <= i < j < |r| ensures le(r[i], r[j]) {
        if i == 0 && j > 1 { assert le(s[0], s[j - 1]); }
      }
    }
  }

  /**
   * OrderBy(le): an insertion sort; the result is a permutation of s and, for a
   * total preorder, sorted by it.
   */
  function OrderBy<T(==)>(s: seq<T>, le: Ordering<T>): (r: seq<T>)
    ensures multiset(r) == multiset(s)
    ensures |r| == |s|
  {
    if s == [] then []
    else
      assert s == [s[0]] + s[1..];
      var r := Insert(s[0], OrderBy(s[1..], le), le);
      assert |r| == |multiset(r)|;
      r
  }

  lemma {:induction false} OrderBySorted<T(!new)>(s: seq<T>, le: Ordering<T>)
    requires TotalPreorder(le)
    ensures Sorted(OrderBy(s, le), le)
  {
    if s != [] {
      OrderBySorted(s[1..], le);
      InsertSorted(s[0], OrderBy(s[1..], le), le);
    }
  }

  /** A window of a sorted sequence is sorted. */
  lemma WindowSorted<T>(s: seq<T>, offset: int, count: int, le: Ordering<T>)
    requires offset >= 0 && count >= 0 && Sorted(s, le)
    ensures Sorted(Window(s, offset, count), le)
  {
    var r := Window(s, offset, count);
    forall i, j | 0 <= i < j < |r| ensures le(r[i], r[j]) {
      assert r[i] == s[offset + i] && r[j] == s[offset + j];
    }
  }
}
