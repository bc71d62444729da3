/** Failure-carrying wrappers and the order-preserving sequence helpers
    (`Array.prototype.filter` and `findIndex`) that every parser uses. */
module Common {

  datatype Option<+T> = None | Some(value: T)

  /** Why a parser run stops: JavaScript raises a TypeError when the code reads
      a property of `undefined`, and the whole batch is abandoned. */
  datatype Crash =
    | NoRows      // `dataRows[0].length` on a page without rows
    | NoCell      // `data[0][0].text`, `column[1].match` or `date.split` on a missing cell

  datatype Result<+T> = Ok(value: T) | Failed(crash: Crash)

  /** `s.filter(p)`: the elements that satisfy `p`, in their original order. */
  function Keep<T(==,!new)>(s: seq<T>, p: T -> bool): (r: seq<T>)
    ensures |r| <= |s|
    ensures forall x :: x in r <==> x in s && p(x)
  {
    if s == [] then [] else (if p(s[0]) then [s[0]] else []) + Keep(s[1..], p)
  }

  /** Filtering distributes over concatenation, so order is kept across parts. */
  lemma {:induction false} KeepAppend<T(!new)>(a: seq<T>, b: seq<T>, p: T -> bool)
    ensures Keep(a + b, p) == Keep(a, p) + Keep(b, p)
  {
    if a == [] {
      assert a + b == b;
    } else {
      assert (a + b)[1..] == a[1..] + b;
      KeepAppend(a[1..], b, p);
    }
  }

  /** Filtering a sequence whose every element passes changes nothing. */
  lemma {:induction false} KeepAll<T(!new)>(s: seq<T>, p: T -> bool)
    requires forall x :: x in s ==> p(x)
    ensures Keep(s, p) == s
  {
    if s != [] {
      assert forall x :: x in s[1..] ==> x in s;
      KeepAll(s[1..], p);
    }
  }

  /** `s.findIndex(p)`, with `-1` written as `None`. */
  function IndexWhere<T>(s: seq<T>, p: T -> bool): (r: Option<nat>)
    ensures r.Some? ==> r.value < |s| && p(s[r.value]) && forall k :: 0 <= k < r.value ==> !p(s[k])
    ensures r.None? ==> forall k :: 0 <= k < |s| ==> !p(s[k])
  {
    if s == [] then None
    else if p(s[0]) then Some(0)
    else match IndexWhere(s[1..], p)
      case None => None
      case Some(k) => Some(k + 1)
  }

  /** A prefix of a suffix is a slice. */
  lemma PrefixOfSuffix<T>(s: seq<T>, i: nat, n: nat)
    requires i + n <= |s|
    ensures s[i..][..n] == s[i..i + n]
  {
  }

  /** A suffix cut in three places. */
  lemma SuffixInThree<T>(s: seq<T>, i: nat, p: nat, q: nat)
    requires i <= p <= q <= |s|
    ensures s[i..] == s[i..p] + (s[p..q] + s[q..])
  {
  }

  /** `s.flat()`: the pieces joined in order (`flatMap` is `Flatten` after a map). */
  function Flatten<T>(pieces: seq<seq<T>>): (r: seq<T>)
    ensures pieces == [] ==> r == []
  {
    if pieces == [] then [] else pieces[0] + Flatten(pieces[1..])
  }

  /** `s.map(f)`. */
  function Apply<A, B>(s: seq<A>, f: A -> B): (r: seq<B>)
    ensures |r| == |s| && forall i :: 0 <= i < |s| ==> r[i] == f(s[i])
  {
    seq(|s|, i requires 0 <= i < |s| => f(s[i]))
  }

  /** Mapping distributes over concatenation. */
  lemma ApplyAppend<A, B>(a: seq<A>, b: seq<A>, f: A -> B)
    ensures Apply(a + b, f) == Apply(a, f) + Apply(b, f)
  {
    var ab := a + b;
    assert forall k :: |a| <= k < |ab| ==> ab[k] == b[k - |a|];
  }

  /** Mapping a list whose first two elements are `x` and `y`. */
  lemma ApplyPair<A, B>(x: A, y: A, rest: seq<A>, f: A -> B)
    ensures Apply([x, y] + rest, f) == [f(x), f(y)] + Apply(rest, f)
  {
    ApplyAppend([x, y], rest, f);
    assert Apply([x, y], f) == [f(x), f(y)];
  }

  /** Flattening a list whose head is `x`. */
  lemma FlattenCons<T>(x: seq<T>, xs: seq<seq<T>>)
    ensures Flatten([x] + xs) == x + Flatten(xs)
  {
    assert ([x] + xs)[1..] == xs;
  }

  /** Flattening distributes over concatenation. */
  lemma {:induction false} FlattenAppend<T>(a: seq<seq<T>>, b: seq<seq<T>>)
    ensures Flatten(a + b) == Flatten(a) + Flatten(b)
  {
    if a == [] {
      assert a + b == b;
    } else {
      assert (a + b)[1..] == a[1..] + b;
      FlattenAppend(a[1..], b);
    }
  }

  /** `xs.map(f).filter((e) => e)` where `f` gives an object or `null`: the
      objects, in order. */
  function Present<A, B(==,!new)>(xs: seq<A>, f: A -> Option<B>): (r: seq<B>)
    ensures |r| <= |xs|
    ensures forall y :: y in r <==> exists i :: 0 <= i < |xs| && f(xs[i]) == Some(y)
  {
    if xs == [] then []
    else
      var rest := Present(xs[1..], f);
      assert forall y :: (exists i :: 0 <= i < |xs[1..]| && f(xs[1..][i]) == Some(y)) <==>
        (exists i :: 1 <= i < |xs| && f(xs[i]) == Some(y)) by {
        forall y ensures (exists i :: 0 <= i < |xs[1..]| && f(xs[1..][i]) == Some(y)) <==>
          (exists i :: 1 <= i < |xs| && f(xs[i]) == Some(y)) {
          if exists i :: 1 <= i < |xs| && f(xs[i]) == Some(y) {
            var i :| 1 <= i < |xs| && f(xs[i]) == Some(y);
            assert xs[1..][i - 1] == xs[i];
          }
        }
      }
      (match f(xs[0]) case Some(y) => [y] case None => []) + rest
  }

  /** The objects one element gives: its own, or none for `null`. */
  lemma PresentOne<A, B(!new)>(x: A, f: A -> Option<B>)
    ensures Present([x], f) == if f(x).Some? then [f(x).value] else []
  {
    assert [x][1..] == [];
  }

  /** Dropping the `null`s distributes over concatenation, so the objects
      keep the order of the elements that give them, repeats included. */
  lemma {:induction false} PresentAppend<A, B(!new)>(xs: seq<A>, ys: seq<A>, f: A -> Option<B>)
    ensures Present(xs + ys, f) == Present(xs, f) + Present(ys, f)
  {
    if xs == [] {
      assert xs + ys == ys;
    } else {
      assert (xs + ys)[1..] == xs[1..] + ys;
      assert (xs + ys)[0] == xs[0];
      PresentAppend(xs[1..], ys, f);
    }
  }

  /** `s.map(f)` where `f` may raise: the first failure in order stops the whole map. */
  function MapResult<A, B>(s: seq<A>, f: A -> Result<B>): (r: Result<seq<B>>)
    ensures r.Ok? ==> |r.value| == |s| && forall i :: 0 <= i < |s| ==> f(s[i]) == Ok(r.value[i])
    ensures r.Failed? ==> exists i :: 0 <= i < |s| && f(s[i]) == Failed(r.crash) && forall j :: 0 <= j < i ==> f(s[j]).Ok?
  {
    if s == [] then Ok([])
    else match f(s[0])
      case Failed(c) => Failed(c)
      case Ok(x) =>
        match MapResult(s[1..], f)
        case Failed(c) => Failed(c)
        case Ok(xs) => Ok([x] + xs)
  }

  /** Flattening pieces of one element each lists those elements in order. */
  lemma {:induction false} FlattenSingletons<T>(pieces: seq<seq<T>>)
    requires forall k :: 0 <= k < |pieces| ==> |pieces[k]| == 1
    ensures |Flatten(pieces)| == |pieces|
    ensures forall k :: 0 <= k < |pieces| ==> Flatten(pieces)[k] == pieces[k][0]
  {
    if pieces != [] {
      FlattenSingletons(pieces[1..]);
      assert pieces[0] == [pieces[0][0]];
    }
  }

  /** An element of the flattened list comes from one of the pieces. */
  lemma {:induction false} FlattenMember<T>(pieces: seq<seq<T>>, x: T)
    requires x in Flatten(pieces)
    ensures exists i :: 0 <= i < |pieces| && x in pieces[i]
  {
    if x !in pieces[0] {
      FlattenMember(pieces[1..], x);
      var i :| 0 <= i < |pieces[1..]| && x in pieces[1..][i];
      assert x in pieces[i + 1];
    }
  }

  /** Putting an even and an odd element in front of a list that alternates
      between the two kinds keeps it alternating. */
  lemma AlternatesPrepend<T>(x: T, y: T, rest: seq<T>, r: seq<T>, even: T -> bool, odd: T -> bool)
    requires r == [x, y] + rest
    requires even(x) && odd(y) && |rest| % 2 == 1
    requires forall k :: 0 <= k < |rest| && k % 2 == 0 ==> even(rest[k])
    requires forall k :: 0 <= k < |rest| && k % 2 == 1 ==> odd(rest[k])
    ensures |r| % 2 == 1
    ensures forall k :: 0 <= k < |r| && k % 2 == 0 ==> even(r[k])
    ensures forall k :: 0 <= k < |r| && k % 2 == 1 ==> odd(r[k])
  {
    forall k | 2 <= k < |r| ensures r[k] == rest[k - 2] && (k % 2 == 0 <==> (k - 2) % 2 == 0) { }
  }
}
