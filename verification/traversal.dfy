/**
  The whole-vector traversals of `fvec.h`: `fvec_clear`, `fvec_map`,
  `fvec_filter` and `fvec_fold`. The C callbacks become pure functions of
  one element (and, for the fold, of the accumulator).
 */
module Traversal {
  import opened Record
  import opened FVec

  /** The elements of s that keep accepts, in their order in s. */
  function Kept<T>(s: seq<T>, keep: T -> bool): (r: seq<T>)
    ensures |r| <= |s|
  {
    if s == [] then [] else KeptHead(s[0], keep) + Kept(s[1..], keep)
  }

  /** The selection from a single element. */
  function KeptHead<T>(x: T, keep: T -> bool): seq<T> {
    if keep(x) then [x] else []
  }

  /** An element is selected exactly when it occurs in s and keep accepts
      it. */
  lemma {:induction false} KeptMembers<T>(s: seq<T>, keep: T -> bool)
    ensures forall x :: x in Kept(s, keep) <==> x in s && keep(x)
    decreases |s|
  {
    if s != [] {
      KeptMembers(s[1..], keep);
      assert s == [s[0]] + s[1..];
    }
  }

  /** Selecting from a concatenation selects from each part in turn. */
  lemma {:induction false} KeptAppend<T>(a: seq<T>, b: seq<T>, keep: T -> bool)
    ensures Kept(a + b, keep) == Kept(a, keep) + Kept(b, keep)
    decreases |a|
  {
    if a == [] {
      assert a + b == b;
    } else {
      var h := KeptHead(a[0], keep);
      assert (a + b)[0] == a[0] && (a + b)[1..] == a[1..] + b;
      assert Kept(a + b, keep) == h + Kept(a[1..] + b, keep);
      KeptAppend(a[1..], b, keep);
      ConcatAssociates(h, Kept(a[1..], keep), Kept(b, keep));
    }
  }

  /** Extending the prefix s[..i] by s[i] extends its selection by s[i]
      when keep accepts it, and no prefix selects more than all of s. */
  lemma {:induction false} KeptStep<T>(s: seq<T>, i: nat, keep: T -> bool)
    requires i < |s|
    ensures keep(s[i]) ==> Kept(s[..i + 1], keep) == Kept(s[..i], keep) + [s[i]]
    ensures !keep(s[i]) ==> Kept(s[..i + 1], keep) == Kept(s[..i], keep)
    ensures |Kept(s[..i + 1], keep)| <= |Kept(s, keep)|
  {
    assert s[..i + 1] == s[..i] + [s[i]];
    KeptAppend(s[..i], [s[i]], keep);
    assert [s[i]][1..] == [];
    assert Kept([s[i]], keep) == KeptHead(s[i], keep);
    if !keep(s[i]) {
      assert Kept(s[..i], keep) + [] == Kept(s[..i], keep);
    }
    assert s == s[..i + 1] + s[i + 1..];
    KeptAppend(s[..i + 1], s[i + 1..], keep);
  }

  /** The fold `fvec_fold` computes: binop is applied to the elements from
      the first to the last, each time with the running result. */
  function FoldLeft<T, A>(binop: (T, A) -> A, acc: A, s: seq<T>): A
    decreases |s|
  {
    if s == [] then acc else FoldLeft(binop, binop(s[0], acc), s[1..])
  }

  /** One more element at the end is one more application of binop. */
  lemma {:induction false} FoldLeftSnoc<T, A>(binop: (T, A) -> A, acc: A, s: seq<T>, x: T)
    ensures FoldLeft(binop, acc, s + [x]) == binop(x, FoldLeft(binop, acc, s))
    decreases |s|
  {
    if s != [] {
      assert (s + [x])[1..] == s[1..] + [x];
      FoldLeftSnoc(binop, binop(s[0], acc), s[1..], x);
    }
  }

  /** Folding "append the element to the accumulator" from the empty
      sequence rebuilds the elements in their order: the fold runs from the
      first element to the last. */
  lemma {:induction false} FoldRunsFirstToLast<T>(s: seq<T>, acc: seq<T>)
    ensures FoldLeft((x: T, a: seq<T>) => a + [x], acc, s) == acc + s
    decreases |s|
  {
    if s != [] {
      FoldRunsFirstToLast(s[1..], acc + [s[0]]);
      assert acc + [s[0]] + s[1..] == acc + s;
    }
  }

  /** `fvec_clear`: every live element becomes the default value; nothing
      else in the record changes. */
  method Clear<T>(v: Vec<T>, default: T) returns (r: Vec<T>)
    requires Consistent(v)
    ensures r == v.(items := r.items) && |r.items| == v.length
    ensures forall i :: 0 <= i < v.length ==> r.items[i] == default
  {
    var items := v.items;
    var i := 0;
    while i < v.length
      invariant 0 <= i <= v.length && |items| == v.length
      invariant forall j :: 0 <= j < i ==> items[j] == default
    {
      items := items[i := default];
      i := i + 1;
    }
    r := v.(items := items);
  }

  /** `fvec_map`: element i is replaced by f of element i, for every i
      below the length; nothing else in the record changes. */
  method Map<T>(v: Vec<T>, f: T -> T) returns (r: Vec<T>)
    requires Consistent(v)
    ensures r == v.(items := r.items) && |r.items| == v.length
    ensures forall i :: 0 <= i < v.length ==> r.items[i] == f(v.items[i])
  {
    var items := v.items;
    var i := 0;
    while i < v.length
      invariant 0 <= i <= v.length && |items| == v.length
      invariant forall j :: 0 <= j < i ==> items[j] == f(v.items[j])
      invariant forall j :: i <= j < v.length ==> items[j] == v.items[j]
    {
      items := items[i := f(items[i])];
      i := i + 1;
    }
    r := v.(items := items);
  }

  /** `fvec_fold`: the accumulator starts at base and each element in turn
      is combined into it. */
  method Fold<T, A>(v: Vec<T>, base: A, binop: (T, A) -> A) returns (acc: A)
    requires Consistent(v)
    ensures acc == FoldLeft(binop, base, v.items)
  {
    acc := base;
    var i := 0;
    while i < v.length
      invariant 0 <= i <= v.length
      invariant acc == FoldLeft(binop, base, v.items[..i])
    {
      FoldLeftSnoc(binop, base, v.items[..i], v.items[i]);
      assert v.items[..i + 1] == v.items[..i] + [v.items[i]];
      acc := binop(v.items[i], acc);
      i := i + 1;
    }
    assert v.items[..v.length] == v.items;
  }

  /** `fvec_filter`: the elements of src that keep accepts are pushed onto
      dest one by one, in src order. Differing element sizes fail the
      assertion before anything is pushed. Pushing may have to grow dest, so
      when the sizes agree dest must have room for every element that will
      be pushed. */
  method Filter<T>(src: Vec<T>, dest: Vec<T>, keep: T -> bool) returns (r: Result<Vec<T>>)
    requires Consistent(src) && Consistent(dest)
    requires src.elementSize == dest.elementSize ==> RoomFor(dest, |Kept(src.items, keep)|)
    ensures src.elementSize != dest.elementSize ==> r == Failure(ElementSizeMismatch)
    ensures src.elementSize == dest.elementSize ==> r == Success(PushAll(dest, Kept(src.items, keep)))
    ensures r.Success? ==> r.value.items == dest.items + Kept(src.items, keep)
  {
    if src.elementSize != dest.elementSize {
      return Failure(ElementSizeMismatch);
    }
    var d := PushKept(src, dest, keep);
    r := Success(d);
  }

  /** The loop of `fvec_filter`: walk src from the front, pushing each
      element keep accepts onto the destination. */
  method PushKept<T>(src: Vec<T>, dest: Vec<T>, keep: T -> bool) returns (d: Vec<T>)
    requires Consistent(src) && Consistent(dest)
    requires RoomFor(dest, |Kept(src.items, keep)|)
    ensures d == PushAll(dest, Kept(src.items, keep))
  {
    d := dest;
    var s := src.items;
    FilterStarts(s, dest, keep);
    var i := 0;
    while i < src.length
      invariant 0 <= i <= |s|
      invariant FilteredUpTo(s, dest, keep, i, d)
    {
      d := FilterTurn(s, dest, keep, i, d);
      i := i + 1;
    }
    FilterEnds(s, dest, keep, d);
  }

  /** The filter loop's bookkeeping after i elements of s: d is dest with
      the accepted ones among them pushed. */
  ghost predicate FilteredUpTo<T>(s: seq<T>, dest: Vec<T>, keep: T -> bool, i: nat, d: Vec<T>)
    requires i <= |s|
  {
    PushedOnto(dest, Kept(s[..i], keep), d)
  }

  /** Before the first turn nothing has been pushed. */
  lemma {:induction false} FilterStarts<T>(s: seq<T>, dest: Vec<T>, keep: T -> bool)
    requires Consistent(dest)
    ensures FilteredUpTo(s, dest, keep, 0, dest)
  {
    assert s[..0] == [];
    assert dest.items + [] == dest.items;
  }

  /** After the last turn every accepted element has been pushed. */
  lemma {:induction false} FilterEnds<T>(s: seq<T>, dest: Vec<T>, keep: T -> bool, d: Vec<T>)
    requires Consistent(dest) && RoomFor(dest, |Kept(s, keep)|)
    requires FilteredUpTo(s, dest, keep, |s|, d)
    ensures d == PushAll(dest, Kept(s, keep))
  {
    assert s[..|s|] == s;
    PushedOntoIsPushAll(dest, Kept(s, keep), d);
  }

  /** The body of the filter loop: push s[i] if keep accepts it. */
  method FilterTurn<T>(s: seq<T>, dest: Vec<T>, keep: T -> bool, i: nat, d: Vec<T>) returns (e: Vec<T>)
    requires Consistent(dest) && i < |s|
    requires RoomFor(dest, |Kept(s, keep)|)
    requires FilteredUpTo(s, dest, keep, i, d)
    ensures FilteredUpTo(s, dest, keep, i + 1, e)
  {
    KeptStep(s, i, keep);
    if keep(s[i]) {
      var sofar := Kept(s[..i], keep);
      RoomForFewer(dest, |sofar| + 1, |Kept(s, keep)|);
      PushExtends(dest, sofar, d, s[i]);
      e := Push(d, s[i]).vec;
    } else {
      e := d;
    }
  }
}
