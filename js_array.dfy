/** The JavaScript array operations the validators rely on:
    `Array.prototype.filter` and `Array.prototype.join`. */
module JsArray {

  /** `xs.filter(keep)`: the elements `keep` accepts, in their original order. */
  function Filter<T>(xs: seq<T>, keep: T -> bool): (r: seq<T>)
    ensures |r| <= |xs|
  {
    if xs == [] then []
    else (if keep(xs[0]) then [xs[0]] else []) + Filter(xs[1..], keep)
  }

  /** Exactly the elements the callback accepts survive filtering. */
  lemma {:induction false} FilterMembers<T>(xs: seq<T>, keep: T -> bool)
    ensures forall x :: x in Filter(xs, keep) <==> x in xs && keep(x)
  {
    if xs != [] {
      FilterMembers(xs[1..], keep);
      assert xs == [xs[0]] + xs[1..];
    }
  }

  /** Filtering distributes over concatenation. */
  lemma {:induction false} FilterAppend<T>(xs: seq<T>, ys: seq<T>, keep: T -> bool)
    ensures Filter(xs + ys, keep) == Filter(xs, keep) + Filter(ys, keep)
  {
    if xs == [] {
      assert xs + ys == ys;
    } else {
      var head := if keep(xs[0]) then [xs[0]] else [];
      assert (xs + ys)[0] == xs[0];
      assert (xs + ys)[1..] == xs[1..] + ys;
      assert Filter(xs + ys, keep) == head + Filter(xs[1..] + ys, keep);
      FilterAppend(xs[1..], ys, keep);
      assert head + (Filter(xs[1..], keep) + Filter(ys, keep)) == (head + Filter(xs[1..], keep)) + Filter(ys, keep);
    }
  }

  /** Elements the callback rejects can be inserted anywhere without
      changing the result. */
  lemma FilterSkipsRejected<T>(before: seq<T>, rejected: seq<T>, after: seq<T>, keep: T -> bool)
    requires forall x :: x in rejected ==> !keep(x)
    ensures Filter(before + rejected + after, keep) == Filter(before + after, keep)
  {
    calc {
      Filter(before + rejected + after, keep);
      { FilterAppend(before + rejected, after, keep); }
      Filter(before + rejected, keep) + Filter(after, keep);
      { FilterAppend(before, rejected, keep); FilterRejectsAll(rejected, keep); }
      Filter(before, keep) + [] + Filter(after, keep);
      { assert Filter(before, keep) + [] == Filter(before, keep); }
      Filter(before, keep) + Filter(after, keep);
      { FilterAppend(before, after, keep); }
      Filter(before + after, keep);
    }
  }

  /** A sequence whose every element is rejected filters to nothing. */
  lemma {:induction false} FilterRejectsAll<T>(xs: seq<T>, keep: T -> bool)
    requires forall x :: x in xs ==> !keep(x)
    ensures Filter(xs, keep) == []
  {
    if xs != [] {
      FilterRejectsAll(xs[1..], keep);
    }
  }

  /** A sequence whose every element is kept passes through unchanged. */
  lemma {:induction false} FilterKeepsAll<T>(xs: seq<T>, keep: T -> bool)
    requires forall x :: x in xs ==> keep(x)
    ensures Filter(xs, keep) == xs
  {
    if xs != [] {
      FilterKeepsAll(xs[1..], keep);
    }
  }

  /** Filtering keeps every copy of an accepted element and no copy of a
      rejected one, so it commutes with reordering its input. */
  lemma {:induction false} FilterCount<T>(xs: seq<T>, keep: T -> bool, x: T)
    ensures multiset(Filter(xs, keep))[x] == if keep(x) then multiset(xs)[x] else 0
  {
    if xs != [] {
      assert xs == [xs[0]] + xs[1..];
      FilterCount(xs[1..], keep, x);
    }
  }

  /** Reordering the input reorders the output the same way: both keep
      the same number of copies of every element. */
  lemma FilterPermutation<T>(xs: seq<T>, ys: seq<T>, keep: T -> bool)
    requires multiset(xs) == multiset(ys)
    ensures forall x :: multiset(Filter(xs, keep))[x] == multiset(Filter(ys, keep))[x]
  {
    forall x ensures multiset(Filter(xs, keep))[x] == multiset(Filter(ys, keep))[x] {
      FilterCount(xs, keep, x);
      FilterCount(ys, keep, x);
    }
  }

  /** `parts.join(sep)`: the parts in order with `sep` between neighbours. */
  function Join(parts: seq<string>, sep: string): (r: string)
    ensures parts == [] ==> r == ""
    ensures |parts| == 1 ==> r == parts[0]
    ensures |parts| > 1 ==> parts[0] + sep <= r
  {
    if |parts| == 0 then ""
    else if |parts| == 1 then parts[0]
    else parts[0] + sep + Join(parts[1..], sep)
  }

  /** Appending a part appends the separator and that part. */
  lemma {:induction false} JoinAppend(parts: seq<string>, part: string, sep: string)
    requires parts != []
    ensures Join(parts + [part], sep) == Join(parts, sep) + sep + part
  {
    var whole := parts + [part];
    assert whole[0] == parts[0] && whole[1..] == parts[1..] + [part];
    if |parts| == 1 {
      assert Join(whole, sep) == parts[0] + sep + Join([part], sep);
    } else {
      JoinAppend(parts[1..], part, sep);
      calc {
        Join(whole, sep);
        parts[0] + sep + Join(parts[1..] + [part], sep);
        parts[0] + sep + (Join(parts[1..], sep) + sep + part);
        (parts[0] + sep + Join(parts[1..], sep)) + sep + part;
      }
    }
  }
}
