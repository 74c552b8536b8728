/** Foundation's `NSRange` and the orderings of range lists the engine relies on. */
module Ranges {

  /** A half-open span `[location, location + length)` of text units. Both fields
      are signed, as `NSRange(location:length:)` accepts any `Int`. */
  datatype NSRange = NSRange(location: int, length: int)

  function End(r: NSRange): int
  {
    r.location + r.length
  }

  /** `r` lies inside a text of `n` units: what `NSRegularExpression.matches(in:range:)`
      accepts without raising. */
  predicate Within(r: NSRange, n: int)
  {
    0 <= r.location && 0 <= r.length && End(r) <= n
  }

  /** `r` can be cut out of a text of `n` units and its first unit read: what
      `attributedSubstring(from:)` followed by `attribute(_:at: 0)` accept. */
  predicate Addressable(r: NSRange, n: int)
  {
    0 <= r.location && 1 <= r.length && End(r) <= n
  }

  /** Every range of `rs` is non-empty. */
  predicate NonEmpty(rs: seq<NSRange>)
  {
    forall r | r in rs :: 1 <= r.length
  }

  /** The ranges of `rs` lie inside `[lo, hi)`, left to right, each starting at or
      after the end of the one before it (they never overlap). */
  predicate Ordered(rs: seq<NSRange>, lo: int, hi: int)
    decreases |rs|
  {
    rs == [] ||
    (lo <= rs[0].location && 0 <= rs[0].length && End(rs[0]) <= hi &&
     Ordered(rs[1..], End(rs[0]), hi))
  }

  /** `sub` is `s` with some elements dropped, the rest kept in order. */
  predicate Subsequence<T(==)>(sub: seq<T>, s: seq<T>)
    decreases |s|
  {
    if sub == [] then true
    else if s == [] then false
    else (sub[0] == s[0] && Subsequence(sub[1..], s[1..])) || Subsequence(sub, s[1..])
  }

  /** What `Ordered` means range by range: every range lies inside `[lo, hi)` and
      a range ends no later than any range after it begins. */
  lemma {:induction false} OrderedPairwise(rs: seq<NSRange>, lo: int, hi: int)
    requires Ordered(rs, lo, hi)
    ensures forall i :: 0 <= i < |rs| ==> lo <= rs[i].location && 0 <= rs[i].length && End(rs[i]) <= hi
    ensures forall i, j :: 0 <= i < j < |rs| ==> End(rs[i]) <= rs[j].location
    decreases |rs|
  {
    if rs != [] {
      OrderedPairwise(rs[1..], End(rs[0]), hi);
      assert forall i :: 1 <= i < |rs| ==> rs[i] == rs[1..][i - 1];
    }
  }

  lemma OrderedFrom(rs: seq<NSRange>, lo: int, lo': int, hi: int)
    requires Ordered(rs, lo', hi) && lo <= lo'
    ensures Ordered(rs, lo, hi)
  {
  }

  /** Widening the bounds keeps a list ordered. */
  lemma {:induction false} OrderedWiden(rs: seq<NSRange>, lo: int, hi: int, lo': int, hi': int)
    requires Ordered(rs, lo', hi') && lo <= lo' && hi' <= hi
    ensures Ordered(rs, lo, hi)
    decreases |rs|
  {
    if rs != [] {
      OrderedWiden(rs[1..], End(rs[0]), hi, End(rs[0]), hi');
    }
  }

  /** With a non-negative start, an ordered list only holds ranges inside `[0, hi)`. */
  lemma {:induction false} OrderedWithin(rs: seq<NSRange>, lo: int, hi: int)
    requires Ordered(rs, lo, hi) && 0 <= lo
    ensures forall r | r in rs :: Within(r, hi)
    decreases |rs|
  {
    if rs != [] {
      OrderedWithin(rs[1..], End(rs[0]), hi);
      assert forall r | r in rs :: r == rs[0] || r in rs[1..];
    }
  }

  /** Two ordered lists, the second starting where the first's bound ends, concatenate
      to an ordered list. */
  lemma {:induction false} OrderedConcat(a: seq<NSRange>, b: seq<NSRange>, lo: int, mid: int, hi: int)
    requires lo <= mid <= hi
    requires Ordered(a, lo, mid) && Ordered(b, mid, hi)
    ensures Ordered(a + b, lo, hi)
    decreases |a|
  {
    if a == [] {
      EmptyPrefix(b);
      OrderedFrom(b, lo, mid, hi);
    } else {
      assert End(a[0]) <= mid && Ordered(a[1..], End(a[0]), mid);
      OrderedConcat(a[1..], b, End(a[0]), mid, hi);
      ConsOrdered(a[0], a[1..] + b, lo, hi);
      HeadTail(a, b);
    }
  }

  /** A range in front of ordered ranges that start after it. */
  lemma ConsOrdered(first: NSRange, rest: seq<NSRange>, lo: int, hi: int)
    requires lo <= first.location && 0 <= first.length && End(first) <= hi
    requires Ordered(rest, End(first), hi)
    ensures Ordered([first] + rest, lo, hi)
  {
    assert ([first] + rest)[1..] == rest;
  }

  /** Dropping ranges from an ordered list leaves it ordered. */
  lemma {:induction false} SubsequenceOrdered(sub: seq<NSRange>, s: seq<NSRange>, lo: int, hi: int)
    requires Subsequence(sub, s) && Ordered(s, lo, hi)
    ensures Ordered(sub, lo, hi)
    decreases |s|
  {
    if sub != [] {
      if sub[0] == s[0] && Subsequence(sub[1..], s[1..]) {
        SubsequenceOrdered(sub[1..], s[1..], End(s[0]), hi);
      } else {
        SubsequenceOrdered(sub, s[1..], End(s[0]), hi);
        OrderedFrom(sub, lo, End(s[0]), hi);
      }
    }
  }

  /** Dropping elements keeps only elements that were there. */
  lemma {:induction false} SubsequenceMembers<T>(sub: seq<T>, s: seq<T>)
    requires Subsequence(sub, s)
    ensures forall x | x in sub :: x in s
    decreases |s|
  {
    if sub != [] {
      if sub[0] == s[0] && Subsequence(sub[1..], s[1..]) {
        SubsequenceMembers(sub[1..], s[1..]);
        assert forall x | x in sub :: x == sub[0] || x in sub[1..];
      } else {
        SubsequenceMembers(sub, s[1..]);
      }
    }
  }

  lemma SliceSplit<T>(s: seq<T>, i: int, j: int, k: int)
    requires 0 <= i <= j <= k <= |s|
    ensures s[i..k] == s[i..j] + s[j..k]
  {
  }

  lemma EmptyPrefix<T>(s: seq<T>)
    ensures [] + s == s
  {
  }

  lemma EmptySuffix<T>(s: seq<T>)
    ensures s + [] == s
  {
  }

  lemma SingletonTail<T>(x: T)
    ensures [x][1..] == []
  {
  }

  lemma HeadTail<T>(a: seq<T>, b: seq<T>)
    requires a != []
    ensures a + b == [a[0]] + (a[1..] + b)
  {
    assert a == [a[0]] + a[1..];
    ConcatAssoc([a[0]], a[1..], b);
  }

  lemma ConcatAssoc<T>(a: seq<T>, b: seq<T>, c: seq<T>)
    ensures (a + b) + c == a + (b + c)
  {
  }
}
