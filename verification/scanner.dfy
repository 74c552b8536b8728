/** `getMatches(excludingRanges:)` (NSAttributedString+Emojis.swift, lines 41-55):
    scan regions built from the gaps between excluded ranges, and every
    non-overlapping match of `:(\w|-|\+)+:` inside each region.

    The regular expression is modelled as the leftmost, greedy, non-overlapping
    scan it performs. `\w` is a parameter `word`; ':' is never a token character
    (it is not in `\w`), so the token starting at a colon is unique. */
module Scanner {
  import opened Wrappers
  import opened Ranges
  import opened Catalog
  import opened Attributed

  /** A unit the group `(\w|-|\+)` accepts. An attachment never is. */
  predicate TokenChar(word: char -> bool, u: Unit)
  {
    u.Ch? && u.c != ':' && (word(u.c) || u.c == '-' || u.c == '+')
  }

  predicate IsColon(u: Unit)
  {
    u.Ch? && u.c == ':'
  }

  /** `s` as a whole matches `:(\w|-|\+)+:`. */
  predicate TokenText(word: char -> bool, s: seq<Unit>)
  {
    |s| >= 3 && IsColon(s[0]) && IsColon(s[|s| - 1]) &&
    forall k :: 0 < k < |s| - 1 ==> TokenChar(word, s[k])
  }

  /** The units `r` covers in `t` form a token. */
  predicate IsToken(word: char -> bool, t: seq<Unit>, r: NSRange)
  {
    Within(r, |t|) && TokenText(word, t[r.location..End(r)])
  }

  predicate AllTokens(word: char -> bool, t: seq<Unit>, rs: seq<NSRange>)
  {
    forall r | r in rs :: IsToken(word, t, r)
  }

  /** Position `p` lies inside one of the ranges of `ms`. */
  predicate StartsInside(p: int, ms: seq<NSRange>)
  {
    exists i :: 0 <= i < |ms| && ms[i].location <= p < End(ms[i])
  }

  /** The end of the longest run of token characters starting at `i`, not past `hi`:
      what the greedy `(\w|-|\+)+` consumes. */
  function RunEnd(word: char -> bool, t: seq<Unit>, i: int, hi: int): (j: int)
    requires 0 <= i <= hi <= |t|
    ensures i <= j <= hi
    ensures forall k :: i <= k < j ==> TokenChar(word, t[k])
    ensures j < hi ==> !TokenChar(word, t[j])
    decreases hi - i
  {
    if i < hi && TokenChar(word, t[i]) then RunEnd(word, t, i + 1, hi) else i
  }

  /** A token at `p` ends at the closing colon that follows the longest run of
      token characters after `p`. */
  lemma TokenEndsAfterRun(word: char -> bool, t: seq<Unit>, p: int, hi: int)
    requires 0 <= p < hi <= |t|
    ensures forall tok: NSRange :: tok.location == p && End(tok) <= hi && IsToken(word, t, tok) ==>
              IsColon(t[p]) && RunEnd(word, t, p + 1, hi) == End(tok) - 1 && IsColon(t[End(tok) - 1])
  {
    forall tok: NSRange | tok.location == p && End(tok) <= hi && IsToken(word, t, tok)
      ensures IsColon(t[p]) && RunEnd(word, t, p + 1, hi) == End(tok) - 1 && IsColon(t[End(tok) - 1])
    {
      var s := t[p..End(tok)];
      assert t[p] == s[0] && t[End(tok) - 1] == s[|s| - 1];
      assert forall k :: p < k < End(tok) - 1 ==> TokenChar(word, t[k]) by {
        forall k | p < k < End(tok) - 1 ensures TokenChar(word, t[k]) {
          assert t[k] == s[k - p];
        }
      }
    }
  }

  /** The end of the token starting at `p` and ending by `hi`, if there is one.
      There is at most one: a token never continues past its closing colon. */
  function TokenAt(word: char -> bool, t: seq<Unit>, p: int, hi: int): (e: Option<int>)
    requires 0 <= p < hi <= |t|
    ensures e.Some? ==> p < e.value <= hi && IsToken(word, t, NSRange(p, e.value - p))
    ensures forall tok: NSRange :: tok.location == p && End(tok) <= hi && IsToken(word, t, tok) ==>
              e == Some(End(tok))
  {
    TokenEndsAfterRun(word, t, p, hi);
    if !IsColon(t[p]) then None
    else
      var j := RunEnd(word, t, p + 1, hi);
      if p + 1 < j < hi && IsColon(t[j]) then
        var s := t[p..j + 1];
        assert forall k :: 0 < k < |s| - 1 ==> TokenChar(word, s[k]) by {
          forall k | 0 < k < |s| - 1 ensures TokenChar(word, s[k]) {
            assert s[k] == t[p + k];
          }
        }
        Some(j + 1)
      else
        None
  }

  /** All matches of `:(\w|-|\+)+:` inside `[lo, hi)`, scanning leftmost first and
      resuming after each match: ordered, non-overlapping tokens inside the region. */
  function Scan(word: char -> bool, t: seq<Unit>, lo: int, hi: int): (ms: seq<NSRange>)
    requires 0 <= lo <= hi <= |t|
    ensures Ordered(ms, lo, hi)
    ensures AllTokens(word, t, ms)
    decreases hi - lo
  {
    if lo == hi then []
    else
      match TokenAt(word, t, lo, hi)
      case Some(e) =>
        var rest := Scan(word, t, e, hi);
        assert ([NSRange(lo, e - lo)] + rest)[1..] == rest;
        [NSRange(lo, e - lo)] + rest
      case None =>
        Scan(word, t, lo + 1, hi)
  }

  /** The scan misses no token: every token inside the region starts inside a match
      (inside the match itself, or on the closing colon of the match before it). */
  lemma {:induction false} ScanFindsEveryToken(word: char -> bool, t: seq<Unit>, lo: int, hi: int, tok: NSRange)
    requires 0 <= lo <= hi <= |t|
    requires lo <= tok.location && End(tok) <= hi && IsToken(word, t, tok)
    ensures StartsInside(tok.location, Scan(word, t, lo, hi))
    decreases hi - lo
  {
    var ms := Scan(word, t, lo, hi);
    match TokenAt(word, t, lo, hi)
    case Some(e) =>
      if tok.location < e {
        assert ms[0] == NSRange(lo, e - lo);
      } else {
        ScanFindsEveryToken(word, t, e, hi, tok);
        var rest := Scan(word, t, e, hi);
        var i :| 0 <= i < |rest| && rest[i].location <= tok.location < End(rest[i]);
        assert ms[i + 1] == rest[i];
      }
    case None =>
      ScanFindsEveryToken(word, t, lo + 1, hi, tok);
  }

  /** The scan regions of `getMatches`: one per excluded range, from `last` (the last
      unit of the previous exclusion) through the first unit of the exclusion, then
      one from `last` to `length`. */
  function Regions(excluding: seq<NSRange>, last: int, length: int): seq<NSRange>
    decreases |excluding|
  {
    if excluding == [] then [NSRange(last, length - last)]
    else [NSRange(last, excluding[0].location - last + 1)] +
         Regions(excluding[1..], End(excluding[0]) - 1, length)
  }

  /** `k` exclusions give `k + 1` regions; region `i` starts on the last unit of
      exclusion `i - 1` (or at `last`) and ends just after the first unit of
      exclusion `i`; the final region ends at `length`. */
  lemma {:induction false} RegionsShape(excluding: seq<NSRange>, last: int, length: int)
    ensures var rs := Regions(excluding, last, length);
      && |rs| == |excluding| + 1
      && rs[0].location == last
      && (forall i :: 0 < i < |rs| ==> rs[i].location == End(excluding[i - 1]) - 1)
      && (forall i :: 0 <= i < |excluding| ==> End(rs[i]) == excluding[i].location + 1)
      && End(rs[|excluding|]) == length
    decreases |excluding|
  {
    if excluding != [] {
      var rs := Regions(excluding, last, length);
      var tail := Regions(excluding[1..], End(excluding[0]) - 1, length);
      RegionsShape(excluding[1..], End(excluding[0]) - 1, length);
      assert forall i :: 0 < i < |rs| ==> rs[i] == tail[i - 1];
      assert forall i :: 0 < i < |excluding| ==> excluding[i] == excluding[1..][i - 1];
    }
  }

  /** The loop of `getMatches` that builds the regions. */
  method BuildRegions(excludingRanges: seq<NSRange>, length: int) returns (ranges: seq<NSRange>)
    ensures ranges == Regions(excludingRanges, 0, length)
    ensures |ranges| == |excludingRanges| + 1
    ensures ranges[0].location == 0 && End(ranges[|excludingRanges|]) == length
    ensures forall i :: 0 < i < |ranges| ==> ranges[i].location == End(excludingRanges[i - 1]) - 1
    ensures forall i :: 0 <= i < |excludingRanges| ==> End(ranges[i]) == excludingRanges[i].location + 1
  {
    ranges := [];
    var lastMatchIndex := 0;
    for i := 0 to |excludingRanges|
      invariant ranges + Regions(excludingRanges[i..], lastMatchIndex, length) == Regions(excludingRanges, 0, length)
    {
      var range := excludingRanges[i];
      assert excludingRanges[i..][1..] == excludingRanges[i + 1..];
      ranges := ranges + [NSRange(lastMatchIndex, range.location - lastMatchIndex + 1)];
      lastMatchIndex := range.location + range.length - 1;
    }
    ranges := ranges + [NSRange(lastMatchIndex, length - lastMatchIndex)];
    RegionsShape(excludingRanges, 0, length);
  }

  /** Exclusions that are ordered inside the text and at least two units long give
      ordered, non-overlapping regions inside the text. */
  lemma {:induction false} RegionsOrdered(excluding: seq<NSRange>, last: int, length: int)
    requires 0 <= last <= length
    requires Ordered(excluding, last, length)
    requires forall r | r in excluding :: r.length >= 2
    ensures Ordered(Regions(excluding, last, length), last, length)
    decreases |excluding|
  {
    if excluding != [] {
      var x := excluding[0];
      var tail := Regions(excluding[1..], End(x) - 1, length);
      OrderedFrom(excluding[1..], End(x) - 1, End(x), length);
      assert forall r | r in excluding[1..] :: r in excluding;
      RegionsOrdered(excluding[1..], End(x) - 1, length);
      OrderedFrom(tail, x.location + 1, End(x) - 1, length);
      assert ([NSRange(last, x.location - last + 1)] + tail)[1..] == tail;
    }
  }

  /** No region reaches into an exclusion further than its first or last unit. */
  lemma RegionsAvoidExclusions(excluding: seq<NSRange>, length: int)
    requires Ordered(excluding, 0, length)
    ensures var rs := Regions(excluding, 0, length);
      forall i, j :: 0 <= i < |rs| && 0 <= j < |excluding| ==>
        End(rs[i]) <= excluding[j].location + 1 || End(excluding[j]) - 1 <= rs[i].location
  {
    var rs := Regions(excluding, 0, length);
    RegionsShape(excluding, 0, length);
    OrderedPairwise(excluding, 0, length);
    forall i, j | 0 <= i < |rs| && 0 <= j < |excluding|
      ensures End(rs[i]) <= excluding[j].location + 1 || End(excluding[j]) - 1 <= rs[i].location
    {
      if j < i {
        assert rs[i].location == End(excluding[i - 1]) - 1;
        if j < i - 1 {
          assert End(excluding[j]) <= excluding[i - 1].location;
        }
      } else {
        assert End(rs[i]) == excluding[i].location + 1;
        if i < j {
          assert End(excluding[i]) <= excluding[j].location;
        }
      }
    }
  }

  /** `ranges.map { matches(in: string, range: $0) }` flattened in region order. */
  function MatchesIn(word: char -> bool, t: seq<Unit>, regions: seq<NSRange>): (ms: seq<NSRange>)
    requires forall g | g in regions :: Within(g, |t|)
    ensures AllTokens(word, t, ms)
    decreases |regions|
  {
    if regions == [] then []
    else
      assert regions[0] in regions;
      assert Within(regions[0], |t|);
      assert forall g | g in regions[1..] :: g in regions;
      Scan(word, t, regions[0].location, End(regions[0])) + MatchesIn(word, t, regions[1..])
  }

  /** Every match lies inside a region: none spans a region boundary. */
  lemma {:induction false} MatchesInsideRegions(word: char -> bool, t: seq<Unit>, regions: seq<NSRange>)
    requires forall g | g in regions :: Within(g, |t|)
    ensures forall m | m in MatchesIn(word, t, regions) ::
              exists g | g in regions :: g.location <= m.location && End(m) <= End(g)
    decreases |regions|
  {
    if regions != [] {
      var g := regions[0];
      assert g in regions;
      var first := Scan(word, t, g.location, End(g));
      assert forall g' | g' in regions[1..] :: g' in regions;
      MatchesInsideRegions(word, t, regions[1..]);
      OrderedPairwise(first, g.location, End(g));
      assert forall m | m in first :: g.location <= m.location && End(m) <= End(g);
    }
  }

  /** Over ordered regions the concatenated matches are ordered too. */
  lemma {:induction false} MatchesInOrdered(word: char -> bool, t: seq<Unit>, regions: seq<NSRange>, lo: int, hi: int)
    requires 0 <= lo && hi <= |t|
    requires Ordered(regions, lo, hi)
    ensures forall g | g in regions :: Within(g, |t|)
    ensures Ordered(MatchesIn(word, t, regions), lo, hi)
    decreases |regions|
  {
    OrderedWithin(regions, lo, hi);
    if regions != [] {
      var g := regions[0];
      MatchesInOrdered(word, t, regions[1..], End(g), hi);
      OrderedFrom(Scan(word, t, g.location, End(g)), lo, g.location, End(g));
      OrderedConcat(Scan(word, t, g.location, End(g)), MatchesIn(word, t, regions[1..]), lo, End(g), hi);
    }
  }

  /** What `getMatches(excludingRanges:)` returns on a text: `None` when a region
      falls outside the text (where NSRegularExpression raises). */
  function Matches(word: char -> bool, t: seq<Unit>, excluding: seq<NSRange>): Option<seq<NSRange>>
  {
    var regions := Regions(excluding, 0, |t|);
    if forall g | g in regions :: Within(g, |t|) then Some(MatchesIn(word, t, regions)) else None
  }

  /** With no exclusions there is one region, the whole text. */
  lemma WholeTextScan(word: char -> bool, t: seq<Unit>)
    ensures Regions([], 0, |t|) == [NSRange(0, |t|)]
    ensures Matches(word, t, []) == Some(Scan(word, t, 0, |t|))
  {
    var whole := [NSRange(0, |t|)];
    assert Regions([], 0, |t|) == whole;
    assert forall g | g in whole :: g == whole[0];
    var scan := Scan(word, t, 0, |t|);
    SingletonTail(whole[0]);
    assert MatchesIn(word, t, whole) == scan + MatchesIn(word, t, whole[1..]);
    EmptySuffix(scan);
  }

  /** Exclusions that are ordered tokens of the text give ordered matches of tokens. */
  lemma MatchesAfterTokens(word: char -> bool, t: seq<Unit>, excluding: seq<NSRange>)
    requires Ordered(excluding, 0, |t|) && AllTokens(word, t, excluding)
    ensures Matches(word, t, excluding).Some?
    ensures Ordered(Matches(word, t, excluding).value, 0, |t|)
    ensures AllTokens(word, t, Matches(word, t, excluding).value)
  {
    RegionsOrdered(excluding, 0, |t|);
    MatchesInOrdered(word, t, Regions(excluding, 0, |t|), 0, |t|);
  }

  /** The name between a token's colons holds no colon. */
  lemma NameHasNoColon(word: char -> bool, s: seq<Unit>)
    requires TokenText(word, s)
    ensures ':' !in Plain(s[1..|s| - 1])
  {
    var name := Plain(s[1..|s| - 1]);
    forall k | 0 <= k < |name| ensures name[k] != ':' {
      assert s[1..|s| - 1][k] == s[k + 1];
    }
  }

  /** The plain string of a token is its name between two colons. */
  lemma PlainOfToken(word: char -> bool, s: seq<Unit>)
    requires TokenText(word, s)
    ensures Plain(s) == [':'] + Plain(s[1..|s| - 1]) + [':']
  {
    var name := Plain(s[1..|s| - 1]);
    var w := [':'] + name + [':'];
    assert |w| == |s|;
    forall k | 0 <= k < |s| ensures Plain(s)[k] == w[k] {
      if k == 0 || k == |s| - 1 {
        assert w[k] == ':';
      } else {
        assert w[k] == name[k - 1];
        assert s[1..|s| - 1][k - 1] == s[k];
      }
    }
  }

  /** The key a matched token is looked up under is its name, the units between the colons. */
  lemma TokenKey(word: char -> bool, s: seq<Unit>)
    requires TokenText(word, s)
    ensures StripColons(Plain(s)) == Plain(s[1..|s| - 1])
  {
    NameHasNoColon(word, s);
    PlainOfToken(word, s);
    StripColonsOfShortcode(Plain(s[1..|s| - 1]));
  }

  /** The text `:nope:smile:`, with `\w` the lower-case letters. */
  predicate NopeSmile(word: char -> bool, t: seq<Unit>)
  {
    (forall c :: word(c) <==> 'a' <= c <= 'z') &&
    |t| == 12 && forall i :: 0 <= i < 12 ==> t[i].Ch? && t[i].c == ":nope:smile:"[i]
  }

  lemma NopeSmileUnits(word: char -> bool, t: seq<Unit>)
    requires NopeSmile(word, t)
    ensures IsColon(t[0]) && IsColon(t[5]) && IsColon(t[11])
    ensures forall k :: 1 <= k < 5 || 6 <= k < 11 ==> TokenChar(word, t[k])
  {
    forall k | 1 <= k < 5 || 6 <= k < 11 ensures TokenChar(word, t[k]) {
      assert 'a' <= ":nope:smile:"[k] <= 'z';
    }
  }

  lemma NopeSmileRuns(word: char -> bool, t: seq<Unit>)
    requires NopeSmile(word, t)
    ensures RunEnd(word, t, 1, 12) == 5 && RunEnd(word, t, 6, 12) == 11
  {
    NopeSmileUnits(word, t);
    assert RunEnd(word, t, 4, 12) == 5;
    assert RunEnd(word, t, 3, 12) == 5;
    assert RunEnd(word, t, 2, 12) == 5;
    assert RunEnd(word, t, 10, 12) == 11;
    assert RunEnd(word, t, 9, 12) == 11;
    assert RunEnd(word, t, 8, 12) == 11;
    assert RunEnd(word, t, 7, 12) == 11;
  }

  lemma NopeSmileTail(word: char -> bool, t: seq<Unit>)
    requires NopeSmile(word, t)
    ensures Scan(word, t, 6, 12) == []
  {
    NopeSmileUnits(word, t);
    assert Scan(word, t, 11, 12) == [];
    assert Scan(word, t, 10, 12) == [];
    assert Scan(word, t, 9, 12) == [];
    assert Scan(word, t, 8, 12) == [];
    assert Scan(word, t, 7, 12) == [];
  }

  lemma NopeScan(word: char -> bool, t: seq<Unit>)
    requires NopeSmile(word, t)
    ensures Scan(word, t, 0, 12) == [NSRange(0, 6)]
  {
    NopeSmileUnits(word, t);
    NopeSmileRuns(word, t);
    NopeSmileTail(word, t);
    assert TokenAt(word, t, 0, 12) == Some(6);
  }

  lemma SmileScan(word: char -> bool, t: seq<Unit>)
    requires NopeSmile(word, t)
    ensures Scan(word, t, 5, 12) == [NSRange(5, 7)]
  {
    NopeSmileUnits(word, t);
    NopeSmileRuns(word, t);
    assert TokenAt(word, t, 5, 12) == Some(12);
    assert Scan(word, t, 12, 12) == [];
  }

  lemma ColonScan(word: char -> bool, t: seq<Unit>)
    requires NopeSmile(word, t)
    ensures Scan(word, t, 0, 1) == []
  {
    NopeSmileUnits(word, t);
    assert Scan(word, t, 1, 1) == [];
  }

  /** One exclusion splits the text into two regions that share its boundary units. */
  lemma RegionsAroundOne(x: NSRange, length: int)
    ensures Regions([x], 0, length) == [NSRange(0, x.location + 1), NSRange(End(x) - 1, length - (End(x) - 1))]
  {
    SingletonTail(x);
  }

  /** `getMatches` over regions it can scan. */
  lemma MatchesOver(word: char -> bool, t: seq<Unit>, excluding: seq<NSRange>, a: NSRange, b: NSRange)
    requires Regions(excluding, 0, |t|) == [a, b] && Within(a, |t|) && Within(b, |t|)
    ensures Matches(word, t, excluding)
         == Some(Scan(word, t, a.location, End(a)) + Scan(word, t, b.location, End(b)))
  {
    var regions := [a, b];
    assert forall g | g in regions :: g == a || g == b;
    assert regions[1..] == [b];
    SingletonTail(b);
    assert MatchesIn(word, t, [b]) == Scan(word, t, b.location, End(b)) + MatchesIn(word, t, []);
    EmptySuffix(Scan(word, t, b.location, End(b)));
    assert MatchesIn(word, t, regions) == Scan(word, t, a.location, End(a)) + MatchesIn(word, t, [b]);
  }

  /** Colon reuse, first pass: the whole-text scan of `:nope:smile:` finds only
      `:nope:`, whose closing colon is then consumed. */
  lemma ColonReuseFirstPass(word: char -> bool, t: seq<Unit>)
    requires NopeSmile(word, t)
    ensures Matches(word, t, []) == Some([NSRange(0, 6)])
  {
    NopeScan(word, t);
    WholeTextScan(word, t);
  }

  /** Colon reuse, second pass: with `:nope:` excluded (a first-pass miss), the region
      after it starts on its closing colon, so `:smile:` is found. */
  lemma ColonReuseSecondPass(word: char -> bool, t: seq<Unit>)
    requires NopeSmile(word, t)
    ensures Matches(word, t, [NSRange(0, 6)]) == Some([NSRange(5, 7)])
  {
    SmileScan(word, t);
    ColonScan(word, t);
    RegionsAroundOne(NSRange(0, 6), 12);
    MatchesOver(word, t, [NSRange(0, 6)], NSRange(0, 1), NSRange(5, 7));
    EmptyPrefix([NSRange(5, 7)]);
  }
}
