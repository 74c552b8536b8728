/** `insertingEmojis` and the mutable text it works on (NSAttributedString+Emojis.swift,
    lines 18-124): a copy of the text is scanned for shortcodes, the hits are replaced
    by attachments, and the text is scanned and substituted once more with the first
    pass's misses excluded.

    The code-span filter `filterOutRangesInsideCode` is defined elsewhere; it is a
    parameter here. As in the Swift code, both passes hand it the text as it was
    before any substitution, although the second pass's ranges are positions in the
    text after the first. */
module Emojis {
  import opened Wrappers
  import opened Ranges
  import opened Catalog
  import opened Attributed
  import opened Scanner
  import opened Substitution

  /** `String.filterOutRangesInsideCode(ranges:)`: keeps the ranges it accepts. */
  type CodeFilter = (string, seq<NSRange>) -> seq<NSRange>

  /** The `NSMutableAttributedString` the driver edits in place. */
  class AttributedText {
    var units: seq<Unit>

    constructor (units: seq<Unit>)
      ensures this.units == units
    {
      this.units := units;
    }

    /** `replaceCharacters(in:with:)` with a one-unit replacement. */
    method ReplaceCharacters(range: NSRange, u: Unit)
      requires Addressable(range, |units|)
      modifies this
      ensures units == Splice(old(units), range, u)
      ensures |units| == |old(units)| - (range.length - 1)
    {
      units := units[..range.location] + [u] + units[End(range)..];
    }

    /** `getMatches(excludingRanges:)`: `None` where NSRegularExpression raises on a
        region outside the text. */
    method GetMatches(word: char -> bool, excludingRanges: seq<NSRange>) returns (matches: Option<seq<NSRange>>)
      ensures matches == Matches(word, units, excludingRanges)
    {
      var ranges := BuildRegions(excludingRanges, |units|);
      if forall g | g in ranges :: Within(g, |units|) {
        matches := Some(MatchesIn(word, units, ranges));
      } else {
        matches := None;
      }
    }

    /** `insertEmojis(_:in:rendering:)`: the returned misses and the new text are those
        of `Run` from offset 0; `None` (and a text that no longer matters) where
        `attributedSubstring(from:)` or `attribute(_:at:0,…)` raises. */
    method InsertEmojis(emojis: Emojis, ranges: seq<NSRange>, rendering: EmojiRendering)
      returns (notMatched: Option<seq<NSRange>>)
      modifies this
      ensures var out := Run(old(units), ranges, emojis, rendering, 0, []);
              (notMatched.None? <==> out.Trapped?) &&
              (out.Done? ==> notMatched == Some(out.notMatched) && units == out.text)
    {
      var offset := 0;
      var missed: seq<NSRange> := [];
      ghost var outcome := Run(units, ranges, emojis, rendering, 0, []);
      for i := 0 to |ranges|
        invariant Run(units, ranges[i..], emojis, rendering, offset, missed) == outcome
      {
        assert ranges[i..][1..] == ranges[i + 1..];
        var text := units;
        var transformedRange := NSRange(ranges[i].location - offset, ranges[i].length);
        if !Addressable(transformedRange, |text|) {
          return None;
        }
        var replacement := text[transformedRange.location..End(transformedRange)];
        match Resolve(emojis, StripColons(Plain(replacement)))
        case Some(emoji) =>
          var attachment := EmojiUnit(replacement[0], emoji, rendering);
          var before := offset;
          ReplaceCharacters(transformedRange, attachment);
          offset := offset + |replacement| - 1;
          RunHitStep(text, ranges[i..], emojis, rendering, before, missed, transformedRange, emoji, units, offset);
        case None =>
          RunMissStep(text, ranges[i..], emojis, rendering, offset, missed, transformedRange);
          missed := missed + [transformedRange];
          assert Run(units, ranges[i + 1..], emojis, rendering, offset, missed) == outcome;
      }
      assert ranges[|ranges|..] == [];
      return Some(missed);
    }
  }

  /** What `insertingEmojis` returns, as a function of its inputs: `None` where the
      Swift process traps. Pass one scans the whole text; pass two excludes the
      ranges pass one did not match; pass two's misses are dropped. */
  function TwoPass(word: char -> bool, text: seq<Unit>, emojis: Emojis, rendering: EmojiRendering,
                   codeFilter: CodeFilter): Option<seq<Unit>>
  {
    match Matches(word, text, [])
    case None => None
    case Some(first) =>
      match Run(text, codeFilter(Plain(text), first), emojis, rendering, 0, [])
      case Trapped => None
      case Done(mid, misses, _) =>
        match Matches(word, mid, misses)
        case None => None
        case Some(second) =>
          match Run(mid, codeFilter(Plain(text), second), emojis, rendering, 0, [])
          case Trapped => None
          case Done(result, _, _) => Some(result)
  }

  /** `insertingEmojis(_:rendering:)`: edits a fresh copy, so the receiver is untouched. */
  method InsertingEmojis(word: char -> bool, text: seq<Unit>, emojis: Emojis, rendering: EmojiRendering,
                         codeFilter: CodeFilter) returns (r: Option<seq<Unit>>)
    ensures r == TwoPass(word, text, emojis, rendering, codeFilter)
  {
    var attributedString := new AttributedText(text);
    var ranges := attributedString.GetMatches(word, []);
    if ranges.None? {
      return None;
    }
    var notMatched := attributedString.InsertEmojis(emojis, codeFilter(Plain(text), ranges.value), rendering);
    if notMatched.None? {
      return None;
    }
    ranges := attributedString.GetMatches(word, notMatched.value);
    if ranges.None? {
      return None;
    }
    var secondMisses := attributedString.InsertEmojis(emojis, codeFilter(Plain(text), ranges.value), rendering);
    if secondMisses.None? {
      return None;
    }
    return Some(attributedString.units);
  }

  /** The code-span filter only drops ranges, keeping the rest in order. */
  ghost predicate OnlyDrops(codeFilter: CodeFilter)
  {
    forall s, rs :: Subsequence(codeFilter(s, rs), rs)
  }

  /** Ranges the filter keeps from ordered tokens are ordered, non-empty tokens. */
  lemma FilteredTokens(word: char -> bool, t: seq<Unit>, codeFilter: CodeFilter, s: string, rs: seq<NSRange>)
    requires OnlyDrops(codeFilter)
    requires Ordered(rs, 0, |t|) && AllTokens(word, t, rs)
    ensures var kept := codeFilter(s, rs);
            Ordered(kept, 0, |t|) && AllTokens(word, t, kept) && NonEmpty(kept)
  {
    var kept := codeFilter(s, rs);
    SubsequenceOrdered(kept, rs, 0, |t|);
    SubsequenceMembers(kept, rs);
  }

  /** One pass over a text whose excluded ranges are ordered tokens of it: the scan
      succeeds, the filtered matches are ordered tokens, `insertEmojis` does not trap
      and returns the offset-free rewrite, and its misses are ordered tokens of the
      new text. */
  lemma PassNeverTraps(word: char -> bool, t: seq<Unit>, excluding: seq<NSRange>, emojis: Emojis,
                       rendering: EmojiRendering, codeFilter: CodeFilter, s: string)
    requires OnlyDrops(codeFilter)
    requires Ordered(excluding, 0, |t|) && AllTokens(word, t, excluding)
    ensures Matches(word, t, excluding).Some?
    ensures var kept := codeFilter(s, Matches(word, t, excluding).value);
            Ordered(kept, 0, |t|) && NonEmpty(kept) &&
            var out := Rebuilt(t, kept, emojis, rendering, 0);
            var misses := Unmatched(t, kept, emojis, 0);
            Run(t, kept, emojis, rendering, 0, []) == Done(out, misses, Shrink(t, kept, emojis)) &&
            Ordered(misses, 0, |out|) && AllTokens(word, out, misses)
  {
    MatchesAfterTokens(word, t, excluding);
    var kept := codeFilter(s, Matches(word, t, excluding).value);
    FilteredTokens(word, t, codeFilter, s, Matches(word, t, excluding).value);
    RunIsRebuilt(t, kept, emojis, rendering);
    UnmatchedOrdered(t, kept, emojis, rendering);
    UnmatchedAreTokens(word, t, kept, emojis, rendering);
  }

  /** With a filter that only drops ranges, `insertingEmojis` never traps: every range
      either pass hands to `insertEmojis` is a token of the text that pass edits.
      The result is pass two's offset-free rewrite of pass one's, and pass two
      excludes exactly the tokens pass one did not match, at their new positions. */
  lemma TwoPassNeverTraps(word: char -> bool, text: seq<Unit>, emojis: Emojis, rendering: EmojiRendering,
                          codeFilter: CodeFilter)
    requires OnlyDrops(codeFilter)
    ensures var first := codeFilter(Plain(text), Scan(word, text, 0, |text|));
            Ordered(first, 0, |text|) && NonEmpty(first) &&
            var mid := Rebuilt(text, first, emojis, rendering, 0);
            var misses := Unmatched(text, first, emojis, 0);
            Matches(word, mid, misses).Some? &&
            var second := codeFilter(Plain(text), Matches(word, mid, misses).value);
            Ordered(second, 0, |mid|) && NonEmpty(second) &&
            TwoPass(word, text, emojis, rendering, codeFilter) == Some(Rebuilt(mid, second, emojis, rendering, 0))
  {
    WholeTextScan(word, text);
    PassNeverTraps(word, text, [], emojis, rendering, codeFilter, Plain(text));
    var first := codeFilter(Plain(text), Scan(word, text, 0, |text|));
    var mid := Rebuilt(text, first, emojis, rendering, 0);
    var misses := Unmatched(text, first, emojis, 0);
    PassNeverTraps(word, mid, misses, emojis, rendering, codeFilter, Plain(text));
  }
}
