/** `insertEmojis(_:in:rendering:)` (NSAttributedString+Emojis.swift, lines 58-124)
    as a specification: each match range, shifted left by the units earlier hits
    removed, is looked up and either replaced by one attachment unit or reported
    as not matched.

    `Run` follows the Swift loop step by step, running offset included. `Rebuilt`,
    `Unmatched` and `Shrink` say the same thing without any offset, in terms of the
    text before the call; `RunIsRebuilt` proves the two agree. */
module Substitution {
  import opened Wrappers
  import opened Ranges
  import opened Catalog
  import opened Attributed
  import opened Scanner

  /** The rendering configuration: the scale applied to attachment bounds. */
  datatype EmojiRendering = EmojiRendering(scale: real)

  /** Point size and cap height used when the match carries no font. */
  const DefaultFontSize: real := 22.0

  /** The attachment unit a hit is replaced by: it carries the resolved entry, a square
      box one font size wide, raised by half the difference between cap height and
      font size, and the font and paragraph style of the match's first unit when both
      are present, no attributes otherwise. */
  function EmojiUnit(first: Unit, emoji: EmojiSource, rendering: EmojiRendering): (u: Unit)
    ensures u.Attached? && u.attachment.emojiData == emoji
    ensures u.attachment.bounds.x == 0.0 && u.attachment.bounds.width == u.attachment.bounds.height
    ensures u.style == if first.style.font.Some? && first.style.paragraphStyle.Some? then first.style else NoStyle
    ensures first.style.font.None? ==>
              u.attachment.bounds == Rect(0.0, 0.0, DefaultFontSize * rendering.scale, DefaultFontSize * rendering.scale)
    ensures first.style.font.Some? ==>
              u.attachment.bounds.width == first.style.font.value.pointSize * rendering.scale &&
              2.0 * u.attachment.bounds.y == (first.style.font.value.capHeight - first.style.font.value.pointSize) * rendering.scale
  {
    var font := first.style.font;
    var fontSize := (if font.Some? then font.value.pointSize else DefaultFontSize) * rendering.scale;
    var capHeight := (if font.Some? then font.value.capHeight else DefaultFontSize) * rendering.scale;
    var yOffset := (capHeight - fontSize) / 2.0;
    var attributes := if font.Some? && first.style.paragraphStyle.Some? then first.style else NoStyle;
    Attached(EmojiAttachment(emoji, Rect(0.0, yOffset, fontSize, fontSize)), attributes)
  }

  /** `replaceCharacters(in:with:)` with a single unit: the range collapses to that
      unit, everything before and after it is kept. */
  function Splice(units: seq<Unit>, range: NSRange, u: Unit): (r: seq<Unit>)
    requires Addressable(range, |units|)
    ensures |r| == |units| - (range.length - 1)
    ensures r[..range.location] == units[..range.location]
    ensures r[range.location] == u
    ensures r[range.location + 1..] == units[End(range)..]
  {
    units[..range.location] + [u] + units[End(range)..]
  }

  /** The catalog entry the units `range` covers are looked up to: the text with its
      colons removed, one alias hop. `None` also when the range cannot be read. */
  function Lookup(units: seq<Unit>, range: NSRange, emojis: Emojis): Option<EmojiSource>
  {
    if Addressable(range, |units|) then Resolve(emojis, StripColons(Plain(units[range.location..End(range)])))
    else None
  }

  /** How a call ends: the Swift process stops on a range it cannot read, or the loop
      finishes with the buffer, the not-matched ranges and the running offset. */
  datatype Outcome = Trapped | Done(text: seq<Unit>, notMatched: seq<NSRange>, offset: int)

  /** The loop of `insertEmojis` from a given state on: each range is moved left by
      `offset`; a range that cannot be read traps; a hit replaces it by one
      attachment unit and adds `length - 1` to the offset; a miss leaves the text
      alone and appends the moved range. */
  function Run(units: seq<Unit>, ranges: seq<NSRange>, emojis: Emojis, rendering: EmojiRendering,
               offset: int, notMatched: seq<NSRange>): Outcome
    decreases |ranges|
  {
    if ranges == [] then Done(units, notMatched, offset)
    else
      var range := NSRange(ranges[0].location - offset, ranges[0].length);
      if !Addressable(range, |units|) then Trapped
      else
        var replacement := units[range.location..End(range)];
        match Resolve(emojis, StripColons(Plain(replacement)))
        case Some(emoji) =>
          Run(Splice(units, range, EmojiUnit(replacement[0], emoji, rendering)), ranges[1..], emojis, rendering,
              offset + |replacement| - 1, notMatched)
        case None =>
          Run(units, ranges[1..], emojis, rendering, offset, notMatched + [range])
  }

  /** The offset a finished call carries is exactly the number of units its hits
      removed from the text. */
  lemma {:induction false} RunLength(units: seq<Unit>, ranges: seq<NSRange>, emojis: Emojis, rendering: EmojiRendering,
                                     offset: int, notMatched: seq<NSRange>)
    ensures var out := Run(units, ranges, emojis, rendering, offset, notMatched);
            out.Done? ==> |out.text| == |units| - (out.offset - offset)
    decreases |ranges|
  {
    if ranges != [] {
      var range := NSRange(ranges[0].location - offset, ranges[0].length);
      if Addressable(range, |units|) {
        var replacement := units[range.location..End(range)];
        match Resolve(emojis, StripColons(Plain(replacement)))
        case Some(emoji) =>
          RunLength(Splice(units, range, EmojiUnit(replacement[0], emoji, rendering)), ranges[1..], emojis, rendering,
                    offset + |replacement| - 1, notMatched);
        case None =>
          RunLength(units, ranges[1..], emojis, rendering, offset, notMatched + [range]);
      }
    }
  }

  /** Total units the hits among `ranges` remove: `length - 1` for each. */
  function Shrink(orig: seq<Unit>, ranges: seq<NSRange>, emojis: Emojis): int
    decreases |ranges|
  {
    if ranges == [] then 0
    else (if Lookup(orig, ranges[0], emojis).Some? then ranges[0].length - 1 else 0) + Shrink(orig, ranges[1..], emojis)
  }

  /** What replaces one range: an attachment unit on a hit, the range's own units on a miss. */
  function Piece(orig: seq<Unit>, range: NSRange, emojis: Emojis, rendering: EmojiRendering): (p: seq<Unit>)
    requires Addressable(range, |orig|)
    ensures |p| == if Lookup(orig, range, emojis).Some? then 1 else range.length
  {
    match Lookup(orig, range, emojis)
    case Some(emoji) => [EmojiUnit(orig[range.location], emoji, rendering)]
    case None => orig[range.location..End(range)]
  }

  /** The text from `from` on with every range replaced by its piece: the gaps between
      ranges are copied, no offsets are involved. */
  function Rebuilt(orig: seq<Unit>, ranges: seq<NSRange>, emojis: Emojis, rendering: EmojiRendering, from: int): (out: seq<Unit>)
    requires 0 <= from <= |orig|
    requires Ordered(ranges, from, |orig|) && NonEmpty(ranges)
    ensures |out| == |orig| - from - Shrink(orig, ranges, emojis)
    decreases |ranges|
  {
    if ranges == [] then orig[from..]
    else
      var r := ranges[0];
      assert r in ranges;
      assert forall x | x in ranges[1..] :: x in ranges;
      orig[from..r.location] + Piece(orig, r, emojis, rendering) + Rebuilt(orig, ranges[1..], emojis, rendering, End(r))
  }

  /** The misses among `ranges`, each moved left by `shift` plus the units removed by
      the hits before it. */
  function Unmatched(orig: seq<Unit>, ranges: seq<NSRange>, emojis: Emojis, shift: int): seq<NSRange>
    decreases |ranges|
  {
    if ranges == [] then []
    else
      var r := ranges[0];
      if Lookup(orig, r, emojis).Some? then Unmatched(orig, ranges[1..], emojis, shift + r.length - 1)
      else [NSRange(r.location - shift, r.length)] + Unmatched(orig, ranges[1..], emojis, shift)
  }

  /** One step of the loop on a hit. */
  lemma RunHitStep(units: seq<Unit>, ranges: seq<NSRange>, emojis: Emojis, rendering: EmojiRendering,
                   offset: int, acc: seq<NSRange>, range: NSRange, emoji: EmojiSource, next: seq<Unit>, offset': int)
    requires ranges != [] && range == NSRange(ranges[0].location - offset, ranges[0].length)
    requires offset' == offset + ranges[0].length - 1
    requires Addressable(range, |units|) && Lookup(units, range, emojis) == Some(emoji)
    requires next == Splice(units, range, EmojiUnit(units[range.location], emoji, rendering))
    ensures Run(units, ranges, emojis, rendering, offset, acc)
         == Run(next, ranges[1..], emojis, rendering, offset', acc)
  {
    var replacement := units[range.location..End(range)];
    assert replacement[0] == units[range.location];
  }

  /** One step of the loop on a miss. */
  lemma RunMissStep(units: seq<Unit>, ranges: seq<NSRange>, emojis: Emojis, rendering: EmojiRendering,
                    offset: int, acc: seq<NSRange>, range: NSRange)
    requires ranges != [] && range == NSRange(ranges[0].location - offset, ranges[0].length)
    requires Addressable(range, |units|) && Lookup(units, range, emojis) == None
    ensures Run(units, ranges, emojis, rendering, offset, acc)
         == Run(units, ranges[1..], emojis, rendering, offset, acc + [range])
  {
  }

  /** In a buffer made of `pre` and the original text from `from` on, a range at or
      after `from`, moved left by `shift`, covers the units it covered originally. */
  lemma MovedRangeReadsOriginal(orig: seq<Unit>, from: int, shift: int, pre: seq<Unit>, r: NSRange)
    requires 0 <= from <= r.location && 0 <= r.length && End(r) <= |orig|
    requires |pre| == from - shift
    ensures var units := pre + orig[from..];
      && units[..r.location - shift] == pre + orig[from..r.location]
      && units[r.location - shift..End(r) - shift] == orig[r.location..End(r)]
      && units[End(r) - shift..] == orig[End(r)..]
  {
    var units := pre + orig[from..];
    assert units[..r.location - shift] == pre + orig[from..r.location];
    assert forall k :: 0 <= k < r.length ==> units[r.location - shift..End(r) - shift][k] == orig[r.location..End(r)][k];
    assert units[End(r) - shift..] == orig[End(r)..];
  }

  /** Such a moved range is looked up to the same entry as the original one. */
  lemma MovedLookup(orig: seq<Unit>, from: int, shift: int, pre: seq<Unit>, r: NSRange, emojis: Emojis)
    requires 0 <= from <= r.location && 1 <= r.length && End(r) <= |orig|
    requires |pre| == from - shift
    ensures Addressable(NSRange(r.location - shift, r.length), |pre + orig[from..]|)
    ensures Lookup(pre + orig[from..], NSRange(r.location - shift, r.length), emojis) == Lookup(orig, r, emojis)
  {
    MovedRangeReadsOriginal(orig, from, shift, pre, r);
  }

  /** Replacing such a moved range by `u` gives `pre`, the gap before the range, `u`,
      and the original text after the range. */
  lemma MovedSplice(orig: seq<Unit>, from: int, shift: int, pre: seq<Unit>, r: NSRange, u: Unit)
    requires 0 <= from <= r.location && 1 <= r.length && End(r) <= |orig|
    requires |pre| == from - shift
    ensures (pre + orig[from..])[r.location - shift] == orig[r.location]
    ensures Splice(pre + orig[from..], NSRange(r.location - shift, r.length), u)
         == (pre + (orig[from..r.location] + [u])) + orig[End(r)..]
  {
    MovedRangeReadsOriginal(orig, from, shift, pre, r);
    var units := pre + orig[from..];
    assert units[r.location - shift] == orig[r.location] by {
      assert units[r.location - shift..End(r) - shift][0] == orig[r.location..End(r)][0];
    }
  }

  /** On a hit, one loop step in terms of the original text. */
  lemma BufferHitStep(orig: seq<Unit>, ranges: seq<NSRange>, emojis: Emojis, rendering: EmojiRendering,
                      from: int, shift: int, pre: seq<Unit>, acc: seq<NSRange>, emoji: EmojiSource, shift': int)
    requires 0 <= from <= |orig|
    requires Ordered(ranges, from, |orig|) && NonEmpty(ranges) && ranges != []
    requires |pre| == from - shift && shift' == shift + ranges[0].length - 1
    requires Lookup(orig, ranges[0], emojis) == Some(emoji)
    ensures Run(pre + orig[from..], ranges, emojis, rendering, shift, acc)
         == Run((pre + (orig[from..ranges[0].location] + [EmojiUnit(orig[ranges[0].location], emoji, rendering)]))
                  + orig[End(ranges[0])..],
                ranges[1..], emojis, rendering, shift', acc)
  {
    var r := ranges[0];
    assert r in ranges;
    var u := EmojiUnit(orig[r.location], emoji, rendering);
    MovedLookup(orig, from, shift, pre, r, emojis);
    MovedSplice(orig, from, shift, pre, r, u);
    RunHitStep(pre + orig[from..], ranges, emojis, rendering, shift, acc, NSRange(r.location - shift, r.length), emoji,
               (pre + (orig[from..r.location] + [u])) + orig[End(r)..], shift');
  }

  /** On a miss, one loop step in terms of the original text. */
  lemma BufferMissStep(orig: seq<Unit>, ranges: seq<NSRange>, emojis: Emojis, rendering: EmojiRendering,
                       from: int, shift: int, pre: seq<Unit>, acc: seq<NSRange>)
    requires 0 <= from <= |orig|
    requires Ordered(ranges, from, |orig|) && NonEmpty(ranges) && ranges != []
    requires |pre| == from - shift
    requires Lookup(orig, ranges[0], emojis) == None
    ensures Run(pre + orig[from..], ranges, emojis, rendering, shift, acc)
         == Run((pre + orig[from..End(ranges[0])]) + orig[End(ranges[0])..], ranges[1..], emojis, rendering, shift,
                acc + [NSRange(ranges[0].location - shift, ranges[0].length)])
  {
    var r := ranges[0];
    assert r in ranges;
    MovedLookup(orig, from, shift, pre, r, emojis);
    assert pre + orig[from..] == (pre + orig[from..End(r)]) + orig[End(r)..];
    RunMissStep(pre + orig[from..], ranges, emojis, rendering, shift, acc, NSRange(r.location - shift, r.length));
  }

  /** The ranges after the first are ordered from the first one's end on. */
  lemma OrderedTail(ranges: seq<NSRange>, from: int, n: int)
    requires Ordered(ranges, from, n) && NonEmpty(ranges) && ranges != []
    ensures from <= ranges[0].location && 1 <= ranges[0].length && End(ranges[0]) <= n
    ensures Ordered(ranges[1..], End(ranges[0]), n) && NonEmpty(ranges[1..])
  {
    assert ranges[0] in ranges;
    assert forall x | x in ranges[1..] :: x in ranges;
  }

  /** The offset-free result, one range further: the gap, the piece, the rest. */
  lemma RebuiltStep(orig: seq<Unit>, ranges: seq<NSRange>, emojis: Emojis, rendering: EmojiRendering, from: int)
    requires 0 <= from <= |orig|
    requires Ordered(ranges, from, |orig|) && NonEmpty(ranges) && ranges != []
    ensures Ordered(ranges[1..], End(ranges[0]), |orig|) && NonEmpty(ranges[1..])
    ensures Rebuilt(orig, ranges, emojis, rendering, from)
         == orig[from..ranges[0].location] + Piece(orig, ranges[0], emojis, rendering)
            + Rebuilt(orig, ranges[1..], emojis, rendering, End(ranges[0]))
  {
    OrderedTail(ranges, from, |orig|);
  }

  /** The offset-free result, one range further, on a hit. */
  lemma ReferenceHitStep(orig: seq<Unit>, ranges: seq<NSRange>, emojis: Emojis, rendering: EmojiRendering,
                         from: int, shift: int, emoji: EmojiSource, shift': int)
    requires 0 <= from <= |orig|
    requires Ordered(ranges, from, |orig|) && NonEmpty(ranges) && ranges != []
    requires shift' == shift + ranges[0].length - 1
    requires Lookup(orig, ranges[0], emojis) == Some(emoji)
    ensures Ordered(ranges[1..], End(ranges[0]), |orig|) && NonEmpty(ranges[1..])
    ensures Rebuilt(orig, ranges, emojis, rendering, from)
         == orig[from..ranges[0].location] + [EmojiUnit(orig[ranges[0].location], emoji, rendering)]
            + Rebuilt(orig, ranges[1..], emojis, rendering, End(ranges[0]))
    ensures Unmatched(orig, ranges, emojis, shift) == Unmatched(orig, ranges[1..], emojis, shift')
    ensures shift + Shrink(orig, ranges, emojis) == shift' + Shrink(orig, ranges[1..], emojis)
  {
    OrderedTail(ranges, from, |orig|);
    RebuiltStep(orig, ranges, emojis, rendering, from);
    SkipHit(orig, ranges, emojis, shift, shift');
  }

  /** The offset-free result, one range further, on a miss. */
  lemma ReferenceMissStep(orig: seq<Unit>, ranges: seq<NSRange>, emojis: Emojis, rendering: EmojiRendering,
                          from: int, shift: int)
    requires 0 <= from <= |orig|
    requires Ordered(ranges, from, |orig|) && NonEmpty(ranges) && ranges != []
    requires Lookup(orig, ranges[0], emojis) == None
    ensures Ordered(ranges[1..], End(ranges[0]), |orig|) && NonEmpty(ranges[1..])
    ensures Rebuilt(orig, ranges, emojis, rendering, from)
         == orig[from..End(ranges[0])] + Rebuilt(orig, ranges[1..], emojis, rendering, End(ranges[0]))
    ensures Unmatched(orig, ranges, emojis, shift)
         == [NSRange(ranges[0].location - shift, ranges[0].length)] + Unmatched(orig, ranges[1..], emojis, shift)
    ensures Shrink(orig, ranges, emojis) == Shrink(orig, ranges[1..], emojis)
  {
    OrderedTail(ranges, from, |orig|);
    RebuiltStep(orig, ranges, emojis, rendering, from);
    SkipMiss(orig, ranges, emojis, shift);
    SliceSplit(orig, from, ranges[0].location, End(ranges[0]));
  }

  /** Offset bookkeeping is right: on ordered, non-empty ranges inside the text, the loop
      never traps, reads at each moved range exactly the units the range covered before
      the call, and so ends with the offset-free result. Stated for the loop resumed
      after any prefix `pre` of output that is `from - shift` units long. */
  lemma {:induction false} RunIsRebuiltFrom(orig: seq<Unit>, ranges: seq<NSRange>, emojis: Emojis, rendering: EmojiRendering,
                                            from: int, shift: int, pre: seq<Unit>, acc: seq<NSRange>)
    requires 0 <= from <= |orig|
    requires Ordered(ranges, from, |orig|) && NonEmpty(ranges)
    requires |pre| == from - shift
    ensures Run(pre + orig[from..], ranges, emojis, rendering, shift, acc)
         == Done(pre + Rebuilt(orig, ranges, emojis, rendering, from),
                 acc + Unmatched(orig, ranges, emojis, shift),
                 shift + Shrink(orig, ranges, emojis))
    decreases |ranges|, 1
  {
    if ranges == [] {
      assert acc + [] == acc;
    } else {
      match Lookup(orig, ranges[0], emojis)
      case Some(emoji) => RunIsRebuiltHit(orig, ranges, emojis, rendering, from, shift, pre, acc, emoji);
      case None => RunIsRebuiltMiss(orig, ranges, emojis, rendering, from, shift, pre, acc);
    }
  }

  lemma {:induction false} RunIsRebuiltHit(orig: seq<Unit>, ranges: seq<NSRange>, emojis: Emojis, rendering: EmojiRendering,
                                           from: int, shift: int, pre: seq<Unit>, acc: seq<NSRange>, emoji: EmojiSource)
    requires 0 <= from <= |orig|
    requires Ordered(ranges, from, |orig|) && NonEmpty(ranges)
    requires |pre| == from - shift
    requires ranges != [] && Lookup(orig, ranges[0], emojis) == Some(emoji)
    ensures Run(pre + orig[from..], ranges, emojis, rendering, shift, acc)
         == Done(pre + Rebuilt(orig, ranges, emojis, rendering, from),
                 acc + Unmatched(orig, ranges, emojis, shift),
                 shift + Shrink(orig, ranges, emojis))
    decreases |ranges|, 0
  {
    var r := ranges[0];
    var shift' := shift + r.length - 1;
    var gap := orig[from..r.location] + [EmojiUnit(orig[r.location], emoji, rendering)];
    BufferHitStep(orig, ranges, emojis, rendering, from, shift, pre, acc, emoji, shift');
    ReferenceHitStep(orig, ranges, emojis, rendering, from, shift, emoji, shift');
    ConcatAssoc(pre, gap, Rebuilt(orig, ranges[1..], emojis, rendering, End(r)));
    RunIsRebuiltFrom(orig, ranges[1..], emojis, rendering, End(r), shift', pre + gap, acc);
  }

  lemma {:induction false} RunIsRebuiltMiss(orig: seq<Unit>, ranges: seq<NSRange>, emojis: Emojis, rendering: EmojiRendering,
                                            from: int, shift: int, pre: seq<Unit>, acc: seq<NSRange>)
    requires 0 <= from <= |orig|
    requires Ordered(ranges, from, |orig|) && NonEmpty(ranges)
    requires |pre| == from - shift
    requires ranges != [] && Lookup(orig, ranges[0], emojis) == None
    ensures Run(pre + orig[from..], ranges, emojis, rendering, shift, acc)
         == Done(pre + Rebuilt(orig, ranges, emojis, rendering, from),
                 acc + Unmatched(orig, ranges, emojis, shift),
                 shift + Shrink(orig, ranges, emojis))
    decreases |ranges|, 0
  {
    var r := ranges[0];
    var moved := NSRange(r.location - shift, r.length);
    var gap := orig[from..End(r)];
    BufferMissStep(orig, ranges, emojis, rendering, from, shift, pre, acc);
    ReferenceMissStep(orig, ranges, emojis, rendering, from, shift);
    RunIsRebuiltFrom(orig, ranges[1..], emojis, rendering, End(r), shift, pre + gap, acc + [moved]);
    MissDone(Run(pre + orig[from..], ranges, emojis, rendering, shift, acc),
             Run((pre + gap) + orig[End(r)..], ranges[1..], emojis, rendering, shift, acc + [moved]),
             pre, gap, Rebuilt(orig, ranges[1..], emojis, rendering, End(r)), Rebuilt(orig, ranges, emojis, rendering, from),
             acc, moved, Unmatched(orig, ranges[1..], emojis, shift), Unmatched(orig, ranges, emojis, shift),
             shift, Shrink(orig, ranges[1..], emojis), Shrink(orig, ranges, emojis));
  }

  /** A call that ends as one resumed after a miss: the miss's units and the gap
      before them join the text, the moved range joins the misses. */
  lemma MissDone(out: Outcome, via: Outcome, pre: seq<Unit>, gap: seq<Unit>, rest: seq<Unit>, whole: seq<Unit>,
                 acc: seq<NSRange>, moved: NSRange, tail: seq<NSRange>, misses: seq<NSRange>,
                 shift: int, shrink: int, shrink': int)
    requires out == via && via == Done((pre + gap) + rest, (acc + [moved]) + tail, shift + shrink)
    requires whole == gap + rest && misses == [moved] + tail && shrink' == shrink
    ensures out == Done(pre + whole, acc + misses, shift + shrink')
  {
    ConcatAssoc(pre, gap, rest);
    ConcatAssoc(acc, [moved], tail);
  }

  /** A whole call on ordered, non-empty ranges inside the text: no trap, and the
      offset-free text, misses and total shrinkage. */
  lemma RunIsRebuilt(orig: seq<Unit>, ranges: seq<NSRange>, emojis: Emojis, rendering: EmojiRendering)
    requires Ordered(ranges, 0, |orig|) && NonEmpty(ranges)
    ensures Run(orig, ranges, emojis, rendering, 0, [])
         == Done(Rebuilt(orig, ranges, emojis, rendering, 0), Unmatched(orig, ranges, emojis, 0), Shrink(orig, ranges, emojis))
  {
    RunIsRebuiltFrom(orig, ranges, emojis, rendering, 0, 0, [], []);
    assert orig[0..] == orig;
    EmptyPrefix(orig);
    EmptyPrefix(Rebuilt(orig, ranges, emojis, rendering, 0));
    EmptyPrefix(Unmatched(orig, ranges, emojis, 0));
  }

  /** The misses a call reports are ordered inside the rewritten text: every earlier
      hit moved a miss left by exactly the units that hit removed. Stated for the loop
      resumed at `from` with `shift` units removed so far; the text then ends at
      `|orig| - shift - Shrink(...)`. */
  lemma {:induction false} UnmatchedOrderedFrom(orig: seq<Unit>, ranges: seq<NSRange>, emojis: Emojis, from: int, shift: int,
                                                lo: int, hi: int)
    requires shift <= from <= |orig|
    requires Ordered(ranges, from, |orig|) && NonEmpty(ranges)
    requires lo <= from - shift && hi == |orig| - shift - Shrink(orig, ranges, emojis)
    ensures Shrink(orig, ranges, emojis) <= |orig| - from
    ensures Ordered(Unmatched(orig, ranges, emojis, shift), lo, hi)
    decreases |ranges|, 1
  {
    if ranges != [] {
      if Lookup(orig, ranges[0], emojis).Some? {
        UnmatchedOrderedHit(orig, ranges, emojis, from, shift, lo, hi);
      } else {
        UnmatchedOrderedMiss(orig, ranges, emojis, from, shift, lo, hi);
      }
    }
  }

  lemma {:induction false} UnmatchedOrderedHit(orig: seq<Unit>, ranges: seq<NSRange>, emojis: Emojis, from: int, shift: int,
                                               lo: int, hi: int)
    requires shift <= from <= |orig|
    requires Ordered(ranges, from, |orig|) && NonEmpty(ranges)
    requires lo <= from - shift && hi == |orig| - shift - Shrink(orig, ranges, emojis)
    requires ranges != [] && Lookup(orig, ranges[0], emojis).Some?
    ensures Shrink(orig, ranges, emojis) <= |orig| - from
    ensures Ordered(Unmatched(orig, ranges, emojis, shift), lo, hi)
    decreases |ranges|, 0
  {
    var r := ranges[0];
    OrderedTail(ranges, from, |orig|);
    var shift' := shift + r.length - 1;
    SkipHit(orig, ranges, emojis, shift, shift');
    UnmatchedOrderedFrom(orig, ranges[1..], emojis, End(r), shift', lo, hi);
  }

  lemma {:induction false} UnmatchedOrderedMiss(orig: seq<Unit>, ranges: seq<NSRange>, emojis: Emojis, from: int, shift: int,
                                                lo: int, hi: int)
    requires shift <= from <= |orig|
    requires Ordered(ranges, from, |orig|) && NonEmpty(ranges)
    requires lo <= from - shift && hi == |orig| - shift - Shrink(orig, ranges, emojis)
    requires ranges != [] && Lookup(orig, ranges[0], emojis).None?
    ensures Shrink(orig, ranges, emojis) <= |orig| - from
    ensures Ordered(Unmatched(orig, ranges, emojis, shift), lo, hi)
    decreases |ranges|, 0
  {
    var r := ranges[0];
    var moved := NSRange(r.location - shift, r.length);
    OrderedTail(ranges, from, |orig|);
    SkipMiss(orig, ranges, emojis, shift);
    UnmatchedOrderedFrom(orig, ranges[1..], emojis, End(r), shift, End(moved), hi);
    ConsOrdered(moved, Unmatched(orig, ranges[1..], emojis, shift), lo, hi);
  }

  /** The misses and the shrinkage one range further, on a hit. */
  lemma SkipHit(orig: seq<Unit>, ranges: seq<NSRange>, emojis: Emojis, shift: int, shift': int)
    requires ranges != [] && Lookup(orig, ranges[0], emojis).Some?
    requires shift' == shift + ranges[0].length - 1
    ensures Unmatched(orig, ranges, emojis, shift) == Unmatched(orig, ranges[1..], emojis, shift')
    ensures shift + Shrink(orig, ranges, emojis) == shift' + Shrink(orig, ranges[1..], emojis)
  {
  }

  /** The misses and the shrinkage one range further, on a miss. */
  lemma SkipMiss(orig: seq<Unit>, ranges: seq<NSRange>, emojis: Emojis, shift: int)
    requires ranges != [] && Lookup(orig, ranges[0], emojis).None?
    ensures Unmatched(orig, ranges, emojis, shift)
         == [NSRange(ranges[0].location - shift, ranges[0].length)] + Unmatched(orig, ranges[1..], emojis, shift)
    ensures Shrink(orig, ranges, emojis) == Shrink(orig, ranges[1..], emojis)
  {
  }

  /** Each miss a call reports still covers, in the rewritten text, the token it
      covered before the call: a miss copies its units and so does every gap. */
  lemma {:induction false} UnmatchedTokensFrom(word: char -> bool, orig: seq<Unit>, ranges: seq<NSRange>, emojis: Emojis,
      rendering: EmojiRendering, from: int, shift: int, pre: seq<Unit>)
    requires 0 <= from <= |orig|
    requires Ordered(ranges, from, |orig|) && NonEmpty(ranges) && AllTokens(word, orig, ranges)
    requires |pre| == from - shift
    ensures AllTokens(word, pre + Rebuilt(orig, ranges, emojis, rendering, from), Unmatched(orig, ranges, emojis, shift))
    decreases |ranges|, 1
  {
    if ranges != [] {
      match Lookup(orig, ranges[0], emojis)
      case Some(emoji) => UnmatchedTokensHit(word, orig, ranges, emojis, rendering, from, shift, pre, emoji);
      case None =>
        TailTokens(word, orig, ranges);
        UnmatchedTokensMiss(word, orig, ranges, emojis, rendering, from, shift, pre);
    }
  }

  lemma {:induction false} UnmatchedTokensHit(word: char -> bool, orig: seq<Unit>, ranges: seq<NSRange>, emojis: Emojis,
      rendering: EmojiRendering, from: int, shift: int, pre: seq<Unit>, emoji: EmojiSource)
    requires 0 <= from <= |orig|
    requires Ordered(ranges, from, |orig|) && NonEmpty(ranges) && AllTokens(word, orig, ranges)
    requires |pre| == from - shift
    requires ranges != [] && Lookup(orig, ranges[0], emojis) == Some(emoji)
    ensures AllTokens(word, pre + Rebuilt(orig, ranges, emojis, rendering, from), Unmatched(orig, ranges, emojis, shift))
    decreases |ranges|, 0
  {
    var r := ranges[0];
    TailTokens(word, orig, ranges);
    var shift' := shift + r.length - 1;
    var gap := orig[from..r.location] + [EmojiUnit(orig[r.location], emoji, rendering)];
    ReferenceHitStep(orig, ranges, emojis, rendering, from, shift, emoji, shift');
    ConcatAssoc(pre, gap, Rebuilt(orig, ranges[1..], emojis, rendering, End(r)));
    UnmatchedTokensFrom(word, orig, ranges[1..], emojis, rendering, End(r), shift', pre + gap);
  }

  lemma {:induction false} UnmatchedTokensMiss(word: char -> bool, orig: seq<Unit>, ranges: seq<NSRange>, emojis: Emojis,
      rendering: EmojiRendering, from: int, shift: int, pre: seq<Unit>)
    requires 0 <= from <= |orig|
    requires Ordered(ranges, from, |orig|) && NonEmpty(ranges)
    requires |pre| == from - shift
    requires ranges != [] && Lookup(orig, ranges[0], emojis) == None
    requires IsToken(word, orig, ranges[0]) && AllTokens(word, orig, ranges[1..])
    ensures AllTokens(word, pre + Rebuilt(orig, ranges, emojis, rendering, from), Unmatched(orig, ranges, emojis, shift))
    decreases |ranges|, 0
  {
    var r := ranges[0];
    OrderedTail(ranges, from, |orig|);
    UnmatchedTokensFrom(word, orig, ranges[1..], emojis, rendering, End(r), shift, pre + orig[from..End(r)]);
    MissShape(orig, ranges, emojis, rendering, from, shift, pre);
    MissTokensStep(word, pre, orig, from, r, Rebuilt(orig, ranges[1..], emojis, rendering, End(r)),
                   Unmatched(orig, ranges[1..], emojis, shift), shift,
                   pre + Rebuilt(orig, ranges, emojis, rendering, from), Unmatched(orig, ranges, emojis, shift));
  }

  /** One miss `r`: its units are copied with the gap before them, so it stays a token
      in front of the tokens the rest of the call reports. */
  lemma MissTokensStep(word: char -> bool, pre: seq<Unit>, orig: seq<Unit>, from: int, r: NSRange, rest: seq<Unit>,
                       tail: seq<NSRange>, shift: int, text: seq<Unit>, misses: seq<NSRange>)
    requires IsToken(word, orig, r) && 0 <= from <= r.location && |pre| == from - shift
    requires AllTokens(word, (pre + orig[from..End(r)]) + rest, tail)
    requires text == (pre + orig[from..End(r)]) + rest
    requires misses == [NSRange(r.location - shift, r.length)] + tail
    ensures AllTokens(word, text, misses)
  {
    var moved := NSRange(r.location - shift, r.length);
    CopiedToken(word, pre, orig, from, r, rest, moved.location);
    ConsTokens(word, (pre + orig[from..End(r)]) + rest, moved, tail);
  }

  /** The text and the misses after one miss, written around the rest of the call. */
  lemma MissShape(orig: seq<Unit>, ranges: seq<NSRange>, emojis: Emojis, rendering: EmojiRendering,
                  from: int, shift: int, pre: seq<Unit>)
    requires 0 <= from <= |orig|
    requires Ordered(ranges, from, |orig|) && NonEmpty(ranges)
    requires ranges != [] && Lookup(orig, ranges[0], emojis) == None
    ensures pre + Rebuilt(orig, ranges, emojis, rendering, from)
         == (pre + orig[from..End(ranges[0])]) + Rebuilt(orig, ranges[1..], emojis, rendering, End(ranges[0]))
    ensures Unmatched(orig, ranges, emojis, shift)
         == [NSRange(ranges[0].location - shift, ranges[0].length)] + Unmatched(orig, ranges[1..], emojis, shift)
    ensures Shrink(orig, ranges, emojis) == Shrink(orig, ranges[1..], emojis)
  {
    ReferenceMissStep(orig, ranges, emojis, rendering, from, shift);
    ConcatAssoc(pre, orig[from..End(ranges[0])], Rebuilt(orig, ranges[1..], emojis, rendering, End(ranges[0])));
  }

  lemma TailTokens(word: char -> bool, t: seq<Unit>, ranges: seq<NSRange>)
    requires ranges != [] && AllTokens(word, t, ranges)
    ensures IsToken(word, t, ranges[0]) && AllTokens(word, t, ranges[1..])
  {
    assert ranges[0] in ranges;
    assert forall x | x in ranges[1..] :: x in ranges;
  }

  /** The units of `r`, copied after `pre` with the gap before them, sit `from - |pre|`
      units further left. */
  lemma CopiedSlice(pre: seq<Unit>, orig: seq<Unit>, from: int, r: NSRange, rest: seq<Unit>)
    requires 0 <= from <= r.location && 0 <= r.length && End(r) <= |orig|
    ensures var text := (pre + orig[from..End(r)]) + rest;
            text[|pre| + r.location - from..|pre| + End(r) - from] == orig[r.location..End(r)]
  {
    var text := (pre + orig[from..End(r)]) + rest;
    forall k | 0 <= k < r.length
      ensures text[|pre| + r.location - from..|pre| + End(r) - from][k] == orig[r.location..End(r)][k]
    {
    }
  }

  /** A token's units found again at `p` of another text form a token there. */
  lemma MovedToken(word: char -> bool, orig: seq<Unit>, r: NSRange, text: seq<Unit>, p: int)
    requires IsToken(word, orig, r)
    requires 0 <= p && p + r.length <= |text| && text[p..p + r.length] == orig[r.location..End(r)]
    ensures IsToken(word, text, NSRange(p, r.length))
  {
  }

  /** A token copied after `pre` with the gap before it is a token at `p`. */
  lemma CopiedToken(word: char -> bool, pre: seq<Unit>, orig: seq<Unit>, from: int, r: NSRange, rest: seq<Unit>, p: int)
    requires IsToken(word, orig, r) && 0 <= from <= r.location && p == |pre| + r.location - from
    ensures IsToken(word, (pre + orig[from..End(r)]) + rest, NSRange(p, r.length))
  {
    CopiedSlice(pre, orig, from, r, rest);
    MovedToken(word, orig, r, (pre + orig[from..End(r)]) + rest, p);
  }

  /** A token in front of tokens. */
  lemma ConsTokens(word: char -> bool, text: seq<Unit>, first: NSRange, rest: seq<NSRange>)
    requires IsToken(word, text, first) && AllTokens(word, text, rest)
    ensures AllTokens(word, text, [first] + rest)
  {
    assert forall m | m in [first] + rest :: m == first || m in rest;
  }

  /** The misses of a whole call are ordered inside the new text. */
  lemma UnmatchedOrdered(orig: seq<Unit>, ranges: seq<NSRange>, emojis: Emojis, rendering: EmojiRendering)
    requires Ordered(ranges, 0, |orig|) && NonEmpty(ranges)
    ensures Ordered(Unmatched(orig, ranges, emojis, 0), 0, |Rebuilt(orig, ranges, emojis, rendering, 0)|)
  {
    UnmatchedOrderedFrom(orig, ranges, emojis, 0, 0, 0, |Rebuilt(orig, ranges, emojis, rendering, 0)|);
  }

  /** The misses of a whole call on tokens are tokens of the new text. */
  lemma UnmatchedAreTokens(word: char -> bool, orig: seq<Unit>, ranges: seq<NSRange>, emojis: Emojis, rendering: EmojiRendering)
    requires Ordered(ranges, 0, |orig|) && NonEmpty(ranges) && AllTokens(word, orig, ranges)
    ensures AllTokens(word, Rebuilt(orig, ranges, emojis, rendering, 0), Unmatched(orig, ranges, emojis, 0))
  {
    UnmatchedTokensFrom(word, orig, ranges, emojis, rendering, 0, 0, []);
    EmptyPrefix(Rebuilt(orig, ranges, emojis, rendering, 0));
  }
}
