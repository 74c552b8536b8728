# Streamoji shortcode substitution, modelled in Dafny

Streamoji renders custom emoji in text. It turns shortcodes such as `:smile:` in an
`NSAttributedString` into inline image attachments, in
`Streamoji/Classes/Extensions/NSAttributedString+Emojis.swift`. This project models that file's
substitution engine and proves properties of the model. The engine has three parts:

- `getMatches(excludingRanges:)` (module `Scanner`) builds scan regions from the gaps between
  excluded ranges. It then collects every non-overlapping match of `:(\w|-|\+)+:` in each
  region. Each region runs from the last unit of the previous exclusion through the first unit
  of the next one. So a missed token gives up its colons to its neighbours, as in
  `:nope:smile:`.
- `insertEmojis(_:in:rendering:)` (modules `Substitution` and `Emojis`) walks the match ranges
  in order. It moves each range left by a running `offset`, strips the colons to form the
  catalog key, and resolves one alias hop. A hit becomes one attachment unit and `offset`
  grows by `length - 1`. A miss is reported at its moved position.
- `insertingEmojis(_:rendering:)` (module `Emojis`) works on a mutable copy. Pass one scans the
  whole text. Pass two rescans with pass one's misses excluded. Pass two's misses are dropped.

Text is a sequence of `Unit`s: a character or an attachment, each with the font and paragraph
style the engine reads (module `Attributed`). The catalog is a map from shortcode names to
`EmojiSource` values, either `Direct` or `Alias` (module `Catalog`).

`AttributedText` is the mutable string, and its methods edit it in place. `GetMatches` builds
the regions with the source's loop. `InsertEmojis` runs the source's loop with `offset` and
`notMatched`. It is proved equal to the function `Run`, which follows the loop step by step.
`Run` is then proved equal to an offset-free reference with no running offset (`Rebuilt`,
`Unmatched`, `Shrink`): each range is replaced in the original text by its piece, and the
gaps between ranges are copied. This is the statement that the offset bookkeeping is right.

A Swift process that traps is modelled as a result: `None` from `Matches` and `InsertEmojis`,
or `Trapped` from `Run`. Such traps come from:

- `NSRegularExpression` raising on a region outside the text;
- `attributedSubstring(from:)` or `attribute(_:at: 0)` raising on a range that cannot be read.

`TwoPassNeverTraps` proves that neither happens when the code filter only drops ranges.

Both passes hand the code-span filter the receiver's original `string` (lines 28 and 34).
Pass two's ranges, however, are positions in the copy that pass one already edited. The model
keeps this exactly as written: `TwoPass` and `InsertingEmojis` pass `Plain(text)` of the
original text in both passes.

## Model

| member | source | states |
|---|---|---|
| Catalog.Resolve | Streamoji/Classes/Extensions/NSAttributedString+Emojis.swift:101-104 | a name resolves iff it is in the catalog; a direct entry resolves to itself; an alias resolves to the entry it names when that is present, and to the alias entry itself (still a hit) when it is not |
| Catalog.AliasIsSingleHop | Streamoji/Classes/Extensions/NSAttributedString+Emojis.swift:102-104 | an alias to an alias resolves to the second alias entry: the lookup never follows a second hop |
| Catalog.StripColons | Streamoji/Classes/Extensions/NSAttributedString+Emojis.swift:101 | the key has no `:`, is no longer than the text, and equals the text when the text has no `:` |
| Catalog.StripColonsConcat | Streamoji/Classes/Extensions/NSAttributedString+Emojis.swift:101 | removing colons distributes over concatenation |
| Catalog.StripColonsOfShortcode | Streamoji/Classes/Extensions/NSAttributedString+Emojis.swift:101 | the key of `:name:` is `name` when `name` has no colon |
| Attributed.Plain | Streamoji/Classes/Extensions/NSAttributedString+Emojis.swift:101 | the plain string has one character per unit, the unit's character or U+FFFC for an attachment |
| Scanner.RunEnd | Streamoji/Classes/Extensions/NSAttributedString+Emojis.swift:52 | the greedy `(\w\|-\|\+)+` stops at the first unit that is not a token character, or at the region end |
| Scanner.TokenEndsAfterRun | Streamoji/Classes/Extensions/NSAttributedString+Emojis.swift:52 | any token at `p` ends exactly one unit after the longest run of token characters following `p` |
| Scanner.TokenAt | Streamoji/Classes/Extensions/NSAttributedString+Emojis.swift:52-53 | what it returns is a token inside the region, and any token at `p` inside the region is that one (at most one token starts at a position) |
| Scanner.Scan | Streamoji/Classes/Extensions/NSAttributedString+Emojis.swift:52-53 | the matches of one region are tokens, ordered left to right, non-overlapping and inside the region |
| Scanner.ScanFindsEveryToken | Streamoji/Classes/Extensions/NSAttributedString+Emojis.swift:52-53 | every token inside the region starts inside some match: the scan skips no token it could have found |
| Scanner.BuildRegions | Streamoji/Classes/Extensions/NSAttributedString+Emojis.swift:44-50 | the loop builds `k + 1` regions for `k` exclusions: region `i` starts on the last unit of exclusion `i - 1` (the first at 0) and ends just after the first unit of exclusion `i`; the last ends at `length` |
| Scanner.RegionsShape | Streamoji/Classes/Extensions/NSAttributedString+Emojis.swift:46-50 | the same shape for the regions as a function of the exclusions |
| Scanner.RegionsOrdered | Streamoji/Classes/Extensions/NSAttributedString+Emojis.swift:46-50 | ordered exclusions of at least two units inside the text give ordered, non-overlapping regions inside the text |
| Scanner.RegionsAvoidExclusions | Streamoji/Classes/Extensions/NSAttributedString+Emojis.swift:46-50 | a region overlaps an exclusion at most in that exclusion's first or last unit |
| Scanner.RegionsAroundOne | Streamoji/Classes/Extensions/NSAttributedString+Emojis.swift:46-50 | one exclusion gives the region up to and including its first unit and the region from its last unit to the end |
| Scanner.MatchesIn | Streamoji/Classes/Extensions/NSAttributedString+Emojis.swift:53-54 | the concatenated matches of all regions are tokens of the text |
| Scanner.MatchesInsideRegions | Streamoji/Classes/Extensions/NSAttributedString+Emojis.swift:53-54 | every match lies inside one region: no match spans a region boundary |
| Scanner.MatchesInOrdered | Streamoji/Classes/Extensions/NSAttributedString+Emojis.swift:53-54 | over ordered regions inside the text, every region can be scanned and the matches, concatenated in region order, are ordered |
| Scanner.WholeTextScan | Streamoji/Classes/Extensions/NSAttributedString+Emojis.swift:44-50 | with no exclusions there is exactly one region, `(0, length)`, and the matches are the scan of the whole text |
| Scanner.MatchesAfterTokens | Streamoji/Classes/Extensions/NSAttributedString+Emojis.swift:41-54 | when the exclusions are ordered tokens of the text (as pass one's misses are), `getMatches` does not trap and returns ordered tokens |
| Scanner.TokenKey | Streamoji/Classes/Extensions/NSAttributedString+Emojis.swift:101 | the key a matched token is looked up under is exactly the text between its colons |
| Scanner.ColonReuseFirstPass | Streamoji/Classes/Extensions/NSAttributedString+Emojis.swift:25 | on `:nope:smile:` the whole-text scan finds only `:nope:` |
| Scanner.ColonReuseSecondPass | Streamoji/Classes/Extensions/NSAttributedString+Emojis.swift:44-54 | with `:nope:` excluded, the region after it starts on its closing colon and `:smile:` is found |
| Substitution.EmojiUnit | Streamoji/Classes/Extensions/NSAttributedString+Emojis.swift:87-99 | the replacement is one attachment unit carrying the resolved entry; its box is square and one font size (default 22.0, times the scale) wide; its y offset is half of cap height minus font size (0 without a font); it has the match's font and paragraph style only when both are present, and no attributes otherwise |
| Substitution.Splice | Streamoji/Classes/Extensions/NSAttributedString+Emojis.swift:112-115 | replacing a range by one unit shortens the text by `length - 1` and keeps every unit before and after the range |
| Substitution.RunHitStep | Streamoji/Classes/Extensions/NSAttributedString+Emojis.swift:112-117 | a hit replaces the moved range by the attachment and continues with `offset + length - 1` |
| Substitution.RunMissStep | Streamoji/Classes/Extensions/NSAttributedString+Emojis.swift:118-120 | a miss leaves the text and the offset alone and appends the moved range |
| Substitution.RunLength | Streamoji/Classes/Extensions/NSAttributedString+Emojis.swift:65-123 | a finished loop has shortened the text by exactly the offset it accumulated |
| Substitution.MovedLookup | Streamoji/Classes/Extensions/NSAttributedString+Emojis.swift:69-70 | a range moved left by the units removed before it can be read, and reads the units it covered in the original text, so it resolves to the same entry |
| Substitution.RunIsRebuiltFrom | Streamoji/Classes/Extensions/NSAttributedString+Emojis.swift:65-123 | from any point of the loop, ordered non-empty ranges inside the text never trap, and the loop ends with the offset-free text, the misses each moved left by the units removed before them, and an offset equal to the total units removed |
| Substitution.RunIsRebuilt | Streamoji/Classes/Extensions/NSAttributedString+Emojis.swift:60-124 | the same for a whole call: `insertEmojis` on ordered non-empty ranges returns the offset-free result |
| Substitution.UnmatchedOrdered | Streamoji/Classes/Extensions/NSAttributedString+Emojis.swift:118-123 | the reported misses are ordered and lie inside the edited text |
| Substitution.UnmatchedAreTokens | Streamoji/Classes/Extensions/NSAttributedString+Emojis.swift:118-123 | on token ranges, each reported miss is a token of the edited text, so pass two can exclude it safely |
| Emojis.AttributedText.constructor | Streamoji/Classes/Extensions/NSAttributedString+Emojis.swift:23 | the mutable copy holds the receiver's units |
| Emojis.AttributedText.ReplaceCharacters | Streamoji/Classes/Extensions/NSAttributedString+Emojis.swift:112-115 | the buffer becomes the splice of the old buffer |
| Emojis.AttributedText.GetMatches | Streamoji/Classes/Extensions/NSAttributedString+Emojis.swift:41-55 | the method returns `Matches` of the current buffer, `None` where the regex would raise |
| Emojis.AttributedText.InsertEmojis | Streamoji/Classes/Extensions/NSAttributedString+Emojis.swift:60-124 | the in-place loop traps iff `Run` traps; otherwise it returns `Run`'s misses and leaves the buffer equal to `Run`'s text |
| Emojis.InsertingEmojis | Streamoji/Classes/Extensions/NSAttributedString+Emojis.swift:19-39 | the driver returns `TwoPass`: pass one over the whole text, pass two excluding exactly pass one's misses, both filtered against the original string |
| Emojis.PassNeverTraps | Streamoji/Classes/Extensions/NSAttributedString+Emojis.swift:25-30 | when the exclusions are ordered tokens, one pass neither traps in the scan nor in the loop; it returns the offset-free result, and its misses are ordered tokens of the new text |
| Emojis.TwoPassNeverTraps | Streamoji/Classes/Extensions/NSAttributedString+Emojis.swift:19-39 | with a filter that only drops ranges, `insertingEmojis` never traps; its result is pass two's offset-free rewrite of pass one's result, and pass two excludes exactly pass one's misses at their new positions |

## Left out

- `filterOutRangesInsideCode` is defined in another file and is not part of this model. It is a parameter, and nothing is known about it.
- Emojis.PassNeverTraps: assumes the code filter keeps a subsequence of its input ranges (`OnlyDrops`); without the filter's body, no trap-freedom can be stated for an arbitrary filter.
- Emojis.TwoPassNeverTraps: assumes the same of the code filter, for the same reason.
- The regular-expression engine is replaced by the leftmost, greedy, non-overlapping scan it performs. `\w` is a parameter `word`, and `:` is never a token character.
- The `try?` around the regex can only fail for an invalid pattern. The pattern is a constant, so that failure is not modelled.
- UTF-16 code units are abstracted to units, with one unit per character and one per attachment. Surrogate pairs and composed characters are not modelled.
- `try! JSONEncoder().encode(emoji)`: the attachment carries the resolved `EmojiSource` value in place of its JSON bytes, and the abort on an encoding failure is not modelled.
- The `#if os(macOS)` branches and the empty placeholder images set on the attachment are rendering concerns and are left out; the font is read the same way on every platform.
- Fonts and scales are `real`s, so CGFloat rounding is not modelled. Only the font and paragraph style attributes are modelled; other attributes of the text are not.
- `EmojiSource` and `EmojiRendering` are defined elsewhere and are not part of this model. Only the variants and fields this file uses are modelled.
- NSRange fields are unbounded integers, so 64-bit overflow is not modelled.
- How pass two's result relates to pass one's matches is proved only as the offset-free rewrite in `TwoPassNeverTraps`. No idempotence property is stated.
