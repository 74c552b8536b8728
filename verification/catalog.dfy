/** The emoji catalog: shortcode names mapped to emoji sources, looked up with one
    alias hop (NSAttributedString+Emojis.swift, lines 101-104). */
module Catalog {
  import opened Wrappers

  /** The two kinds of catalog entry the engine distinguishes: an emoji defined in
      place, or an alias naming another entry. The payload of a direct entry is
      opaque to the engine. */
  datatype EmojiSource = Direct(payload: string) | Alias(alias: string)

  /** Shortcode name, without colons, to emoji source. */
  type Emojis = map<string, EmojiSource>

  /** The entry a shortcode name resolves to: `None` when the name is not in the
      catalog; for an alias, the entry it names when that is present (one hop,
      never further), and otherwise the alias entry itself. */
  function Resolve(emojis: Emojis, name: string): (r: Option<EmojiSource>)
    ensures r.Some? <==> name in emojis
    ensures r.Some? ==> r.value in emojis.Values
    ensures name in emojis && emojis[name].Direct? ==> r == Some(emojis[name])
    ensures name in emojis && emojis[name].Alias? && emojis[name].alias in emojis ==>
              r == Some(emojis[emojis[name].alias])
    ensures name in emojis && emojis[name].Alias? && emojis[name].alias !in emojis ==>
              r == Some(emojis[name])
  {
    if name !in emojis then None
    else
      match emojis[name]
      case Direct(_) => Some(emojis[name])
      case Alias(target) => if target in emojis then Some(emojis[target]) else Some(emojis[name])
  }

  /** An alias to an alias resolves to the second alias entry, not to what that
      one names. */
  lemma AliasIsSingleHop(emojis: Emojis, a: string, b: string, c: string)
    requires a in emojis && emojis[a] == Alias(b)
    requires b in emojis && emojis[b] == Alias(c)
    ensures Resolve(emojis, a) == Some(Alias(c))
  {
  }

  /** The text with every ':' removed, as `replacingOccurrences(of: ":", with: "")`. */
  function StripColons(s: string): (r: string)
    ensures ':' !in r
    ensures |r| <= |s|
    ensures ':' !in s ==> r == s
    decreases |s|
  {
    if s == [] then []
    else if s[0] == ':' then StripColons(s[1..])
    else [s[0]] + StripColons(s[1..])
  }

  lemma {:induction false} StripColonsConcat(a: string, b: string)
    ensures StripColons(a + b) == StripColons(a) + StripColons(b)
    decreases |a|
  {
    if a == [] {
      assert a + b == b;
    } else {
      assert (a + b)[0] == a[0] && (a + b)[1..] == a[1..] + b;
      StripColonsConcat(a[1..], b);
    }
  }

  /** The key a matched `:name:` is looked up under is its name. */
  lemma StripColonsOfShortcode(name: string)
    requires ':' !in name
    ensures StripColons([':'] + name + [':']) == name
  {
    StripColonsConcat([':'] + name, [':']);
    StripColonsConcat([':'], name);
  }
}
