/**
 * The entity tag the file responder attaches to every file response: the base-16
 * modification time in milliseconds, a hyphen, and the base-16 size in bytes.
 * `Parse` is the inverse used to state that the tag determines the pair exactly.
 */
module ETag {
  import opened Wrappers
  import opened Hex

  const Separator: char := '-'

  /** The tag for a file whose stat reports modification time `mtimeMs` and size `size`. */
  function Make(mtimeMs: nat, size: nat): (tag: string)
    ensures |tag| == |ToHex(mtimeMs)| + 1 + |ToHex(size)|
    ensures tag[|ToHex(mtimeMs)|] == Separator
  {
    ToHex(mtimeMs) + [Separator] + ToHex(size)
  }

  /** The position of the first occurrence of `c` in `s`, if any. */
  function IndexOf(s: string, c: char): (r: Option<nat>)
    ensures r.Some? ==> r.value < |s| && s[r.value] == c && c !in s[..r.value]
    ensures r.None? ==> c !in s
    decreases |s|
  {
    if s == [] then None
    else if s[0] == c then Some(0)
    else match IndexOf(s[1..], c)
      case None => None
      case Some(k) =>
        assert s[..k + 1] == [s[0]] + s[1..][..k];
        Some(k + 1)
  }

  /** Splits a tag at its hyphen and reads both halves back, if both are canonical base-16 numerals. */
  function Parse(tag: string): (r: Option<(nat, nat)>)
  {
    match IndexOf(tag, Separator)
    case None => None
    case Some(k) =>
      var hi, lo := tag[..k], tag[k + 1..];
      if IsCanonical(hi) && IsCanonical(lo) then Some((FromHex(hi), FromHex(lo))) else None
  }

  lemma NoSeparatorInHex(s: string)
    requires AllHexDigits(s)
    ensures Separator !in s
  {
  }

  /** Round trip: parsing a tag recovers the modification time and size it was made from. */
  lemma ParseMake(mtimeMs: nat, size: nat)
    ensures Parse(Make(mtimeMs, size)) == Some((mtimeMs, size))
  {
    var hi, lo := ToHex(mtimeMs), ToHex(size);
    var tag := Make(mtimeMs, size);
    NoSeparatorInHex(hi);
    var k := IndexOf(tag, Separator);
    assert tag[..|hi|] == hi;
    assert k == Some(|hi|);
    assert tag[|hi| + 1..] == lo;
    FromToHex(mtimeMs);
    FromToHex(size);
  }

  /** Conversely, every string that parses is exactly the tag of the pair it parses to. */
  lemma MakeParse(tag: string, mtimeMs: nat, size: nat)
    requires Parse(tag) == Some((mtimeMs, size))
    ensures Make(mtimeMs, size) == tag
  {
    var k := IndexOf(tag, Separator).value;
    var hi, lo := tag[..k], tag[k + 1..];
    ToFromHex(hi);
    ToFromHex(lo);
    assert tag == hi + [Separator] + lo;
  }

  /** Two files get the same tag only if both their modification times and sizes agree. */
  lemma MakeInjective(m1: nat, s1: nat, m2: nat, s2: nat)
    ensures Make(m1, s1) == Make(m2, s2) <==> m1 == m2 && s1 == s2
  {
    ParseMake(m1, s1);
    ParseMake(m2, s2);
  }
}
