/** UTF-16 code units as JavaScript strings expose them (`str.length`,
    `str.charCodeAt(i)`), the ASCII constants the transcoder compares them
    with, and the two string primitives it relies on: `indexOf` and the
    ASCII part of `toLowerCase`. */
module CodeUnits {

  /** One UTF-16 code unit, the value `charCodeAt` returns. */
  type CodeUnit = c: int | 0 <= c < 0x1_0000

  /** A JavaScript string: its length is `str.length`, its elements are the
      code units. Lone surrogates are representable, as in JavaScript. */
  type String = seq<CodeUnit>

  /** The maximum number of code points allowed in a file name. */
  const LengthLimit: nat := 255

  const CtlMax: CodeUnit := 0x1f
  const Hyphen: CodeUnit := 0x2d
  const Dot: CodeUnit := 0x2e
  const Slash: CodeUnit := 0x2f
  const Zero: CodeUnit := 0x30
  const Nine: CodeUnit := 0x39
  const UpperA: CodeUnit := 0x41
  const UpperZ: CodeUnit := 0x5a
  const Backslash: CodeUnit := 0x5c
  const Underscore: CodeUnit := 0x5f
  const LowerA: CodeUnit := 0x61
  const LowerZ: CodeUnit := 0x7a
  const CtlDel: CodeUnit := 0x7f
  /** `#`, which replaces the digit of a four-unit device candidate. */
  const Hash: CodeUnit := 0x23

  const HighSurrogateMin: CodeUnit := 0xd800
  const HighSurrogateMax: CodeUnit := 0xdbff
  const LowSurrogateMin: CodeUnit := 0xdc00
  const LowSurrogateMax: CodeUnit := 0xdfff

  /** "xz--", the reserved prefix of a general (tier 4) encoding. */
  const PrefixEncode: String := [0x78, 0x7a, Hyphen, Hyphen]
  /** "xq--", the reserved prefix of the escape tiers 2 and 3. */
  const PrefixEscape: String := [0x78, 0x71, Hyphen, Hyphen]
  /** "-x", the suffix that marks a device escape (tier 3). */
  const SuffixRemove: String := [Hyphen, 0x78]

  predicate IsDigit(c: CodeUnit) { Zero <= c <= Nine }
  predicate IsUpper(c: CodeUnit) { UpperA <= c <= UpperZ }
  predicate IsLower(c: CodeUnit) { LowerA <= c <= LowerZ }
  predicate IsHighSurrogate(c: CodeUnit) { HighSurrogateMin <= c <= HighSurrogateMax }
  predicate IsLowSurrogate(c: CodeUnit) { LowSurrogateMin <= c <= LowSurrogateMax }

  /** ASCII letter, digit, hyphen, underscore or dot: the only units a
      StrictName may contain. */
  predicate IsNameUnit(c: CodeUnit)
  {
    IsDigit(c) || IsUpper(c) || IsLower(c) || c == Hyphen || c == Underscore || c == Dot
  }

  /** `str.indexOf(c)` for a one-unit needle: the first position holding
      `c`, or -1 when there is none. */
  function IndexOf(s: String, c: CodeUnit): (r: int)
    ensures -1 <= r < |s|
    ensures r == -1 <==> c !in s
    ensures r >= 0 ==> s[r] == c && c !in s[..r]
  {
    if |s| == 0 then -1
    else if s[0] == c then 0
    else
      var k := IndexOf(s[1..], c);
      assert s[1..][..if k < 0 then 0 else k] == s[1..(if k < 0 then 1 else k + 1)];
      if k < 0 then -1 else k + 1
  }

  /** The label end is the only position that has no dot before it and
      is a dot or the end. */
  lemma LabelEndAt(s: String, e: nat)
    requires e <= |s|
    requires Dot !in s[..e]
    requires e < |s| ==> s[e] == Dot
    ensures LabelEnd(s) == e
  {
  }

  /** Where the label before the first dot ends: the index of the first
      dot, or the length when there is no dot. */
  function LabelEnd(s: String): (r: nat)
    ensures r <= |s|
    ensures Dot !in s[..r]
    ensures r < |s| ==> s[r] == Dot
  {
    var d := IndexOf(s, Dot);
    if d < 0 then |s| else d
  }

  /** `toLowerCase` on one unit, for the ASCII range the grammar admits. */
  function LowerUnit(c: CodeUnit): (r: CodeUnit)
  {
    if IsUpper(c) then c + (LowerA - UpperA) else c
  }

  /** `toLowerCase` on a string of ASCII units. */
  function AsciiLower(s: String): (r: String)
    ensures |r| == |s|
    ensures forall i | 0 <= i < |s| :: !IsUpper(r[i])
    ensures forall i | 0 <= i < |s| ::
              if IsUpper(s[i]) then IsLower(r[i]) && r[i] - LowerA == s[i] - UpperA else r[i] == s[i]
  {
    seq(|s|, i requires 0 <= i < |s| => LowerUnit(s[i]))
  }
}
