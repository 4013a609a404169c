/** The front half of `encode`: input validation, the `hasUpper` and
    `hasPrefix` classification, and the three tiers that need no general
    transcoding (pass-through, prefix escape, device escape). */
module Encoder {
  import opened CodeUnits
  import opened Grammar

  datatype Option<T> = None | Some(value: T)

  /** Why `encode` throws an EncodeException; each has its own message in
      the source. */
  datatype Failure =
    | Empty
    | TooLong
    | ControlCode
    | ForwardSlash
    | BackSlash
    | ImproperSurrogate
  {
    /** The exception's `tooLong` property. */
    predicate TooLongFlag() { this == TooLong }
  }

  /** What `encode` does with a string: returns an encoded name, goes on
      to the general tier (which is not part of this model), or throws. */
  datatype Outcome =
    | Encoded(name: String)
    | General
    | Rejected(failure: Failure)

  predicate IsControl(c: CodeUnit) { c <= CtlMax || c == CtlDel }

  /** Unit `j` of `s` is one `encode` refuses: an ASCII control code, a
      slash, a backslash, a low surrogate not preceded by a high one, or a
      high surrogate not followed by a low one. */
  predicate Offends(s: String, j: nat)
    requires j < |s|
  {
    var c := s[j];
    || IsControl(c) || c == Slash || c == Backslash
    || (IsLowSurrogate(c) && (j == 0 || !IsHighSurrogate(s[j - 1])))
    || (IsHighSurrogate(c) && (j == |s| - 1 || !IsLowSurrogate(s[j + 1])))
  }

  /** The exception thrown for an offending unit `c`. */
  function FailureOf(c: CodeUnit): Failure
  {
    if IsControl(c) then ControlCode
    else if c == Slash then ForwardSlash
    else if c == Backslash then BackSlash
    else ImproperSurrogate
  }

  /** The failure for the first offending unit at or after `from`, if any. */
  function FirstFault(s: String, from: nat): (r: Option<Failure>)
    requires from <= |s|
    ensures r.None? <==> forall k | from <= k < |s| :: !Offends(s, k)
    ensures r.Some? ==> exists k | from <= k < |s| ::
              && Offends(s, k)
              && r.value == FailureOf(s[k])
              && forall m | from <= m < k :: !Offends(s, m)
    decreases |s| - from
  {
    if from == |s| then None
    else if Offends(s, from) then Some(FailureOf(s[from]))
    else FirstFault(s, from + 1)
  }

  /** An offending unit with none before it is the one reported. */
  lemma FirstFaultAt(s: String, j: nat)
    requires j < |s| && Offends(s, j)
    requires forall k | 0 <= k < j :: !Offends(s, k)
    ensures FirstFault(s, 0) == Some(FailureOf(s[j]))
  {
    var r := FirstFault(s, 0);
    var k :| 0 <= k < |s| && Offends(s, k) && r.value == FailureOf(s[k])
             && forall m | 0 <= m < k :: !Offends(s, m);
    assert k == j;
  }

  /** The validation loop of `encode`: each unit in turn, skipping the low
      half of a surrogate pair once the high half has been checked. It
      reports exactly the first offending unit. */
  method ScanUnits(s: String) returns (fault: Option<Failure>)
    ensures fault == FirstFault(s, 0)
  {
    var i := 0;
    while i < |s|
      invariant 0 <= i <= |s|
      invariant forall k | 0 <= k < i :: !Offends(s, k)
      invariant 0 < i ==> !IsHighSurrogate(s[i - 1])
    {
      var c := s[i];
      if c <= CtlMax || c == CtlDel {
        FirstFaultAt(s, i);
        return Some(ControlCode);
      }
      if c == Slash {
        FirstFaultAt(s, i);
        return Some(ForwardSlash);
      }
      if c == Backslash {
        FirstFaultAt(s, i);
        return Some(BackSlash);
      }
      if LowSurrogateMin <= c <= LowSurrogateMax {
        FirstFaultAt(s, i);
        return Some(ImproperSurrogate);
      }
      if HighSurrogateMin <= c <= HighSurrogateMax {
        if i >= |s| - 1 {
          FirstFaultAt(s, i);
          return Some(ImproperSurrogate);
        }
        var c2 := s[i + 1];
        if c2 < LowSurrogateMin || c2 > LowSurrogateMax {
          FirstFaultAt(s, i);
          return Some(ImproperSurrogate);
        }
      }
      assert !Offends(s, i);
      if HighSurrogateMin <= c <= HighSurrogateMax {
        assert !Offends(s, i + 1);
        i := i + 1;
      }
      i := i + 1;
    }
    return None;
  }

  /** `/[A-Z]/.test(str)`: some unit is an ASCII capital. */
  predicate HasUpper(s: String)
  {
    exists i | 0 <= i < |s| :: IsUpper(s[i])
  }

  /** A string has an ASCII capital exactly when lower-casing it changes
      it. */
  lemma UpperIffLowerChanges(s: String)
    ensures HasUpper(s) <==> AsciiLower(s) != s
  {
    if HasUpper(s) {
      var i :| 0 <= i < |s| && IsUpper(s[i]);
      assert AsciiLower(s)[i] != s[i];
    } else {
      assert forall i | 0 <= i < |s| :: AsciiLower(s)[i] == s[i];
    }
  }

  /** The first four units are "xz--" or "xq--" (compared exactly). */
  function HasPrefix(s: String): (r: bool)
    ensures r <==> && |s| >= 4 && s[0] == 0x78 && (s[1] == 0x7a || s[1] == 0x71)
                   && s[2] == Hyphen && s[3] == Hyphen
  {
    |s| >= 4 && (s[..4] == PrefixEncode || s[..4] == PrefixEscape)
  }

  /** Tier 2: "xq--" replaces the prefix, and "-" followed by the prefix's
      second letter goes before the first dot, or at the end. */
  function PrefixEscaped(s: String): (r: String)
    requires HasPrefix(s)
    ensures |r| == |s| + 2
  {
    var suffix := [Hyphen, s[1]];
    var px := IndexOf(s, Dot);
    if px >= 0 then PrefixEscape + s[4..px] + suffix + s[px..]
    else PrefixEscape + s[4..] + suffix
  }

  /** Tier 3: "xq--" goes in front, and "-x" before the first dot, or at
      the end. */
  function DeviceEscaped(s: String): (r: String)
    ensures |r| == |s| + 6
  {
    var px := IndexOf(s, Dot);
    if px >= 0 then PrefixEscape + s[..px] + SuffixRemove + s[px..]
    else PrefixEscape + s + SuffixRemove
  }

  /** The decision `encode` makes, as a table: the length checks, then the
      first offending unit, then the tier by case, strictness and prefix. */
  function EncodeSpec(s: String): (r: Outcome)
    ensures r.Rejected? <==> |s| == 0 || |s| > LengthLimit || exists j | 0 <= j < |s| :: Offends(s, j)
    ensures r.Rejected? ==> (r.failure.TooLongFlag() <==> |s| > LengthLimit)
    ensures r == Rejected(Empty) <==> |s| == 0
  {
    if |s| == 0 then Rejected(Empty)
    else if |s| > LengthLimit then Rejected(TooLong)
    else if FirstFault(s, 0).Some? then Rejected(FirstFault(s, 0).value)
    else if HasUpper(s) then General
    else if IsStrictName(s) then
      if HasPrefix(s) then Encoded(PrefixEscaped(s)) else Encoded(s)
    else if AlmostStrict(s) && !HasPrefix(s) then Encoded(DeviceEscaped(s))
    else General
  }

  /** `encode`, up to the point where the general tier would begin. */
  method Encode(s: String) returns (r: Outcome)
    ensures r == EncodeSpec(s)
  {
    if |s| < 1 {
      return Rejected(Empty);
    }
    if |s| > LengthLimit {
      return Rejected(TooLong);
    }
    var fault := ScanUnits(s);
    if fault.Some? {
      return Rejected(fault.value);
    }
    var hasUpper := HasUpper(s);
    var hasPrefix := HasPrefix(s);
    var alreadyStrict := IsStrictName(s);
    var almostStrict := true;
    if !alreadyStrict {
      almostStrict := IsAlmostStrict(s);
    }
    if alreadyStrict && !hasUpper && !hasPrefix {
      return Encoded(s);
    }
    if alreadyStrict && !hasUpper && hasPrefix {
      return Encoded(PrefixEscaped(s));
    }
    if almostStrict && !hasUpper && !hasPrefix {
      return Encoded(DeviceEscaped(s));
    }
    return General;
  }

  /** A prefixed name has no dot among its first four units, and its
      second unit is "z" or "q". */
  lemma PrefixedLabel(s: String)
    requires HasPrefix(s)
    ensures 4 <= LabelEnd(s)
    ensures s[0] == 0x78 && (s[1] == 0x7a || s[1] == 0x71) && s[2] == s[3] == Hyphen
  {
    assert s[..4] == PrefixEncode || s[..4] == PrefixEscape;
    assert s[0] == s[..4][0] && s[1] == s[..4][1] && s[2] == s[..4][2] && s[3] == s[..4][3];
  }

  /** The label of `head + tail` is `head` when `head` has no dot and
      `tail` is empty or starts with one. */
  lemma LabelEndOfSplice(head: String, tail: String)
    requires Dot !in head
    requires tail != [] ==> tail[0] == Dot
    ensures LabelEnd(head + tail) == |head|
  {
    assert (head + tail)[..|head|] == head;
    LabelEndAt(head + tail, |head|);
  }

  /** Both branches of the tier-2 rewrite, as one splice at the label end. */
  lemma PrefixEscapedSplice(s: String)
    requires HasPrefix(s)
    ensures 4 <= LabelEnd(s)
    ensures PrefixEscaped(s) == PrefixEscape + s[4..LabelEnd(s)] + [Hyphen, s[1]] + s[LabelEnd(s)..]
  {
    PrefixedLabel(s);
  }

  /** Both branches of the tier-3 rewrite, as one splice at the label end. */
  lemma DeviceEscapedSplice(s: String)
    ensures DeviceEscaped(s) == PrefixEscape + s[..LabelEnd(s)] + SuffixRemove + s[LabelEnd(s)..]
  {
  }

  /** Both escapes have one shape: a dot-free head, the rest of the
      label from `from` on, a dot-free suffix, then the input from its
      label end. The result's label ends after the suffix, and the two
      copied parts can be found again in it. */
  lemma SpliceAtLabel(head: String, s: String, from: nat, suffix: String)
    requires from <= LabelEnd(s)
    requires Dot !in head && Dot !in suffix
    ensures var px := LabelEnd(s); var r := head + s[from..px] + suffix + s[px..];
      var e := |head| + (px - from) + |suffix|;
      && LabelEnd(r) == e
      && r[..|head|] == head
      && r[|head|..e - |suffix|] == s[from..px]
      && r[e - |suffix|..e] == suffix
      && r[e..] == s[px..]
  {
    var px := LabelEnd(s);
    assert Dot !in s[from..px] by {
      assert s[from..px] == s[..px][from..];
    }
    var front := head + s[from..px] + suffix;
    assert Dot !in front;
    LabelEndOfSplice(front, s[px..]);
  }

  /** Tier 2 loses nothing: the output has the "xq--" prefix, its label
      is two units longer and ends in "-" and the input's second letter,
      and the input is the output with that letter put back in second
      place and the two-unit suffix taken out. */
  lemma PrefixEscapedRecoverable(s: String)
    requires HasPrefix(s)
    ensures var r := PrefixEscaped(s); var e := LabelEnd(r);
      && r[..4] == PrefixEscape
      && e == LabelEnd(s) + 2 && 6 <= e
      && r[e - 2] == Hyphen && r[e - 1] == s[1]
      && s == [r[0], r[e - 1]] + r[2..4] + r[4..e - 2] + r[e..]
  {
    PrefixedLabel(s);
    PrefixEscapedSplice(s);
    SpliceAtLabel(PrefixEscape, s, 4, [Hyphen, s[1]]);
    var px := LabelEnd(s);
    RestoreSecond(s, PrefixEscaped(s), px);
  }

  /** The arithmetic of the tier 2 read-back, on plain sequences: put the
      second unit back and drop the two units inserted at `px`. */
  lemma RestoreSecond(s: String, r: String, px: nat)
    requires 4 <= px <= |s| && |r| == |s| + 2
    requires s[0] == 0x78 && s[2] == Hyphen && s[3] == Hyphen
    requires r[..4] == PrefixEscape
    requires r[4..px] == s[4..px]
    requires r[px..px + 2] == [Hyphen, s[1]]
    requires r[px + 2..] == s[px..]
    ensures r[px] == Hyphen && r[px + 1] == s[1]
    ensures s == [r[0], r[px + 1]] + r[2..4] + r[4..px] + r[px + 2..]
  {
    assert r[px + 1] == r[px..px + 2][1];
    assert r[2..4] == PrefixEscape[2..4] == s[2..4];
    assert s == [s[0], s[1]] + s[2..4] + s[4..px] + s[px..];
  }

  /** Tier 3 loses nothing: the output has the "xq--" prefix, its label
      is six units longer and ends in "-x", and the input is the output
      without the first four units and without that suffix. */
  lemma DeviceEscapedRecoverable(s: String)
    ensures var r := DeviceEscaped(s); var e := LabelEnd(r);
      && r[..4] == PrefixEscape
      && e == LabelEnd(s) + 6
      && r[e - 2..e] == SuffixRemove
      && s == r[4..e - 2] + r[e..]
  {
    DeviceEscapedSplice(s);
    SpliceAtLabel(PrefixEscape, s, 0, SuffixRemove);
    var px := LabelEnd(s);
    assert s == s[0..px] + s[px..];
  }

  /** Pass-through: a StrictName with no ASCII capital and no reserved
      prefix is its own encoding. */
  lemma PassThrough(s: String)
    requires IsStrictName(s) && !HasUpper(s) && !HasPrefix(s)
    ensures EncodeSpec(s) == Encoded(s)
  {
    assert forall j | 0 <= j < |s| :: IsNameUnit(s[j]);
    assert forall j | 0 <= j < |s| :: !Offends(s, j);
  }

  /** Tier 2 is reached: a StrictName with no ASCII capital and a
      reserved prefix is encoded by the prefix escape. */
  lemma PrefixEscapeTier(s: String)
    requires IsStrictName(s) && !HasUpper(s) && HasPrefix(s)
    ensures EncodeSpec(s) == Encoded(PrefixEscaped(s))
  {
    assert forall j | 0 <= j < |s| :: IsNameUnit(s[j]);
    assert forall j | 0 <= j < |s| :: !Offends(s, j);
  }

  /** Tier 3 is reached: an almost-strict name that is not strict, with
      no ASCII capital and no reserved prefix, is encoded by the device
      escape. */
  lemma DeviceEscapeTier(s: String)
    requires AlmostStrict(s) && !IsStrictName(s) && !HasUpper(s) && !HasPrefix(s)
    ensures EncodeSpec(s) == Encoded(DeviceEscaped(s))
  {
    assert forall j | 0 <= j < |s| :: IsNameUnit(s[j]);
    assert forall j | 0 <= j < |s| :: !Offends(s, j);
  }

  /** A capital in a concatenation is a capital in one of its parts. */
  lemma UpperOfConcat(a: String, b: String)
    ensures HasUpper(a + b) <==> HasUpper(a) || HasUpper(b)
  {
    if HasUpper(a + b) {
      var i :| 0 <= i < |a + b| && IsUpper((a + b)[i]);
      if i >= |a| {
        assert b[i - |a|] == (a + b)[i];
      } else {
        assert a[i] == (a + b)[i];
      }
    }
    if HasUpper(a) {
      var i :| 0 <= i < |a| && IsUpper(a[i]);
      assert (a + b)[i] == a[i];
    }
    if HasUpper(b) {
      var i :| 0 <= i < |b| && IsUpper(b[i]);
      assert (a + b)[|a| + i] == b[i];
    }
  }

  /** A slice of a string without capitals has none either. */
  lemma UpperOfSlice(s: String, i: nat, j: nat)
    requires i <= j <= |s|
    ensures HasUpper(s[i..j]) ==> HasUpper(s)
  {
    if HasUpper(s[i..j]) {
      var k :| 0 <= k < j - i && IsUpper(s[i..j][k]);
      assert s[i + k] == s[i..j][k];
    }
  }

  /** Which tier produced an encoded name: the input itself (no prefix),
      the prefix escape, or the device escape (no prefix, not strict). */
  lemma EncodedTier(s: String)
    requires EncodeSpec(s).Encoded?
    ensures var x := EncodeSpec(s).name;
      || (x == s && IsStrictName(s) && !HasPrefix(s) && !HasUpper(s))
      || (IsStrictName(s) && HasPrefix(s) && x == PrefixEscaped(s) && !HasUpper(s))
      || (x == DeviceEscaped(s) && AlmostStrict(s) && !IsStrictName(s) && !HasPrefix(s) && !HasUpper(s))
  {
  }

  /** The prefix escape adds no capital. */
  lemma PrefixEscapedLower(s: String)
    requires HasPrefix(s) && !HasUpper(s)
    ensures !HasUpper(PrefixEscaped(s))
  {
    PrefixEscapedSplice(s);
    var px := LabelEnd(s);
    UpperOfSlice(s, 4, px);
    UpperOfSlice(s, px, |s|);
    UpperOfSlice(s, 1, 2);
    assert [Hyphen, s[1]] == [Hyphen] + s[1..2];
    UpperOfConcat(PrefixEscape, s[4..px]);
    UpperOfConcat([Hyphen], s[1..2]);
    UpperOfConcat(PrefixEscape + s[4..px], [Hyphen, s[1]]);
    UpperOfConcat(PrefixEscape + s[4..px] + [Hyphen, s[1]], s[px..]);
  }

  /** The device escape adds no capital. */
  lemma DeviceEscapedLower(s: String)
    requires !HasUpper(s)
    ensures !HasUpper(DeviceEscaped(s))
  {
    DeviceEscapedSplice(s);
    var px := LabelEnd(s);
    UpperOfSlice(s, 0, px);
    UpperOfSlice(s, px, |s|);
    UpperOfConcat(PrefixEscape, s[..px]);
    UpperOfConcat(PrefixEscape + s[..px], SuffixRemove);
    UpperOfConcat(PrefixEscape + s[..px] + SuffixRemove, s[px..]);
  }

  /** Every name the first three tiers produce is free of ASCII capitals,
      and is either the input itself, with no reserved prefix, or carries
      the "xq--" prefix. */
  lemma EncodedShape(s: String)
    requires EncodeSpec(s).Encoded?
    ensures var x := EncodeSpec(s).name;
      && !HasUpper(x)
      && ((x == s && !HasPrefix(x)) || (|x| >= 4 && x[..4] == PrefixEscape))
  {
    var x := EncodeSpec(s).name;
    EncodedTier(s);
    if HasPrefix(s) && x == PrefixEscaped(s) {
      PrefixEscapedRecoverable(s);
      PrefixEscapedLower(s);
    } else if x == DeviceEscaped(s) && x != s {
      DeviceEscapedRecoverable(s);
      DeviceEscapedLower(s);
    }
  }

  /** Reads the input back from a name the first three tiers produced:
      an unprefixed name is the input itself; otherwise the unit before
      the label end tells the device escape ("x") from the prefix escape
      (the original second letter). */
  function ReadBack(x: String): String
  {
    if !HasPrefix(x) then x
    else
      var e := LabelEnd(x);
      if e < 6 then x
      else if x[e - 1] == 0x78 then x[4..e - 2] + x[e..]
      else [x[0], x[e - 1]] + x[2..4] + x[4..e - 2] + x[e..]
  }

  /** The prefix escape is undone by `ReadBack`. */
  lemma ReadBackPrefixEscaped(s: String)
    requires HasPrefix(s)
    ensures ReadBack(PrefixEscaped(s)) == s
  {
    PrefixEscapedRecoverable(s);
    PrefixedLabel(s);
  }

  /** The device escape is undone by `ReadBack`. */
  lemma ReadBackDeviceEscaped(s: String)
    ensures ReadBack(DeviceEscaped(s)) == s
  {
    DeviceEscapedRecoverable(s);
    var r := DeviceEscaped(s);
    assert r[LabelEnd(r) - 1] == SuffixRemove[1];
  }

  /** Every name the first three tiers return reads back to the input. */
  lemma ReadBackEncoded(s: String)
    requires EncodeSpec(s).Encoded?
    ensures ReadBack(EncodeSpec(s).name) == s
  {
    EncodedTier(s);
    var x := EncodeSpec(s).name;
    if HasPrefix(s) {
      ReadBackPrefixEscaped(s);
    } else if x != s {
      ReadBackDeviceEscaped(s);
    }
  }

  /** The first three tiers never give two inputs the same name. */
  lemma EncodeInjective(a: String, b: String)
    requires EncodeSpec(a).Encoded? && EncodeSpec(a) == EncodeSpec(b)
    ensures a == b
  {
    ReadBackEncoded(a);
    ReadBackEncoded(b);
  }

  /** Every surrogate is half of a pair: a low one right after a high
      one, a high one right before a low one. */
  predicate WellPaired(s: String)
  {
    && (forall j | 0 <= j < |s| && IsLowSurrogate(s[j]) :: 0 < j && IsHighSurrogate(s[j - 1]))
    && (forall j | 0 <= j < |s| && IsHighSurrogate(s[j]) :: j + 1 < |s| && IsLowSurrogate(s[j + 1]))
  }

  /** For an input of valid length with no control code, slash or
      backslash, `encode` throws exactly when the surrogates are not
      well paired, and then for improper surrogates. */
  lemma SurrogateRejection(s: String)
    requires 1 <= |s| <= LengthLimit
    requires forall j | 0 <= j < |s| :: !IsControl(s[j]) && s[j] != Slash && s[j] != Backslash
    ensures EncodeSpec(s).Rejected? <==> !WellPaired(s)
    ensures EncodeSpec(s).Rejected? ==> EncodeSpec(s).failure == ImproperSurrogate
  {
    NoOffenceIffWellPaired(s);
    if FirstFault(s, 0).Some? {
      var k :| 0 <= k < |s| && Offends(s, k) && FirstFault(s, 0).value == FailureOf(s[k]);
      assert !IsControl(s[k]) && s[k] != Slash && s[k] != Backslash;
    }
  }

  /** With no control code, slash or backslash, only a badly paired
      surrogate can offend. */
  lemma NoOffenceIffWellPaired(s: String)
    requires forall j | 0 <= j < |s| :: !IsControl(s[j]) && s[j] != Slash && s[j] != Backslash
    ensures (forall k | 0 <= k < |s| :: !Offends(s, k)) <==> WellPaired(s)
  {
    if !(forall j | 0 <= j < |s| && IsLowSurrogate(s[j]) :: 0 < j && IsHighSurrogate(s[j - 1])) {
      var j :| 0 <= j < |s| && IsLowSurrogate(s[j]) && !(0 < j && IsHighSurrogate(s[j - 1]));
      assert Offends(s, j);
    }
    if !(forall j | 0 <= j < |s| && IsHighSurrogate(s[j]) :: j + 1 < |s| && IsLowSurrogate(s[j + 1])) {
      var j :| 0 <= j < |s| && IsHighSurrogate(s[j]) && !(j + 1 < |s| && IsLowSurrogate(s[j + 1]));
      assert Offends(s, j);
    }
  }

  /** "con" */
  const ConName: String := [0x63, 0x6f, 0x6e]

  /** `encode("con")` is "xq--con-x". */
  lemma DeviceEscapeExample()
    ensures EncodeSpec(ConName) == Encoded(PrefixEscape + ConName + SuffixRemove)
  {
    var s := ConName;
    assert AlmostStrict(s);
    LabelEndAt(s, 3);
    StrictNameIffNotDevice(s);
    assert SpellsIgnoringCase(s, Con);
    assert !HasUpper(s);
    assert forall j | 0 <= j < |s| :: !Offends(s, j);
  }

  /** "xz--a.b" */
  const XzName: String := [0x78, 0x7a, Hyphen, Hyphen, LowerA, Dot, 0x62]

  /** `encode("xz--a.b")` is "xq--a-z.b": the prefix becomes "xq--" and
      "-z" goes before the first dot. */
  lemma PrefixEscapeExample()
    ensures EncodeSpec(XzName) == Encoded([0x78, 0x71, Hyphen, Hyphen, LowerA, Hyphen, 0x7a, Dot, 0x62])
  {
    var s := XzName;
    assert AlmostStrict(s) by {
      forall i | 0 <= i < |s| - 1
        ensures PairAllowed(s[i], s[i + 1])
      {
      }
    }
    assert s[..4] == PrefixEncode;
    assert s[..5] == [0x78, 0x7a, Hyphen, Hyphen, LowerA];
    LabelEndAt(s, 5);
    StrictNameIffNotDevice(s);
    assert !HasUpper(s);
    PrefixEscapeTier(s);
    assert IndexOf(s, Dot) == 5;
  }

  /** The first four units of an almost-strict prefixed name can go: what
      remains is almost strict with a non-empty label four units shorter. */
  lemma DropPrefix(s: String)
    requires AlmostStrict(s) && HasPrefix(s)
    ensures AlmostStrict(s[4..])
    ensures 0 < LabelEnd(s[4..]) && LabelEnd(s[4..]) + 4 == LabelEnd(s)
  {
    PrefixedLabel(s);
    var t := s[4..];
    var px := LabelEnd(s);
    assert |s| > 4 && s[4] != Dot by {
      assert s[3] == Hyphen;
      if |s| > 4 {
        assert PairAllowed(s[3], s[4]);
      }
    }
    forall i | 0 <= i < |t| - 1
      ensures PairAllowed(t[i], t[i + 1])
    {
      assert t[i] == s[i + 4] && t[i + 1] == s[i + 4 + 1];
    }
    assert forall i | 0 <= i < |t| :: IsNameUnit(t[i]) by {
      forall i | 0 <= i < |t|
        ensures IsNameUnit(t[i])
      {
        assert t[i] == s[i + 4];
      }
    }
    assert t[|t| - 1] == s[|s| - 1];
    assert t[..px - 4] == s[4..px];
    assert Dot !in s[4..px] by { assert s[4..px] == s[..px][4..]; }
    LabelEndAt(t, px - 4);
  }

  /** Putting "xq--" in front of an almost-strict name whose label is not
      empty keeps it almost strict (within the length bound) and moves its
      label end by four. */
  lemma PrependEscape(t: String)
    requires AlmostStrict(t) && 0 < LabelEnd(t)
    requires |t| + 4 <= LengthLimit
    ensures AlmostStrict(PrefixEscape + t)
    ensures LabelEnd(PrefixEscape + t) == LabelEnd(t) + 4
  {
    var u := PrefixEscape + t;
    var e := LabelEnd(t);
    assert t[0] != Dot by { assert t[0] == t[..e][0]; }
    forall i | 0 <= i < |u| - 1
      ensures PairAllowed(u[i], u[i + 1])
    {
      if i >= 4 {
        assert u[i] == t[i - 4] && u[i + 1] == t[i - 4 + 1];
      }
    }
    assert forall i | 0 <= i < |u| :: IsNameUnit(u[i]) by {
      forall i | 0 <= i < |u|
        ensures IsNameUnit(u[i])
      {
        if i >= 4 {
          assert u[i] == t[i - 4];
        }
      }
    }
    assert u[|u| - 1] == t[|t| - 1];
    assert u[..e + 4] == PrefixEscape + t[..e];
    LabelEndAt(u, e + 4);
  }

  /** Inserting "-" and a lower-case letter at the label end of an
      almost-strict name whose label is not empty keeps it almost strict
      (within the length bound) and moves its label end by two. */
  lemma InsertSuffix(t: String, c: CodeUnit)
    requires AlmostStrict(t) && 0 < LabelEnd(t)
    requires IsLower(c)
    requires |t| + 2 <= LengthLimit
    ensures var e := LabelEnd(t); var u := t[..e] + [Hyphen, c] + t[e..];
      AlmostStrict(u) && LabelEnd(u) == e + 2
  {
    var e := LabelEnd(t);
    var u := t[..e] + [Hyphen, c] + t[e..];
    assert t[e - 1] != Dot by { assert t[e - 1] == t[..e][e - 1]; }
    assert t[0] != Dot by { assert t[0] == t[..e][0]; }
    forall i | 0 <= i < |u| - 1
      ensures PairAllowed(u[i], u[i + 1])
    {
      if i < e - 1 {
        assert u[i] == t[i] && u[i + 1] == t[i + 1];
      } else if i >= e + 2 {
        assert u[i] == t[i - 2] && u[i + 1] == t[i - 2 + 1];
      }
    }
    assert forall i | 0 <= i < |u| :: IsNameUnit(u[i]) by {
      forall i | 0 <= i < |u|
        ensures IsNameUnit(u[i])
      {
        if i < e {
          assert u[i] == t[i];
        } else if i >= e + 2 {
          assert u[i] == t[i - 2];
        }
      }
    }
    assert u[0] == t[0];
    assert e < |t| ==> u[|u| - 1] == t[|t| - 1];
    assert Dot !in t[..e] + [Hyphen, c];
    LabelEndOfSplice(t[..e] + [Hyphen, c], t[e..]);
  }

  /** A label longer than four units is never a device label, so an
      almost-strict name with such a label is a StrictName. */
  lemma LongLabelStrict(s: String)
    requires AlmostStrict(s) && LabelEnd(s) > 4
    ensures IsStrictName(s)
  {
    StrictNameIffNotDevice(s);
  }

  /** Tier 2 as an insertion: "xq--" + the input after its prefix, with
      "-" and the prefix's second letter inserted at the label end. */
  lemma PrefixEscapedAsInsert(s: String)
    requires HasPrefix(s)
    ensures var u := PrefixEscape + s[4..]; var px := LabelEnd(s);
      && px <= |u|
      && PrefixEscaped(s) == u[..px] + [Hyphen, s[1]] + u[px..]
  {
    var u := PrefixEscape + s[4..];
    var px := LabelEnd(s);
    PrefixEscapedSplice(s);
    assert u[..px] == PrefixEscape + s[4..px];
    assert u[px..] == s[px..];
  }

  /** The base of the tier-2 insertion is almost strict, with the same
      label end as the input. */
  lemma PrefixEscapeBase(s: String)
    requires AlmostStrict(s) && HasPrefix(s)
    requires |s| <= LengthLimit
    ensures AlmostStrict(PrefixEscape + s[4..])
    ensures LabelEnd(PrefixEscape + s[4..]) == LabelEnd(s)
  {
    DropPrefix(s);
    PrependEscape(s[4..]);
  }

  /** Tier 2 gives a StrictName whenever the result fits the bound. */
  lemma PrefixEscapedStrict(s: String)
    requires IsStrictName(s) && HasPrefix(s)
    requires |s| + 2 <= LengthLimit
    ensures IsStrictName(PrefixEscaped(s))
  {
    PrefixedLabel(s);
    PrefixEscapeBase(s);
    PrefixEscapedAsInsert(s);
    InsertSuffix(PrefixEscape + s[4..], s[1]);
    LongLabelStrict(PrefixEscaped(s));
  }

  /** An almost-strict name that is not strict has a device label, which
      is three or four units long. */
  lemma NotStrictLabel(s: String)
    requires AlmostStrict(s) && !IsStrictName(s)
    ensures 3 <= LabelEnd(s) <= 4
  {
    StrictNameIffNotDevice(s);
  }

  /** Tier 3 as an insertion: "xq--" + the input, with "-x" inserted at
      the label end. */
  lemma DeviceEscapedAsInsert(s: String)
    ensures var u := PrefixEscape + s; var px := LabelEnd(s);
      DeviceEscaped(s) == u[..px + 4] + [Hyphen, 0x78] + u[px + 4..]
  {
    var u := PrefixEscape + s;
    var px := LabelEnd(s);
    DeviceEscapedSplice(s);
    assert u[..px + 4] == PrefixEscape + s[..px];
    assert u[px + 4..] == s[px..];
  }

  /** Tier 3 gives a StrictName whenever the result fits the bound and
      the label is not empty, as a device label never is. */
  lemma DeviceEscapedStrict(s: String)
    requires AlmostStrict(s) && 0 < LabelEnd(s)
    requires |s| + 6 <= LengthLimit
    ensures IsStrictName(DeviceEscaped(s))
  {
    PrependEscape(s);
    DeviceEscapedAsInsert(s);
    InsertSuffix(PrefixEscape + s, 0x78);
    LongLabelStrict(DeviceEscaped(s));
  }

  /** Within the length bound, every name the first three tiers produce
      is a StrictName. */
  lemma StrictWithinBound(s: String)
    requires EncodeSpec(s).Encoded? && |EncodeSpec(s).name| <= LengthLimit
    ensures IsStrictName(EncodeSpec(s).name)
  {
    EncodedTier(s);
    var x := EncodeSpec(s).name;
    if x == s {
    } else if HasPrefix(s) && x == PrefixEscaped(s) {
      PrefixEscapedStrict(s);
    } else {
      NotStrictLabel(s);
      DeviceEscapedStrict(s);
    }
  }
}
