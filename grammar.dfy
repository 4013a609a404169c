/** The StrictName grammar: `isAlmostStrict` (every rule except the
    reserved-device rule) and `isStrictName` (all rules). */
module Grammar {
  import opened CodeUnits

  /** Neither a hyphen next to a dot, on either side, nor two dots in a row. */
  predicate PairAllowed(a: CodeUnit, b: CodeUnit)
  {
    !(a == Hyphen && b == Dot) && !(a == Dot && b == Hyphen) && !(a == Dot && b == Dot)
  }

  /** The almost-strict rules, stated over the whole string: "." and ".."
      are accepted outright; any other string has 1 to 255 units, all
      ASCII letters, digits, hyphens, underscores or dots, does not start
      with a dot, does not end with a hyphen or a dot, and has no
      forbidden adjacent pair. A leading hyphen is allowed. */
  predicate AlmostStrict(s: String)
  {
    || s == [Dot]
    || s == [Dot, Dot]
    || (&& 1 <= |s| <= LengthLimit
        && (forall i | 0 <= i < |s| :: IsNameUnit(s[i]))
        && s[0] != Dot
        && s[|s| - 1] != Hyphen && s[|s| - 1] != Dot
        && (forall i | 0 <= i < |s| - 1 :: PairAllowed(s[i], s[i + 1])))
  }

  /** `isAlmostStrict`: one pass over the code units, returning false at
      the first rule a unit breaks. */
  method IsAlmostStrict(s: String) returns (b: bool)
    ensures b == AlmostStrict(s)
  {
    if s == [Dot] || s == [Dot, Dot] {
      return true;
    }
    if |s| < 1 || |s| > LengthLimit {
      return false;
    }
    var i := 0;
    while i < |s|
      invariant 0 <= i <= |s|
      invariant forall k | 0 <= k < i :: IsNameUnit(s[k])
      invariant i > 0 ==> s[0] != Dot
      invariant i == |s| ==> s[|s| - 1] != Hyphen && s[|s| - 1] != Dot
      invariant forall k | 0 <= k < i && k + 1 < |s| :: !(s[k] == Hyphen && s[k + 1] == Dot) && !(s[k] == Dot && s[k + 1] == Dot)
      invariant forall k | 0 <= k && k + 1 < i :: !(s[k] == Dot && s[k + 1] == Hyphen)
    {
      var c := s[i];
      if (c < Zero || c > Nine) && (c < UpperA || c > UpperZ) && (c < LowerA || c > LowerZ)
         && c != Hyphen && c != Underscore && c != Dot
      {
        assert !IsNameUnit(s[i]);
        return false;
      }
      if i < 1 && c == Dot {
        return false;
      }
      if i >= |s| - 1 {
        if c == Hyphen || c == Dot {
          return false;
        }
      }
      if i > 0 && c == Hyphen {
        if s[i - 1] == Dot {
          assert !PairAllowed(s[i - 1], s[i - 1 + 1]);
          return false;
        }
      }
      if i < |s| - 1 && c == Hyphen {
        if s[i + 1] == Dot {
          assert !PairAllowed(s[i], s[i + 1]);
          return false;
        }
      }
      if i < |s| - 1 && c == Dot {
        if s[i + 1] == Dot {
          assert !PairAllowed(s[i], s[i + 1]);
          return false;
        }
      }
      i := i + 1;
    }
    return true;
  }

  /** The units of the reserved device stems, in lower case. */
  const Aux: String := [0x61, 0x75, 0x78]
  const Con: String := [0x63, 0x6f, 0x6e]
  const Nul: String := [0x6e, 0x75, 0x6c]
  const Prn: String := [0x70, 0x72, 0x6e]
  const Com: String := [0x63, 0x6f, 0x6d]
  const Lpt: String := [0x6c, 0x70, 0x74]
  const ComHash: String := Com + [Hash]
  const LptHash: String := Lpt + [Hash]

  /** `isStrictName`, step by step as the source computes it: the device
      candidate is the label before the first dot; a four-unit candidate
      ending in a digit has that digit replaced by `#`; the lower-cased
      candidate is compared with the six reserved stems. */
  function IsStrictName(s: String): (r: bool)
    ensures r ==> AlmostStrict(s)
  {
    if !AlmostStrict(s) then false
    else
      var firstDot := IndexOf(s, Dot);
      var dc := if firstDot < 0 then s else if firstDot == 0 then [] else s[..firstDot];
      if |dc| < 3 || |dc| > 4 then true
      else if |dc| == 4 && !IsDigit(dc[3]) then true
      else
        var stem := if |dc| == 4 then dc[..3] + [Hash] else dc;
        var lower := AsciiLower(stem);
        !(lower == Aux || lower == ComHash || lower == Con || lower == LptHash || lower == Nul || lower == Prn)
  }

  /** `stem` spells the lower-case ASCII word `word`, each letter in
      either case. */
  predicate SpellsIgnoringCase(stem: String, word: String)
  {
    && |stem| == |word|
    && forall i | 0 <= i < |word| :: stem[i] == word[i] || stem[i] + (LowerA - UpperA) == word[i]
  }

  /** A reserved device label, stated directly: three units spelling aux,
      con, nul or prn, or four units whose last is a digit and whose first
      three spell com or lpt, in any ASCII case. */
  predicate IsDeviceLabel(stem: String)
  {
    || (|stem| == 3 && (SpellsIgnoringCase(stem, Aux) || SpellsIgnoringCase(stem, Con)
                         || SpellsIgnoringCase(stem, Nul) || SpellsIgnoringCase(stem, Prn)))
    || (|stem| == 4 && IsDigit(stem[3])
        && (SpellsIgnoringCase(stem[..3], Com) || SpellsIgnoringCase(stem[..3], Lpt)))
  }

  /** Lower-casing `stem` gives the lower-case word `word` exactly when
      `stem` spells `word` ignoring case. */
  lemma LowerSpells(stem: String, word: String)
    requires forall i | 0 <= i < |word| :: IsLower(word[i])
    ensures AsciiLower(stem) == word <==> SpellsIgnoringCase(stem, word)
  {
    if SpellsIgnoringCase(stem, word) {
      forall i | 0 <= i < |word|
        ensures AsciiLower(stem)[i] == word[i]
      {
        assert IsLower(word[i]);
      }
    }
  }

  /** The digit-to-`#` step: the lower-cased four-unit stem is `w#`
      exactly when the first three units spell `w`. */
  lemma LowerHashSpells(dc: String, word: String)
    requires |dc| == 4 && |word| == 3
    requires forall i | 0 <= i < 3 :: IsLower(word[i])
    ensures AsciiLower(dc[..3] + [Hash]) == word + [Hash] <==> SpellsIgnoringCase(dc[..3], word)
  {
    var lower := AsciiLower(dc[..3] + [Hash]);
    assert lower == AsciiLower(dc[..3]) + [Hash];
    LowerSpells(dc[..3], word);
    if lower == word + [Hash] {
      assert AsciiLower(dc[..3]) == lower[..3] == word;
    }
  }

  /** For an almost-strict name, the reserved-device rule is the only
      further rule: it is a StrictName exactly when its label before the
      first dot (the whole name when there is no dot, empty when the dot
      comes first) is not a device label. */
  lemma StrictNameIffNotDevice(s: String)
    requires AlmostStrict(s)
    ensures IsStrictName(s) <==> !IsDeviceLabel(s[..LabelEnd(s)])
  {
    var firstDot := IndexOf(s, Dot);
    var dc := if firstDot < 0 then s else if firstDot == 0 then [] else s[..firstDot];
    assert dc == s[..LabelEnd(s)];
    if 3 <= |dc| <= 4 {
      if |dc| == 3 {
        LowerSpells(dc, Aux);
        LowerSpells(dc, Con);
        LowerSpells(dc, Nul);
        LowerSpells(dc, Prn);
        assert AsciiLower(dc) != ComHash && AsciiLower(dc) != LptHash;
      } else if IsDigit(dc[3]) {
        var stem := dc[..3] + [Hash];
        LowerHashSpells(dc, Com);
        LowerHashSpells(dc, Lpt);
        assert AsciiLower(stem)[3] == Hash;
        assert AsciiLower(stem) != Aux && AsciiLower(stem) != Con;
        assert AsciiLower(stem) != Nul && AsciiLower(stem) != Prn;
      }
    }
  }

  /** The labels "." and ".." are StrictNames: their device candidate is
      empty. */
  lemma DotNamesStrict()
    ensures IsStrictName([Dot]) && IsStrictName([Dot, Dot])
  {
    assert IndexOf([Dot], Dot) == 0;
    assert IndexOf([Dot, Dot], Dot) == 0;
  }
}
