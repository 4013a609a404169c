/** Two places where `encode` as written does not do what it evidently
    means to do, each with the behaviour as written, an input that shows
    the difference, and the intended behaviour with its property proved. */
module Findings {
  import opened CodeUnits
  import opened Grammar
  import opened Encoder

  /** How a call of `encode` as written ends: it returns or throws one of
      its own exceptions (`Returned`), or the engine throws a
      ReferenceError. */
  datatype Completion = Returned(outcome: Outcome) | ReferenceError

  /** `encode` exactly as written: the validation loop starts with
      `cpc++`, and `cpc` is declared nowhere; reading the undeclared
      variable throws a ReferenceError, so every input that reaches the
      loop (1 to 255 units) ends there. */
  function EncodeAsWritten(s: String): (r: Completion)
    ensures r.Returned? <==> |s| == 0 || |s| > LengthLimit
    ensures r.Returned? ==> r.outcome == EncodeSpec(s)
  {
    if |s| < 1 then Returned(Rejected(Empty))
    else if |s| > LengthLimit then Returned(Rejected(TooLong))
    else ReferenceError
  }

  /** "hello.txt" */
  const HelloTxt: String := [0x68, 0x65, 0x6c, 0x6c, 0x6f, Dot, 0x74, 0x78, 0x74]

  /** As written, `encode("hello.txt")` throws, where the intended
      validation loop lets it through unchanged. */
  lemma ReferenceErrorWitness()
    ensures EncodeAsWritten(HelloTxt) == ReferenceError
    ensures EncodeSpec(HelloTxt) == Encoded(HelloTxt)
  {
    var s := HelloTxt;
    assert AlmostStrict(s) by {
      forall i | 0 <= i < |s| - 1
        ensures PairAllowed(s[i], s[i + 1])
      {
      }
    }
    assert s[..5] == [0x68, 0x65, 0x6c, 0x6c, 0x6f];
    LabelEndAt(s, 5);
    StrictNameIffNotDevice(s);
    assert s[..4] != PrefixEncode && s[..4] != PrefixEscape;
    assert !HasUpper(s);
    PassThrough(s);
  }

  /** `encode` with the length bound applied to its result, as its own
      description of the `tooLong` flag says: a result over 255 units is
      refused as too long rather than returned. Every name it returns is
      a StrictName, and it refuses exactly what `encode` refuses plus the
      over-long results. */
  function EncodeBounded(s: String): (r: Outcome)
    ensures r.Encoded? ==> IsStrictName(r.name)
    ensures r.Rejected? <==> EncodeSpec(s).Rejected? || (EncodeSpec(s).Encoded? && |EncodeSpec(s).name| > LengthLimit)
    ensures r.Encoded? ==> r == EncodeSpec(s)
    ensures EncodeSpec(s).Rejected? ==> r == EncodeSpec(s)
    ensures EncodeSpec(s).Encoded? && |EncodeSpec(s).name| > LengthLimit ==> r == Rejected(TooLong)
    ensures EncodeSpec(s).Encoded? && |EncodeSpec(s).name| <= LengthLimit ==> r == EncodeSpec(s)
    ensures EncodeSpec(s).General? ==> r == General
  {
    match EncodeSpec(s)
    case Encoded(x) =>
      if |x| > LengthLimit then Rejected(TooLong)
      else StrictWithinBound(s); Encoded(x)
    case other => other
  }

  /** "con." followed by 251 "a": 255 units, a device name. */
  const LongCon: String := Con + [Dot] + seq(251, _ => LowerA)

  /** As written, the device escape of a 255-unit input returns 261
      units, which is not a StrictName; the bounded encoder refuses it as
      too long. */
  lemma OverflowWitness()
    ensures EncodeSpec(LongCon).Encoded?
    ensures |EncodeSpec(LongCon).name| == 261
    ensures !IsStrictName(EncodeSpec(LongCon).name)
    ensures EncodeBounded(LongCon) == Rejected(TooLong)
  {
    var s := LongCon;
    assert |s| == 255;
    assert AlmostStrict(s) && !IsStrictName(s) by {
      LongConDevice();
    }
    assert !HasPrefix(s) by {
      assert s[..4] != PrefixEncode && s[..4] != PrefixEscape;
    }
    assert !HasUpper(s) && forall j | 0 <= j < |s| :: !Offends(s, j) by {
      assert forall i | 0 <= i < |s| :: IsNameUnit(s[i]);
    }
    assert EncodeSpec(s) == Encoded(DeviceEscaped(s));
  }

  /** "con." followed by 251 "a" is almost strict and its label is "con". */
  lemma LongConDevice()
    ensures AlmostStrict(LongCon) && !IsStrictName(LongCon)
  {
    var s := LongCon;
    assert forall i | 4 <= i < |s| :: s[i] == LowerA;
    assert AlmostStrict(s) by {
      forall i | 0 <= i < |s| - 1
        ensures PairAllowed(s[i], s[i + 1])
      {
      }
    }
    assert s[..3] == Con;
    LabelEndAt(s, 3);
    StrictNameIffNotDevice(s);
    assert SpellsIgnoringCase(s[..3], Con);
  }
}
