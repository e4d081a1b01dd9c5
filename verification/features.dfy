/**
 * `extractFeatures` (lib/textract.ts:19-34): the seven numbers computed for a piece of text
 * as input to the decision-tree classifier.
 */
module Features {
  import opened Text
  import opened Seqs
  import SlotParser

  /** The texts that set the weekday flag; unlike the header scan, this list includes SAB. */
  const FlagWeekdays: seq<string> := ["LUN", "MAR", "MIE", "JUE", "VIE", "SAB"]

  /** `[A-Z\-]`: an upper-case ASCII letter or a hyphen. */
  predicate IsUpperOrHyphen(c: char) {
    IsUpper(c) || c == '-'
  }

  /** `/[A-Z]\d{2,3}|[A-Z\-]{2,}/` has a match starting at `i`. */
  predicate RoomCodeAt(s: string, i: nat) {
    || (i + 2 < |s| && IsUpper(s[i]) && IsDigit(s[i + 1]) && IsDigit(s[i + 2]))
    || (i + 1 < |s| && IsUpperOrHyphen(s[i]) && IsUpperOrHyphen(s[i + 1]))
  }

  /** Scans start positions `i`, `i + 1`, ... for a room-code match: `RegExp.prototype.test`. */
  function HasRoomCodeFrom(s: string, i: nat): (b: bool)
    requires i <= |s|
    ensures b <==> exists k: nat | i <= k < |s| :: RoomCodeAt(s, k)
    decreases |s| - i
  {
    if i == |s| then false
    else RoomCodeAt(s, i) || HasRoomCodeFrom(s, i + 1)
  }

  /** `text.replace(/[^A-Z]/g, "").length`: one per position holding an upper-case letter. */
  function UpperCount(s: string): (n: nat)
    ensures n == |Positions(s, IsUpper)|
    ensures n <= |s|
    ensures n == 0 <==> forall k | 0 <= k < |s| :: !IsUpper(s[k])
  {
    if s == [] then 0
    else
      var n := UpperCount(s[..|s| - 1]) + (if IsUpper(s[|s| - 1]) then 1 else 0);
      PositionsStep(s, IsUpper);
      NoneSelectedIff(s, IsUpper);
      n
  }

  /** `(text.match(/\d/g) || []).length`: one per position holding a digit. */
  function DigitCount(s: string): (n: nat)
    ensures n == |Positions(s, IsDigit)|
    ensures n <= |s|
    ensures n == 0 <==> forall k | 0 <= k < |s| :: !IsDigit(s[k])
  {
    if s == [] then 0
    else
      var n := DigitCount(s[..|s| - 1]) + (if IsDigit(s[|s| - 1]) then 1 else 0);
      PositionsStep(s, IsDigit);
      NoneSelectedIff(s, IsDigit);
      n
  }

  function Flag(b: bool): (f: real)
    ensures f == 1.0 <==> b
    ensures f == 0.0 <==> !b
  {
    if b then 1.0 else 0.0
  }

  /** `upperCount / (len || 1)`, as an exact ratio. */
  function UpperRatio(text: string): (q: real)
    ensures 0.0 <= q <= 1.0
    ensures q == 0.0 <==> forall k | 0 <= k < |text| :: !IsUpper(text[k])
    ensures q * (if |text| == 0 then 1 else |text|) as real == |Positions(text, IsUpper)| as real
  {
    var upper := UpperCount(text);
    var q := upper as real / (if |text| == 0 then 1 else |text|) as real;
    ShareOf(upper, |text|, q);
    q
  }

  /** `part / (whole || 1)` for a part no larger than the whole. */
  lemma ShareOf(part: nat, whole: nat, q: real)
    requires part <= whole
    requires q == part as real / (if whole == 0 then 1 else whole) as real
    ensures 0.0 <= q <= 1.0 && (q == 0.0 <==> part == 0)
    ensures q * (if whole == 0 then 1 else whole) as real == part as real
  {
    RatioBounds(part, if whole == 0 then 1 else whole);
  }

  /** A share of a positive whole lies between 0 and 1, and is 0 exactly for an empty share. */
  lemma RatioBounds(part: nat, whole: nat)
    requires 0 < part <= whole || part == 0 < whole
    ensures 0.0 <= part as real / whole as real <= 1.0
    ensures part as real / whole as real == 0.0 <==> part == 0
    ensures part as real / whole as real * whole as real == part as real
  {
    var q := part as real / whole as real;
    assert q * whole as real == part as real;
  }

  /** `text.trim().split(/\s+/).length`. */
  function WordCount(text: string): (n: nat)
    ensures 1 <= n
    ensures text != [] ==> n <= |text|
  {
    WordCountBound(text);
    |SplitOnWhitespace(Trim(text))|
  }

  /** `/(\d{1,2}[:\-]?\d{1,2})/.test(text)`. */
  function HasTime(text: string): (b: bool)
    ensures b <==> exists i: nat :: TimeSeedAt(text, i)
  {
    HasTimeIsMatch(text);
    SlotParser.Search(text, 0, false).Some?
  }

  /** The time test agrees with the declarative "some substring is a time token". */
  lemma HasTimeIsMatch(text: string)
    ensures SlotParser.Search(text, 0, false).Some? <==> SlotParser.HasMatch(text, false)
    ensures SlotParser.Search(text, 0, false).Some? <==> exists i: nat :: TimeSeedAt(text, i)
  {
    SlotParser.SearchIsLeftmostLongest(text, false);
    TimeSeedIsMatch(text);
  }

  /**
   * `extractFeatures`: length, word count, share of upper-case letters, digit count, and
   * flags for a time token, a room code and an exact weekday abbreviation.
   */
  function ExtractFeatures(text: string): (v: seq<real>)
    ensures |v| == 7
    ensures v[0] == |text| as real
  {
    [ |text| as real, WordCount(text) as real, UpperRatio(text), DigitCount(text) as real
    , Flag(HasTime(text)), Flag(HasRoomCodeFrom(text, 0)), Flag(text in FlagWeekdays) ]
  }

  /**
   * The three flags are 0 or 1: a time token anywhere, a room code anywhere, and the whole
   * text being a weekday abbreviation.
   */
  lemma FlagFeatures(text: string)
    ensures var v := ExtractFeatures(text);
            && v[4] in {0.0, 1.0} && v[5] in {0.0, 1.0} && v[6] in {0.0, 1.0}
            && (v[4] == 1.0 <==> SlotParser.HasMatch(text, false))
            && (v[5] == 1.0 <==> exists k: nat | k < |text| :: RoomCodeAt(text, k))
            && (v[6] == 1.0 <==> text in FlagWeekdays)
  {
    SevenAt(|text| as real, WordCount(text) as real, UpperRatio(text), DigitCount(text) as real,
            Flag(HasTime(text)), Flag(HasRoomCodeFrom(text, 0)), Flag(text in FlagWeekdays));
    HasTimeIsMatch(text);
  }

  /** The word-count feature is the number of pieces the trimmed text splits into. */
  lemma WordCountFeature(text: string)
    ensures ExtractFeatures(text)[1] == |SplitOnWhitespace(Trim(text))| as real
  {
    SevenAt(|text| as real, WordCount(text) as real, UpperRatio(text), DigitCount(text) as real,
            Flag(HasTime(text)), Flag(HasRoomCodeFrom(text, 0)), Flag(text in FlagWeekdays));
  }

  /** The upper-case share is the number of upper-case positions over the length (or 1). */
  lemma UpperShareFeature(text: string)
    ensures ExtractFeatures(text)[2] == |Positions(text, IsUpper)| as real / (if |text| == 0 then 1 else |text|) as real
  {
    SevenAt(|text| as real, WordCount(text) as real, UpperRatio(text), DigitCount(text) as real,
            Flag(HasTime(text)), Flag(HasRoomCodeFrom(text, 0)), Flag(text in FlagWeekdays));
  }

  /** The digit-count feature is the number of positions holding a digit. */
  lemma DigitCountFeature(text: string)
    ensures ExtractFeatures(text)[3] == |Positions(text, IsDigit)| as real
  {
    SevenAt(|text| as real, WordCount(text) as real, UpperRatio(text), DigitCount(text) as real,
            Flag(HasTime(text)), Flag(HasRoomCodeFrom(text, 0)), Flag(text in FlagWeekdays));
  }

  /** At least one word, and no more words than characters in a non-empty text. */
  lemma WordFeatureBounds(text: string)
    ensures var v := ExtractFeatures(text);
            1.0 <= v[1] && (text != [] ==> v[1] <= v[0])
  {
    SevenAt(|text| as real, WordCount(text) as real, UpperRatio(text), DigitCount(text) as real,
            Flag(HasTime(text)), Flag(HasRoomCodeFrom(text, 0)), Flag(text in FlagWeekdays));
  }

  /** The upper-case share lies between 0 and 1, and is 0 exactly without upper-case letters. */
  lemma UpperShareFeatureBounds(text: string)
    ensures var v := ExtractFeatures(text);
            0.0 <= v[2] <= 1.0 && (v[2] == 0.0 <==> forall k | 0 <= k < |text| :: !IsUpper(text[k]))
  {
    SevenAt(|text| as real, WordCount(text) as real, UpperRatio(text), DigitCount(text) as real,
            Flag(HasTime(text)), Flag(HasRoomCodeFrom(text, 0)), Flag(text in FlagWeekdays));
  }

  /** No more digits than characters. */
  lemma DigitFeatureBounds(text: string)
    ensures var v := ExtractFeatures(text);
            0.0 <= v[3] <= v[0]
  {
    SevenAt(|text| as real, WordCount(text) as real, UpperRatio(text), DigitCount(text) as real,
            Flag(HasTime(text)), Flag(HasRoomCodeFrom(text, 0)), Flag(text in FlagWeekdays));
  }

  /** A text has at most as many words as characters, and always at least one. */
  lemma WordCountBound(text: string)
    ensures text != [] ==> |SplitOnWhitespace(Trim(text))| <= |text|
  {
    var t := Trim(text);
    if t != [] {
      SplitTrimmedIsShort(t);
    }
  }

  lemma {:induction false} SplitTrimmedIsShort(s: string)
    requires IsTrimmed(s) && s != []
    ensures |SplitOnWhitespace(s)| <= |s|
    decreases |s|
  {
    var k := NextWhitespace(s, 0);
    if k < |s| {
      var j := SkipWhitespace(s, k);
      var rest := s[j..];
      assert j < |s|;
      assert rest[|rest| - 1] == s[|s| - 1];
      assert k > 0;
      SplitTrimmedIsShort(rest);
    }
  }

  /** A digit followed by a digit, or by ':' or '-' and a digit: the shortest time tokens. */
  predicate TimeSeedAt(s: string, i: nat) {
    && i + 1 < |s|
    && IsDigit(s[i])
    && (IsDigit(s[i + 1]) || (i + 2 < |s| && SlotParser.IsSeparator(s[i + 1]) && IsDigit(s[i + 2])))
  }

  /** The time flag is set exactly when the text has two adjacent digits or a digit, separator, digit. */
  lemma TimeFlagMeansTimeSeed(text: string)
    ensures ExtractFeatures(text)[4] == 1.0 <==> exists i: nat :: TimeSeedAt(text, i)
  {
    SevenAt(|text| as real, WordCount(text) as real, UpperRatio(text), DigitCount(text) as real,
            Flag(HasTime(text)), Flag(HasRoomCodeFrom(text, 0)), Flag(text in FlagWeekdays));
  }

  /** The time-only pattern matches somewhere exactly when a shortest time token occurs. */
  lemma TimeSeedIsMatch(text: string)
    ensures SlotParser.HasMatch(text, false) <==> exists i: nat :: TimeSeedAt(text, i)
  {
    if SlotParser.HasMatch(text, false) {
      var i: nat, j: nat :| SlotParser.TokenAt(text, i, j, false);
      var t := text[i..j];
      assert t[0] == text[i] && t[1] == text[i + 1];
      if 2 < |t| {
        assert t[2] == text[i + 2];
      }
      assert TimeSeedAt(text, i);
    }
    if exists i: nat :: TimeSeedAt(text, i) {
      var i: nat :| TimeSeedAt(text, i);
      var j := if IsDigit(text[i + 1]) then i + 2 else i + 3;
      var t := text[i..j];
      assert t[0] == text[i] && t[1] == text[i + 1] && t[|t| - 1] == text[j - 1];
      assert SlotParser.IsTimeTokenWithLead(t, 1);
      assert SlotParser.TokenAt(text, i, j, false);
    }
  }

  /** "LUN" is a weekday abbreviation with two adjacent upper-case letters and no time. */
  lemma WeekdayAbbreviationFeatures()
    ensures ExtractFeatures("LUN") == [3.0, 1.0, 1.0, 0.0, 0.0, 1.0, 1.0]
  {
    LunIsOneWord();
    LunCounts();
    LunMatches();
    assert "LUN" in FlagWeekdays;
    var text := "LUN";
    SevenAt(|text| as real, WordCount(text) as real, UpperRatio(text), DigitCount(text) as real,
            Flag(HasTime(text)), Flag(HasRoomCodeFrom(text, 0)), Flag(text in FlagWeekdays));
  }

  /** Indexing a seven-element display, such as the one `ExtractFeatures` returns. */
  lemma SevenAt(a: real, b: real, c: real, d: real, e: real, f: real, g: real)
    ensures var v := [a, b, c, d, e, f, g];
            v[0] == a && v[1] == b && v[2] == c && v[3] == d && v[4] == e && v[5] == f && v[6] == g
  {
  }

  lemma LunIsOneWord()
    ensures WordCount("LUN") == 1
  {
    var lun := "LUN";
    assert IsTrimmed(lun) && NoWhitespace(lun);
    NoWhitespaceHasNoNext(lun);
  }

  lemma LunCounts()
    ensures UpperCount("LUN") == 3 && UpperRatio("LUN") == 1.0 && DigitCount("LUN") == 0
  {
    var lun := "LUN";
    assert lun[..2] == "LU" && lun[..2][..1] == "L" && lun[..2][..1][..0] == [];
    assert forall k | 0 <= k < |lun| :: !IsDigit(lun[k]);
  }

  lemma LunMatches()
    ensures !HasTime("LUN") && HasRoomCodeFrom("LUN", 0)
  {
    var lun := "LUN";
    assert RoomCodeAt(lun, 0);
    assert !TimeSeedAt(lun, 0) && !TimeSeedAt(lun, 1) && !TimeSeedAt(lun, 2);
    assert forall i: nat :: !TimeSeedAt(lun, i);
    TimeSeedIsMatch(lun);
  }
}
