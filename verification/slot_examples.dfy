/**
 * `parseHorarioText` on the slot texts of the sample schedule (lib/textract.ts:128-132), on a bare
 * range that only the time-only pattern (lib/textract.ts:50-51) accepts, and on cells that are no
 * slot at all, worked out against the leftmost-longest reading of its two regular expressions.
 */
module SlotExamples {
  import opened Wrappers
  import opened Text
  import opened SlotParser

  lemma NoSpaceTokens()
    ensures LeftmostLongest("13-15", 0, 4, true)
    ensures SkipWhitespace("13-15", 4) == 4 && RoomEnd("13-15", 4) == 5
  {
    var s := "13-15";
    assert s[0..4] == "13-1";
    assert SkipWhitespace(s, 5) == 5;
  }

  /**
   * "13-15" has no room, yet the combined pattern matches: backtracking gives the last digit to
   * the room, so the slot reads as time "13-1" in room "5".
   */
  lemma NoSpaceSlotLendsDigitToRoom()
    ensures ParseHorario("13-15") == Some(Horario("13-1", Some("5")))
  {
    var s := "13-15";
    NoSpaceTokens();
    assert IsTrimmed(s);
    ParseOfCombinedMatch(s, 0, 4, 4, 5);
    assert s[0..4] == "13-1";
  }

  lemma ShortRangeTokens()
    ensures LeftmostLongest("7-9", 0, 3, false) && !HasMatch("7-9", true)
  {
    var s := "7-9";
    assert SkipWhitespace(s, 3) == 3;
    forall i: nat, j: nat | TokenAt(s, i, j, true)
      ensures false
    {
    }
    assert s[0..3] == s;
  }

  /** "7-9" leaves nothing for a room, so only the time-only pattern matches. */
  lemma ShortRangeHasNoRoom()
    ensures ParseHorario("7-9") == Some(Horario("7-9", None))
  {
    var s := "7-9";
    ShortRangeTokens();
    assert IsTrimmed(s);
    ParseOfTimeOnly(s, 0, 3);
    assert s[0..3] == s;
  }

  lemma SpacedRoomTokens()
    ensures LeftmostLongest("11-13 A20", 0, 5, true)
    ensures SkipWhitespace("11-13 A20", 5) == 6 && RoomEnd("11-13 A20", 6) == 9
  {
    var s := "11-13 A20";
    assert s[0..5] == "11-13";
    forall j: nat | 5 < j
      ensures !TokenAt(s, 0, j, true)
    {
      if TokenAt(s, 0, j, true) {
        ShortTokens(s[0..j]);
      }
    }
  }

  /** "11-13 A20": the whole range, then the room after the space. */
  lemma SpacedRoomIsSplitAtSpace()
    ensures ParseHorario("11-13 A20") == Some(Horario("11-13", Some("A20")))
  {
    var s := "11-13 A20";
    SpacedRoomTokens();
    assert s[6..9] == "A20";
    assert s[0..5] == "11-13";
    assert IsTrimmed(s);
    ParseOfCombinedMatch(s, 0, 5, 6, 9);
  }

  lemma LetterRoomTokens()
    ensures LeftmostLongest("15-17 D09", 0, 5, true)
    ensures SkipWhitespace("15-17 D09", 5) == 6 && RoomEnd("15-17 D09", 6) == 9
  {
    var s := "15-17 D09";
    assert s[0..5] == "15-17";
    forall j: nat | 5 < j
      ensures !TokenAt(s, 0, j, true)
    {
      if TokenAt(s, 0, j, true) {
        ShortTokens(s[0..j]);
      }
    }
  }

  /** "15-17 D09": the same split, with a room that starts with a letter and holds a zero. */
  lemma LetterRoomIsSplitAtSpace()
    ensures ParseHorario("15-17 D09") == Some(Horario("15-17", Some("D09")))
  {
    var s := "15-17 D09";
    LetterRoomTokens();
    assert s[6..9] == "D09";
    assert s[0..5] == "15-17";
    assert IsTrimmed(s);
    ParseOfCombinedMatch(s, 0, 5, 6, 9);
  }

  lemma HyphenatedRoomTokens()
    ensures LeftmostLongest("11-13 L-SOF", 0, 5, true)
    ensures SkipWhitespace("11-13 L-SOF", 5) == 6 && RoomEnd("11-13 L-SOF", 6) == 11
  {
    var s := "11-13 L-SOF";
    assert s[0..5] == "11-13";
    forall j: nat | 5 < j
      ensures !TokenAt(s, 0, j, true)
    {
      if TokenAt(s, 0, j, true) {
        ShortTokens(s[0..j]);
      }
    }
  }

  /** "11-13 L-SOF": a hyphen inside the room is part of the room. */
  lemma HyphenatedRoomIsKept()
    ensures ParseHorario("11-13 L-SOF") == Some(Horario("11-13", Some("L-SOF")))
  {
    var s := "11-13 L-SOF";
    HyphenatedRoomTokens();
    assert s[6..11] == "L-SOF";
    assert s[0..5] == "11-13";
    assert IsTrimmed(s);
    ParseOfCombinedMatch(s, 0, 5, 6, 11);
  }

  lemma ShortRangeRoomTokens()
    ensures LeftmostLongest("7-9 D04", 0, 3, true)
    ensures SkipWhitespace("7-9 D04", 3) == 4 && RoomEnd("7-9 D04", 4) == 7
  {
    var s := "7-9 D04";
    assert s[0..3] == "7-9";
    forall j: nat | 3 < j
      ensures !TokenAt(s, 0, j, true)
    {
      if TokenAt(s, 0, j, true) {
        ShortTokens(s[0..j]);
      }
    }
  }

  /** "7-9 D04": a one-digit range still takes the room after the space. */
  lemma ShortRangeWithRoom()
    ensures ParseHorario("7-9 D04") == Some(Horario("7-9", Some("D04")))
  {
    var s := "7-9 D04";
    ShortRangeRoomTokens();
    assert s[4..7] == "D04";
    assert s[0..3] == "7-9";
    assert IsTrimmed(s);
    ParseOfCombinedMatch(s, 0, 3, 4, 7);
  }

  lemma GarbledHasNoToken()
    ensures !HasMatch("garbled###", false)
  {
    var s := "garbled###";
    assert forall k | 0 <= k < |s| :: !IsDigit(s[k]);
    forall i: nat, j: nat | TokenAt(s, i, j, false)
      ensures false
    {
    }
  }

  /** Text without two nearby digits is no slot. */
  lemma GarbledCellIsNoSlot()
    ensures ParseHorario("garbled###") == None
  {
    GarbledHasNoToken();
  }

  /** A lone dash, the table's mark for an empty slot, is no slot. */
  lemma DashIsNoSlot()
    ensures ParseHorario("-") == None
  {
    assert IsTrimmed("-");
  }
}
