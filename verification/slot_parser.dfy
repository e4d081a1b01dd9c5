/**
 * `parseHorarioText` (lib/textract.ts): reading a weekday cell such as "11-13 A20" as a time
 * range and an optional room. The two regular expressions are modelled as a backtracking
 * engine runs them: the start positions are tried left to right, and at each start the
 * alternatives of the greedy quantifiers are tried most-greedy first. The operational matcher
 * is then proved equal to a declarative reading: the leftmost match, with the longest time
 * token among those starting there.
 */
module SlotParser {
  import opened Wrappers
  import opened Text

  /** A parsed weekday cell: the time range and, when the combined pattern matched, the room. */
  datatype Horario = Horario(hora: string, aula: Option<string>)

  predicate IsSeparator(c: char) {
    c == ':' || c == '-'
  }

  /** `[A-Z0-9\-]` under the `i` flag: ASCII letters of either case, digits and the hyphen. */
  predicate IsRoomChar(c: char) {
    IsUpper(c) || IsLower(c) || IsDigit(c) || c == '-'
  }

  // ----- Declarative reading of the patterns -----

  /** `t[p..q]` is what `\d{1,2}` consumes: one or two digits. */
  predicate DigitGroupAt(t: string, p: nat, q: nat) {
    (q == p + 1 || q == p + 2) && q <= |t| && IsDigit(t[p]) && IsDigit(t[q - 1])
  }

  /** `t` reads as `\d{1,2}[:\-]?\d{1,2}` with `lead` digits before the optional separator. */
  predicate IsTimeTokenWithLead(t: string, lead: nat) {
    && DigitGroupAt(t, 0, lead)
    && (|| DigitGroupAt(t, lead, |t|)
        || (lead < |t| && IsSeparator(t[lead]) && DigitGroupAt(t, lead + 1, |t|)))
  }

  /** `t` is a whole time token: one or two digits, an optional ':' or '-', one or two digits. */
  predicate IsTimeToken(t: string) {
    IsTimeTokenWithLead(t, 1) || IsTimeTokenWithLead(t, 2)
  }

  /** After position `j` come optional whitespace and then a room character. */
  predicate RoomFollows(s: string, j: nat)
    requires j <= |s|
  {
    var k := SkipWhitespace(s, j);
    k < |s| && IsRoomChar(s[k])
  }

  /**
   * A time token spans `s[i..j]`; with `withRoom` the combined pattern
   * `(\d{1,2}[:\-]?\d{1,2})\s*([A-Z0-9\-]+)` also matches from there.
   */
  predicate TokenAt(s: string, i: nat, j: nat, withRoom: bool) {
    i <= j <= |s| && IsTimeToken(s[i..j]) && (withRoom ==> RoomFollows(s, j))
  }

  /** No token starts at `i`. */
  ghost predicate NoTokenAt(s: string, i: nat, withRoom: bool) {
    forall j: nat :: !TokenAt(s, i, j, withRoom)
  }

  /** No token starts at any position from `lo` up to but excluding `hi`. */
  ghost predicate NoTokenBetween(s: string, lo: nat, hi: nat, withRoom: bool) {
    forall a: nat | lo <= a < hi :: NoTokenAt(s, a, withRoom)
  }

  /** The token at `s[i..j]` is the longest starting at `i`. */
  ghost predicate LongestAt(s: string, i: nat, j: nat, withRoom: bool) {
    TokenAt(s, i, j, withRoom) && forall j': nat | j < j' :: !TokenAt(s, i, j', withRoom)
  }

  /** The token at `s[i..j]` starts further left than any other and is the longest starting there. */
  ghost predicate LeftmostLongest(s: string, i: nat, j: nat, withRoom: bool) {
    LongestAt(s, i, j, withRoom) && NoTokenBetween(s, 0, i, withRoom)
  }

  /** Some substring of `s` is a time token: `/(\d{1,2}[:\-]?\d{1,2})/.test(s)`. */
  ghost predicate HasMatch(s: string, withRoom: bool) {
    exists i, j :: TokenAt(s, i, j, withRoom)
  }

  // ----- The backtracking engine -----

  /** One way the engine can consume the time token: digits, an optional separator (0 or 1), digits. */
  datatype Shape = Shape(lead: nat, sep: nat, trail: nat) {
    function Width(): nat {
      lead + sep + trail
    }
  }

  /** The order in which the engine tries the shapes: each greedy quantifier first takes all it can. */
  const Backtracking: seq<Shape> := [
    Shape(2, 1, 2), Shape(2, 1, 1), Shape(2, 0, 2), Shape(2, 0, 1),
    Shape(1, 1, 2), Shape(1, 1, 1), Shape(1, 0, 2), Shape(1, 0, 1)
  ]

  /** The shape consumes `s` from `i` on. */
  predicate Fits(s: string, i: nat, sh: Shape) {
    && DigitGroupAt(s, i, i + sh.lead)
    && (sh.sep == 1 ==> i + sh.lead < |s| && IsSeparator(s[i + sh.lead]))
    && DigitGroupAt(s, i + sh.lead + sh.sep, i + sh.Width())
  }

  /** The shape fits, and (with `withRoom`) `\s*([A-Z0-9\-]+)` matches where it ends. */
  predicate Admits(s: string, i: nat, sh: Shape, withRoom: bool) {
    Fits(s, i, sh) && (withRoom ==> RoomFollows(s, i + sh.Width()))
  }

  /** The end of the time token for the first shape, in the order given, that the engine can complete. */
  function TryShapes(s: string, i: nat, shapes: seq<Shape>, withRoom: bool): (r: Option<nat>)
    ensures r.Some? ==>
              exists k | 0 <= k < |shapes| ::
                && Admits(s, i, shapes[k], withRoom)
                && r.value == i + shapes[k].Width()
                && forall k' | 0 <= k' < k :: !Admits(s, i, shapes[k'], withRoom)
    ensures r.None? ==> forall k | 0 <= k < |shapes| :: !Admits(s, i, shapes[k], withRoom)
  {
    if |shapes| == 0 then None
    else if Admits(s, i, shapes[0], withRoom) then Some(i + shapes[0].Width())
    else
      var r := TryShapes(s, i, shapes[1..], withRoom);
      assert forall k | 1 <= k < |shapes| :: shapes[k] == shapes[1..][k - 1];
      r
  }

  /** Every shape the engine tries: one or two digits, at most one separator, one or two digits. */
  predicate ValidShape(sh: Shape) {
    1 <= sh.lead <= 2 && sh.sep <= 1 && 1 <= sh.trail <= 2
  }

  /** Where a valid shape sits in the backtracking order. */
  function ShapeIndex(sh: Shape): nat
    requires ValidShape(sh)
  {
    (2 - sh.lead) * 4 + (1 - sh.sep) * 2 + (2 - sh.trail)
  }

  lemma BacktrackingListsEveryShape(sh: Shape)
    requires ValidShape(sh)
    ensures ShapeIndex(sh) < |Backtracking| && Backtracking[ShapeIndex(sh)] == sh
  {
  }

  lemma BacktrackingShapesAreValid()
    ensures forall k | 0 <= k < |Backtracking| :: ValidShape(Backtracking[k])
  {
  }

  lemma FitsIsToken(s: string, i: nat, sh: Shape)
    requires ValidShape(sh) && Fits(s, i, sh)
    ensures IsTimeToken(s[i..i + sh.Width()])
  {
    var t := s[i..i + sh.Width()];
    assert t[0] == s[i] && t[sh.lead - 1] == s[i + sh.lead - 1];
    assert t[sh.lead] == s[i + sh.lead] && t[|t| - 1] == s[i + sh.Width() - 1];
    assert IsTimeTokenWithLead(t, sh.lead);
  }

  lemma TokenFits(s: string, i: nat, j: nat, lead: nat) returns (sh: Shape)
    requires i <= j <= |s| && IsTimeTokenWithLead(s[i..j], lead)
    ensures ValidShape(sh) && Fits(s, i, sh) && i + sh.Width() == j
  {
    var t := s[i..j];
    var sep := if DigitGroupAt(t, lead, |t|) then 0 else 1;
    sh := Shape(lead, sep, j - i - lead - sep);
    assert t[0] == s[i] && t[lead - 1] == s[i + lead - 1];
    assert t[lead] == s[i + lead] && t[|t| - 1] == s[j - 1];
    if sep == 1 {
      assert t[lead + 1] == s[i + lead + 1];
    }
  }

  /** The digits-and-separator reading of a token agrees with the shapes the engine tries. */
  lemma TokenIsSomeShape(s: string, i: nat, j: nat)
    requires i <= j <= |s|
    ensures IsTimeToken(s[i..j]) <==>
              exists k | 0 <= k < |Backtracking| :: Fits(s, i, Backtracking[k]) && j == i + Backtracking[k].Width()
  {
    BacktrackingShapesAreValid();
    forall k | 0 <= k < |Backtracking| && Fits(s, i, Backtracking[k]) && j == i + Backtracking[k].Width()
      ensures IsTimeToken(s[i..j])
    {
      FitsIsToken(s, i, Backtracking[k]);
    }
    if IsTimeToken(s[i..j]) {
      var lead := if IsTimeTokenWithLead(s[i..j], 2) then 2 else 1;
      var sh := TokenFits(s, i, j, lead);
      BacktrackingListsEveryShape(sh);
      assert Fits(s, i, Backtracking[ShapeIndex(sh)]);
    }
  }

  /** Among the shapes that fit, an earlier one in backtracking order is never shorter. */
  lemma BacktrackingIsLongestFirst(s: string, i: nat, k1: nat, k2: nat)
    requires k1 < k2 < |Backtracking|
    requires Fits(s, i, Backtracking[k1]) && Fits(s, i, Backtracking[k2])
    ensures Backtracking[k1].Width() >= Backtracking[k2].Width()
  {
    if k1 == 3 && k2 == 4 {
      assert false;
    }
  }

  /** The shape of a token, as an index into the backtracking order. */
  lemma ShapeOfToken(s: string, i: nat, j: nat, withRoom: bool) returns (k: nat)
    requires TokenAt(s, i, j, withRoom)
    ensures k < |Backtracking| && Admits(s, i, Backtracking[k], withRoom) && i + Backtracking[k].Width() == j
  {
    var lead := if IsTimeTokenWithLead(s[i..j], 2) then 2 else 1;
    var sh := TokenFits(s, i, j, lead);
    BacktrackingListsEveryShape(sh);
    k := ShapeIndex(sh);
    assert Backtracking[k] == sh && Fits(s, i, sh) && i + sh.Width() == j;
    assert withRoom ==> RoomFollows(s, j);
  }

  /** No token that starts at `i` is longer than one the engine completes with shape `k1`. */
  lemma NoLongerToken(s: string, i: nat, withRoom: bool, k1: nat, j': nat)
    requires k1 < |Backtracking| && Admits(s, i, Backtracking[k1], withRoom)
    requires forall k' | 0 <= k' < k1 :: !Admits(s, i, Backtracking[k'], withRoom)
    requires i + Backtracking[k1].Width() < j'
    ensures !TokenAt(s, i, j', withRoom)
  {
    if TokenAt(s, i, j', withRoom) {
      var k2 := ShapeOfToken(s, i, j', withRoom);
      if k1 < k2 {
        BacktrackingIsLongestFirst(s, i, k1, k2);
      }
      assert false;
    }
  }

  /** A shape the engine completes is a token. */
  lemma AdmittedIsToken(s: string, i: nat, k: nat, withRoom: bool)
    requires k < |Backtracking| && Admits(s, i, Backtracking[k], withRoom)
    ensures TokenAt(s, i, i + Backtracking[k].Width(), withRoom)
  {
    BacktrackingShapesAreValid();
    FitsIsToken(s, i, Backtracking[k]);
  }

  /** When shape `k1` is the first the engine completes, its token is the longest starting at `i`. */
  lemma FirstAdmittedIsLongest(s: string, i: nat, withRoom: bool, k1: nat)
    requires k1 < |Backtracking| && Admits(s, i, Backtracking[k1], withRoom)
    requires forall k' | 0 <= k' < k1 :: !Admits(s, i, Backtracking[k'], withRoom)
    ensures LongestAt(s, i, i + Backtracking[k1].Width(), withRoom)
  {
    AdmittedIsToken(s, i, k1, withRoom);
    forall j': nat | i + Backtracking[k1].Width() < j'
      ensures !TokenAt(s, i, j', withRoom)
    {
      NoLongerToken(s, i, withRoom, k1, j');
    }
  }

  /** When the engine completes no shape at `i`, no token starts there. */
  lemma NoneAdmittedNoToken(s: string, i: nat, withRoom: bool)
    requires forall k | 0 <= k < |Backtracking| :: !Admits(s, i, Backtracking[k], withRoom)
    ensures NoTokenAt(s, i, withRoom)
  {
    forall j: nat
      ensures !TokenAt(s, i, j, withRoom)
    {
      if TokenAt(s, i, j, withRoom) {
        var k2 := ShapeOfToken(s, i, j, withRoom);
        assert false;
      }
    }
  }

  /** The engine's first successful shape at `i` ends the longest token starting at `i`. */
  lemma FirstShapeIsLongest(s: string, i: nat, withRoom: bool)
    ensures TryShapes(s, i, Backtracking, withRoom).None? <==> NoTokenAt(s, i, withRoom)
    ensures TryShapes(s, i, Backtracking, withRoom).Some? ==> LongestAt(s, i, TryShapes(s, i, Backtracking, withRoom).value, withRoom)
  {
    var r := TryShapes(s, i, Backtracking, withRoom);
    if r.Some? {
      var k1 := FirstAdmitted(s, i, withRoom);
      FirstAdmittedIsLongest(s, i, withRoom, k1);
    } else {
      NoneAdmittedNoToken(s, i, withRoom);
    }
  }

  /** The shape whose end the engine answers. */
  lemma FirstAdmitted(s: string, i: nat, withRoom: bool) returns (k1: nat)
    requires TryShapes(s, i, Backtracking, withRoom).Some?
    ensures k1 < |Backtracking| && Admits(s, i, Backtracking[k1], withRoom)
    ensures TryShapes(s, i, Backtracking, withRoom).value == i + Backtracking[k1].Width()
    ensures forall k' | 0 <= k' < k1 :: !Admits(s, i, Backtracking[k'], withRoom)
  {
    k1 :| 0 <= k1 < |Backtracking| && Admits(s, i, Backtracking[k1], withRoom)
          && TryShapes(s, i, Backtracking, withRoom).value == i + Backtracking[k1].Width()
          && forall k' | 0 <= k' < k1 :: !Admits(s, i, Backtracking[k'], withRoom);
  }

  /**
   * `RegExp.prototype.exec` with `lastIndex` 0: tries start positions `i`, `i + 1`, ... and
   * answers the first at which the engine succeeds, as (start, end of the time token).
   */
  function Search(s: string, i: nat, withRoom: bool): (r: Option<(nat, nat)>)
    requires i <= |s|
    ensures r.None? <==> NoTokenBetween(s, i, |s| + 1, withRoom)
    ensures r.Some? ==>
              && i <= r.value.0 <= |s|
              && LongestAt(s, r.value.0, r.value.1, withRoom)
              && NoTokenBetween(s, i, r.value.0, withRoom)
    decreases |s| - i
  {
    FirstShapeIsLongest(s, i, withRoom);
    match TryShapes(s, i, Backtracking, withRoom)
    case Some(j) => Some((i, j))
    case None =>
      if i == |s| then None
      else
        var r := Search(s, i + 1, withRoom);
        NoTokenBetweenStep(s, i, if r.Some? then r.value.0 else |s| + 1, withRoom);
        r
  }

  lemma NoTokenBetweenStep(s: string, lo: nat, hi: nat, withRoom: bool)
    requires lo < hi && NoTokenAt(s, lo, withRoom)
    ensures NoTokenBetween(s, lo, hi, withRoom) <==> NoTokenBetween(s, lo + 1, hi, withRoom)
  {
  }

  /** End of the run of room characters starting at `k`: what the greedy `[A-Z0-9\-]+` takes. */
  function RoomEnd(s: string, k: nat): (e: nat)
    requires k <= |s|
    ensures k <= e <= |s|
    ensures forall m | k <= m < e :: IsRoomChar(s[m])
    ensures e == |s| || !IsRoomChar(s[e])
    decreases |s| - k
  {
    if k < |s| && IsRoomChar(s[k]) then RoomEnd(s, k + 1) else k
  }

  /** What `exec` answers from position 0 is the leftmost-longest token, and it answers exactly when there is one. */
  lemma SearchIsLeftmostLongest(s: string, withRoom: bool)
    ensures Search(s, 0, withRoom).None? <==> !HasMatch(s, withRoom)
    ensures Search(s, 0, withRoom).Some? ==>
              LeftmostLongest(s, Search(s, 0, withRoom).value.0, Search(s, 0, withRoom).value.1, withRoom)
  {
    if HasMatch(s, withRoom) {
      var a: nat, b: nat :| TokenAt(s, a, b, withRoom);
      assert !NoTokenAt(s, a, withRoom);
    }
    if Search(s, 0, withRoom).Some? {
      var r := Search(s, 0, withRoom).value;
      assert TokenAt(s, r.0, r.1, withRoom);
    }
  }

  /** A match of the combined pattern contains a match of the time-only pattern. */
  lemma CombinedHasTime(s: string)
    requires HasMatch(s, true)
    ensures HasMatch(s, false)
  {
    var a, b :| TokenAt(s, a, b, true);
    assert TokenAt(s, a, b, false);
  }

  /**
   * `parseHorarioText` (lib/textract.ts:38-54). Blank text and a lone dash give no slot. Otherwise
   * the combined time-and-room pattern is tried, then the time-only pattern; `None` when neither
   * matches.
   */
  function ParseHorario(text: string): (r: Option<Horario>)
    ensures r.None? <==> (Trim(text) == "" || Trim(text) == "-" || !HasMatch(text, false))
    ensures r.Some? ==> IsTimeToken(r.value.hora) && 2 <= |r.value.hora| <= 5
    ensures r.Some? && r.value.aula.Some? ==>
              r.value.aula.value != "" && forall m | 0 <= m < |r.value.aula.value| :: IsRoomChar(r.value.aula.value[m])
    ensures r.Some? ==> (r.value.aula.None? <==> !HasMatch(text, true))
  {
    if text == "" || Trim(text) == "-" || Trim(text) == "" then None
    else
      match Search(text, 0, true)
      case Some((a, b)) =>
        CombinedMatchFacts(text, a, b);
        var k := SkipWhitespace(text, b);
        Some(Horario(text[a..b], Some(text[k..RoomEnd(text, k)])))
      case None =>
        SearchIsLeftmostLongest(text, true);
        match Search(text, 0, false)
        case Some((a, b)) =>
          TimeOnlyMatchFacts(text, a, b);
          Some(Horario(text[a..b], None))
        case None =>
          SearchIsLeftmostLongest(text, false);
          None
  }

  /**
   * A parse is the leftmost-longest match of the pattern that matched, and its room is the run
   * of room characters after the whitespace that follows the time token.
   */
  lemma ParseIsLeftmostLongest(text: string)
    ensures var r := ParseHorario(text);
            r.Some? ==>
              exists a: nat, b: nat | a <= b <= |text| ::
                && LeftmostLongest(text, a, b, r.value.aula.Some?)
                && r.value.hora == text[a..b]
                && (r.value.aula.Some? ==>
                      var k := SkipWhitespace(text, b);
                      r.value.aula.value == text[k..RoomEnd(text, k)])
  {
    if ParseHorario(text).Some? {
      SearchIsLeftmostLongest(text, true);
      SearchIsLeftmostLongest(text, false);
    }
  }

  /** What the combined pattern's match gives `parseHorarioText`: a short time token and a room. */
  lemma CombinedMatchFacts(text: string, a: nat, b: nat)
    requires Search(text, 0, true) == Some((a, b))
    ensures LeftmostLongest(text, a, b, true) && HasMatch(text, true) && HasMatch(text, false)
    ensures IsTimeToken(text[a..b]) && 2 <= |text[a..b]| <= 5
    ensures var k := SkipWhitespace(text, b);
            var aula := text[k..RoomEnd(text, k)];
            aula != "" && forall m | 0 <= m < |aula| :: IsRoomChar(aula[m])
  {
    SearchIsLeftmostLongest(text, true);
    assert TokenAt(text, a, b, false);
    ShortTokens(text[a..b]);
    var k := SkipWhitespace(text, b);
    var aula := text[k..RoomEnd(text, k)];
    assert forall m | 0 <= m < |aula| :: aula[m] == text[k + m];
  }

  /** What the time-only pattern's match gives `parseHorarioText`: a short time token. */
  lemma TimeOnlyMatchFacts(text: string, a: nat, b: nat)
    requires Search(text, 0, false) == Some((a, b))
    ensures LeftmostLongest(text, a, b, false) && HasMatch(text, false)
    ensures IsTimeToken(text[a..b]) && 2 <= |text[a..b]| <= 5
  {
    SearchIsLeftmostLongest(text, false);
    ShortTokens(text[a..b]);
  }

  lemma ShortTokens(t: string)
    requires IsTimeToken(t)
    ensures 2 <= |t| <= 5
  {
  }

  /** At most one token is leftmost-longest. */
  lemma LeftmostLongestIsUnique(s: string, i: nat, j: nat, i': nat, j': nat, withRoom: bool)
    requires LeftmostLongest(s, i, j, withRoom) && LeftmostLongest(s, i', j', withRoom)
    ensures i == i' && j == j'
  {
    assert !NoTokenAt(s, i, withRoom) && !NoTokenAt(s, i', withRoom);
  }

  /**
   * Given the leftmost-longest match of the combined pattern, the parse is that time token and
   * the room run after the whitespace that follows it.
   */
  lemma ParseOfCombinedMatch(text: string, a: nat, b: nat, k: nat, e: nat)
    requires Trim(text) != "-" && LeftmostLongest(text, a, b, true)
    requires k == SkipWhitespace(text, b) && e == RoomEnd(text, k)
    ensures ParseHorario(text) == Some(Horario(text[a..b], Some(text[k..e])))
  {
    assert HasMatch(text, true);
    CombinedHasTime(text);
    assert Trim(text) != "";
    SearchIsLeftmostLongest(text, true);
    var found := Search(text, 0, true).value;
    LeftmostLongestIsUnique(text, a, b, found.0, found.1, true);
  }

  /** Without a combined match, the parse is the leftmost-longest time token and no room. */
  lemma ParseOfTimeOnly(text: string, a: nat, b: nat)
    requires Trim(text) != "-" && !HasMatch(text, true) && LeftmostLongest(text, a, b, false)
    ensures ParseHorario(text) == Some(Horario(text[a..b], None))
  {
    assert Trim(text) != "";
    SearchIsLeftmostLongest(text, true);
    SearchIsLeftmostLongest(text, false);
    var found := Search(text, 0, false).value;
    LeftmostLongestIsUnique(text, a, b, found.0, found.1, false);
  }
}
