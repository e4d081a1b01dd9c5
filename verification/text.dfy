/**
 * Strings as ECMAScript sees them: the whitespace set shared by `String.prototype.trim`
 * and the regular-expression class `\s`, trimming, `Array.prototype.join`, and
 * `String.prototype.split(/\s+/)`.
 */
module Text {

  /** ECMAScript WhiteSpace or LineTerminator code point. */
  predicate IsWhitespace(c: char) {
    || c == '\t' || c == '\n' || c == '\U{000B}' || c == '\U{000C}' || c == '\r' || c == ' '
    || c == '\U{00A0}' || c == '\U{1680}' || ('\U{2000}' <= c <= '\U{200A}')
    || c == '\U{2028}' || c == '\U{2029}' || c == '\U{202F}' || c == '\U{205F}'
    || c == '\U{3000}' || c == '\U{FEFF}'
  }

  /** `\d` without the `u` flag: ASCII digits only. */
  predicate IsDigit(c: char) {
    '0' <= c <= '9'
  }

  /** The class `[A-Z]` matched case-sensitively. */
  predicate IsUpper(c: char) {
    'A' <= c <= 'Z'
  }

  predicate IsLower(c: char) {
    'a' <= c <= 'z'
  }

  predicate NoWhitespace(s: string) {
    forall k | 0 <= k < |s| :: !IsWhitespace(s[k])
  }

  predicate AllWhitespace(s: string) {
    forall k | 0 <= k < |s| :: IsWhitespace(s[k])
  }

  /** Neither starts nor ends with whitespace. */
  predicate IsTrimmed(s: string) {
    s == [] || (!IsWhitespace(s[0]) && !IsWhitespace(s[|s| - 1]))
  }

  /** `s` with its leading whitespace removed. */
  function TrimStart(s: string): (r: string)
    ensures |r| <= |s| && r == s[|s| - |r|..]
    ensures r == [] || !IsWhitespace(r[0])
    ensures AllWhitespace(s[..|s| - |r|])
  {
    if |s| > 0 && IsWhitespace(s[0]) then TrimStart(s[1..]) else s
  }

  /** `s` with its trailing whitespace removed. */
  function TrimEnd(s: string): (r: string)
    ensures |r| <= |s| && r == s[..|r|]
    ensures r == [] || !IsWhitespace(r[|r| - 1])
    ensures AllWhitespace(s[|r|..])
  {
    if |s| > 0 && IsWhitespace(s[|s| - 1]) then
      var r := TrimEnd(s[..|s| - 1]);
      assert r == s[..|r|] by {
        PrefixOfPrefix(s, |s| - 1, |r|);
      }
      assert s[|r|..] == s[..|s| - 1][|r|..] + [s[|s| - 1]];
      r
    else
      s
  }

  lemma PrefixOfPrefix(s: string, n: nat, m: nat)
    requires m <= n <= |s|
    ensures s[..n][..m] == s[..m]
  {
    assert forall k | 0 <= k < m :: s[..n][..m][k] == s[k];
  }

  lemma PrefixOfSuffix(s: string, i: nat, m: nat)
    requires i + m <= |s|
    ensures s[i..][..m] == s[i..i + m]
  {
    assert forall k | 0 <= k < m :: s[i..][..m][k] == s[i + k];
  }

  lemma SuffixOfSuffix(s: string, i: nat, m: nat)
    requires i + m <= |s|
    ensures s[i..][m..] == s[i + m..]
  {
    assert forall k | 0 <= k < |s| - i - m :: s[i..][m..][k] == s[i + m + k];
  }

  /**
   * `String.prototype.trim`: the longest infix that neither starts nor ends with whitespace,
   * i.e. the input with its leading and trailing whitespace cut off.
   */
  function Trim(s: string): (r: string)
    ensures IsTrimmed(r)
    ensures |r| <= |s|
    ensures IsTrimmed(s) ==> r == s
    ensures r == [] <==> AllWhitespace(s)
  {
    var a := TrimStart(s);
    var r := TrimEnd(a);
    assert IsTrimmed(r);
    assert r == [] <==> AllWhitespace(s) by {
      BlankWhenCutAway(s, |s| - |a|, a, r);
    }
    assert IsTrimmed(s) ==> r == s by {
      if IsTrimmed(s) {
        TrimmedIsFixed(s);
      }
    }
    r
  }

  /**
   * What `Trim` keeps is an infix of its input with only whitespace before and after it: with
   * `IsTrimmed`, exactly the input minus its leading and trailing whitespace.
   */
  lemma TrimCutsWhitespaceEnds(s: string)
    ensures exists i, j | 0 <= i <= j <= |s| ::
              Trim(s) == s[i..j] && AllWhitespace(s[..i]) && AllWhitespace(s[j..])
  {
    var a := TrimStart(s);
    var r := TrimEnd(a);
    InfixOfSuffix(s, |s| - |a|, a, r);
    assert Trim(s) == r;
  }

  /** A prefix `r` of a suffix `a` of `s` is an infix of `s`, and what follows it in `a` ends `s`. */
  lemma InfixOfSuffix(s: string, i: nat, a: string, r: string)
    requires i <= |s| && a == s[i..] && |r| <= |a| && r == a[..|r|]
    ensures r == s[i..i + |r|] && s[i + |r|..] == a[|r|..]
    ensures r != [] ==> r[0] == s[i]
  {
    PrefixOfSuffix(s, i, |r|);
    SuffixOfSuffix(s, i, |r|);
  }

  /**
   * A suffix `a` after a blank prefix, cut down to a prefix `r` before a blank tail: `r` is empty
   * exactly when the whole is blank, given that a non-empty `r` starts with a non-blank.
   */
  lemma BlankWhenCutAway(s: string, i: nat, a: string, r: string)
    requires i <= |s| && a == s[i..] && AllWhitespace(s[..i])
    requires |r| <= |a| && r == a[..|r|] && AllWhitespace(a[|r|..])
    requires r == [] || !IsWhitespace(r[0])
    ensures r == [] <==> AllWhitespace(s)
  {
    if r == [] {
      assert a[|r|..] == a;
      assert forall k | i <= k < |s| :: s[k] == a[k - i];
      assert forall k | 0 <= k < i :: s[k] == s[..i][k];
    } else {
      assert s[i] == r[0];
    }
  }

  /** An input already trimmed is its own trim. */
  lemma TrimmedIsFixed(s: string)
    requires IsTrimmed(s)
    ensures TrimEnd(TrimStart(s)) == s
  {
  }

  /** When `b` is not blank, the trailing whitespace of `a + b` is that of `b`. */
  lemma {:induction false} TrimEndAppend(a: string, b: string)
    requires !AllWhitespace(b)
    ensures TrimEnd(a + b) == a + TrimEnd(b)
    decreases |b|
  {
    var n := |b| - 1;
    assert (a + b)[|a + b| - 1] == b[n];
    if IsWhitespace(b[n]) {
      var k :| 0 <= k < |b| && !IsWhitespace(b[k]);
      assert b[..n][k] == b[k];
      assert (a + b)[..|a + b| - 1] == a + b[..n];
      TrimEndAppend(a, b[..n]);
    }
  }

  /** A blank tail is cut off entirely. */
  lemma {:induction false} TrimEndDropsBlankTail(a: string, b: string)
    requires AllWhitespace(b)
    ensures TrimEnd(a + b) == TrimEnd(a)
    decreases |b|
  {
    if |b| > 0 {
      var n := |b| - 1;
      assert (a + b)[|a + b| - 1] == b[n];
      assert (a + b)[..|a + b| - 1] == a + b[..n];
      TrimEndDropsBlankTail(a, b[..n]);
    } else {
      assert a + b == a;
    }
  }

  /** Leading and trailing whitespace can be cut off in either order. */
  lemma {:induction false} TrimEndsCommute(x: string)
    ensures TrimStart(TrimEnd(x)) == TrimEnd(TrimStart(x))
    decreases |x|
  {
    var e := TrimEnd(x);
    if AllWhitespace(x) {
      BlankTrimsToNothing(x);
    } else if IsWhitespace(x[0]) {
      var y := x[1..];
      assert x == [x[0]] + y;
      assert !AllWhitespace(y) by {
        var k :| 0 <= k < |x| && !IsWhitespace(x[k]);
        assert y[k - 1] == x[k];
      }
      TrimEndAppend([x[0]], y);
      var z := [x[0]] + TrimEnd(y);
      assert z[1..] == TrimEnd(y);
      TrimEndsCommute(y);
    } else {
      assert x[|e|..] == x || |e| > 0;
      assert e[0] == x[0];
    }
  }

  /** Both ends of a blank text trim away to nothing. */
  lemma BlankTrimsToNothing(x: string)
    requires AllWhitespace(x)
    ensures TrimEnd(x) == [] && TrimStart(x) == []
  {
    var e := TrimEnd(x);
    var a := TrimStart(x);
    assert e == x[..|e|] && a == x[|x| - |a|..];
  }

  /** A leading space makes no difference to the trimmed text. */
  lemma TrimLeadingSpace(x: string)
    ensures Trim(" " + x) == Trim(x)
  {
    assert (" " + x)[1..] == x;
  }

  /** A leading space collapses into the whitespace run it starts. */
  lemma CollapseLeadingSpace(x: string)
    ensures Collapse(" " + x) == " " + Collapse(TrimStart(x))
  {
    assert (" " + x)[1..] == x;
  }

  /** Trimming is idempotent. */
  lemma TrimIdempotent(s: string)
    ensures Trim(Trim(s)) == Trim(s)
  {
  }

  /** `parts.join(sep)`: the parts in order, with `sep` between neighbours. */
  function Join(parts: seq<string>, sep: string): string
  {
    if |parts| == 0 then ""
    else if |parts| == 1 then parts[0]
    else parts[0] + sep + Join(parts[1..], sep)
  }

  /** Index of the first whitespace at or after `i`, or `|s|` when there is none. */
  function NextWhitespace(s: string, i: nat): (k: nat)
    requires i <= |s|
    ensures i <= k <= |s|
    ensures k < |s| ==> IsWhitespace(s[k])
    ensures NoWhitespace(s[i..k])
    decreases |s| - i
  {
    if i == |s| || IsWhitespace(s[i]) then i else NextWhitespace(s, i + 1)
  }

  /** Index of the first non-whitespace at or after `i`, or `|s|`: where a greedy `\s*` stops. */
  function SkipWhitespace(s: string, i: nat): (k: nat)
    requires i <= |s|
    ensures i <= k <= |s|
    ensures k < |s| ==> !IsWhitespace(s[k])
    ensures AllWhitespace(s[i..k])
    decreases |s| - i
  {
    if i == |s| || !IsWhitespace(s[i]) then i else SkipWhitespace(s, i + 1)
  }

  /**
   * `s.split(/\s+/)`: the pieces between maximal whitespace runs. An empty `s` gives
   * one empty piece, and leading or trailing whitespace gives an empty first or last piece.
   */
  function SplitOnWhitespace(s: string): (r: seq<string>)
    ensures |r| >= 1
    ensures forall k | 0 <= k < |r| :: NoWhitespace(r[k])
    ensures Join(r, " ") == Collapse(s)
    decreases |s|
  {
    var k := NextWhitespace(s, 0);
    if k == |s| then
      CollapseOfWord(s, k);
      [s]
    else
      var j := SkipWhitespace(s, k);
      var rest := SplitOnWhitespace(s[j..]);
      SplitStepCollapses(s, k, rest);
      [s[..k]] + rest
  }

  /** The first piece, one space, and the collapsed rest make up the collapsed whole. */
  lemma SplitStepCollapses(s: string, k: nat, rest: seq<string>)
    requires k < |s| && k == NextWhitespace(s, 0) && |rest| >= 1
    requires Join(rest, " ") == Collapse(s[SkipWhitespace(s, k)..])
    ensures Join([s[..k]] + rest, " ") == Collapse(s)
  {
    var w := s[..k];
    var tail := Collapse(s[SkipWhitespace(s, k)..]);
    assert Collapse(s) == w + Collapse(s[k..]) by {
      assert w == s[0..k];
      CollapseOfWord(s, k);
    }
    assert Collapse(s[k..]) == " " + tail by {
      CollapseAtWhitespace(s, k);
    }
    assert Join([w] + rest, " ") == w + " " + tail by {
      JoinCons(w, rest, " ");
    }
  }

  /** Joining a leading part onto at least one more part puts the separator between them. */
  lemma JoinCons(w: string, rest: seq<string>, sep: string)
    requires |rest| >= 1
    ensures Join([w] + rest, sep) == w + sep + Join(rest, sep)
  {
    assert ([w] + rest)[1..] == rest;
  }

  /** `s` with every maximal run of whitespace replaced by a single space. */
  function Collapse(s: string): string
    decreases |s|
  {
    if s == [] then ""
    else if IsWhitespace(s[0]) then " " + Collapse(TrimStart(s[1..]))
    else [s[0]] + Collapse(s[1..])
  }

  /** A whitespace-free prefix passes through `Collapse` unchanged. */
  lemma {:induction false} CollapseOfWord(s: string, k: nat)
    requires k <= |s| && NoWhitespace(s[..k])
    ensures Collapse(s) == s[..k] + Collapse(s[k..])
    decreases k
  {
    if k > 0 {
      assert Collapse(s[1..]) == s[1..k] + Collapse(s[k..]) by {
        var t := s[1..];
        assert t[..k - 1] == s[..k][1..] && t[k - 1..] == s[k..];
        CollapseOfWord(t, k - 1);
      }
      assert !IsWhitespace(s[0]) by {
        assert s[0] == s[..k][0];
      }
      CollapseOfWordStep(s, k);
    }
  }

  /** The step of `CollapseOfWord`: a non-blank first character passes through. */
  lemma CollapseOfWordStep(s: string, k: nat)
    requires 0 < k <= |s| && !IsWhitespace(s[0])
    requires Collapse(s[1..]) == s[1..k] + Collapse(s[k..])
    ensures Collapse(s) == s[..k] + Collapse(s[k..])
  {
    var rest := Collapse(s[k..]);
    assert Collapse(s) == [s[0]] + (s[1..k] + rest);
    AppendAssociates([s[0]], s[1..k], rest);
    assert s[..k] == [s[0]] + s[1..k];
  }

  lemma AppendAssociates(a: string, b: string, c: string)
    ensures a + (b + c) == a + b + c
  {
  }

  /** Cutting the leading whitespace of a suffix starts it where a greedy `\s*` stops. */
  lemma {:induction false} TrimStartFrom(s: string, i: nat)
    requires i <= |s|
    ensures TrimStart(s[i..]) == s[SkipWhitespace(s, i)..]
    decreases |s| - i
  {
    if i < |s| && IsWhitespace(s[i]) {
      assert s[i..][1..] == s[i + 1..];
      TrimStartFrom(s, i + 1);
    }
  }

  /** A whitespace run collapses to one space, and what follows it is collapsed in turn. */
  lemma CollapseAtWhitespace(s: string, k: nat)
    requires k < |s| && IsWhitespace(s[k])
    ensures Collapse(s[k..]) == " " + Collapse(s[SkipWhitespace(s, k)..])
  {
    assert s[k..][1..] == s[k + 1..];
    TrimStartFrom(s, k + 1);
  }

  /** Every piece `split(/\s+/)` yields from a trimmed, non-empty string is non-empty. */
  lemma {:induction false} SplitTrimmedHasNoEmptyPiece(s: string)
    requires IsTrimmed(s) && s != []
    ensures forall k | 0 <= k < |SplitOnWhitespace(s)| :: SplitOnWhitespace(s)[k] != []
    decreases |s|
  {
    var k := NextWhitespace(s, 0);
    if k < |s| {
      var j := SkipWhitespace(s, k);
      var rest := s[j..];
      assert j < |s|;
      assert rest[|rest| - 1] == s[|s| - 1];
      SplitTrimmedHasNoEmptyPiece(rest);
      assert k > 0;
    }
  }

  /**
   * Joining non-empty whitespace-free words with single spaces and splitting the result on
   * whitespace gives the words back, in order.
   */
  lemma {:induction false} SplitJoinRoundTrip(words: seq<string>)
    requires |words| >= 1
    requires forall k | 0 <= k < |words| :: words[k] != [] && NoWhitespace(words[k])
    ensures SplitOnWhitespace(Join(words, " ")) == words
    decreases |words|
  {
    var s := Join(words, " ");
    var w := words[0];
    if |words| == 1 {
      NoWhitespaceHasNoNext(w);
    } else {
      var rest := Join(words[1..], " ");
      SplitJoinRoundTrip(words[1..]);
      JoinStartsWithFirst(words[1..], " ");
      assert s == w + " " + rest;
      NextWhitespaceAfterWord(s, w);
      assert s[|w|] == ' ';
      assert SkipWhitespace(s, |w| + 1) == |w| + 1 by {
        assert s[|w| + 1] == rest[0];
      }
      assert SkipWhitespace(s, |w|) == |w| + 1;
      assert s[|w| + 1..] == rest;
      assert s[..|w|] == w;
    }
  }

  lemma NoWhitespaceHasNoNext(w: string)
    requires NoWhitespace(w)
    ensures NextWhitespace(w, 0) == |w|
  {
  }

  lemma NextWhitespaceAfterWord(s: string, w: string)
    requires NoWhitespace(w) && |w| < |s| && s[..|w|] == w && IsWhitespace(s[|w|])
    ensures NextWhitespace(s, 0) == |w|
  {
  }

  /** A join of words whose last word is non-empty ends with that word's last letter. */
  lemma {:induction false} JoinEndsWithLast(words: seq<string>, sep: string)
    requires |words| >= 1 && words[|words| - 1] != []
    ensures |Join(words, sep)| > 0
    ensures Join(words, sep)[|Join(words, sep)| - 1] == words[|words| - 1][|words[|words| - 1]| - 1]
    decreases |words|
  {
    if |words| > 1 {
      JoinEndsWithLast(words[1..], sep);
    }
  }

  /** A join of words whose first word is non-empty starts with that word's first letter. */
  lemma JoinStartsWithFirst(words: seq<string>, sep: string)
    requires |words| >= 1 && words[0] != []
    ensures |Join(words, sep)| > 0 && Join(words, sep)[0] == words[0][0]
  {
  }
}
