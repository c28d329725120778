/**
 * `re.search(r'\b\d+\.\d+\.\d+\.\d+\b', output)`: the leftmost run of four
 * digit groups joined by dots, with a word boundary on either side. Digits
 * and word characters are the ASCII ones; octet values are not checked.
 */
module Address {
  import opened Wrappers
  import opened Text

  /** `\d`, restricted to ASCII. */
  predicate IsDigit(c: char) {
    '0' <= c <= '9'
  }

  /** `\w`, restricted to ASCII: letters, digits and the underscore. */
  predicate IsWordChar(c: char) {
    IsDigit(c) || 'a' <= c <= 'z' || 'A' <= c <= 'Z' || c == '_'
  }

  /** `s[a..b]` is a non-empty run of digits: `\d+`. */
  ghost predicate DigitsBetween(s: string, a: int, b: int) {
    0 <= a < b <= |s| && forall m :: a <= m < b ==> IsDigit(s[m])
  }

  /** `s[i..j]` is `\d+\.\d+\.\d+\.\d+`, with its three dots at `p1`, `p2` and `p3`. */
  ghost predicate QuadAt(s: string, i: int, p1: int, p2: int, p3: int, j: int) {
    DigitsBetween(s, i, p1) && DigitsBetween(s, p1 + 1, p2) &&
    DigitsBetween(s, p2 + 1, p3) && DigitsBetween(s, p3 + 1, j) &&
    s[p1] == '.' && s[p2] == '.' && s[p3] == '.'
  }

  /** A whole text of the dotted-quad shape. */
  ghost predicate DottedQuad(t: string) {
    exists p1, p2, p3 :: QuadAt(t, 0, p1, p2, p3, |t|)
  }

  /**
   * The pattern matches `s[i..j]`: a word boundary before `i` (the start of
   * the text or a non-word character), the dotted-quad shape, and a word
   * boundary after `j` (the end of the text or a non-word character).
   */
  ghost predicate MatchAt(s: string, i: int, j: int) {
    0 <= i < j <= |s| &&
    (i == 0 || !IsWordChar(s[i - 1])) &&
    (j == |s| || !IsWordChar(s[j])) &&
    exists p1, p2, p3 :: QuadAt(s, i, p1, p2, p3, j)
  }

  /** The end of the longest run of digits that starts at `k`. */
  function DigitsEnd(s: string, k: nat): (e: nat)
    requires k <= |s|
    decreases |s| - k
    ensures k <= e <= |s| && (e == |s| || !IsDigit(s[e]))
    ensures forall m :: k <= m < e ==> IsDigit(s[m])
  {
    if k < |s| && IsDigit(s[k]) then DigitsEnd(s, k + 1) else k
  }

  /** A run of digits that cannot be extended ends where `DigitsEnd` says. */
  lemma DigitsEndAt(s: string, a: int, b: int)
    requires 0 <= a <= b <= |s|
    requires forall m :: a <= m < b ==> IsDigit(s[m])
    requires b == |s| || !IsDigit(s[b])
    ensures DigitsEnd(s, a) == b
  {
  }

  /** The index of the `.` that ends the digit run starting at `k`, when a dot does end it. */
  function DotAfterDigits(s: string, k: nat): (r: Option<nat>)
    requires k <= |s|
  {
    var e := DigitsEnd(s, k);
    if k < e < |s| && s[e] == '.' then Some(e) else None
  }

  /** A digit run ended by a dot is what `DotAfterDigits` reports. */
  lemma DotAfterDigitsAt(s: string, k: nat, e: int)
    requires DigitsBetween(s, k, e) && e < |s| && s[e] == '.'
    ensures DotAfterDigits(s, k) == Some(e)
  {
    DigitsEndAt(s, k, e);
  }

  /**
   * Matching the pattern at `i`: a boundary before `i`, then each `\d+` takes
   * the whole digit run (a shorter one could not be followed by `.` or by a
   * boundary), and the last run must be followed by a boundary.
   */
  function MatchEnd(s: string, i: nat): (r: Option<nat>)
    requires i <= |s|
    ensures r.Some? ==> i + 7 <= r.value <= |s|
  {
    if i == |s| || (0 < i && IsWordChar(s[i - 1])) then None
    else match DotAfterDigits(s, i)
      case None => None
      case Some(p1) =>
        match DotAfterDigits(s, p1 + 1)
        case None => None
        case Some(p2) =>
          match DotAfterDigits(s, p2 + 1)
          case None => None
          case Some(p3) =>
            var j := DigitsEnd(s, p3 + 1);
            if j == p3 + 1 || (j < |s| && IsWordChar(s[j])) then None else Some(j)
  }

  /** What `MatchEnd` finds at `i` is a match of the pattern. */
  lemma MatchEndSound(s: string, i: nat)
    requires i <= |s| && MatchEnd(s, i).Some?
    ensures MatchAt(s, i, MatchEnd(s, i).value)
  {
    var p1 := DotAfterDigits(s, i).value;
    var p2 := DotAfterDigits(s, p1 + 1).value;
    var p3 := DotAfterDigits(s, p2 + 1).value;
    assert QuadAt(s, i, p1, p2, p3, MatchEnd(s, i).value);
  }

  /** Every match of the pattern at `i` is the one `MatchEnd` finds; so there is at most one. */
  lemma MatchEndComplete(s: string, i: nat, j: int)
    requires i <= |s| && MatchAt(s, i, j)
    ensures MatchEnd(s, i) == Some(j)
  {
    var p1, p2, p3 :| QuadAt(s, i, p1, p2, p3, j);
    DotAfterDigitsAt(s, i, p1);
    DotAfterDigitsAt(s, p1 + 1, p2);
    DotAfterDigitsAt(s, p2 + 1, p3);
    DigitsEndAt(s, p3 + 1, j);
  }

  /** `MatchEnd` finds the match at `i` exactly when there is one. */
  lemma MatchEndCorrect(s: string, i: nat)
    requires i <= |s|
    ensures MatchEnd(s, i).Some? ==> MatchAt(s, i, MatchEnd(s, i).value)
    ensures forall j :: MatchAt(s, i, j) ==> MatchEnd(s, i) == Some(j)
  {
    if MatchEnd(s, i).Some? {
      MatchEndSound(s, i);
    }
    forall j | MatchAt(s, i, j)
      ensures MatchEnd(s, i) == Some(j)
    {
      MatchEndComplete(s, i, j);
    }
  }

  /** Where a match lies in the text. */
  datatype Span = Span(start: nat, end: nat)

  /** `re.search` from index `i` on: the match with the leftmost start at or after `i`. */
  function SearchFrom(s: string, i: nat): (r: Option<Span>)
    requires i <= |s|
    decreases |s| - i
    ensures r.Some? ==> i <= r.value.start && MatchAt(s, r.value.start, r.value.end)
    ensures r.Some? ==> forall k, j :: i <= k < r.value.start ==> !MatchAt(s, k, j)
    ensures r.None? ==> forall k, j :: i <= k ==> !MatchAt(s, k, j)
  {
    MatchEndCorrect(s, i);
    match MatchEnd(s, i)
    case Some(j) => Some(Span(i, j))
    case None => if i == |s| then None else SearchFrom(s, i + 1)
  }

  /** The address `run_setup` extracts from the command output: the text of the match, if any. */
  function ExtractAddress(output: string): (r: Option<string>)
    ensures r.Some? ==> 7 <= |r.value| <= |output|
  {
    match SearchFrom(output, 0)
    case None => None
    case Some(span) => Some(output[span.start..span.end])
  }

  /** There is no address exactly when the pattern matches nowhere. */
  lemma ExtractAddressNone(s: string)
    ensures ExtractAddress(s).None? <==> forall i, j :: !MatchAt(s, i, j)
  {
    if ExtractAddress(s).Some? {
      var span := SearchFrom(s, 0).value;
      assert MatchAt(s, span.start, span.end);
    }
  }

  /** When the leftmost match is `s[i..j]`, that text is the address. */
  lemma ExtractAddressLeftmost(s: string, i: int, j: int)
    requires MatchAt(s, i, j)
    requires forall k, j' :: 0 <= k < i ==> !MatchAt(s, k, j')
    ensures ExtractAddress(s) == Some(s[i..j])
  {
    var r := SearchFrom(s, 0);
    assert r.Some?;
    var span := r.value;
    assert span.start == i;
    MatchEndCorrect(s, i);
  }

  /** A matched stretch of the text has the dotted-quad shape on its own. */
  lemma QuadSlice(s: string, i: int, p1: int, p2: int, p3: int, j: int)
    requires QuadAt(s, i, p1, p2, p3, j)
    ensures QuadAt(s[i..j], 0, p1 - i, p2 - i, p3 - i, j - i)
  {
    var t := s[i..j];
    assert forall m :: 0 <= m < |t| ==> t[m] == s[i + m];
  }

  /** The extracted address is a stretch of the output of the dotted-quad shape. */
  lemma ExtractAddressShape(s: string)
    requires ExtractAddress(s).Some?
    ensures DottedQuad(ExtractAddress(s).value) && Contains(s, ExtractAddress(s).value)
  {
    var span := SearchFrom(s, 0).value;
    var t := s[span.start..span.end];
    assert ExtractAddress(s) == Some(t);
    var p1, p2, p3 :| QuadAt(s, span.start, p1, p2, p3, span.end);
    QuadSlice(s, span.start, p1, p2, p3, span.end);
    assert DottedQuad(t);
    ContainsSlice(s, span.start, span.end);
  }

  /** The address line of `ip -4 addr show eth0`: the prefix length is not part of the address. */
  lemma ExampleInet()
    ensures ExtractAddress("inet 10.0.0.5/24") == Some("10.0.0.5")
  {
    var s := "inet 10.0.0.5/24";
    assert QuadAt(s, 5, 7, 9, 11, 13);
    assert MatchAt(s, 5, 13);
    forall k, j | 0 <= k < 5
      ensures !MatchAt(s, k, j)
    {
      assert k == 0 || k == 1 || k == 2 || k == 3 || k == 4;
      assert !IsDigit(s[k]);
    }
    ExtractAddressLeftmost(s, 5, 13);
    assert s[5..13] == "10.0.0.5";
  }

  /** A digit run followed by a letter has no word boundary after it, so nothing matches. */
  lemma ExampleNoBoundary()
    ensures ExtractAddress("1.2.3.45x") == None
  {
  }

  /** Octet values are not range-checked. */
  lemma ExampleNoRangeCheck()
    ensures ExtractAddress("999.999.999.999") == Some("999.999.999.999")
  {
    var s := "999.999.999.999";
    assert QuadAt(s, 0, 3, 7, 11, 15);
    ExtractAddressLeftmost(s, 0, 15);
    assert s[0..15] == s;
  }

  /** A dotted quad keeps its shape inside a longer text. */
  lemma QuadShift(pre: string, q: string, post: string, p1: int, p2: int, p3: int)
    requires QuadAt(q, 0, p1, p2, p3, |q|)
    ensures QuadAt(pre + q + post, |pre|, |pre| + p1, |pre| + p2, |pre| + p3, |pre| + |q|)
  {
    var s := pre + q + post;
    assert forall m :: 0 <= m < |q| ==> s[|pre| + m] == q[m];
  }

  /** A dotted quad between word boundaries is a match. */
  lemma MatchInContext(pre: string, q: string, post: string)
    requires pre == [] || !IsWordChar(pre[|pre| - 1])
    requires DottedQuad(q)
    requires post == [] || !IsWordChar(post[0])
    ensures MatchAt(pre + q + post, |pre|, |pre| + |q|)
  {
    var s := pre + q + post;
    var p1, p2, p3 :| QuadAt(q, 0, p1, p2, p3, |q|);
    QuadShift(pre, q, post, p1, p2, p3);
    assert |pre| > 0 ==> s[|pre| - 1] == pre[|pre| - 1];
    assert |pre| + |q| < |s| ==> s[|pre| + |q|] == post[0];
  }

  /** No match starts inside a text that has no digits. */
  lemma NoMatchInText(pre: string, rest: string)
    requires forall k :: 0 <= k < |pre| ==> !IsDigit(pre[k])
    ensures forall k, j :: 0 <= k < |pre| ==> !MatchAt(pre + rest, k, j)
  {
    var s := pre + rest;
    forall k, j | 0 <= k < |pre|
      ensures !MatchAt(s, k, j)
    {
      assert s[k] == pre[k];
    }
  }

  /**
   * Text without digits, then a dotted quad, then a character that is not a
   * word character (or the end): the quad is the address extracted.
   */
  lemma ExtractAfterText(pre: string, q: string, post: string)
    requires forall k :: 0 <= k < |pre| ==> !IsDigit(pre[k])
    requires pre == [] || !IsWordChar(pre[|pre| - 1])
    requires DottedQuad(q)
    requires post == [] || !IsWordChar(post[0])
    ensures ExtractAddress(pre + q + post) == Some(q)
  {
    var s := pre + q + post;
    MatchInContext(pre, q, post);
    assert s == pre + (q + post);
    NoMatchInText(pre, q + post);
    ExtractAddressLeftmost(s, |pre|, |pre| + |q|);
    assert s[|pre|..|pre| + |q|] == q;
  }

  /** The `inet` line printed by `ip -4 addr show eth0`: the first dotted quad is the address, not the broadcast. */
  lemma ExampleAddrShow()
    ensures ExtractAddress("    inet " + "192.168.1.50" + "/24 brd 192.168.1.255 scope global eth0\r\n") == Some("192.168.1.50")
  {
    assert QuadAt("192.168.1.50", 0, 3, 7, 9, 12);
    ExtractAfterText("    inet ", "192.168.1.50", "/24 brd 192.168.1.255 scope global eth0\r\n");
  }
}
