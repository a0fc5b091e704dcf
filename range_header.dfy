/**
 * How the download code reads the Range request header: the first match of
 * the case-insensitive, unanchored pattern `bytes=\h*(\d+)?-(\d*)`, whose two
 * captures then move the begin and end of the byte range. This is looser than
 * the byte-range syntax of section 2.1 of RFC 7233: a suffix range `-N` is not
 * "the last N bytes", the begin is never checked against the file size, and a
 * capture that is exactly "0" counts as absent (PHP `empty`).
 *
 * Header characters stand for bytes. Without the UTF flag, PCRE's `\h` is tab,
 * space and the no-break space 0xA0, `\d` is ASCII 0-9, and the /i flag folds
 * ASCII letters only.
 */
module RangeHeader {
  import opened Wrappers
  import opened Decimal
  import opened Php

  predicate IsHSpace(c: char) { c == '\t' || c == ' ' || c == '\U{A0}' }

  function LowerAscii(c: char): char {
    if 'A' <= c <= 'Z' then (c as int + 32) as char else c
  }

  const BytesPrefix: string := "bytes="

  /** `s` spells "bytes=" up to ASCII case. */
  predicate IsBytesPrefix(s: string) {
    |s| == 6 && forall k :: 0 <= k < 6 ==> LowerAscii(s[k]) == BytesPrefix[k]
  }

  /** End of the longest run of horizontal white space in `h` that starts at `k`. */
  function BlanksEnd(h: string, k: nat): (e: nat)
    requires k <= |h|
    ensures k <= e <= |h|
    ensures forall j :: k <= j < e ==> IsHSpace(h[j])
    ensures e == |h| || !IsHSpace(h[e])
    decreases |h| - k
  {
    if k == |h| || !IsHSpace(h[k]) then k else BlanksEnd(h, k + 1)
  }

  /** The two groups of the pattern: (\d+)? and (\d*). An unset first group reads as "". */
  datatype Captures = Captures(first: string, last: string)

  /**
   * The pattern tried at position `i` of the header. Backtracking cannot find
   * another match there: after `\h*` only a digit or '-' may follow, after
   * `(\d+)?` only '-', so both take their longest run, and `(\d*)` is greedy.
   */
  function MatchAt(h: string, i: nat): (r: Option<Captures>)
    requires i <= |h|
    ensures r.Some? ==> AllDigits(r.value.first) && AllDigits(r.value.last)
  {
    if i + 6 > |h| || !IsBytesPrefix(h[i..i + 6]) then None
    else MatchAfterBlanks(h, BlanksEnd(h, i + 6))
  }

  /** The rest of the pattern, `(\d+)?-(\d*)`, tried at position `k`. */
  function MatchAfterBlanks(h: string, k: nat): (r: Option<Captures>)
    requires k <= |h|
    ensures r.Some? ==> AllDigits(r.value.first) && AllDigits(r.value.last)
  {
    var m := DigitsEnd(h, k);
    if m < |h| && h[m] == '-' then
      var e := DigitsEnd(h, m + 1);
      DigitSlice(h, k, m);
      DigitSlice(h, m + 1, e);
      Some(Captures(h[k..m], h[m + 1..e]))
    else None
  }

  /**
   * The pattern as a declarative statement: at `i` the header reads "bytes="
   * (any case), `ws` blanks, the digits `c1`, '-', then the digits `c2`, and
   * `c2` is not followed by another digit (greedy).
   */
  ghost predicate PatternAt(h: string, i: nat, ws: nat, c1: string, c2: string) {
    var k := i + 6 + ws;
    var m := k + |c1|;
    var e := m + 1 + |c2|;
    && e <= |h|
    && IsBytesPrefix(h[i..i + 6])
    && (forall j :: i + 6 <= j < k ==> IsHSpace(h[j]))
    && h[k..m] == c1 && AllDigits(c1)
    && h[m] == '-'
    && h[m + 1..e] == c2 && AllDigits(c2)
    && (e == |h| || !IsDigit(h[e]))
  }

  /** What MatchAt finds is a match of the pattern. */
  lemma MatchAtSound(h: string, i: nat)
    requires i <= |h| && MatchAt(h, i).Some?
    ensures PatternAt(h, i, BlanksEnd(h, i + 6) - i - 6, MatchAt(h, i).value.first, MatchAt(h, i).value.last)
  {
    var k := BlanksEnd(h, i + 6);
    var m := DigitsEnd(h, k);
    var e := DigitsEnd(h, m + 1);
    assert MatchAt(h, i) == Some(Captures(h[k..m], h[m + 1..e]));
  }

  /** Every match of the pattern at `i` is the one MatchAt finds. */
  lemma MatchAtComplete(h: string, i: nat, ws: nat, c1: string, c2: string)
    requires PatternAt(h, i, ws, c1, c2)
    ensures MatchAt(h, i) == Some(Captures(c1, c2))
  {
    var k := i + 6 + ws;
    var m := k + |c1|;
    var e := m + 1 + |c2|;
    SliceDigits(h, k, c1);
    SliceDigits(h, m + 1, c2);
    assert !IsHSpace(h[k]) by {
      if c1 != [] { assert h[k] == c1[0]; }
    }
    BlanksEndAt(h, i + 6, k);
    DigitsEndAt(h, k, m);
    DigitsEndAt(h, m + 1, e);
    MatchAtEnds(h, i, k, m, e);
  }

  /** MatchAt in terms of where the blanks and the two digit runs end. */
  lemma MatchAtEnds(h: string, i: nat, k: nat, m: nat, e: nat)
    requires i + 6 <= |h| && IsBytesPrefix(h[i..i + 6])
    requires BlanksEnd(h, i + 6) == k && DigitsEnd(h, k) == m && m < |h| && h[m] == '-'
    requires DigitsEnd(h, m + 1) == e
    ensures MatchAt(h, i) == Some(Captures(h[k..m], h[m + 1..e]))
  {
  }

  lemma BlanksEndAt(h: string, k: nat, e: nat)
    requires k <= e < |h|
    requires forall j :: k <= j < e ==> IsHSpace(h[j])
    requires !IsHSpace(h[e])
    ensures BlanksEnd(h, k) == e
  {
  }

  lemma SliceDigits(h: string, k: nat, c: string)
    requires k + |c| <= |h| && h[k..k + |c|] == c && AllDigits(c)
    ensures forall j :: k <= j < k + |c| ==> IsDigit(h[j])
  {
    forall j | k <= j < k + |c| ensures IsDigit(h[j]) { assert h[j] == c[j - k]; }
  }

  /** preg_match's leftmost match: the first position from `i` at which the pattern matches. */
  function FirstMatch(h: string, i: nat): (r: Option<nat>)
    requires i <= |h|
    ensures r.Some? ==> i <= r.value <= |h| && MatchAt(h, r.value).Some?
    ensures r.Some? ==> forall j :: i <= j < r.value ==> MatchAt(h, j).None?
    ensures r.None? ==> forall j :: i <= j <= |h| ==> MatchAt(h, j).None?
    decreases |h| - i
  {
    if MatchAt(h, i).Some? then Some(i)
    else if i == |h| then None
    else FirstMatch(h, i + 1)
  }

  /** The captures preg_match reports for the header, if it matches at all. */
  function Captured(header: Option<string>): (r: Option<Captures>)
    ensures r.Some? ==> AllDigits(r.value.first) && AllDigits(r.value.last)
  {
    if header.None? then None
    else match FirstMatch(header.value, 0)
      case None => None
      case Some(j) => MatchAt(header.value, j)
  }

  datatype ByteRange = ByteRange(begin: nat, end: int)

  /**
   * The begin and end offsets sendFile settles on for a file of `size` bytes:
   * 0 and size - 1 by default; a given first capture replaces the begin as it
   * is; a given last capture replaces the end, but never beyond size - 1.
   */
  function ResolveRange(size: nat, header: Option<string>): (r: ByteRange)
    ensures r.end <= size - 1
    ensures Captured(header).None? ==> r == ByteRange(0, size - 1)
  {
    match Captured(header)
    case None => ByteRange(0, size - 1)
    case Some(c) =>
      ByteRange(if Truthy(c.first) then DecimalValue(c.first) else 0,
                if Truthy(c.last) then Min(DecimalValue(c.last), size - 1) else size - 1)
  }

  /** ResolveRange with the evident intent: a capture counts whenever it is non-empty. */
  function ResolveRangeFixed(size: nat, header: Option<string>): (r: ByteRange)
    ensures r.end <= size - 1
    ensures Captured(header).None? ==> r == ByteRange(0, size - 1)
  {
    match Captured(header)
    case None => ByteRange(0, size - 1)
    case Some(c) =>
      ByteRange(if c.first != "" then DecimalValue(c.first) else 0,
                if c.last != "" then Min(DecimalValue(c.last), size - 1) else size - 1)
  }

  /** A header that starts with the pattern is captured at position 0. */
  lemma CapturedAtStart(h: string, ws: nat, c1: string, c2: string)
    requires PatternAt(h, 0, ws, c1, c2)
    ensures Captured(Some(h)) == Some(Captures(c1, c2))
  {
    MatchAtComplete(h, 0, ws, c1, c2);
  }

  /** The header "bytes=a-b", written the way a client writes numbers. */
  function RangeRequest(a: nat, b: nat): string {
    BytesPrefix + NatToDecimal(a) + "-" + NatToDecimal(b)
  }

  /** "bytes=" c1 '-' c2, for digit strings c1 and c2, captures exactly c1 and c2. */
  lemma DigitsRequestCaptures(c1: string, c2: string)
    requires AllDigits(c1) && AllDigits(c2)
    ensures Captured(Some(BytesPrefix + c1 + "-" + c2)) == Some(Captures(c1, c2))
  {
    var h := BytesPrefix + c1 + "-" + c2;
    assert h[0..6] == BytesPrefix;
    assert h[6..6 + |c1|] == c1;
    assert h[6 + |c1|] == '-';
    assert h[6 + |c1| + 1..] == c2;
    CapturedAtStart(h, 0, c1, c2);
  }

  lemma RangeRequestCaptures(a: nat, b: nat)
    ensures Captured(Some(RangeRequest(a, b))) == Some(Captures(NatToDecimal(a), NatToDecimal(b)))
  {
    DigitsRequestCaptures(NatToDecimal(a), NatToDecimal(b));
  }

  /**
   * "bytes=a-b" gives begin a, unchecked, and end min(b, size - 1), except
   * that an end of 0 is dropped and the end stays at size - 1.
   */
  lemma ResolveRangeRequest(size: nat, a: nat, b: nat)
    ensures ResolveRange(size, Some(RangeRequest(a, b)))
         == ByteRange(a, if b == 0 then size - 1 else Min(b, size - 1))
  {
    RangeRequestCaptures(a, b);
    DecimalRoundTrip(a);
    DecimalRoundTrip(b);
  }

  /** "bytes=a-" gives begin a whatever the size of the file, and end size - 1. */
  lemma ResolveOpenEnded(size: nat, a: nat)
    ensures ResolveRange(size, Some(BytesPrefix + NatToDecimal(a) + "-")) == ByteRange(a, size - 1)
  {
    assert BytesPrefix + NatToDecimal(a) + "-" == BytesPrefix + NatToDecimal(a) + "-" + "";
    DigitsRequestCaptures(NatToDecimal(a), "");
    DecimalRoundTrip(a);
  }

  /** The suffix form "bytes=-n" is read as the range 0..min(n, size - 1), not as the last n bytes. */
  lemma ResolveSuffixForm(size: nat, n: nat)
    ensures ResolveRange(size, Some(BytesPrefix + "-" + NatToDecimal(n)))
         == ByteRange(0, if n == 0 then size - 1 else Min(n, size - 1))
  {
    assert BytesPrefix + "-" + NatToDecimal(n) == BytesPrefix + "" + "-" + NatToDecimal(n);
    DigitsRequestCaptures("", NatToDecimal(n));
    DecimalRoundTrip(n);
  }

  /** The request for the first byte only, "bytes=0-0", resolves to the whole file. */
  lemma FirstByteRequestIsWholeFile(size: nat)
    requires size >= 2
    ensures ResolveRange(size, Some("bytes=0-0")) == ByteRange(0, size - 1)
    ensures ResolveRange(size, Some("bytes=0-0")).end != 0
  {
    assert RangeRequest(0, 0) == "bytes=0-0";
    ResolveRangeRequest(size, 0, 0);
  }

  /** With the fix, "bytes=a-b" gives begin a and end min(b, size - 1) for every b. */
  lemma ResolveRangeFixedRequest(size: nat, a: nat, b: nat)
    ensures ResolveRangeFixed(size, Some(RangeRequest(a, b))) == ByteRange(a, Min(b, size - 1))
  {
    RangeRequestCaptures(a, b);
    DecimalRoundTrip(a);
    DecimalRoundTrip(b);
  }
}
