/**
 * The regular expression `:[0-9]+/` that locates the port inside a JDBC
 * connection string such as `jdbc:mysql:mxj://localhost:3306/openmrs`, with
 * the three `java.util.regex.Matcher` operations used on it: `find`, `group`
 * and `replaceAll`.
 *
 * A match ("segment") is a colon, a non-empty run of ASCII digits and a
 * slash. Because `[0-9]+` is greedy and a digit is never a slash, a match
 * starts at a colon exactly when the maximal digit run after it is non-empty
 * and followed by a slash. The pattern has no anchors and no look-behind, so
 * resuming the search at the end of a match is the same as searching the
 * rest of the string afresh (lemma SearchResumesOnSuffix); the functions below
 * recurse on that rest.
 */
module PortSegment {
  import opened Wrappers
  import opened JavaString

  /** Length of the maximal run of ASCII digits in `s` starting at index `i`. */
  function DigitRun(s: string, i: nat): (n: nat)
    requires i <= |s|
    ensures i + n <= |s|
    ensures forall k :: i <= k < i + n ==> IsDigit(s[k])
    ensures i + n < |s| ==> !IsDigit(s[i + n])
    decreases |s| - i
  {
    if i < |s| && IsDigit(s[i]) then 1 + DigitRun(s, i + 1) else 0
  }

  /** `:[0-9]+/` matches `s` at index `i`. */
  predicate SegmentAt(s: string, i: nat)
  {
    i < |s| && s[i] == ':' &&
    var n := DigitRun(s, i + 1);
    n > 0 && i + 1 + n < |s| && s[i + 1 + n] == '/'
  }

  /**
   * `:[0-9]+/` matches the `n + 2` characters of `s` from index `i` on: a
   * colon, `n > 0` digits and a slash. This is the regular expression read
   * literally, before any greedy choice.
   */
  predicate MatchesAt(s: string, i: nat, n: nat)
  {
    n > 0 && i + 1 + n < |s| && s[i] == ':' &&
    (forall k :: i + 1 <= k < i + 1 + n ==> IsDigit(s[k])) && s[i + 1 + n] == '/'
  }

  /**
   * The pattern matches at `i` exactly when `SegmentAt` says so, and then with
   * one length only, the maximal digit run: backtracking the greedy `[0-9]+`
   * never finds a slash, since a digit is not one.
   */
  lemma SegmentAtIsMatch(s: string, i: nat)
    requires i < |s|
    ensures SegmentAt(s, i) <==> exists n: nat :: MatchesAt(s, i, n)
    ensures forall n: nat :: MatchesAt(s, i, n) ==> n == DigitRun(s, i + 1)
  {
    var d := DigitRun(s, i + 1);
    if SegmentAt(s, i) {
      assert MatchesAt(s, i, d);
    }
  }

  /** The index just past the match at `i`. */
  function SegmentEnd(s: string, i: nat): (e: nat)
    requires SegmentAt(s, i)
    ensures i + 3 <= e <= |s|
    ensures s[e - 1] == '/'
  {
    i + 2 + DigitRun(s, i + 1)
  }

  /** The digits of the match at `i`, without the colon and the slash. */
  function SegmentPort(s: string, i: nat): (p: string)
    requires SegmentAt(s, i)
    ensures |p| > 0 && AllDigits(p)
  {
    s[i + 1..SegmentEnd(s, i) - 1]
  }

  /** The leftmost match at or after index `from`. */
  function FindFrom(s: string, from: nat): (r: Option<nat>)
    requires from <= |s|
    ensures r.Some? ==> from <= r.value < |s| && SegmentAt(s, r.value)
    ensures r.Some? ==> forall j :: from <= j < r.value ==> !SegmentAt(s, j)
    ensures r.None? ==> forall j :: from <= j < |s| ==> !SegmentAt(s, j)
    decreases |s| - from
  {
    if from == |s| then None
    else if SegmentAt(s, from) then Some(from)
    else FindFrom(s, from + 1)
  }

  /** `Matcher.find()` on a fresh matcher: the start of the first match. */
  function Find(s: string): Option<nat>
  {
    FindFrom(s, 0)
  }

  /** `Matcher.group()` after a successful first `find()`. */
  function FirstGroup(s: string): (r: Option<string>)
    ensures r.Some? <==> Find(s).Some?
    ensures r.Some? ==> r.value == PortToken(SegmentPort(s, Find(s).value))
  {
    match Find(s)
    case None => None
    case Some(i) =>
      var e := SegmentEnd(s, i);
      assert s[i..e] == [s[i]] + s[i + 1..e - 1] + [s[e - 1]];
      Some(s[i..e])
  }

  /** The port number written in the first segment. */
  function FirstPort(s: string): (r: Option<string>)
    ensures r.Some? <==> Find(s).Some?
    ensures r.Some? ==> |r.value| > 0 && AllDigits(r.value) && FirstGroup(s) == Some(PortToken(r.value))
  {
    match Find(s)
    case None => None
    case Some(i) => Some(SegmentPort(s, i))
  }

  /** Drops the leading '0' characters. */
  function SkipZeros(s: string): (r: string)
    ensures |r| <= |s| && r == s[|s| - |r|..]
    ensures r != [] ==> r[0] != '0'
  {
    if s != [] && s[0] == '0' then SkipZeros(s[1..]) else s
  }

  /**
   * The text `Matcher.appendReplacement` produces from the replacement string
   * `rep` for a match whose text is `group`, or `None` where it throws.
   * The pattern has no capturing group, so `$0` (with any further zeros) is the
   * only group reference that succeeds; a `$` at the end, before a non-digit,
   * before `{` or before a digit 1-9, and a `\` at the end, all throw.
   * A `\` makes the next character literal.
   */
  function Expand(rep: string, group: string): (r: Option<string>)
    ensures r.None? ==> '$' in rep || '\\' in rep
    decreases |rep|
  {
    if rep == [] then Some([])
    else if rep[0] == '\\' then
      if |rep| == 1 then None
      else match Expand(rep[2..], group)
        case None => None
        case Some(r) => Some([rep[1]] + r)
    else if rep[0] == '$' then
      if |rep| == 1 || rep[1] != '0' then None
      else match Expand(SkipZeros(rep[2..]), group)
        case None => None
        case Some(r) => Some(group + r)
    else match Expand(rep[1..], group)
      case None => None
      case Some(r) => Some([rep[0]] + r)
  }

  /**
   * `Matcher.replaceAll(rep)`: every match, left to right and without overlap,
   * replaced by the expansion of `rep`; `None` where the expansion throws.
   * Without any match the text comes back as it is and `rep` is never read.
   */
  function ReplaceAll(s: string, rep: string): (r: Option<string>)
    ensures Find(s).None? ==> r == Some(s)
    ensures r.None? ==> Find(s).Some? && ('$' in rep || '\\' in rep)
    decreases |s|
  {
    match Find(s)
    case None => Some(s)
    case Some(i) =>
      var e := SegmentEnd(s, i);
      match Expand(rep, s[i..e])
      case None => None
      case Some(x) =>
        match ReplaceAll(s[e..], rep)
        case None => None
        case Some(rest) => Some(s[..i] + x + rest)
  }

  /** `s` with every segment cut out: the parts a port rewrite must leave alone. */
  function Erase(s: string): string
    decreases |s|
  {
    match Find(s)
    case None => s
    case Some(i) => s[..i] + Erase(s[SegmentEnd(s, i)..])
  }

  /** The number of segments `replaceAll` visits. */
  function SegmentCount(s: string): nat
    decreases |s|
  {
    match Find(s)
    case None => 0
    case Some(i) => 1 + SegmentCount(s[SegmentEnd(s, i)..])
  }

  /** The replacement string the routine builds for a port: `":" + port + "/"`. */
  function PortToken(port: string): string
  {
    ":" + port + "/"
  }

  /** A replacement string with no `$` group reference and no `\` escape. */
  predicate IsLiteral(rep: string)
  {
    '$' !in rep && '\\' !in rep
  }

  // ------------------------------------------------------------------
  // Replacement expansion

  /** A literal replacement string expands to itself, whatever was matched. */
  lemma {:induction false} ExpandLiteral(rep: string, group: string)
    requires IsLiteral(rep)
    ensures Expand(rep, group) == Some(rep)
  {
    if rep != [] {
      assert '$' !in rep[1..] && '\\' !in rep[1..] by {
        forall k | 0 <= k < |rep[1..]| ensures rep[1..][k] == rep[k + 1] { }
      }
      ExpandLiteral(rep[1..], group);
      assert [rep[0]] + rep[1..] == rep;
    }
  }

  /** Whether the expansion throws depends on the replacement string only. */
  lemma {:induction false} ExpandDefinedness(rep: string, g1: string, g2: string)
    ensures Expand(rep, g1).Some? == Expand(rep, g2).Some?
    decreases |rep|
  {
    if rep == [] {
    } else if rep[0] == '\\' {
      if |rep| > 1 {
        ExpandDefinedness(rep[2..], g1, g2);
      }
    } else if rep[0] == '$' {
      if |rep| > 1 && rep[1] == '0' {
        ExpandDefinedness(SkipZeros(rep[2..]), g1, g2);
      }
    } else {
      ExpandDefinedness(rep[1..], g1, g2);
    }
  }

  /**
   * `replaceAll` throws exactly when the text has a segment and the
   * replacement string is malformed.
   */
  lemma {:induction false} ReplaceAllFails(s: string, rep: string)
    ensures ReplaceAll(s, rep).None? <==> Find(s).Some? && Expand(rep, "").None?
    decreases |s|
  {
    match Find(s)
    case None =>
    case Some(i) =>
      var e := SegmentEnd(s, i);
      ExpandDefinedness(rep, s[i..e], "");
      ReplaceAllFails(s[e..], rep);
  }

  // ------------------------------------------------------------------
  // Structure of matches

  lemma {:induction false} DigitRunShift(x: string, y: string, k: nat)
    requires k <= |y|
    ensures DigitRun(x + y, |x| + k) == DigitRun(y, k)
    decreases |y| - k
  {
    if k < |y| {
      assert (x + y)[|x| + k] == y[k];
      DigitRunShift(x, y, k + 1);
    }
  }

  /** Matching looks only forward: a match in `y` is a match in `x + y`, shifted. */
  lemma SegmentAtShift(x: string, y: string, j: nat)
    ensures SegmentAt(x + y, |x| + j) <==> SegmentAt(y, j)
    ensures SegmentAt(y, j) ==>
      SegmentEnd(x + y, |x| + j) == |x| + SegmentEnd(y, j) &&
      SegmentPort(x + y, |x| + j) == SegmentPort(y, j)
  {
    if j < |y| {
      DigitRunShift(x, y, j + 1);
      var n := DigitRun(y, j + 1);
      if j + 1 + n < |y| {
        assert (x + y)[|x| + j + 1 + n] == y[j + 1 + n];
      }
      if SegmentAt(y, j) {
        assert (x + y)[|x| + j + 1..|x| + j + 1 + n] == y[j + 1..j + 1 + n];
      }
    }
  }

  /** The search resumed at the end `e` of a match sees what a search of `s[e..]` sees. */
  lemma SearchResumesOnSuffix(s: string, e: nat, j: nat)
    requires e <= |s|
    ensures SegmentAt(s, e + j) <==> SegmentAt(s[e..], j)
  {
    assert s == s[..e] + s[e..];
    SegmentAtShift(s[..e], s[e..], j);
  }

  /**
   * Two strings that agree up to and including a non-digit at index `n`
   * have the same digit runs before `n`.
   */
  lemma {:induction false} DigitRunLocal(a: string, b: string, n: nat, k: nat)
    requires k <= n < |a| && n < |b| && a[..n + 1] == b[..n + 1] && !IsDigit(a[n])
    ensures DigitRun(a, k) == DigitRun(b, k)
    decreases n - k
  {
    assert a[k] == a[..n + 1][k] == b[..n + 1][k] == b[k];
    if k < n {
      DigitRunLocal(a, b, n, k + 1);
    }
  }

  lemma SegmentAtLocal(a: string, b: string, n: nat, j: nat)
    requires j < n < |a| && n < |b| && a[..n + 1] == b[..n + 1] && !IsDigit(a[n])
    ensures SegmentAt(a, j) <==> SegmentAt(b, j)
  {
    assert a[j] == a[..n + 1][j] == b[..n + 1][j] == b[j];
    DigitRunLocal(a, b, n, j + 1);
    var q := j + 1 + DigitRun(a, j + 1);
    assert q <= n;
    assert a[q] == a[..n + 1][q] == b[..n + 1][q] == b[q];
  }

  /** A run of exactly `n` digits, followed by a non-digit or the end. */
  lemma DigitRunExact(s: string, k: nat, n: nat)
    requires k + n <= |s|
    requires forall i :: k <= i < k + n ==> IsDigit(s[i])
    requires k + n == |s| || !IsDigit(s[k + n])
    ensures DigitRun(s, k) == n
  {
  }

  /** The characters of a port token. */
  lemma TokenShape(p: string)
    ensures var tok := PortToken(p);
      |tok| == |p| + 2 && tok[0] == ':' && tok[|p| + 1] == '/' &&
      (forall k :: 0 <= k < |p| ==> tok[k + 1] == p[k])
  {
  }

  /** A port token with digit port `p` is a literal replacement string. */
  lemma TokenIsLiteral(p: string)
    requires AllDigits(p)
    ensures IsLiteral(PortToken(p))
  {
    var tok := PortToken(p);
    TokenShape(p);
    forall k | 0 <= k < |tok| ensures tok[k] != '$' && tok[k] != '\\' {
      if 0 < k < |tok| - 1 { assert tok[k] == p[k - 1]; }
    }
  }

  /** An occurrence of the token for a digit port is a segment carrying that port. */
  lemma TokenOccurrenceIsSegment(s: string, p: string, i: nat)
    requires |p| > 0 && AllDigits(p) && OccursAt(s, PortToken(p), i)
    ensures SegmentAt(s, i) && SegmentPort(s, i) == p
  {
    var tok := PortToken(p);
    TokenShape(p);
    assert s[i..i + |tok|] == tok;
    forall k | i + 1 <= k < i + 1 + |p| ensures s[k] == p[k - i - 1] {
      assert s[k] == tok[k - i];
    }
    assert s[i + 1 + |p|] == tok[|p| + 1];
    assert s[i] == tok[0];
    DigitRunExact(s, i + 1, |p|);
    assert SegmentPort(s, i) == s[i + 1..i + 1 + |p|];
  }

  /** A segment carrying port `p` is an occurrence of the token for `p`. */
  lemma SegmentIsTokenOccurrence(s: string, p: string, j: nat)
    requires SegmentAt(s, j) && SegmentPort(s, j) == p
    ensures OccursAt(s, PortToken(p), j)
  {
    var tok := PortToken(p);
    TokenShape(p);
    var e := SegmentEnd(s, j);
    assert e == j + |tok|;
    forall k | 0 <= k < |tok| ensures s[j..e][k] == tok[k] {
      if 0 < k < |tok| - 1 {
        assert s[j + k] == SegmentPort(s, j)[k - 1];
      }
    }
  }

  /**
   * `":" + p + "/"` for a non-empty digit string `p` occurs in `s` exactly
   * when some segment of `s` carries the port `p`.
   */
  lemma ContainsTokenIffSegment(s: string, p: string)
    requires |p| > 0 && AllDigits(p)
    ensures Contains(s, PortToken(p)) <==> exists j: nat :: SegmentAt(s, j) && SegmentPort(s, j) == p
  {
    var tok := PortToken(p);
    if Contains(s, tok) {
      var i :| 0 <= i <= |s| - |tok| && OccursAt(s, tok, i);
      TokenOccurrenceIsSegment(s, p, i);
    }
    if exists j: nat :: SegmentAt(s, j) && SegmentPort(s, j) == p {
      var j: nat :| SegmentAt(s, j) && SegmentPort(s, j) == p;
      SegmentIsTokenOccurrence(s, p, j);
    }
  }

  // ------------------------------------------------------------------
  // Rewriting the port

  /**
   * The first step of a rewrite: after replacing the first segment of `s` with
   * the token for port `p`, the first segment of the result is that token.
   */
  lemma RewriteHead(s: string, i: nat, p: string, rest: string)
    requires Find(s) == Some(i)
    requires |p| > 0 && AllDigits(p)
    ensures var r := s[..i] + PortToken(p) + rest;
      Find(r) == Some(i) && SegmentEnd(r, i) == i + |PortToken(p)| &&
      SegmentPort(r, i) == p && r[SegmentEnd(r, i)..] == rest
  {
    var tok := PortToken(p);
    var r := s[..i] + tok + rest;
    assert r[i] == ':' == s[i];
    assert r[..i + 1] == s[..i + 1];
    forall j | 0 <= j < i ensures !SegmentAt(r, j) {
      SegmentAtLocal(s, r, i, j);
    }
    forall k | i + 1 <= k < i + 1 + |p| ensures IsDigit(r[k]) {
      assert r[k] == p[k - i - 1];
    }
    assert r[i + 1 + |p|] == '/';
    DigitRunExact(r, i + 1, |p|);
    assert SegmentAt(r, i);
    assert SegmentPort(r, i) == r[i + 1..i + 1 + |p|] == p;
    assert r[i + |tok|..] == rest;
  }

  /** No segment of the rewritten text starts inside the inserted token. */
  lemma InsideToken(r: string, i: nat, p: string, j: nat)
    requires i + |PortToken(p)| <= |r| && r[i..i + |PortToken(p)|] == PortToken(p)
    requires AllDigits(p) && i < j < i + |PortToken(p)|
    ensures !SegmentAt(r, j)
  {
    assert r[j] == PortToken(p)[j - i];
  }

  /** A segment of `x + rest`, where `x` ends with the token at `i`, is the token or lies in `rest`. */
  lemma SegmentAfterHead(x: string, i: nat, p: string, rest: string, j: nat)
    requires AllDigits(p) && |x| == i + |PortToken(p)| && x[i..] == PortToken(p)
    requires forall j: nat :: i < j < |x| ==> !SegmentAt(x + rest, j)
    requires j > i && SegmentAt(x + rest, j)
    ensures j >= |x| && SegmentAt(rest, j - |x|) && SegmentPort(x + rest, j) == SegmentPort(rest, j - |x|)
  {
    SegmentAtShift(x, rest, j - |x|);
  }

  /**
   * Every segment of `s[..i] + token + rest` carries port `p` when `i` is the
   * first segment of `s` and every segment of `rest` carries `p`.
   */
  lemma SegmentsAfterHead(s: string, i: nat, p: string, rest: string)
    requires Find(s) == Some(i) && |p| > 0 && AllDigits(p)
    requires forall j: nat :: SegmentAt(rest, j) ==> SegmentPort(rest, j) == p
    ensures var r := s[..i] + PortToken(p) + rest;
      forall j: nat :: SegmentAt(r, j) ==> SegmentPort(r, j) == p
  {
    var tok := PortToken(p);
    var x := s[..i] + tok;
    var r := x + rest;
    RewriteHead(s, i, p, rest);
    assert x[i..] == tok;
    assert r[i..i + |tok|] == tok;
    forall j: nat | i < j < |x| ensures !SegmentAt(r, j) {
      InsideToken(r, i, p, j);
    }
    forall j: nat | SegmentAt(r, j) ensures SegmentPort(r, j) == p {
      if j > i {
        SegmentAfterHead(x, i, p, rest, j);
      }
    }
  }

  /**
   * Rewriting with a digit port never throws, cuts nothing outside the
   * segments, keeps their number, and leaves every segment carrying that port.
   */
  lemma {:induction false} RewriteAll(s: string, p: string)
    requires |p| > 0 && AllDigits(p)
    ensures ReplaceAll(s, PortToken(p)).Some?
    ensures var r := ReplaceAll(s, PortToken(p)).value;
      Erase(r) == Erase(s) && SegmentCount(r) == SegmentCount(s) &&
      (forall j: nat :: SegmentAt(r, j) ==> SegmentPort(r, j) == p)
    decreases |s|
  {
    var tok := PortToken(p);
    TokenIsLiteral(p);
    match Find(s)
    case None =>
    case Some(i) =>
      var e := SegmentEnd(s, i);
      ExpandLiteral(tok, s[i..e]);
      RewriteAll(s[e..], p);
      var rest := ReplaceAll(s[e..], tok).value;
      var r := s[..i] + tok + rest;
      assert ReplaceAll(s, tok) == Some(r);
      RewriteHead(s, i, p, rest);
      assert r[..i] == s[..i];
      SegmentsAfterHead(s, i, p, rest);
  }

  // ------------------------------------------------------------------
  // A text as gaps and segments

  /** The texts before, between and after the segments, left to right. */
  function Gaps(s: string): (gs: seq<string>)
    ensures |gs| == SegmentCount(s) + 1
    decreases |s|
  {
    match Find(s)
    case None => [s]
    case Some(i) => [s[..i]] + Gaps(s[SegmentEnd(s, i)..])
  }

  /** The segments `replaceAll` visits, left to right. */
  function Segs(s: string): (xs: seq<string>)
    ensures |xs| == SegmentCount(s)
    decreases |s|
  {
    match Find(s)
    case None => []
    case Some(i) => [s[i..SegmentEnd(s, i)]] + Segs(s[SegmentEnd(s, i)..])
  }

  /** The gaps with one filler between each neighbouring pair. */
  function Interleave(gaps: seq<string>, fills: seq<string>): string
    requires |gaps| == |fills| + 1
    decreases |fills|
  {
    if fills == [] then gaps[0] else gaps[0] + fills[0] + Interleave(gaps[1..], fills[1..])
  }

  /** A text is its gaps with its segments put back between them. */
  lemma {:induction false} GapsAndSegs(s: string)
    ensures Interleave(Gaps(s), Segs(s)) == s
    decreases |s|
  {
    match Find(s)
    case None =>
    case Some(i) =>
      var e := SegmentEnd(s, i);
      GapsAndSegs(s[e..]);
      assert Gaps(s)[1..] == Gaps(s[e..]);
      assert Segs(s)[1..] == Segs(s[e..]);
      assert s == s[..i] + s[i..e] + s[e..];
  }

  /**
   * Rewriting with a digit port puts the token exactly where each segment
   * stood, and keeps every gap as it was.
   */
  lemma {:induction false} RewriteInPlace(s: string, p: string)
    requires IsLiteral(PortToken(p))
    ensures ReplaceAll(s, PortToken(p)) ==
      Some(Interleave(Gaps(s), seq(SegmentCount(s), _ => PortToken(p))))
    decreases |s|
  {
    var tok := PortToken(p);
    match Find(s)
    case None =>
    case Some(i) =>
      var e := SegmentEnd(s, i);
      ExpandLiteral(tok, s[i..e]);
      RewriteInPlace(s[e..], p);
      var toks := seq(SegmentCount(s), _ => tok);
      assert toks[1..] == seq(SegmentCount(s[e..]), _ => tok);
      assert Gaps(s)[1..] == Gaps(s[e..]);
  }

  /** After a rewrite of a text that has a segment, the first port is the new one. */
  lemma RewriteThenExtract(s: string, p: string)
    requires |p| > 0 && AllDigits(p) && Find(s).Some?
    ensures ReplaceAll(s, PortToken(p)).Some?
    ensures FirstPort(ReplaceAll(s, PortToken(p)).value) == Some(p)
    ensures Contains(ReplaceAll(s, PortToken(p)).value, PortToken(p))
  {
    RewriteAll(s, p);
    var r := ReplaceAll(s, PortToken(p)).value;
    var i := Find(s).value;
    RewriteAll(s[SegmentEnd(s, i)..], p);
    var rest := ReplaceAll(s[SegmentEnd(s, i)..], PortToken(p)).value;
    TokenIsLiteral(p);
    ExpandLiteral(PortToken(p), s[i..SegmentEnd(s, i)]);
    assert r == s[..i] + PortToken(p) + rest;
    RewriteHead(s, i, p, rest);
    SegmentIsTokenOccurrence(r, p, i);
  }
}
