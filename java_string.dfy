/**
 * The few `java.lang.String` operations the standalone utilities rely on,
 * stated over `seq<char>`.
 */
module JavaString {

  /** An ASCII decimal digit, as the regular-expression class `[0-9]` accepts it. */
  predicate IsDigit(c: char)
  {
    '0' <= c <= '9'
  }

  predicate AllDigits(s: string)
  {
    forall i :: 0 <= i < |s| ==> IsDigit(s[i])
  }

  /** `Character.toLowerCase` restricted to the ASCII letters. */
  function ToLowerChar(c: char): char
  {
    if 'A' <= c <= 'Z' then (c as int + 32) as char else c
  }

  /**
   * `String.toLowerCase`, letter by letter: the result has no upper-case
   * letter left, each upper-case letter becomes its lower-case partner and
   * every other character stays.
   */
  function ToLower(s: string): (r: string)
    ensures |r| == |s|
    ensures forall i :: 0 <= i < |r| ==> !('A' <= r[i] <= 'Z')
    ensures forall i :: 0 <= i < |s| ==>
      if 'A' <= s[i] <= 'Z' then r[i] as int == s[i] as int + 32 else r[i] == s[i]
  {
    seq(|s|, i requires 0 <= i < |s| => ToLowerChar(s[i]))
  }

  /**
   * The case-insensitive test of the stored password: a string lowercases to
   * "test" exactly when it is one of the sixteen upper/lower-case spellings of it.
   */
  lemma ToLowerIsTest(s: string)
    ensures ToLower(s) == "test" <==>
      |s| == 4 && s[0] in "tT" && s[1] in "eE" && s[2] in "sS" && s[3] in "tT"
  {
    if ToLower(s) == "test" {
      var t := ToLower(s);
      assert t[0] == 't' && t[1] == 'e' && t[2] == 's' && t[3] == 't';
    }
  }

  /** `String.contains`: `t` occurs in `s` at some position. */
  predicate Contains(s: string, t: string)
    ensures Contains(s, t) ==> |t| <= |s|
    ensures forall i :: OccursAt(s, t, i) ==> Contains(s, t)
  {
    exists i :: 0 <= i <= |s| - |t| && OccursAt(s, t, i)
  }

  /** `t` occurs in `s` starting at index `i`. */
  predicate OccursAt(s: string, t: string, i: int)
  {
    0 <= i <= |s| - |t| && s[i..i + |t|] == t
  }

  /** `String.endsWith`: `s` is some text followed by `suffix`. */
  predicate EndsWith(s: string, suffix: string)
    ensures EndsWith(s, suffix) ==> |suffix| <= |s| && s == s[..|s| - |suffix|] + suffix
  {
    |suffix| <= |s| && s[|s| - |suffix|..] == suffix
  }

  /** `String.replace(c, "")`: every occurrence of `c` removed, the rest kept in order. */
  function RemoveAll(s: string, c: char): (r: string)
    ensures c !in r
    ensures |r| <= |s|
  {
    if s == [] then [] else (if s[0] == c then [] else [s[0]]) + RemoveAll(s[1..], c)
  }

  lemma {:induction false} RemoveAllAbsent(s: string, c: char)
    requires c !in s
    ensures RemoveAll(s, c) == s
  {
    if s != [] {
      RemoveAllAbsent(s[1..], c);
    }
  }

  lemma {:induction false} RemoveAllConcat(a: string, b: string, c: char)
    ensures RemoveAll(a + b, c) == RemoveAll(a, c) + RemoveAll(b, c)
  {
    if a == [] {
      assert a + b == b;
    } else {
      var ab := a + b;
      assert ab[0] == a[0];
      assert ab[1..] == a[1..] + b;
      RemoveAllConcat(a[1..], b, c);
      assert RemoveAll(ab, c) == (if a[0] == c then [] else [a[0]]) + RemoveAll(a[1..] + b, c);
    }
  }
}
