/** The string operations of the JavaScript runtime that the ledger relies on:
    rendering an integer inside a template literal, `'0'.repeat(n)`,
    `startsWith` and `String.prototype.split` on a one-character separator. */
module Text {

  function Digit(d: nat): (c: char)
    requires d < 10
    ensures '0' <= c <= '9'
  {
    ('0' as int + d) as char
  }

  /** Decimal rendering of a non-negative integer, as `${n}` produces it
      (no leading zeros, "0" for zero). */
  function NatToString(n: nat): (s: string)
    ensures |s| >= 1
  {
    if n < 10 then [Digit(n)] else NatToString(n / 10) + [Digit(n % 10)]
  }

  /** Decimal rendering of an integer, with a leading '-' for negatives. */
  function IntToString(i: int): string
  {
    if i < 0 then "-" + NatToString(-i) else NatToString(i)
  }

  /** `'0'.repeat(n)`. */
  function Zeros(n: nat): (s: string)
    ensures |s| == n
    ensures forall i :: 0 <= i < n ==> s[i] == '0'
  {
    seq(n, _ => '0')
  }

  /** `s.startsWith(prefix)`. */
  predicate StartsWith(s: string, prefix: string)
  {
    prefix <= s
  }

  /** `s.split(sep)` for a one-character separator: the maximal runs of
      non-separator characters, with an empty part before a leading, after a
      trailing and between two adjacent separators ("".split(sep) is [""]). */
  function Split(s: string, sep: char): (parts: seq<string>)
    ensures |parts| >= 1
    ensures forall i :: 0 <= i < |parts| ==> sep !in parts[i]
    decreases |s|
  {
    if |s| == 0 then [""]
    else
      var rest := Split(s[1..], sep);
      if s[0] == sep then [""] + rest else [[s[0]] + rest[0]] + rest[1..]
  }

  /** `parts.join(sep)`. */
  function Join(parts: seq<string>, sep: char): string
  {
    if |parts| == 0 then ""
    else if |parts| == 1 then parts[0]
    else parts[0] + [sep] + Join(parts[1..], sep)
  }

  lemma {:induction false} JoinCons(c: char, parts: seq<string>, sep: char)
    requires |parts| >= 1
    ensures Join([[c] + parts[0]] + parts[1..], sep) == [c] + Join(parts, sep)
  {
    var q := [[c] + parts[0]] + parts[1..];
    assert q[1..] == parts[1..];
  }

  /** Splitting loses nothing: joining the parts back gives the input. */
  lemma {:induction false} JoinSplit(s: string, sep: char)
    ensures Join(Split(s, sep), sep) == s
    decreases |s|
  {
    if |s| > 0 {
      var rest := Split(s[1..], sep);
      JoinSplit(s[1..], sep);
      if s[0] == sep {
        assert ([""] + rest)[1..] == rest;
        assert s == [sep] + s[1..];
      } else {
        JoinCons(s[0], rest, sep);
        assert s == [s[0]] + s[1..];
      }
    }
  }

  /** The first part of a split is the text before the first separator. */
  lemma {:induction false} SplitFirstPart(s: string, sep: char)
    ensures Split(s, sep)[0] == s[..FirstIndex(s, sep)]
    decreases |s|
  {
    if |s| > 0 && s[0] != sep {
      SplitFirstPart(s[1..], sep);
    }
  }

  /** Position of the first `sep` in `s`, or |s| when there is none. */
  function FirstIndex(s: string, sep: char): (k: nat)
    ensures k <= |s|
    ensures forall i :: 0 <= i < k ==> s[i] != sep
    ensures k < |s| ==> s[k] == sep
    decreases |s|
  {
    if |s| == 0 then 0 else if s[0] == sep then 0 else 1 + FirstIndex(s[1..], sep)
  }

  /** There is a second part exactly when the separator occurs, and it is the
      text between the first and the second separator. */
  lemma {:induction false} SplitSecondPart(s: string, sep: char)
    ensures |Split(s, sep)| >= 2 <==> sep in s
    ensures sep in s ==>
      var k := FirstIndex(s, sep);
      Split(s, sep)[1] == s[k + 1..][..FirstIndex(s[k + 1..], sep)]
    decreases |s|
  {
    if |s| > 0 {
      var rest := Split(s[1..], sep);
      SplitSecondPart(s[1..], sep);
      if s[0] == sep {
        SplitFirstPart(s[1..], sep);
      } else {
        assert sep in s <==> sep in s[1..];
        if sep in s {
          assert s[1..][FirstIndex(s[1..], sep) + 1..] == s[FirstIndex(s, sep) + 1..];
        }
      }
    }
  }
}
