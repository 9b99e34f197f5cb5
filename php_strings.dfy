/**
 * The PHP string built-ins the block relies on: `explode` with a one-character
 * delimiter, `implode`, and the decimal text of an integer (what `.` produces
 * when it concatenates an int).
 */
module PhpStrings {

  /** `explode(delim, s)`: the pieces of `s` between occurrences of `delim`.
      As in PHP, the empty string splits into one empty piece. */
  function Split(s: string, delim: char): (parts: seq<string>)
    ensures |parts| >= 1
    ensures forall i :: 0 <= i < |parts| ==> delim !in parts[i]
    decreases |s|
  {
    if s == [] then [""]
    else
      var rest := Split(s[1..], delim);
      if s[0] == delim then [""] + rest
      else [[s[0]] + rest[0]] + rest[1..]
  }

  /** `implode(sep, parts)`: the parts with `sep` between neighbours. */
  function Join(parts: seq<string>, sep: string): string
  {
    if parts == [] then ""
    else if |parts| == 1 then parts[0]
    else parts[0] + sep + Join(parts[1..], sep)
  }

  /** Joining the pieces of a split with the same delimiter gives back the string. */
  lemma {:induction false} JoinSplit(s: string, delim: char)
    ensures Join(Split(s, delim), [delim]) == s
    decreases |s|
  {
    if s != [] {
      var rest := Split(s[1..], delim);
      var parts := Split(s, delim);
      JoinSplit(s[1..], delim);
      assert s == [s[0]] + s[1..];
      if s[0] == delim {
        assert parts == [""] + rest;
        JoinUnfold(parts, [delim]);
        assert parts[1..] == rest;
      } else if |rest| == 1 {
        assert parts == [[s[0]] + rest[0]];
      } else {
        assert parts == [[s[0]] + rest[0]] + rest[1..];
        JoinUnfold(parts, [delim]);
        JoinUnfold(rest, [delim]);
        assert parts[1..] == rest[1..];
      }
    }
  }

  /** A string without the delimiter is a single piece. */
  lemma {:induction false} SplitWithoutDelim(s: string, delim: char)
    requires delim !in s
    ensures Split(s, delim) == [s]
    decreases |s|
  {
    if s != [] {
      SplitWithoutDelim(s[1..], delim);
      assert s == [s[0]] + s[1..];
    }
  }

  /** Splitting `piece + delim + rest` yields `piece` followed by the pieces of `rest`. */
  lemma {:induction false} SplitAfterPiece(piece: string, rest: string, delim: char)
    requires delim !in piece
    ensures Split(piece + [delim] + rest, delim) == [piece] + Split(rest, delim)
    decreases |piece|
  {
    var s := piece + [delim] + rest;
    if piece == [] {
      assert s[0] == delim && s[1..] == rest;
    } else {
      assert s[1..] == piece[1..] + [delim] + rest;
      SplitAfterPiece(piece[1..], rest, delim);
      assert [s[0]] + piece[1..] == piece;
    }
  }

  /** Splitting the join of delimiter-free pieces gives the pieces back
      (at least one piece: `implode` of nothing is `""`, which splits into `[""]`). */
  lemma {:induction false} SplitJoin(parts: seq<string>, delim: char)
    requires |parts| >= 1
    requires forall i :: 0 <= i < |parts| ==> delim !in parts[i]
    ensures Split(Join(parts, [delim]), delim) == parts
    decreases |parts|
  {
    if |parts| == 1 {
      SplitWithoutDelim(parts[0], delim);
    } else {
      SplitJoin(parts[1..], delim);
      SplitAfterPiece(parts[0], Join(parts[1..], [delim]), delim);
      assert [parts[0]] + parts[1..] == parts;
    }
  }

  /** `ContainsAt(hay, needle, k)`: `needle` occurs in `hay` starting at index `k`. */
  ghost predicate ContainsAt(hay: string, needle: string, k: int)
  {
    0 <= k && k + |needle| <= |hay| && hay[k..k + |needle|] == needle
  }

  /** An occurrence inside `b` is an occurrence inside `a + b + c`, shifted by `|a|`. */
  lemma ContainsAtShift(a: string, b: string, c: string, needle: string, k: int)
    requires ContainsAt(b, needle, k)
    ensures ContainsAt(a + b + c, needle, |a| + k)
  {
    assert (a + b + c)[|a| + k..|a| + k + |needle|] == b[k..k + |needle|];
  }

  /** Every part of an `implode` occurs in its result. */
  lemma {:induction false} JoinContainsPart(parts: seq<string>, sep: string, i: int)
    requires 0 <= i < |parts|
    ensures exists k :: ContainsAt(Join(parts, sep), parts[i], k)
    decreases |parts|
  {
    if |parts| == 1 {
      assert ContainsAt(Join(parts, sep), parts[i], 0);
    } else if i == 0 {
      ContainsAtShift([], parts[0], sep + Join(parts[1..], sep), parts[0], 0);
      assert [] + parts[0] + (sep + Join(parts[1..], sep)) == Join(parts, sep);
    } else {
      JoinContainsPart(parts[1..], sep, i - 1);
      var k :| ContainsAt(Join(parts[1..], sep), parts[1..][i - 1], k);
      ContainsAtShift(parts[0] + sep, Join(parts[1..], sep), [], parts[i], k);
      assert parts[0] + sep + Join(parts[1..], sep) + [] == Join(parts, sep);
    }
  }

  /** `implode` of two or more parts: the first part, the separator, then the rest. */
  lemma JoinUnfold(parts: seq<string>, sep: string)
    requires |parts| >= 2
    ensures Join(parts, sep) == parts[0] + sep + Join(parts[1..], sep)
  {
  }

  /** The first part of an `implode` opens it, and any later part starts after
      the first part and a separator. */
  lemma FirstPartBeforeLater(parts: seq<string>, sep: string, j: int)
    requires 0 < j < |parts|
    ensures ContainsAt(Join(parts, sep), parts[0], 0)
    ensures exists k :: ContainsAt(Join(parts, sep), parts[j], k) && |parts[0]| + |sep| <= k
  {
    var rest := Join(parts[1..], sep);
    JoinUnfold(parts, sep);
    JoinContainsPart(parts[1..], sep, j - 1);
    var k :| ContainsAt(rest, parts[1..][j - 1], k);
    ContainsAtShift(parts[0] + sep, rest, [], parts[j], k);
    assert parts[0] + sep + rest + [] == Join(parts, sep);
    assert ContainsAt(Join(parts, sep), parts[j], |parts[0] + sep| + k);
  }

  /** Parts keep their order in an `implode`: an earlier part ends, followed at
      least by the separator, before a later part begins. */
  lemma {:induction false} JoinKeepsPartOrder(parts: seq<string>, sep: string, i: int, j: int)
    requires 0 <= i < j < |parts|
    ensures exists k1, k2 :: ContainsAt(Join(parts, sep), parts[i], k1) && ContainsAt(Join(parts, sep), parts[j], k2)
                             && k1 + |parts[i]| + |sep| <= k2
    decreases |parts|
  {
    if i == 0 {
      FirstPartBeforeLater(parts, sep, j);
      var k :| ContainsAt(Join(parts, sep), parts[j], k) && |parts[0]| + |sep| <= k;
      assert ContainsAt(Join(parts, sep), parts[i], 0);
    } else {
      var rest := Join(parts[1..], sep);
      JoinUnfold(parts, sep);
      JoinKeepsPartOrder(parts[1..], sep, i - 1, j - 1);
      var k1, k2 :| ContainsAt(rest, parts[1..][i - 1], k1) && ContainsAt(rest, parts[1..][j - 1], k2)
                    && k1 + |parts[1..][i - 1]| + |sep| <= k2;
      ContainsAtShift(parts[0] + sep, rest, [], parts[i], k1);
      ContainsAtShift(parts[0] + sep, rest, [], parts[j], k2);
      assert parts[0] + sep + rest + [] == Join(parts, sep);
      assert ContainsAt(Join(parts, sep), parts[i], |parts[0] + sep| + k1);
      assert ContainsAt(Join(parts, sep), parts[j], |parts[0] + sep| + k2);
    }
  }

  /** Part order survives putting text before and after the `implode`. */
  lemma JoinKeepsPartOrderWithin(prefix: string, parts: seq<string>, sep: string, suffix: string, i: int, j: int)
    requires 0 <= i < j < |parts|
    ensures exists k1, k2 :: ContainsAt(prefix + Join(parts, sep) + suffix, parts[i], k1)
                             && ContainsAt(prefix + Join(parts, sep) + suffix, parts[j], k2)
                             && k1 + |parts[i]| + |sep| <= k2
  {
    var joined := Join(parts, sep);
    JoinKeepsPartOrder(parts, sep, i, j);
    var k1, k2 :| ContainsAt(joined, parts[i], k1) && ContainsAt(joined, parts[j], k2)
                  && k1 + |parts[i]| + |sep| <= k2;
    ContainsAtShift(prefix, joined, suffix, parts[i], k1);
    ContainsAtShift(prefix, joined, suffix, parts[j], k2);
  }

  /** The decimal digit character for `d`. */
  function DigitChar(d: int): char
    requires 0 <= d < 10
  {
    "0123456789"[d]
  }

  /** The decimal text of a natural number, most significant digit first. */
  function NatText(n: nat): (s: string)
    ensures |s| >= 1
    decreases n
  {
    if n < 10 then [DigitChar(n)] else NatText(n / 10) + [DigitChar(n % 10)]
  }

  /** PHP's string conversion of an integer: a minus sign for negatives, then the digits. */
  function IntText(i: int): string
  {
    if i < 0 then "-" + NatText(-i) else NatText(i)
  }
}
