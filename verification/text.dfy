/**
 The string primitives the converter relies on: Python 3's notion of
 whitespace, `str.lstrip()` without arguments, and `str.split` / `str.join`
 with a one-character separator.
 */
module Text {

  /** Python 3's `str.isspace()` on one character: the code points that
      `str.lstrip()` removes when it is called without arguments. */
  predicate IsWhitespace(c: char) {
    var n := c as int;
    || n == 0x20
    || 0x09 <= n <= 0x0D
    || 0x1C <= n <= 0x1F
    || n == 0x85
    || n == 0xA0
    || n == 0x1680
    || 0x2000 <= n <= 0x200A
    || n == 0x2028
    || n == 0x2029
    || n == 0x202F
    || n == 0x205F
    || n == 0x3000
  }

  /** `s.lstrip()`: what is left once every leading whitespace character is
      removed; it is empty or starts with a character that is not whitespace. */
  function LStrip(s: string): (r: string)
    ensures |r| <= |s|
    ensures r == [] || !IsWhitespace(r[0])
  {
    if |s| > 0 && IsWhitespace(s[0]) then LStrip(s[1..]) else s
  }

  /** `lstrip()` removes a prefix made of whitespace and nothing else: the
      string is that prefix followed by the result. */
  lemma {:induction false} LStripRemovesWhitespace(s: string)
    ensures var r := LStrip(s);
      && s == s[..|s| - |r|] + r
      && forall k | 0 <= k < |s| - |r| :: IsWhitespace(s[k])
  {
    if |s| > 0 && IsWhitespace(s[0]) {
      var t := s[1..];
      var r := LStrip(t);
      var m := |t| - |r|;
      LStripRemovesWhitespace(t);
      assert s[..m + 1] == [s[0]] + t[..m];
      assert s == [s[0]] + t;
      forall k | 0 <= k < m + 1
        ensures IsWhitespace(s[k])
      {
        if k > 0 {
          assert s[k] == t[k - 1];
        }
      }
    } else {
      assert s[..0] == [];
    }
  }

  /** `sep.join(parts)` for a one-character separator. */
  function Join(parts: seq<string>, sep: char): string
  {
    if |parts| == 0 then ""
    else if |parts| == 1 then parts[0]
    else parts[0] + [sep] + Join(parts[1..], sep)
  }

  /** `s.split(sep)` for a one-character separator: the pieces between the
      separators, never fewer than one, none of which holds the separator. */
  function Split(s: string, sep: char): (parts: seq<string>)
    ensures |parts| >= 1
    ensures forall k | 0 <= k < |parts| :: sep !in parts[k]
  {
    if |s| == 0 then [""]
    else
      var rest := Split(s[1..], sep);
      if s[0] == sep then [""] + rest else [[s[0]] + rest[0]] + rest[1..]
  }

  /** Round trip: the pieces of a split join back to the string. */
  lemma {:induction false} JoinSplit(s: string, sep: char)
    ensures Join(Split(s, sep), sep) == s
  {
    if |s| > 0 {
      var rest := Split(s[1..], sep);
      JoinSplit(s[1..], sep);
      if s[0] == sep {
        assert ([""] + rest)[1..] == rest;
      } else {
        assert ([[s[0]] + rest[0]] + rest[1..])[1..] == rest[1..];
        assert s == [s[0]] + s[1..];
      }
    }
  }

  /** A string without the separator splits into itself alone. */
  lemma {:induction false} SplitWithoutSeparator(a: string, sep: char)
    requires sep !in a
    ensures Split(a, sep) == [a]
  {
    if |a| > 0 {
      SplitWithoutSeparator(a[1..], sep);
      assert [a[0]] + a[1..] == a;
    }
  }

  /** Splitting `a + sep + t`, where `a` has no separator, yields `a`
      followed by the pieces of `t`. */
  lemma {:induction false} SplitAfterPiece(a: string, sep: char, t: string)
    requires sep !in a
    ensures Split(a + [sep] + t, sep) == [a] + Split(t, sep)
  {
    var s := a + [sep] + t;
    if |a| == 0 {
      assert s[1..] == t;
    } else {
      assert s[1..] == a[1..] + [sep] + t;
      SplitAfterPiece(a[1..], sep, t);
      assert [a[0]] + a[1..] == a;
    }
  }

  /** Round trip: pieces free of the separator survive being joined and split again. */
  lemma {:induction false} SplitJoin(parts: seq<string>, sep: char)
    requires |parts| >= 1
    requires forall k | 0 <= k < |parts| :: sep !in parts[k]
    ensures Split(Join(parts, sep), sep) == parts
  {
    if |parts| == 1 {
      SplitWithoutSeparator(parts[0], sep);
    } else {
      SplitJoin(parts[1..], sep);
      SplitAfterPiece(parts[0], sep, Join(parts[1..], sep));
      assert [parts[0]] + parts[1..] == parts;
    }
  }
}
