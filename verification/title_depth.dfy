/**
 Depth decoding of a title field (parse_icd11mms_tab.py, lines 52-64).

 The depth of a concept in the linearization is written as dashes in front
 of its title. The scan counts the dashes in the leading run of dash and
 space characters, keeps everything from the first character outside that
 run onwards, and finally applies `lstrip()` to what it kept.
 */
module TitleDepth {
  import opened Text

  /** The characters of the leading depth marker run. */
  predicate IsMarker(c: char) {
    c == '-' || c == ' '
  }

  /** Length of the maximal leading run of marker characters. */
  function MarkerRun(t: string): (n: nat)
    ensures n <= |t|
    ensures forall k | 0 <= k < n :: IsMarker(t[k])
    ensures n == |t| || !IsMarker(t[n])
  {
    if |t| == 0 || !IsMarker(t[0]) then 0 else 1 + MarkerRun(t[1..])
  }

  /** Number of dash characters in `s`. */
  function Dashes(s: string): (n: nat)
    ensures n <= |s|
  {
    if |s| == 0 then 0
    else Dashes(s[..|s| - 1]) + (if s[|s| - 1] == '-' then 1 else 0)
  }

  /** A decoded title: its depth and the title text without the marker. */
  datatype Decoded = Decoded(level: nat, title: string)

  /** The declarative reading of the scan: the depth is the number of dashes
      in the leading marker run, and the title is what follows that run,
      left-stripped of whitespace. */
  function Decode(raw: string): (d: Decoded)
    ensures d.title == [] || !IsWhitespace(d.title[0])
    ensures d.level + |d.title| <= |raw|
  {
    var n := MarkerRun(raw);
    Decoded(Dashes(raw[..n]), LStrip(raw[n..]))
  }

  /** The cleaned title is the tail of the raw field: the field is the
      marker run and stripped whitespace followed by the cleaned title. */
  lemma DecodeSuffix(raw: string)
    ensures var t := Decode(raw).title;
      raw == raw[..|raw| - |t|] + t
  {
    var n := MarkerRun(raw);
    var rest := raw[n..];
    var t := LStrip(rest);
    LStripRemovesWhitespace(rest);
    assert raw == raw[..n] + rest;
    assert raw[..|raw| - |t|] == raw[..n] + rest[..|rest| - |t|];
  }

  /** The character loop of the source: a `counting` flag that drops once a
      character other than a dash or a space is seen, a dash counter that
      only runs while the flag is up, and a buffer that collects every
      character from the one that dropped the flag onwards. */
  method ScanTitle(raw: string) returns (level: nat, title: string)
    ensures Decoded(level, title) == Decode(raw)
  {
    ghost var n := MarkerRun(raw);
    var buffer := "";
    var counting := true;
    level := 0;
    for i := 0 to |raw|
      invariant counting <==> i <= n
      invariant counting ==> buffer == "" && level == Dashes(raw[..i])
      invariant !counting ==> buffer == raw[n..i] && level == Dashes(raw[..n])
    {
      var c := raw[i];
      assert raw[..i + 1][..i] == raw[..i];
      if c == '-' && counting {
        level := level + 1;
      }
      if c != '-' && c != ' ' {
        counting := false;
      }
      if !counting {
        buffer := buffer + [c];
      }
    }
    assert buffer == raw[n..] && level == Dashes(raw[..n]);
    title := LStrip(buffer);
  }

  /** The depth marker for `level`: that many dashes in front of the title. */
  function Indent(level: nat, title: string): string {
    seq(level, _ => '-') + title
  }

  /** A title that starts with neither a marker character nor whitespace. */
  predicate Clean(title: string) {
    |title| > 0 && !IsMarker(title[0]) && !IsWhitespace(title[0])
  }

  /** Round trip: decoding an indented clean title gives back its depth and
      the title itself. */
  lemma DecodeIndent(level: nat, title: string)
    requires Clean(title)
    ensures Decode(Indent(level, title)) == Decoded(level, title)
  {
    var raw := Indent(level, title);
    MarkerRunIndent(level, title);
    DashesOnly(level);
    assert raw[..level] == seq(level, _ => '-');
    assert raw[level..] == title;
  }

  lemma {:induction false} MarkerRunIndent(level: nat, title: string)
    requires Clean(title)
    ensures MarkerRun(Indent(level, title)) == level
  {
    if level > 0 {
      MarkerRunIndent(level - 1, title);
      assert Indent(level, title)[1..] == Indent(level - 1, title);
    } else {
      assert Indent(level, title) == title;
    }
  }

  lemma {:induction false} DashesOnly(n: nat)
    ensures Dashes(seq(n, _ => '-')) == n
  {
    if n > 0 {
      DashesOnly(n - 1);
      assert seq(n, _ => '-')[..n - 1] == seq(n - 1, _ => '-');
    }
  }

  /** A title that does not start with a marker character has depth 0 and
      loses only its leading whitespace. */
  lemma DecodeUnmarked(raw: string)
    requires |raw| > 0 && !IsMarker(raw[0])
    ensures Decode(raw) == Decoded(0, LStrip(raw))
  {
    assert raw[..0] == [];
  }

  /** A title made only of dashes and spaces has an empty cleaned title and
      a depth equal to its number of dashes. */
  lemma DecodeAllMarkers(raw: string)
    requires forall k | 0 <= k < |raw| :: IsMarker(raw[k])
    ensures Decode(raw) == Decoded(Dashes(raw), "")
  {
    assert raw[..|raw|] == raw;
  }

  /** A string that starts with a dash holds at least one dash. */
  lemma {:induction false} DashesPositive(s: string)
    requires |s| > 0 && s[0] == '-'
    ensures Dashes(s) > 0
  {
    if |s| > 1 {
      assert s[..|s| - 1][0] == '-';
      DashesPositive(s[..|s| - 1]);
    }
  }

  /** Decoding a cleaned title again gives depth 0 exactly when the cleaned
      title does not begin with a dash. Because `lstrip()` removes more than
      the spaces the counter skips, a cleaned title can begin with a dash. */
  lemma RedecodeLevel(raw: string)
    ensures var t := Decode(raw).title;
      Decode(t).level == 0 <==> (t == [] || t[0] != '-')
  {
    var t := Decode(raw).title;
    if t != [] && t[0] == '-' {
      var n := MarkerRun(t);
      assert n >= 1;
      DashesPositive(t[..n]);
    } else if t != [] {
      assert MarkerRun(t) == 0;
      assert t[..0] == [];
    }
  }

  /** When the only whitespace character in a title is the space, the
      scan leaves a title that decodes to itself at depth 0. */
  lemma {:induction false} RedecodeSpaceOnly(raw: string)
    requires forall k | 0 <= k < |raw| :: IsWhitespace(raw[k]) ==> raw[k] == ' '
    ensures var t := Decode(raw).title; Decode(t) == Decoded(0, t)
  {
    var n := MarkerRun(raw);
    var rest := raw[n..];
    assert LStrip(rest) == rest by {
      if |rest| > 0 {
        assert rest[0] == raw[n];
        assert !IsWhitespace(rest[0]);
      }
    }
    var t := Decode(raw).title;
    assert t == rest;
    if |t| > 0 {
      assert t[0] == raw[n] && !IsMarker(t[0]) && !IsWhitespace(t[0]);
      DecodeUnmarked(t);
    } else {
      assert t[..0] == [];
    }
  }

  /** A no-break space before a dash is stripped only after the dash
      counter has stopped, so the cleaned title keeps the dash ... */
  lemma NoBreakSpaceBeforeDash()
    ensures Decode("\U{00A0}-x") == Decoded(0, "-x")
  {
    var raw := "\U{00A0}-x";
    assert raw[0] == '\U{00A0}' && !IsMarker(raw[0]) && IsWhitespace(raw[0]);
    assert MarkerRun(raw) == 0;
    assert raw[..0] == [];
    var t := raw[1..];
    assert t == "-x";
    assert t[0] == '-' && !IsWhitespace(t[0]);
    assert LStrip(t) == t;
    assert LStrip(raw) == t;
    assert raw[0..] == raw;
  }

  /** ... and decoding that cleaned title again gives depth 1, not 0. */
  lemma CleanedTitleWithDash()
    ensures Decode("-x").level == 1
  {
    var t := "-x";
    assert t[1..] == "x";
    assert !IsMarker(t[1..][0]);
    assert MarkerRun(t[1..]) == 0;
    assert MarkerRun(t) == 1;
    assert t[..1] == ['-'];
  }
}
