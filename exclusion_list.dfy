/**
 * The exclusion list as the settings dialog edits it: the dialog shows the
 * titles one per line, and on save the text is stripped, split on newlines,
 * each line stripped again and blank lines dropped. Whitespace is what
 * Python's `str.isspace` accepts, which is what `str.strip()` removes.
 */
module ExclusionList {

  predicate IsSpace(c: char) {
    ('\t' <= c <= '\r') || ('\U{1C}' <= c <= '\U{1F}') || c == ' '
    || c == '\U{85}' || c == '\U{A0}' || c == '\U{1680}'
    || ('\U{2000}' <= c <= '\U{200A}') || c == '\U{2028}' || c == '\U{2029}'
    || c == '\U{202F}' || c == '\U{205F}' || c == '\U{3000}'
  }

  /** No whitespace at either end: what `str.strip()` leaves unchanged. */
  predicate Trimmed(s: string) {
    s == [] || (!IsSpace(s[0]) && !IsSpace(s[|s| - 1]))
  }

  /** `s.lstrip()`: the longest suffix of `s` that does not start with whitespace. */
  function LStrip(s: string): (r: string)
    ensures r == [] || !IsSpace(r[0])
  {
    if s != [] && IsSpace(s[0]) then LStrip(s[1..]) else s
  }

  /** `lstrip` keeps a suffix. */
  lemma {:induction false} LStripSuffix(s: string)
    ensures |LStrip(s)| <= |s| && LStrip(s) == s[|s| - |LStrip(s)|..]
  {
    if s != [] && IsSpace(s[0]) {
      LStripSuffix(s[1..]);
    }
  }

  /** What `lstrip` drops is all whitespace. */
  lemma {:induction false} LStripDropsSpace(s: string)
    ensures forall i :: 0 <= i < |s| - |LStrip(s)| ==> IsSpace(s[i])
  {
    if s != [] && IsSpace(s[0]) {
      LStripDropsSpace(s[1..]);
      assert forall i :: 1 <= i < |s| - |LStrip(s)| ==> s[i] == s[1..][i - 1];
    }
  }

  /** `s.rstrip()`: the longest prefix of `s` that does not end with whitespace. */
  function RStrip(s: string): (r: string)
    ensures r == [] || !IsSpace(r[|r| - 1])
  {
    if s != [] && IsSpace(s[|s| - 1]) then RStrip(s[..|s| - 1]) else s
  }

  /** `rstrip` keeps a prefix. */
  lemma {:induction false} RStripPrefix(s: string)
    ensures |RStrip(s)| <= |s| && RStrip(s) == s[..|RStrip(s)|]
  {
    if s != [] && IsSpace(s[|s| - 1]) {
      RStripPrefix(s[..|s| - 1]);
    }
  }

  /** What `rstrip` drops is all whitespace. */
  lemma {:induction false} RStripDropsSpace(s: string)
    ensures forall i :: |RStrip(s)| <= i < |s| ==> IsSpace(s[i])
  {
    if s != [] && IsSpace(s[|s| - 1]) {
      RStripDropsSpace(s[..|s| - 1]);
    }
  }

  /** `s.strip()`: a stretch of `s` that neither starts nor ends with whitespace. */
  function Strip(s: string): (r: string)
    ensures Trimmed(r)
  {
    RStripPrefix(LStrip(s));
    RStrip(LStrip(s))
  }

  /** Stripping only removes characters: one that is not in `s` is not in its strip. */
  lemma StripAvoids(s: string, c: char)
    ensures c !in s ==> c !in Strip(s)
  {
    var l := LStrip(s);
    LStripSuffix(s);
    assert c !in s ==> c !in l;
    var r := RStrip(l);
    RStripPrefix(l);
  }

  /** A string with no whitespace at either end is its own strip. */
  lemma StripKeeps(s: string)
    requires Trimmed(s)
    ensures Strip(s) == s
  {
  }

  lemma StripIdempotent(s: string)
    ensures Strip(Strip(s)) == Strip(s)
  {
    StripKeeps(Strip(s));
  }

  /** `sep.join(xs)`. */
  function Join(xs: seq<string>, sep: char): string {
    if |xs| == 0 then ""
    else if |xs| == 1 then xs[0]
    else xs[0] + [sep] + Join(xs[1..], sep)
  }

  /** `s.split(sep)`: the pieces between separators, which joined again give `s`. */
  function Split(s: string, sep: char): (r: seq<string>)
    ensures |r| >= 1
    ensures forall i :: 0 <= i < |r| ==> sep !in r[i]
    ensures Join(r, sep) == s
  {
    if s == [] then [""]
    else
      var rest := Split(s[1..], sep);
      if s[0] == sep then
        assert ([""] + rest)[1..] == rest;
        [""] + rest
      else
        var r := [[s[0]] + rest[0]] + rest[1..];
        assert r[1..] == rest[1..];
        r
  }

  /** Splitting a piece with no separator in front of more text extends the first piece. */
  lemma {:induction false} SplitPrefix(a: string, t: string, sep: char)
    requires sep !in a
    ensures Split(a + t, sep) == [a + Split(t, sep)[0]] + Split(t, sep)[1..]
  {
    if a != [] {
      assert (a + t)[1..] == a[1..] + t;
      SplitPrefix(a[1..], t, sep);
      assert [a[0]] + (a[1..] + Split(t, sep)[0]) == a + Split(t, sep)[0];
    } else {
      assert a + t == t;
      assert a + Split(t, sep)[0] == Split(t, sep)[0];
      assert [Split(t, sep)[0]] + Split(t, sep)[1..] == Split(t, sep);
    }
  }

  /** Splitting what was joined gives back the pieces, when no piece holds the separator. */
  lemma {:induction false} SplitJoin(xs: seq<string>, sep: char)
    requires |xs| >= 1
    requires forall i :: 0 <= i < |xs| ==> sep !in xs[i]
    ensures Split(Join(xs, sep), sep) == xs
  {
    if |xs| == 1 {
      SplitPrefix(xs[0], "", sep);
      assert xs[0] + "" == xs[0];
    } else {
      var tail := [sep] + Join(xs[1..], sep);
      assert Join(xs, sep) == xs[0] + tail;
      SplitJoin(xs[1..], sep);
      assert tail[1..] == Join(xs[1..], sep);
      assert Split(tail, sep) == [""] + xs[1..];
      SplitPrefix(xs[0], tail, sep);
      assert xs[0] + "" == xs[0];
      assert [xs[0]] + xs[1..] == xs;
    }
  }

  /** The first and last characters of a join of non-empty pieces. */
  lemma {:induction false} JoinEnds(xs: seq<string>, sep: char)
    requires |xs| >= 1
    requires forall i :: 0 <= i < |xs| ==> xs[i] != ""
    ensures |Join(xs, sep)| >= 1
    ensures Join(xs, sep)[0] == xs[0][0]
    ensures Join(xs, sep)[|Join(xs, sep)| - 1] == xs[|xs| - 1][|xs[|xs| - 1]| - 1]
  {
    if |xs| > 1 {
      JoinEnds(xs[1..], sep);
    }
  }

  predicate NoNewline(xs: seq<string>) {
    forall i :: 0 <= i < |xs| ==> '\n' !in xs[i]
  }

  /** The lines that are not blank, each stripped. */
  function NonBlank(lines: seq<string>): (r: seq<string>)
    ensures forall i :: 0 <= i < |r| ==> r[i] != "" && Trimmed(r[i])
    ensures NoNewline(lines) ==> NoNewline(r)
  {
    if lines == [] then []
    else
      var line := Strip(lines[0]);
      StripAvoids(lines[0], '\n');
      var rest := NonBlank(lines[1..]);
      assert NoNewline(lines) ==> NoNewline(lines[1..]);
      (if line != "" then [line] else []) + rest
  }

  /** The lines of the stripped text, before blank ones are dropped. */
  function Lines(text: string): (r: seq<string>)
    ensures NoNewline(r)
  {
    Split(Strip(text), '\n')
  }

  /** The exclusion list the dialog stores for the text `text` of its box. */
  function ParseExcluded(text: string): (r: seq<string>)
    ensures forall i :: 0 <= i < |r| ==> r[i] != "" && Trimmed(r[i]) && '\n' !in r[i]
  {
    NonBlank(Lines(text))
  }

  /** Each stored title is its own strip, so stripping it again changes nothing. */
  lemma ParsedAreStripped(text: string, i: nat)
    requires i < |ParseExcluded(text)|
    ensures Strip(ParseExcluded(text)[i]) == ParseExcluded(text)[i]
  {
    StripKeeps(ParseExcluded(text)[i]);
  }

  lemma {:induction false} NonBlankKeeps(xs: seq<string>)
    requires forall i :: 0 <= i < |xs| ==> xs[i] != "" && Trimmed(xs[i])
    ensures NonBlank(xs) == xs
  {
    if xs != [] {
      NonBlankKeeps(xs[1..]);
      StripKeeps(xs[0]);
      assert NonBlank(xs) == [xs[0]] + NonBlank(xs[1..]);
      assert [xs[0]] + xs[1..] == xs;
    }
  }

  /** A trailing newline after text with no whitespace at its ends is stripped away. */
  lemma StripTrailingNewline(j: string)
    requires Trimmed(j)
    ensures Strip(j + "\n") == j
  {
    var text := j + "\n";
    assert text[..|text| - 1] == j;
    if j != [] {
      assert text[0] == j[0];
      assert LStrip(text) == text;
      assert RStrip(text) == RStrip(j);
      assert RStrip(j) == j;
    } else {
      assert LStrip(text) == LStrip("");
    }
  }

  /** Joining non-empty stripped pieces gives text with no whitespace at either end. */
  lemma JoinStripped(xs: seq<string>)
    requires |xs| >= 1
    requires forall i :: 0 <= i < |xs| ==> xs[i] != "" && Trimmed(xs[i])
    ensures Join(xs, '\n') != [] && Trimmed(Join(xs, '\n'))
  {
    JoinEnds(xs, '\n');
    assert Trimmed(xs[|xs| - 1]);
    assert Trimmed(xs[0]);
  }

  /** The text the dialog shows for a list of stripped titles strips back to their join. */
  lemma StripShown(xs: seq<string>)
    requires forall i :: 0 <= i < |xs| ==> xs[i] != "" && Trimmed(xs[i])
    ensures Strip(Join(xs, '\n') + "\n") == Join(xs, '\n')
  {
    if xs != [] {
      JoinStripped(xs);
    }
    StripTrailingNewline(Join(xs, '\n'));
  }

  /**
   * The dialog shows the list joined by newlines (the text box adds one
   * more at the end); saving that text unedited gives back the same list,
   * provided every title is non-empty, stripped and free of newlines.
   */
  lemma ParseOfShown(xs: seq<string>)
    requires forall i :: 0 <= i < |xs| ==> xs[i] != "" && Trimmed(xs[i]) && '\n' !in xs[i]
    ensures ParseExcluded(Join(xs, '\n') + "\n") == xs
  {
    var j := Join(xs, '\n');
    StripShown(xs);
    var lines := Lines(j + "\n");
    assert lines == Split(j, '\n');
    if xs == [] {
      assert lines == [""];
      assert NonBlank([""]) == [];
    } else {
      SplitJoin(xs, '\n');
      assert lines == xs;
      NonBlankKeeps(xs);
    }
  }
}
