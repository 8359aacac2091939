/** The two textual repairs applied to raw iCalendar text before it is parsed
    (`parseIcs`, app.js:9-19). Both are JavaScript `String.prototype.replace`
    calls with a global regular expression: matches are found left to right,
    never overlap, and scanning resumes right after the end of a match. */
module Sanitizer {

  /** ECMAScript `\s`: the WhiteSpace and LineTerminator code points. `\S`
      matches any other character. */
  predicate IsJsWhitespace(c: char) {
    || c == '\t' || c == '\n' || c == '\U{000B}' || c == '\U{000C}' || c == '\r'
    || c == ' ' || c == '\U{00A0}' || c == '\U{1680}'
    || ('\U{2000}' <= c <= '\U{200A}')
    || c == '\U{2028}' || c == '\U{2029}' || c == '\U{202F}' || c == '\U{205F}'
    || c == '\U{3000}' || c == '\U{FEFF}'
  }

  /** The ECMAScript line terminators, where `^` and `$` match in `/m` mode. */
  predicate IsLineTerminator(c: char) {
    c == '\n' || c == '\r' || c == '\U{2028}' || c == '\U{2029}'
  }

  // ---------------------------------------------------------------------
  // Rewrite 1: /,\n(\S)/g  ->  "\n$1"
  // ---------------------------------------------------------------------

  /** The pattern `,\n\S` occurs at index `i` of `s`. */
  predicate TrailingCommaAt(s: string, i: int) {
    0 <= i && i + 2 < |s| && s[i] == ',' && s[i + 1] == '\n' && !IsJsWhitespace(s[i + 2])
  }

  /** The global replace of `/,\n(\S)/g` by `\n$1`: a matched comma is
      dropped, the newline and the captured character are written back, and
      the scan resumes after the captured character. */
  function DropTrailingCommas(s: string): (r: string)
    ensures DeletesOnly(',', s, r)
    decreases |s|
  {
    if |s| == 0 then ""
    else if TrailingCommaAt(s, 0) then
      var rest := DropTrailingCommas(s[3..]);
      assert DeletesOnly(',', s[2..], [s[2]] + rest) by {
        assert ([s[2]] + rest)[1..] == rest;
      }
      assert DeletesOnly(',', s[1..], "\n" + [s[2]] + rest) by {
        assert ("\n" + [s[2]] + rest)[1..] == [s[2]] + rest;
      }
      "\n" + [s[2]] + rest
    else
      var rest := DropTrailingCommas(s[1..]);
      assert ([s[0]] + rest)[1..] == rest;
      [s[0]] + rest
  }

  /** `r` is `s` with some (possibly none) occurrences of `c` deleted: no
      other character is removed, added or moved. */
  predicate DeletesOnly(c: char, s: string, r: string)
    decreases |s|
  {
    if |s| == 0 then |r| == 0
    else
      || (|r| > 0 && r[0] == s[0] && DeletesOnly(c, s[1..], r[1..]))
      || (s[0] == c && DeletesOnly(c, s[1..], r))
  }

  lemma {:induction false} DeletesOnlyShortens(c: char, s: string, r: string)
    requires DeletesOnly(c, s, r)
    ensures |r| <= |s|
    ensures |r| == |s| ==> r == s
    decreases |s|
  {
    if |s| == 0 {
    } else if |r| > 0 && r[0] == s[0] && DeletesOnly(c, s[1..], r[1..]) {
      DeletesOnlyShortens(c, s[1..], r[1..]);
      if |r| == |s| {
        assert r == [r[0]] + r[1..];
        assert s == [s[0]] + s[1..];
      }
    } else {
      DeletesOnlyShortens(c, s[1..], r);
    }
  }

  /** The comma rewrite never lengthens the text and leaves text without a
      match untouched. */
  lemma DropTrailingCommasShortens(s: string)
    ensures |DropTrailingCommas(s)| <= |s|
    ensures (forall i :: 0 <= i < |s| ==> !TrailingCommaAt(s, i)) ==> DropTrailingCommas(s) == s
  {
    DeletesOnlyShortens(',', s, DropTrailingCommas(s));
    if forall i :: 0 <= i < |s| ==> !TrailingCommaAt(s, i) {
      NoMatchUnchanged(s);
    }
  }

  lemma {:induction false} NoMatchUnchanged(s: string)
    requires forall i :: 0 <= i < |s| ==> !TrailingCommaAt(s, i)
    ensures DropTrailingCommas(s) == s
    decreases |s|
  {
    if |s| > 0 {
      assert !TrailingCommaAt(s, 0);
      forall i | 0 <= i < |s[1..]|
        ensures !TrailingCommaAt(s[1..], i)
      {
        assert !TrailingCommaAt(s, i + 1);
      }
      NoMatchUnchanged(s[1..]);
      assert s == [s[0]] + s[1..];
    }
  }

  // Which commas the scan deletes, stated without the scan: a keep-mask.

  /** The match that would start at `i` does not overlap a match used at
      `i - 2` (a match at `i - 1` is impossible when one is at `i`). */
  predicate PreviousKept(m: seq<bool>, i: int)
    requires i < |m| + 2
  {
    i < 2 || m[i - 2]
  }

  /** `m[i]` is false exactly for the commas removed by the leftmost,
      non-overlapping global replace: a comma is removed when it starts a
      `,\n\S` match that does not overlap the previous removed match. */
  predicate IsCommaMask(s: string, m: seq<bool>) {
    && |m| == |s|
    && forall i :: 0 <= i < |s| ==> (!m[i] <==> TrailingCommaAt(s, i) && PreviousKept(m, i))
  }

  /** `s` restricted to the positions whose mask bit is set. */
  function Select(s: string, m: seq<bool>): (r: string)
    requires |m| == |s|
    ensures |r| <= |s|
  {
    if |s| == 0 then "" else (if m[0] then [s[0]] else "") + Select(s[1..], m[1..])
  }

  /** The keep-mask of a text exists (it is what the scan computes). */
  function CommaMask(s: string): (m: seq<bool>)
    ensures IsCommaMask(s, m)
    decreases |s|
  {
    if |s| == 0 then []
    else if TrailingCommaAt(s, 0) then
      var rest := CommaMask(s[3..]);
      var m := [false, true, true] + rest;
      assert forall i :: 3 <= i < |s| ==> TrailingCommaAt(s, i) == TrailingCommaAt(s[3..], i - 3);
      assert forall i :: 3 <= i < |s| ==> m[i] == rest[i - 3] && PreviousKept(m, i) == PreviousKept(rest, i - 3);
      m
    else
      var rest := CommaMask(s[1..]);
      var m := [true] + rest;
      assert forall i :: 1 <= i < |s| ==> TrailingCommaAt(s, i) == TrailingCommaAt(s[1..], i - 1);
      assert forall i :: 1 <= i < |s| ==> m[i] == rest[i - 1] && PreviousKept(m, i) == PreviousKept(rest, i - 1);
      m
  }

  /** The comma rewrite deletes exactly the characters a keep-mask clears:
      together with `CommaMask` this characterises the output completely
      (non-overlapping, leftmost matches). */
  lemma {:induction false} DropTrailingCommasSelects(s: string, m: seq<bool>)
    requires IsCommaMask(s, m)
    ensures DropTrailingCommas(s) == Select(s, m)
    decreases |s|
  {
    if |s| == 0 {
    } else if TrailingCommaAt(s, 0) {
      assert !m[0];
      assert !TrailingCommaAt(s, 1);
      assert m[1] && m[2];
      var s' := s[3..];
      var m' := m[3..];
      forall i | 0 <= i < |s'|
        ensures !m'[i] <==> TrailingCommaAt(s', i) && PreviousKept(m', i)
      {
        assert TrailingCommaAt(s, i + 3) == TrailingCommaAt(s', i);
        assert PreviousKept(m, i + 3) == PreviousKept(m', i);
      }
      DropTrailingCommasSelects(s', m');
      assert s[1..][1..][1..] == s' && m[1..][1..][1..] == m';
      assert Select(s[2..], m[2..]) == [s[2]] + Select(s', m');
      assert Select(s[1..], m[1..]) == [s[1]] + [s[2]] + Select(s', m');
    } else {
      assert m[0];
      var s' := s[1..];
      var m' := m[1..];
      forall i | 0 <= i < |s'|
        ensures !m'[i] <==> TrailingCommaAt(s', i) && PreviousKept(m', i)
      {
        assert TrailingCommaAt(s, i + 1) == TrailingCommaAt(s', i);
        if i >= 1 {
          assert PreviousKept(m, i + 1) == PreviousKept(m', i);
        } else if TrailingCommaAt(s', 0) {
          // a match at index 1 of `s` cannot overlap one at index -1
          assert PreviousKept(m, 1);
        }
      }
      DropTrailingCommasSelects(s', m');
    }
  }

  /** A comma that precedes a folded continuation line (the next line starts
      with whitespace) is never removed, and neither is any character that
      is not a comma. */
  lemma KeptCharacters(s: string, i: int)
    requires 0 <= i < |s|
    requires s[i] != ',' || (i + 2 < |s| && s[i + 1] == '\n' && IsJsWhitespace(s[i + 2]))
    ensures CommaMask(s)[i]
  {
  }

  // ---------------------------------------------------------------------
  // Rewrite 2: /^(RDATE|EXDATE):$/gm  ->  ""
  // ---------------------------------------------------------------------

  /** A whole line that is a recurrence-date or excluded-date property with
      an empty value. */
  predicate IsEmptyDateLine(line: string) {
    line == "RDATE:" || line == "EXDATE:"
  }

  /** A text that contains no line terminator. */
  predicate NoBreak(line: string) {
    forall j :: 0 <= j < |line| ==> !IsLineTerminator(line[j])
  }

  /** Each of `rs` is the corresponding one of `ss` erased. */
  predicate ErasedLines(rs: seq<string>, ss: seq<string>) {
    && |rs| == |ss|
    && forall i :: 0 <= i < |ss| ==> rs[i] == EraseLine(ss[i])
  }

  /** Each line of `r` is the corresponding line of `s` erased. */
  predicate LinewiseErased(s: string, r: string) {
    ErasedLines(Lines(r), Lines(s))
  }

  /** Every character of `bs` is a line terminator. */
  predicate AllBreaks(bs: string) {
    forall j :: 0 <= j < |bs| ==> IsLineTerminator(bs[j])
  }

  /** Index of the first line terminator of `s` at or after `i`, or `|s|`
      when there is none. */
  function LineEndFrom(s: string, i: nat): (k: nat)
    requires i <= |s|
    ensures i <= k <= |s|
    decreases |s| - i
  {
    if i == |s| || IsLineTerminator(s[i]) then i else LineEndFrom(s, i + 1)
  }

  /** Length of the first line of `s`. */
  function LineEnd(s: string): (k: nat)
    ensures k <= |s|
  {
    LineEndFrom(s, 0)
  }

  lemma {:induction false} LineEndFromFindsBreak(s: string, i: nat)
    requires i <= |s|
    ensures forall j :: i <= j < LineEndFrom(s, i) ==> !IsLineTerminator(s[j])
    ensures LineEndFrom(s, i) < |s| ==> IsLineTerminator(s[LineEndFrom(s, i)])
    decreases |s| - i
  {
    if i < |s| && !IsLineTerminator(s[i]) {
      LineEndFromFindsBreak(s, i + 1);
    }
  }

  lemma LineEndFindsBreak(s: string)
    ensures NoBreak(s[..LineEnd(s)])
    ensures LineEnd(s) < |s| ==> IsLineTerminator(s[LineEnd(s)])
  {
    LineEndFromFindsBreak(s, 0);
  }

  /** The global, multi-line replace of `/^(RDATE|EXDATE):$/gm` by the empty
      string. In `/m` mode `^` matches at the start of the text or after a
      line terminator and `$` at the end or before one, and neither
      alternative contains a terminator, so a match is exactly a whole line
      equal to `RDATE:` or `EXDATE:`; its terminator is not part of it. */
  function EraseEmptyDateLines(s: string): (r: string)
    ensures |r| <= |s|
    ensures NoBreak(s) ==> r == EraseLine(s)
    decreases |s|
  {
    LineEndFindsBreak(s);
    var k := LineEnd(s);
    var line := EraseLine(s[..k]);
    if k == |s| then line else line + [s[k]] + EraseEmptyDateLines(s[k + 1..])
  }

  /** The effect of the erasing rewrite on one line. */
  function EraseLine(line: string): string {
    if IsEmptyDateLine(line) then "" else line
  }

  /** The lines of a text, without their terminators. */
  function Lines(s: string): seq<string>
    decreases |s|
  {
    var k := LineEnd(s);
    if k == |s| then [s] else [s[..k]] + Lines(s[k + 1..])
  }

  /** The line terminators of a text, in order. */
  function Breaks(s: string): string
    decreases |s|
  {
    var k := LineEnd(s);
    if k == |s| then "" else [s[k]] + Breaks(s[k + 1..])
  }

  /** Interleaves lines with the terminators between them. */
  function Join(ls: seq<string>, bs: string): string
    decreases |ls|
  {
    if ls == [] then ""
    else if bs == [] then ls[0]
    else ls[0] + [bs[0]] + Join(ls[1..], bs[1..])
  }

  lemma LinesStep(s: string)
    requires LineEnd(s) < |s|
    ensures Lines(s) == [s[..LineEnd(s)]] + Lines(s[LineEnd(s) + 1..])
    ensures Breaks(s) == [s[LineEnd(s)]] + Breaks(s[LineEnd(s) + 1..])
  {
  }

  /** No line holds a line terminator: the text is split at every one. */
  lemma {:induction false} LinesHaveNoBreak(s: string)
    ensures forall i :: 0 <= i < |Lines(s)| ==> NoBreak(Lines(s)[i])
    decreases |s|
  {
    var k := LineEnd(s);
    LineEndFindsBreak(s);
    if k == |s| {
      assert s[..k] == s;
    } else {
      var ls, rest := Lines(s), Lines(s[k + 1..]);
      LinesStep(s);
      LinesHaveNoBreak(s[k + 1..]);
      forall i | 0 <= i < |ls| ensures NoBreak(ls[i]) {
        if i > 0 {
          assert ls[i] == rest[i - 1];
        }
      }
    }
  }

  /** One line more than terminators. */
  lemma {:induction false} LinesCount(s: string)
    ensures |Lines(s)| == |Breaks(s)| + 1
    decreases |s|
  {
    var k := LineEnd(s);
    if k < |s| {
      LinesStep(s);
      LinesCount(s[k + 1..]);
    }
  }

  /** Every terminator found is a line terminator. */
  lemma {:induction false} BreaksAreTerminators(s: string)
    ensures AllBreaks(Breaks(s))
    decreases |s|
  {
    var k := LineEnd(s);
    if k < |s| {
      var t := s[k + 1..];
      LinesStep(s);
      BreaksAreTerminators(t);
      LineEndFindsBreak(s);
      AllBreaksCons(s[k], Breaks(t));
    }
  }

  lemma AllBreaksCons(b: char, bs: string)
    requires IsLineTerminator(b) && AllBreaks(bs)
    ensures AllBreaks([b] + bs)
  {
    forall j | 0 <= j < |[b] + bs| ensures IsLineTerminator(([b] + bs)[j]) {
      if j > 0 {
        assert ([b] + bs)[j] == bs[j - 1];
      }
    }
  }

  lemma JoinStep(line: string, b: char, ls: seq<string>, bs: string)
    requires ls != []
    ensures Join([line] + ls, [b] + bs) == line + [b] + Join(ls, bs)
  {
    assert ([line] + ls)[1..] == ls;
    assert ([b] + bs)[1..] == bs;
  }

  /** `Lines` and `Breaks` lose nothing: joining them gives the text back. */
  lemma {:induction false} LinesRoundTrip(s: string)
    ensures Join(Lines(s), Breaks(s)) == s
    decreases |s|
  {
    var k := LineEnd(s);
    if k == |s| {
      assert Lines(s) == [s] && Breaks(s) == "";
    } else {
      var rest := s[k + 1..];
      LinesStep(s);
      LinesRoundTrip(rest);
      LinesCount(rest);
      JoinStep(s[..k], s[k], Lines(rest), Breaks(rest));
      assert s == s[..k] + [s[k]] + rest;
    }
  }

  lemma {:induction false} LineEndFromPast(s: string, i: nat, n: nat)
    requires i <= n <= |s|
    requires forall j :: i <= j < n ==> !IsLineTerminator(s[j])
    requires n == |s| || IsLineTerminator(s[n])
    ensures LineEndFrom(s, i) == n
    decreases n - i
  {
    if i < n {
      LineEndFromPast(s, i + 1, n);
    }
  }

  lemma LineEndOfLine(line: string)
    requires NoBreak(line)
    ensures LineEnd(line) == |line|
  {
    LineEndFromPast(line, 0, |line|);
  }

  lemma LineEndOfJoin(line: string, t: char, rest: string)
    requires NoBreak(line)
    requires IsLineTerminator(t)
    ensures LineEnd(line + [t] + rest) == |line|
    ensures (line + [t] + rest)[..|line|] == line
    ensures (line + [t] + rest)[|line| + 1..] == rest
  {
    var s := line + [t] + rest;
    forall j | 0 <= j < |line| ensures !IsLineTerminator(s[j]) {
      assert s[j] == line[j];
    }
    LineEndFromPast(s, 0, |line|);
  }

  lemma EraseStep(s: string)
    requires LineEnd(s) < |s|
    ensures EraseEmptyDateLines(s)
         == EraseLine(s[..LineEnd(s)]) + [s[LineEnd(s)]] + EraseEmptyDateLines(s[LineEnd(s) + 1..])
  {
  }

  /** The lines and terminators of a text that starts with a whole line. */
  lemma LinesOfJoin(line: string, b: char, rest: string)
    requires NoBreak(line) && IsLineTerminator(b)
    ensures Lines(line + [b] + rest) == [line] + Lines(rest)
    ensures Breaks(line + [b] + rest) == [b] + Breaks(rest)
  {
    LineEndOfJoin(line, b, rest);
    LinesStep(line + [b] + rest);
  }

  lemma ErasedLinesCons(r: string, s: string, rs: seq<string>, ss: seq<string>)
    requires r == EraseLine(s) && ErasedLines(rs, ss)
    ensures ErasedLines([r] + rs, [s] + ss)
  {
    forall i | 0 <= i < |[s] + ss| ensures ([r] + rs)[i] == EraseLine(([s] + ss)[i]) {
      if i > 0 {
        assert ([r] + rs)[i] == rs[i - 1];
        assert ([s] + ss)[i] == ss[i - 1];
      }
    }
  }

  /** A text without a terminator is a single line, erased as a whole. */
  lemma EraseOneLine(s: string)
    requires NoBreak(s)
    ensures Breaks(EraseEmptyDateLines(s)) == Breaks(s)
    ensures LinewiseErased(s, EraseEmptyDateLines(s))
  {
    var line := EraseLine(s);
    assert NoBreak(line);
    LineEndOfLine(s);
    LineEndOfLine(line);
    assert Lines(line) == [line] && Breaks(line) == "";
    assert s[..|s|] == s;
    assert Lines(s) == [s] && Breaks(s) == "";
  }

  /** The first line erased in front of a tail that is erased linewise. */
  lemma EraseLinewiseStep(s: string, rest: string)
    requires LineEnd(s) < |s|
    requires var t := s[LineEnd(s) + 1..];
      Breaks(rest) == Breaks(t) && LinewiseErased(t, rest)
    ensures var r := EraseLine(s[..LineEnd(s)]) + [s[LineEnd(s)]] + rest;
      Breaks(r) == Breaks(s) && LinewiseErased(s, r)
  {
    var k := LineEnd(s);
    var line := EraseLine(s[..k]);
    LineEndFindsBreak(s);
    assert NoBreak(line);
    var t := s[k + 1..];
    LinesStep(s);
    LinesOfJoin(line, s[k], rest);
    ErasedLinesCons(line, s[..k], Lines(rest), Lines(t));
  }

  /** The erasing rewrite keeps every line terminator and the number of
      lines, and erases each line on its own. */
  lemma {:induction false} EraseLinewise(s: string)
    ensures Breaks(EraseEmptyDateLines(s)) == Breaks(s)
    ensures LinewiseErased(s, EraseEmptyDateLines(s))
    decreases |s|
  {
    var k := LineEnd(s);
    LineEndFindsBreak(s);
    if k == |s| {
      assert s[..k] == s;
      EraseOneLine(s);
    } else {
      EraseLinewise(s[k + 1..]);
      EraseStep(s);
      EraseLinewiseStep(s, EraseEmptyDateLines(s[k + 1..]));
    }
  }

  // ---------------------------------------------------------------------
  // parseIcs pre-processing
  // ---------------------------------------------------------------------

  /** Both rewrites, in the order `parseIcs` applies them. */
  function Sanitize(s: string): (r: string)
    ensures |r| <= |s|
  {
    var t := DropTrailingCommas(s);
    DeletesOnlyShortens(',', s, t);
    EraseEmptyDateLines(t)
  }

  /** The repair is not idempotent: a second pass can remove a comma that the
      first pass consumed as the character after a newline. */
  lemma DropTrailingCommasNotIdempotent()
    ensures DropTrailingCommas(",\n,\nX") == "\n,\nX"
    ensures DropTrailingCommas("\n,\nX") == "\n\nX"
  {
    assert DropTrailingCommas("") == "";
    assert !TrailingCommaAt("X", 0);
    assert "X"[1..] == "";
    assert DropTrailingCommas("X") == "X";
    assert !TrailingCommaAt("\nX", 0);
    assert "\nX"[1..] == "X";
    assert DropTrailingCommas("\nX") == "\nX";
    assert TrailingCommaAt(",\n,\nX", 0);
    assert ",\n,\nX"[3..] == "\nX";
    assert TrailingCommaAt(",\nX", 0);
    assert ",\nX"[3..] == "";
    assert DropTrailingCommas(",\nX") == "\nX";
    assert !TrailingCommaAt("\n,\nX", 0);
    assert "\n,\nX"[1..] == ",\nX";
  }

  /** An empty `RDATE:` line loses its text but keeps its terminator. */
  lemma EmptyRdateLineKeepsTerminator()
    ensures EraseEmptyDateLines("RDATE:\n") == "\n"
  {
    var s := "RDATE:\n";
    assert LineEndFrom(s, 6) == 6;
    assert LineEndFrom(s, 5) == 6;
    assert LineEndFrom(s, 4) == 6;
    assert LineEndFrom(s, 3) == 6;
    assert LineEndFrom(s, 2) == 6;
    assert LineEndFrom(s, 1) == 6;
    assert LineEnd(s) == 6;
    assert s[..6] == "RDATE:";
    assert s[7..] == "";
    assert EraseEmptyDateLines("") == "";
  }

  /** The order of the two rewrites matters: on `",\nRDATE:\n"` the code's
      order drops the comma (its line is followed by `R`) and then empties
      the date line, while the other order empties the date line first and
      leaves the comma before a now-blank line. */
  lemma SanitizeOrderMatters()
    ensures Sanitize(",\nRDATE:\n") == "\n\n"
    ensures DropTrailingCommas(EraseEmptyDateLines(",\nRDATE:\n")) == ",\n\n"
  {
    CommaBeforeDateLine();
    BlankLineThenDateLine();
    DateLineAfterComma();
    CommaBeforeBlankLine();
  }

  lemma CommaBeforeDateLine()
    ensures DropTrailingCommas(",\nRDATE:\n") == "\nRDATE:\n"
  {
    var s := ",\nRDATE:\n";
    assert TrailingCommaAt(s, 0);
    assert s[3..] == "DATE:\n";
    var rest := "DATE:\n";
    forall i | 0 <= i < |rest| ensures !TrailingCommaAt(rest, i) {
      assert rest[i] != ',';
    }
    NoMatchUnchanged(rest);
  }

  lemma BlankLineThenDateLine()
    ensures EraseEmptyDateLines("\nRDATE:\n") == "\n\n"
  {
    var t := "\nRDATE:\n";
    assert LineEndFrom(t, 0) == 0;
    assert t[1..] == "RDATE:\n";
    EmptyRdateLineKeepsTerminator();
  }

  lemma DateLineAfterComma()
    ensures EraseEmptyDateLines(",\nRDATE:\n") == ",\n\n"
  {
    var s := ",\nRDATE:\n";
    assert LineEndFrom(s, 1) == 1;
    assert LineEnd(s) == 1;
    EraseStep(s);
    assert s[..1] == "," && s[1] == '\n' && s[2..] == "RDATE:\n";
    assert EraseLine(",") == ",";
    EmptyRdateLineKeepsTerminator();
  }

  lemma CommaBeforeBlankLine()
    ensures DropTrailingCommas(",\n\n") == ",\n\n"
  {
    var s := ",\n\n";
    assert IsJsWhitespace(s[2]);
    forall i | 0 <= i < |s| ensures !TrailingCommaAt(s, i) {
    }
    NoMatchUnchanged(s);
  }
}
