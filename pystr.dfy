/**
 * The few Python `str` primitives the content helpers rely on:
 * `str.isspace`, `strip`, `lstrip(chars)`, `splitlines`, `sep.join`,
 * `split()` and `rsplit(sep, 1)`. Strings are sequences of Unicode scalar values, as
 * Python's `str` is a sequence of code points.
 */
module PyStr {
  import opened Wrappers

  /** The characters for which Python's `str.isspace` holds; the regular
      expression class `\s` on `str` patterns matches the same set. */
  predicate IsSpace(c: char) {
    ('\U{9}' <= c <= '\U{D}') || ('\U{1C}' <= c <= '\U{20}') ||
    c == '\U{85}' || c == '\U{A0}' || c == '\U{1680}' ||
    ('\U{2000}' <= c <= '\U{200A}') || c == '\U{2028}' || c == '\U{2029}' ||
    c == '\U{202F}' || c == '\U{205F}' || c == '\U{3000}'
  }

  /** The line boundaries recognised by `str.splitlines` (besides the pair "\r\n"). */
  predicate IsLineBreak(c: char) {
    c == '\n' || c == '\r' || c == '\U{B}' || c == '\U{C}' ||
    c == '\U{1C}' || c == '\U{1D}' || c == '\U{1E}' || c == '\U{85}' ||
    c == '\U{2028}' || c == '\U{2029}'
  }

  /** `s.lstrip()`: drops the leading whitespace (LStripIsSuffix states what is kept). */
  function LStrip(s: string): (r: string)
    ensures |r| <= |s|
    ensures r == [] || !IsSpace(r[0])
  {
    if s != [] && IsSpace(s[0]) then LStrip(s[1..]) else s
  }

  lemma {:induction false} LStripIsSuffix(s: string)
    ensures LStrip(s) == s[|s| - |LStrip(s)|..]
    ensures forall i :: 0 <= i < |s| - |LStrip(s)| ==> IsSpace(s[i])
  {
    if s != [] && IsSpace(s[0]) {
      LStripIsSuffix(s[1..]);
    }
  }

  /** `s.rstrip()`: drops the trailing whitespace (RStripIsPrefix states what is kept). */
  function RStrip(s: string): (r: string)
    ensures |r| <= |s|
    ensures r == [] || !IsSpace(r[|r| - 1])
  {
    if s != [] && IsSpace(s[|s| - 1]) then RStrip(s[..|s| - 1]) else s
  }

  lemma {:induction false} RStripIsPrefix(s: string)
    ensures RStrip(s) == s[..|RStrip(s)|]
    ensures forall i :: |RStrip(s)| <= i < |s| ==> IsSpace(s[i])
  {
    if s != [] && IsSpace(s[|s| - 1]) {
      RStripIsPrefix(s[..|s| - 1]);
    }
  }

  /** Where `Strip(s)` starts in `s`: the number of leading whitespace characters. */
  function StripStart(s: string): nat {
    |s| - |LStrip(s)|
  }

  /** `s.strip()`: the longest slice of `s` that neither starts nor ends
      with whitespace (StripIsSlice states which slice). */
  function Strip(s: string): (r: string)
    ensures r == [] || (!IsSpace(r[0]) && !IsSpace(r[|r| - 1]))
  {
    RStripIsPrefix(LStrip(s));
    RStrip(LStrip(s))
  }

  /** `Strip(s)` is `s` without its leading and its trailing whitespace. */
  lemma StripIsSlice(s: string)
    ensures var a, r := StripStart(s), Strip(s);
            && a + |r| <= |s| && r == s[a..a + |r|]
            && (forall k :: 0 <= k < a ==> IsSpace(s[k]))
            && (forall k :: a + |r| <= k < |s| ==> IsSpace(s[k]))
  {
    var l := LStrip(s);
    var r := RStrip(l);
    var a := |s| - |l|;
    LStripIsSuffix(s);
    RStripIsPrefix(l);
    assert l == s[a..];
    assert r == s[a..a + |r|];
    forall k | a + |r| <= k < |s| ensures IsSpace(s[k]) {
      assert s[k] == l[k - a];
    }
    assert forall k :: 0 <= k < a ==> IsSpace(s[k]);
  }

  /** A string that neither starts nor ends with whitespace is its own strip. */
  lemma StripOfTrimmed(s: string)
    requires s == [] || (!IsSpace(s[0]) && !IsSpace(s[|s| - 1]))
    ensures Strip(s) == s
  {
    assert LStrip(s) == s;
  }

  /** `s.lstrip(c)` for a single character `c` (LStripCharIsSuffix states what is kept). */
  function LStripChar(s: string, c: char): (r: string)
    ensures |r| <= |s|
    ensures r == [] || r[0] != c
  {
    if s != [] && s[0] == c then LStripChar(s[1..], c) else s
  }

  lemma {:induction false} LStripCharIsSuffix(s: string, c: char)
    ensures LStripChar(s, c) == s[|s| - |LStripChar(s, c)|..]
    ensures forall i :: 0 <= i < |s| - |LStripChar(s, c)| ==> s[i] == c
  {
    if s != [] && s[0] == c {
      LStripCharIsSuffix(s[1..], c);
    }
  }

  /** Index of the first line boundary in `s`, or `|s|` when there is none. */
  function FirstBreak(s: string): (i: nat)
    ensures i <= |s|
    ensures i < |s| ==> IsLineBreak(s[i])
    ensures forall j :: 0 <= j < i ==> !IsLineBreak(s[j])
  {
    if s == [] || IsLineBreak(s[0]) then 0 else 1 + FirstBreak(s[1..])
  }

  /** `s.splitlines()`: the lines of `s` without their terminators. A final
      terminator does not start an empty line, and "\r\n" ends one line. */
  function SplitLines(s: string): (lines: seq<string>)
    ensures s == [] <==> lines == []
    decreases |s|
  {
    if s == [] then []
    else if FirstBreak(s) == |s| then [s]
    else if s[FirstBreak(s)] == '\r' && FirstBreak(s) + 1 < |s| && s[FirstBreak(s) + 1] == '\n' then
      [s[..FirstBreak(s)]] + SplitLines(s[FirstBreak(s) + 2..])
    else
      [s[..FirstBreak(s)]] + SplitLines(s[FirstBreak(s) + 1..])
  }

  /** No line produced by `SplitLines` contains a line boundary. */
  lemma {:induction false} SplitLinesHaveNoBreaks(s: string)
    ensures forall k, j :: 0 <= k < |SplitLines(s)| && 0 <= j < |SplitLines(s)[k]| ==>
              !IsLineBreak(SplitLines(s)[k][j])
    decreases |s|
  {
    if s != [] {
      var i := FirstBreak(s);
      var lines := SplitLines(s);
      var first := s[..i];
      assert forall j :: 0 <= j < |first| ==> !IsLineBreak(first[j]);
      if i < |s| {
        var next := if s[i] == '\r' && i + 1 < |s| && s[i + 1] == '\n' then i + 2 else i + 1;
        var rest := SplitLines(s[next..]);
        SplitLinesHaveNoBreaks(s[next..]);
        assert lines == [first] + rest;
        forall k, j | 0 <= k < |lines| && 0 <= j < |lines[k]| ensures !IsLineBreak(lines[k][j]) {
          if k > 0 { assert lines[k] == rest[k - 1]; }
        }
      } else {
        assert first == s;
        assert lines == [first];
      }
    }
  }

  /** `sep.join(parts)`. */
  function Join(parts: seq<string>, sep: string): (r: string)
  {
    if |parts| == 0 then ""
    else if |parts| == 1 then parts[0]
    else parts[0] + sep + Join(parts[1..], sep)
  }

  /** The sum of the lengths of the parts. */
  function TotalLength(parts: seq<string>): nat
  {
    if parts == [] then 0 else |parts[0]| + TotalLength(parts[1..])
  }

  /** `sep.join(parts)` starts with the first part and holds every part and
      one separator between each two neighbours. */
  lemma {:induction false} JoinLength(parts: seq<string>, sep: string)
    requires parts != []
    ensures parts[0] <= Join(parts, sep)
    ensures |Join(parts, sep)| == TotalLength(parts) + (|parts| - 1) * |sep|
  {
    if |parts| > 1 {
      JoinLength(parts[1..], sep);
    }
  }

  /** Index of the last occurrence of `c` in `s`. */
  function LastIndexOf(s: string, c: char): (r: Option<nat>)
    ensures r.None? <==> c !in s
    ensures r.Some? ==> r.value < |s| && s[r.value] == c &&
                        forall j :: r.value < j < |s| ==> s[j] != c
  {
    if s == [] then None
    else if s[|s| - 1] == c then Some(|s| - 1)
    else LastIndexOf(s[..|s| - 1], c)
  }

  /** `s.rsplit(" ", 1)[0]`: everything before the last space, or all of `s`. */
  function BeforeLastSpace(s: string): (r: string)
    ensures r <= s
    ensures ' ' in s ==> |r| < |s| && s[|r|] == ' ' && ' ' !in s[|r| + 1..]
    ensures ' ' !in s ==> r == s
  {
    match LastIndexOf(s, ' ')
    case None => s
    case Some(p) => s[..p]
  }

  /** A "\n" boundary at `i`, the first one, ends the first line and the
      rest is split again. */
  lemma SplitLinesAtNewline(s: string, i: nat)
    requires i == FirstBreak(s) && i < |s| && s[i] == '\n'
    ensures SplitLines(s) == [s[..i]] + SplitLines(s[i + 1..])
  {
    assert s != [] && s[i] != '\r';
    var lines := SplitLines(s);
    assert lines != [] && lines[0] == s[..i] && lines[1..] == SplitLines(s[i + 1..]);
    HeadAndTail(lines);
  }

  /** A non-empty sequence is its head followed by its tail. */
  lemma HeadAndTail<T>(xs: seq<T>)
    requires xs != []
    ensures xs == [xs[0]] + xs[1..]
  {
  }

  lemma JoinCons(first: string, tail: seq<string>, sep: string)
    requires tail != []
    ensures Join([first] + tail, sep) == first + sep + Join(tail, sep)
  {
    var all := [first] + tail;
    assert all[0] == first && all[1..] == tail;
  }

  lemma AroundNewline(s: string, i: nat)
    requires i < |s| && s[i] == '\n'
    ensures s == s[..i] + "\n" + s[i + 1..]
  {
    assert [s[i]] == "\n";
    assert s == s[..i] + [s[i]] + s[i + 1..];
  }

  /** Round trip: joining the lines of a text that uses only "\n" as line
      boundary gives the text back, less the final "\n" when it ends with one. */
  lemma JoinSplitLines(s: string)
    requires forall k :: 0 <= k < |s| ==> IsLineBreak(s[k]) ==> s[k] == '\n'
    ensures Join(SplitLines(s), "\n") == if s != [] && s[|s| - 1] == '\n' then s[..|s| - 1] else s
  {
    if s != [] && s[|s| - 1] == '\n' {
      JoinLinesOfTerminated(s);
    } else {
      JoinLinesOfUnterminated(s);
    }
  }

  lemma {:induction false} JoinLinesOfUnterminated(s: string)
    requires forall k :: 0 <= k < |s| ==> IsLineBreak(s[k]) ==> s[k] == '\n'
    requires s == [] || s[|s| - 1] != '\n'
    ensures Join(SplitLines(s), "\n") == s
    decreases |s|
  {
    if s != [] {
      var i := FirstBreak(s);
      if i < |s| {
        var first := s[..i];
        var rest := s[i + 1..];
        assert s[i] == '\n';
        AroundNewline(s, i);
        assert rest != [] && rest[|rest| - 1] == s[|s| - 1];
        assert forall k :: 0 <= k < |rest| ==> rest[k] == s[i + 1 + k];
        JoinLinesOfUnterminated(rest);
        SplitLinesAtNewline(s, i);
        JoinCons(first, SplitLines(rest), "\n");
      } else {
        assert SplitLines(s) == [s];
      }
    }
  }

  lemma {:induction false} JoinLinesOfTerminated(s: string)
    requires forall k :: 0 <= k < |s| ==> IsLineBreak(s[k]) ==> s[k] == '\n'
    requires s != [] && s[|s| - 1] == '\n'
    ensures Join(SplitLines(s), "\n") == s[..|s| - 1]
    decreases |s|
  {
    var i := FirstBreak(s);
    var rest := s[i + 1..];
    assert s[i] == '\n';
    SplitLinesAtNewline(s, i);
    if rest == [] {
      assert SplitLines(rest) == [];
      assert SplitLines(s) == [s[..i]];
    } else {
      assert rest[|rest| - 1] == '\n';
      assert forall k :: 0 <= k < |rest| ==> rest[k] == s[i + 1 + k];
      JoinLinesOfTerminated(rest);
      JoinCons(s[..i], SplitLines(rest), "\n");
      DropLastAroundNewline(s, i);
    }
  }

  lemma DropLastAroundNewline(s: string, i: nat)
    requires i + 1 < |s| && s[i] == '\n'
    ensures s[..|s| - 1] == s[..i] + "\n" + s[i + 1..][..|s| - i - 2]
  {
    var u := s[..|s| - 1];
    AroundNewline(u, i);
    assert u[..i] == s[..i];
    assert u[i + 1..] == s[i + 1..][..|s| - i - 2];
  }

  /** Where `LStrip(s + t)` starts: inside `s` unless `s` is all whitespace. */
  lemma {:induction false} LStripAppend(s: string, t: string)
    ensures LStrip(s + t) == if LStrip(s) == [] then LStrip(t) else LStrip(s) + t
    decreases |s|
  {
    if s == [] {
      assert s + t == t;
    } else if IsSpace(s[0]) {
      assert (s + t)[1..] == s[1..] + t;
      LStripAppend(s[1..], t);
    }
  }

  /** A trailing whitespace character does not change the strip. */
  lemma StripOfTrailingSpace(s: string, c: char)
    requires IsSpace(c)
    ensures Strip(s + [c]) == Strip(s)
  {
    LStripAppend(s, [c]);
    var l := LStrip(s);
    if l != [] {
      assert (l + [c])[..|l|] == l;
    } else {
      assert [c][1..] == [];
    }
  }

  /** Dropping a final whitespace character does not change the strip. */
  lemma StripOfDroppedSpace(s: string)
    requires s != [] && IsSpace(s[|s| - 1])
    ensures Strip(s[..|s| - 1]) == Strip(s)
  {
    assert s == s[..|s| - 1] + [s[|s| - 1]];
    StripOfTrailingSpace(s[..|s| - 1], s[|s| - 1]);
  }

  /** Whitespace around a text that neither starts nor ends with
      whitespace is exactly what `Strip` removes. */
  lemma StripOfPadded(a: string, t: string, b: string)
    requires forall k :: 0 <= k < |a| ==> IsSpace(a[k])
    requires forall k :: 0 <= k < |b| ==> IsSpace(b[k])
    requires t == [] || (!IsSpace(t[0]) && !IsSpace(t[|t| - 1]))
    ensures Strip(a + t + b) == t
  {
    var s := a + t + b;
    var st := StripStart(s);
    var r := Strip(s);
    StripIsSlice(s);
    if t != [] {
      var e := |a| + |t|;
      assert s[|a|] == t[0] && s[e - 1] == t[|t| - 1];
      assert forall k :: 0 <= k < |a| ==> IsSpace(s[k]);
      assert forall k :: e <= k < |s| ==> s[k] == b[k - e];
      assert st <= |a| < st + |r|;
      assert r[0] == s[st] && r[|r| - 1] == s[st + |r| - 1];
      assert st == |a|;
      assert st + |r| == e;
      assert s[st..st + |r|] == t;
    }
  }

  /** Index of the first whitespace character in `s`, or `|s|`. */
  function FirstSpace(s: string): (i: nat)
    ensures i <= |s|
    ensures i < |s| ==> IsSpace(s[i])
    ensures forall j :: 0 <= j < i ==> !IsSpace(s[j])
  {
    if s == [] || IsSpace(s[0]) then 0 else 1 + FirstSpace(s[1..])
  }

  /** A non-empty run of characters none of which is whitespace. */
  predicate IsWord(w: string) {
    w != [] && forall j :: 0 <= j < |w| ==> !IsSpace(w[j])
  }

  /** `s.split()`: the maximal runs of non-whitespace characters, in order. */
  function Words(s: string): (ws: seq<string>)
    ensures forall k :: 0 <= k < |ws| ==> IsWord(ws[k])
    decreases |s|
  {
    var t := LStrip(s);
    if t == [] then []
    else [t[..FirstSpace(t)]] + Words(t[FirstSpace(t)..])
  }

  /** Leading whitespace does not change the words. */
  lemma WordsOfLStrip(s: string)
    ensures Words(LStrip(s)) == Words(s)
  {
    assert LStrip(LStrip(s)) == LStrip(s);
  }

  /** A text that starts with a non-whitespace character starts with its first word. */
  lemma WordsOfWordStart(s: string)
    requires s != [] && !IsSpace(s[0])
    ensures Words(s) == [s[..FirstSpace(s)]] + Words(s[FirstSpace(s)..])
  {
    assert LStrip(s) == s;
  }

  /** Words joined by single spaces neither start nor end with whitespace,
      and are empty only when there are no words. */
  lemma {:induction false} JoinOfWords(ws: seq<string>)
    requires forall k :: 0 <= k < |ws| ==> IsWord(ws[k])
    ensures var j := Join(ws, " ");
            && (j == [] <==> ws == [])
            && (j == [] || (!IsSpace(j[0]) && !IsSpace(j[|j| - 1])))
  {
    if |ws| > 1 {
      JoinOfWords(ws[1..]);
      var j := Join(ws, " ");
      var tail := Join(ws[1..], " ");
      assert j == ws[0] + " " + tail;
      assert j[0] == ws[0][0];
      assert j[|j| - 1] == tail[|tail| - 1];
    }
  }

}
