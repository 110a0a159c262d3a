/**
 * The pure content helpers of `ProjectRepository` (app.py): splitting a
 * project source into front matter and body, building the plain-text
 * excerpt of the rendered HTML, coercing metadata values to lists, asset
 * paths and years.
 */
module Content {
  import opened Wrappers
  import opened PyStr

  // ---------------------------------------------------------------------
  // Front matter
  // ---------------------------------------------------------------------

  /** A line that opens or closes the front-matter block. */
  predicate IsDelimiter(line: string) {
    Strip(line) == "---"
  }

  /** What `_split_front_matter` returns: the raw front-matter text handed
      to the YAML loader (None when there is no block, so the metadata is
      `{}`), and the stripped body. */
  datatype Document = Document(frontMatter: Option<string>, body: string)

  /** The linear search `for idx in range(from, len(lines))` for a closing delimiter. */
  function FindClosing(lines: seq<string>, from: nat): (r: Option<nat>)
    requires from <= |lines|
    ensures r.Some? ==> from <= r.value < |lines| && IsDelimiter(lines[r.value]) &&
                        forall k :: from <= k < r.value ==> !IsDelimiter(lines[k])
    ensures r.None? ==> forall k :: from <= k < |lines| ==> !IsDelimiter(lines[k])
    decreases |lines| - from
  {
    if from == |lines| then None
    else if IsDelimiter(lines[from]) then Some(from)
    else FindClosing(lines, from + 1)
  }

  function SplitFrontMatter(raw: string): (d: Document)
    ensures d.body == [] || (!IsSpace(d.body[0]) && !IsSpace(d.body[|d.body| - 1]))
    ensures d.frontMatter.None? ==> d.body == Strip(raw)
  {
    var lines := SplitLines(raw);
    if |lines| > 0 && IsDelimiter(lines[0]) then
      match FindClosing(lines, 1)
      case Some(idx) => Document(Some(Join(lines[1..idx], "\n")), Strip(Join(lines[idx + 1..], "\n")))
      case None => Document(None, Strip(raw))
    else
      Document(None, Strip(raw))
  }

  lemma SplitWithoutOpening(raw: string)
    requires SplitLines(raw) == [] || !IsDelimiter(SplitLines(raw)[0])
    ensures SplitFrontMatter(raw) == Document(None, Strip(raw))
  {
  }

  lemma SplitWithoutClosing(raw: string)
    requires SplitLines(raw) != [] && IsDelimiter(SplitLines(raw)[0])
    requires forall k :: 1 <= k < |SplitLines(raw)| ==> !IsDelimiter(SplitLines(raw)[k])
    ensures SplitFrontMatter(raw) == Document(None, Strip(raw))
  {
    var lines := SplitLines(raw);
    var r := FindClosing(lines, 1);
    if r.Some? {
      assert false;
    }
  }

  /** The block ends at the FIRST delimiter line after the opening one. */
  lemma SplitAtFirstClosing(raw: string, idx: nat)
    requires SplitLines(raw) != [] && IsDelimiter(SplitLines(raw)[0])
    requires 1 <= idx < |SplitLines(raw)| && IsDelimiter(SplitLines(raw)[idx])
    requires forall k :: 1 <= k < idx ==> !IsDelimiter(SplitLines(raw)[k])
    ensures var lines := SplitLines(raw);
            SplitFrontMatter(raw) ==
              Document(Some(Join(lines[1..idx], "\n")), Strip(Join(lines[idx + 1..], "\n")))
  {
    var lines := SplitLines(raw);
    var r := FindClosing(lines, 1);
    if r.None? || r.value != idx {
      assert false;
    }
  }

  /** Each line followed by "\n", as a front-matter block is written in a file. */
  function Terminated(lines: seq<string>): string {
    if lines == [] then "" else lines[0] + "\n" + Terminated(lines[1..])
  }

  /** A project source with the given front-matter lines and body: the
      opening delimiter, the front-matter lines and the closing delimiter,
      each on a line of its own, then the body. */
  function Compose(frontMatter: seq<string>, body: string): string {
    Terminated(["---"] + frontMatter + ["---"]) + body
  }

  predicate NoLineBreak(line: string) {
    forall j :: 0 <= j < |line| ==> !IsLineBreak(line[j])
  }

  lemma {:induction false} SplitLinesOfLine(line: string, rest: string)
    requires NoLineBreak(line)
    ensures SplitLines(line + "\n" + rest) == [line] + SplitLines(rest)
  {
    var s := line + "\n" + rest;
    assert s[|line|] == '\n';
    assert forall j :: 0 <= j < |line| ==> s[j] == line[j];
    assert FirstBreak(s) == |line|;
    SplitLinesAtNewline(s, |line|);
    assert s[..|line|] == line;
    assert s[|line| + 1..] == rest;
  }

  lemma {:induction false} SplitLinesOfTerminated(lines: seq<string>, rest: string)
    requires forall k :: 0 <= k < |lines| ==> NoLineBreak(lines[k])
    ensures SplitLines(Terminated(lines) + rest) == lines + SplitLines(rest)
  {
    if lines != [] {
      var tail := Terminated(lines[1..]) + rest;
      assert Terminated(lines) + rest == lines[0] + "\n" + tail;
      SplitLinesOfLine(lines[0], tail);
      SplitLinesOfTerminated(lines[1..], rest);
      ConsAppend(lines, SplitLines(rest));
    } else {
      assert Terminated(lines) + rest == rest;
    }
  }

  /** `[xs[0]] + (xs[1..] + ys)` is `xs + ys`. */
  lemma ConsAppend<T>(xs: seq<T>, ys: seq<T>)
    requires xs != []
    ensures [xs[0]] + (xs[1..] + ys) == xs + ys
  {
    assert [xs[0]] + xs[1..] == xs;
  }

  lemma DelimiterHasNoBreak()
    ensures NoLineBreak("---")
  {
  }

  lemma DelimiterIsDelimiter()
    ensures IsDelimiter("---")
  {
    assert LStrip("---") == "---";
    assert RStrip("---") == "---";
  }

  lemma ComposedLines(frontMatter: seq<string>, body: string)
    requires forall k :: 0 <= k < |frontMatter| ==> NoLineBreak(frontMatter[k])
    ensures SplitLines(Compose(frontMatter, body)) == ["---"] + frontMatter + ["---"] + SplitLines(body)
  {
    DelimiterHasNoBreak();
    var block := ["---"] + frontMatter + ["---"];
    forall k | 0 <= k < |block| ensures NoLineBreak(block[k]) {
      if 0 < k < |block| - 1 { assert block[k] == frontMatter[k - 1]; }
    }
    SplitLinesOfTerminated(block, body);
  }

  /** Where the parts of `[open] + middle + [close] + rest` sit. */
  lemma Framed<T>(open: T, middle: seq<T>, close: T, rest: seq<T>)
    ensures var all := [open] + middle + [close] + rest;
            && all[0] == open && all[|middle| + 1] == close
            && all[1..|middle| + 1] == middle && all[|middle| + 2..] == rest
  {
  }

  /** Round trip: a source written as an opening delimiter, front-matter
      lines that are not delimiters, a closing delimiter and a body splits
      back into exactly that front matter and the stripped body. */
  lemma ComposeThenSplit(frontMatter: seq<string>, body: string)
    requires forall k :: 0 <= k < |frontMatter| ==>
               NoLineBreak(frontMatter[k]) && !IsDelimiter(frontMatter[k])
    requires forall k :: 0 <= k < |body| ==> IsLineBreak(body[k]) ==> body[k] == '\n'
    ensures SplitFrontMatter(Compose(frontMatter, body)) ==
              Document(Some(Join(frontMatter, "\n")), Strip(body))
  {
    var raw := Compose(frontMatter, body);
    assert forall k :: 0 <= k < |frontMatter| ==> NoLineBreak(frontMatter[k]);
    ComposedLines(frontMatter, body);
    DelimiterIsDelimiter();
    var lines := SplitLines(raw);
    var idx := |frontMatter| + 1;
    Framed("---", frontMatter, "---", SplitLines(body));
    SplitAtFirstClosing(raw, idx);
    StripOfJoinedLines(body);
    assert Join(lines[1..idx], "\n") == Join(frontMatter, "\n");
    assert lines[idx + 1..] == SplitLines(body);
  }

  /** Splitting a body into lines and joining them again can only lose a
      final "\n", which the strip removes anyway. */
  lemma StripOfJoinedLines(body: string)
    requires forall k :: 0 <= k < |body| ==> IsLineBreak(body[k]) ==> body[k] == '\n'
    ensures Strip(Join(SplitLines(body), "\n")) == Strip(body)
  {
    if body != [] && body[|body| - 1] == '\n' {
      JoinLinesOfTerminated(body);
      StripOfDroppedSpace(body);
    } else {
      JoinLinesOfUnterminated(body);
    }
  }

  // ---------------------------------------------------------------------
  // Excerpt
  // ---------------------------------------------------------------------

  /** The character that ends a clipped excerpt. */
  const Ellipsis: char := '\U{2026}'

  /** Default clip length of `_build_excerpt`. */
  const ExcerptLength: nat := 180

  /** Index of the first `c` in `s`, or `|s|`. */
  function IndexOf(s: string, c: char): (i: nat)
    ensures i <= |s| && (i < |s| ==> s[i] == c)
    ensures forall j :: 0 <= j < i ==> s[j] != c
  {
    if s == [] || s[0] == c then 0 else 1 + IndexOf(s[1..], c)
  }

  /** Where the pattern `<[^>]+>` matches at the start of `s`: a "<", at
      least one character that is not ">", then ">". */
  predicate TagAt(s: string, i: nat) {
    i < |s| && s[i] == '<' && i + 1 < |s| && s[i + 1] != '>' && '>' in s[i + 1..]
  }

  /** No match of `<[^>]+>` anywhere. */
  predicate TagFree(s: string) {
    forall i :: 0 <= i < |s| ==> !TagAt(s, i)
  }

  /** `re.sub(r"<[^>]+>", " ", s)`: every tag, scanned left to right without
      overlap, becomes one space. */
  function StripTags(s: string): (r: string)
    ensures |r| <= |s|
    decreases |s|
  {
    if s == [] then []
    else if s[0] == '<' && 1 < |s| && s[1] != '>' && IndexOf(s[1..], '>') + 1 < |s| then
      " " + StripTags(s[IndexOf(s[1..], '>') + 2..])
    else
      [s[0]] + StripTags(s[1..])
  }

  lemma {:induction false} StripTagsAddsNoGt(s: string)
    requires '>' !in s
    ensures '>' !in StripTags(s)
    decreases |s|
  {
    if s != [] {
      if s[0] == '<' && 1 < |s| && s[1] != '>' && IndexOf(s[1..], '>') + 1 < |s| {
        assert false;
      } else {
        StripTagsAddsNoGt(s[1..]);
      }
    }
  }

  /** A "<" that starts no tag is kept, and the scan goes on after it. */
  lemma StripTagsKeepsStrayLt(s: string)
    requires s != [] && s[0] == '<' && !TagAt(s, 0)
    ensures StripTags(s) == "<" + StripTags(s[1..])
  {
  }

  /** Nothing the tag pattern matches survives `StripTags`. */
  lemma {:induction false} StripTagsIsTagFree(s: string)
    ensures TagFree(StripTags(s))
    decreases |s|
  {
    if s != [] {
      if s[0] == '<' && 1 < |s| && s[1] != '>' && IndexOf(s[1..], '>') + 1 < |s| {
        var rest := s[IndexOf(s[1..], '>') + 2..];
        StripTagsIsTagFree(rest);
        TagFreeCons(' ', StripTags(rest));
        assert StripTags(s) == [' '] + StripTags(rest);
      } else {
        var tail := StripTags(s[1..]);
        StripTagsIsTagFree(s[1..]);
        if s[0] == '<' && 1 < |s| {
          if s[1] == '>' {
            assert tail[0] == '>';
          } else {
            assert '>' !in s[1..];
            StripTagsAddsNoGt(s[1..]);
          }
        }
        TagFreeCons(s[0], tail);
        assert StripTags(s) == [s[0]] + tail;
      }
    }
  }

  /** Putting a character in front of a tag-free text starts no tag unless
      it is a "<" followed by a character other than ">" and, later, a ">". */
  lemma TagFreeCons(c: char, x: string)
    requires TagFree(x)
    requires c != '<' || x == [] || x[0] == '>' || '>' !in x
    ensures TagFree([c] + x)
  {
    var r := [c] + x;
    forall i | 0 <= i < |r| ensures !TagAt(r, i) {
      if i > 0 {
        assert r[i] == x[i - 1];
        if i + 1 < |r| {
          assert r[i + 1] == x[i] && r[i + 1..] == x[i..];
        }
        assert !TagAt(x, i - 1);
      } else if x != [] {
        assert r[1..] == x;
      }
    }
  }

  /** Text before the first "<" passes through `StripTags` unchanged. */
  lemma {:induction false} StripTagsKeepsText(a: string, b: string)
    requires '<' !in a
    ensures StripTags(a + b) == a + StripTags(b)
    decreases |a|
  {
    if a == [] {
      assert a + b == b;
    } else {
      assert (a + b)[0] == a[0] && (a + b)[1..] == a[1..] + b;
      StripTagsKeepsText(a[1..], b);
      ConsAppend(a, StripTags(b));
    }
  }

  /** A tag `<t>`, where `t` is non-empty and holds no ">", becomes one space. */
  lemma StripTagsOfTag(t: string, b: string)
    requires t != [] && '>' !in t
    ensures StripTags("<" + t + ">" + b) == " " + StripTags(b)
  {
    var s := "<" + t + ">" + b;
    var u := s[1..];
    assert u[|t|] == '>';
    assert forall j :: 0 <= j < |t| ==> u[j] == t[j];
    assert IndexOf(u, '>') == |t|;
    assert s[|t| + 2..] == b;
  }

  /** `re.sub(r"\s+", " ", s)`: each maximal run of whitespace becomes one space. */
  function Collapse(s: string): (r: string)
    ensures forall i :: 0 <= i < |r| && IsSpace(r[i]) ==>
              r[i] == ' ' && (i + 1 < |r| ==> !IsSpace(r[i + 1]))
    ensures (r != [] && IsSpace(r[0])) <==> (s != [] && IsSpace(s[0]))
    decreases |s|
  {
    if s == [] then []
    else if IsSpace(s[0]) then " " + Collapse(LStrip(s))
    else [s[0]] + Collapse(s[1..])
  }

  /** A run of non-whitespace characters is kept as it is. */
  lemma {:induction false} CollapseOfWord(w: string, rest: string)
    requires forall j :: 0 <= j < |w| ==> !IsSpace(w[j])
    ensures Collapse(w + rest) == w + Collapse(rest)
    decreases |w|
  {
    if w == [] {
      assert w + rest == rest;
    } else {
      assert (w + rest)[0] == w[0] && (w + rest)[1..] == w[1..] + rest;
      CollapseOfWord(w[1..], rest);
      ConsAppend(w, Collapse(rest));
    }
  }

  /** One space when `s` ends with whitespace, else nothing. */
  function TrailingSpace(s: string): string {
    if s != [] && IsSpace(s[|s| - 1]) then " " else ""
  }

  lemma CollapseOfSpace(s: string)
    requires s != [] && IsSpace(s[0])
    ensures Collapse(s) == " " + Collapse(LStrip(s))
  {
  }

  /** A word followed by whitespace: the word, one space, then the rest
      without its leading whitespace. */
  lemma CollapseWordThenSpace(w: string, rest: string)
    requires forall j :: 0 <= j < |w| ==> !IsSpace(w[j])
    requires rest != [] && IsSpace(rest[0])
    ensures Collapse(w + rest) == w + " " + Collapse(LStrip(rest))
  {
    CollapseOfWord(w, rest);
    CollapseOfSpace(rest);
  }

  /** The words of a text that starts with a word and has more after it. */
  lemma JoinedWordsOfWordStart(s: string)
    requires s != [] && !IsSpace(s[0])
    requires LStrip(s[FirstSpace(s)..]) != []
    ensures Join(Words(s), " ") ==
              s[..FirstSpace(s)] + " " + Join(Words(LStrip(s[FirstSpace(s)..])), " ")
  {
    var r := LStrip(s[FirstSpace(s)..]);
    WordsOfWordStart(s);
    WordsOfLStrip(s[FirstSpace(s)..]);
    assert LStrip(r) == r;
    assert Words(r) != [];
    JoinCons(s[..FirstSpace(s)], Words(r), " ");
  }

  lemma {:induction false} LStripKeepsLast(s: string)
    requires LStrip(s) != []
    ensures LStrip(s)[|LStrip(s)| - 1] == s[|s| - 1]
  {
    if IsSpace(s[0]) {
      LStripKeepsLast(s[1..]);
    }
  }

  lemma TrailingOfSameEnd(s: string, r: string)
    requires s != [] && r != [] && s[|s| - 1] == r[|r| - 1]
    ensures TrailingSpace(s) == TrailingSpace(r)
  {
  }

  lemma {:induction false} CollapseFromWord(s: string)
    requires s == [] || !IsSpace(s[0])
    ensures Collapse(s) == Join(Words(s), " ") + TrailingSpace(s)
    decreases |s|
  {
    if s != [] {
      var i := FirstSpace(s);
      if i == |s| {
        CollapseOfOneWord(s);
      } else if LStrip(s[i..]) == [] {
        CollapseOfWordThenSpace(s);
      } else {
        var r := LStrip(s[i..]);
        CollapseFromWord(r);
        CollapseOfWordStart(s);
        JoinedWordsOfWordStart(s);
        TrailingOfSuffix(s, i);
        Regroup(s[..i] + " ", Join(Words(r), " "), TrailingSpace(r));
      }
    }
  }

  lemma CollapseOfWordStart(s: string)
    requires s != [] && !IsSpace(s[0]) && FirstSpace(s) < |s|
    ensures Collapse(s) == s[..FirstSpace(s)] + " " + Collapse(LStrip(s[FirstSpace(s)..]))
  {
    var i := FirstSpace(s);
    assert s == s[..i] + s[i..];
    CollapseWordThenSpace(s[..i], s[i..]);
  }

  lemma TrailingOfSuffix(s: string, i: nat)
    requires i < |s| && LStrip(s[i..]) != []
    ensures TrailingSpace(s) == TrailingSpace(LStrip(s[i..]))
  {
    var rest := s[i..];
    LStripKeepsLast(rest);
    assert s[|s| - 1] == rest[|rest| - 1];
  }

  lemma CollapseOfOneWord(s: string)
    requires s != [] && FirstSpace(s) == |s|
    ensures Collapse(s) == Join(Words(s), " ") + TrailingSpace(s)
  {
    WordsOfWordStart(s);
    CollapseOfWord(s, []);
    assert s + [] == s;
    assert Words(s[|s|..]) == [];
  }

  lemma CollapseOfWordThenSpace(s: string)
    requires s != [] && !IsSpace(s[0]) && FirstSpace(s) < |s| && LStrip(s[FirstSpace(s)..]) == []
    ensures Collapse(s) == Join(Words(s), " ") + TrailingSpace(s)
  {
    var i := FirstSpace(s);
    var rest := s[i..];
    CollapseOfWordStart(s);
    WordsOfWordStart(s);
    WordsOfLStrip(rest);
    var w := s[..i];
    assert Collapse(LStrip(rest)) == [];
    assert Collapse(s) == w + " ";
    assert Words(rest) == [];
    assert Words(s) == [w];
    assert Join(Words(s), " ") == w;
    AllSpaceEndsInSpace(rest);
    assert s[|s| - 1] == rest[|rest| - 1];
    assert TrailingSpace(s) == " ";
  }

  lemma {:induction false} AllSpaceEndsInSpace(s: string)
    requires s != [] && LStrip(s) == []
    ensures IsSpace(s[|s| - 1])
  {
    if |s| > 1 {
      AllSpaceEndsInSpace(s[1..]);
    }
  }

  lemma Regroup<T>(a: seq<T>, b: seq<T>, c: seq<T>)
    ensures a + (b + c) == a + b + c
  {
  }

  /** `Collapse` puts the words of `s` (`s.split()`) in a row, one space
      between neighbours, and keeps one space for leading and for trailing
      whitespace. */
  lemma CollapseIsJoinedWords(s: string)
    ensures var ws := Words(s);
            Collapse(s) ==
              (if s != [] && IsSpace(s[0]) then " " else "") + Join(ws, " ") +
              (if ws != [] then TrailingSpace(s) else "")
  {
    if s != [] && IsSpace(s[0]) {
      CollapseFromSpace(s);
    } else {
      CollapseFromWord(s);
      if s != [] {
        WordsOfWordStart(s);
      }
    }
  }

  lemma CollapseFromSpace(s: string)
    requires s != [] && IsSpace(s[0])
    ensures var ws := Words(s);
            Collapse(s) == " " + Join(ws, " ") + (if ws != [] then TrailingSpace(s) else "")
  {
    if LStrip(s) == [] {
      CollapseOfAllSpace(s);
    } else {
      CollapseOfSpaceThenWord(s);
    }
  }

  lemma CollapseOfAllSpace(s: string)
    requires s != [] && IsSpace(s[0]) && LStrip(s) == []
    ensures Words(s) == [] && Collapse(s) == " "
  {
    CollapseOfSpace(s);
    WordsOfLStrip(s);
    assert Words(LStrip(s)) == [];
  }

  lemma CollapseOfSpaceThenWord(s: string)
    requires s != [] && IsSpace(s[0]) && LStrip(s) != []
    ensures Words(s) != []
    ensures Collapse(s) == " " + Join(Words(s), " ") + TrailingSpace(s)
  {
    var r := LStrip(s);
    WordsOfLStrip(s);
    WordsOfWordStart(r);
    CollapseFromWord(r);
    CollapseOfSpace(s);
    LStripKeepsLast(s);
    TrailingOfSameEnd(s, r);
    Regroup(" ", Join(Words(r), " "), TrailingSpace(r));
  }

  /** Stripping the collapsed text leaves the words joined by single spaces. */
  lemma NormalizeIsJoinedWords(s: string)
    ensures Strip(Collapse(s)) == Join(Words(s), " ")
  {
    var ws := Words(s);
    CollapseIsJoinedWords(s);
    JoinOfWords(ws);
    StripOfPadded(if s != [] && IsSpace(s[0]) then " " else "", Join(ws, " "),
                  if ws != [] then TrailingSpace(s) else "");
  }

  /** The characters of `s` that are not whitespace, in order. */
  function Visible(s: string): string {
    if s == [] then []
    else if IsSpace(s[0]) then Visible(s[1..])
    else [s[0]] + Visible(s[1..])
  }

  lemma {:induction false} VisibleOfLStrip(s: string)
    ensures Visible(LStrip(s)) == Visible(s)
    decreases |s|
  {
    if s != [] && IsSpace(s[0]) {
      VisibleOfLStrip(s[1..]);
    }
  }

  /** Collapsing whitespace keeps every other character, in order. */
  lemma {:induction false} CollapseKeepsVisible(s: string)
    ensures Visible(Collapse(s)) == Visible(s)
    decreases |s|
  {
    if s != [] {
      if IsSpace(s[0]) {
        VisibleOfLStrip(s);
        CollapseKeepsVisible(LStrip(s));
        assert Visible(Collapse(s)) == Visible(Collapse(LStrip(s)));
      } else {
        CollapseKeepsVisible(s[1..]);
        assert Collapse(s) == [s[0]] + Collapse(s[1..]);
      }
    }
  }

  lemma {:induction false} VisibleOfAllSpace(s: string)
    requires forall k :: 0 <= k < |s| ==> IsSpace(s[k])
    ensures Visible(s) == []
    decreases |s|
  {
    if s != [] { VisibleOfAllSpace(s[1..]); }
  }

  lemma {:induction false} VisibleOfConcat(a: string, b: string)
    ensures Visible(a + b) == Visible(a) + Visible(b)
    decreases |a|
  {
    if a != [] {
      VisibleOfConcat(a[1..], b);
      assert (a + b)[0] == a[0];
      assert (a + b)[1..] == a[1..] + b;
    } else {
      assert a + b == b;
    }
  }

  /** Stripping removes whitespace only. */
  lemma StripKeepsVisible(s: string)
    ensures Visible(Strip(s)) == Visible(s)
  {
    StripIsSlice(s);
    var i := StripStart(s);
    var j := i + |Strip(s)|;
    assert s == s[..i] + s[i..j] + s[j..];
    VisibleOfConcat(s[..i] + s[i..j], s[j..]);
    VisibleOfConcat(s[..i], s[i..j]);
    VisibleOfAllSpace(s[..i]);
    VisibleOfAllSpace(s[j..]);
  }

  /** What `_build_excerpt` leaves of the HTML before clipping: the words
      of the tag-free text, `" ".join(text.split())`. */
  function NormalizeText(html: string): (r: string)
    ensures r == Join(Words(StripTags(html)), " ")
  {
    NormalizeIsJoinedWords(StripTags(html));
    Strip(Collapse(StripTags(html)))
  }

  /** Normalised text: no leading or trailing whitespace, the only
      whitespace character is " ", and no two of them are adjacent. */
  predicate Normalized(t: string) {
    forall i :: 0 <= i < |t| && IsSpace(t[i]) ==>
      t[i] == ' ' && 0 < i < |t| - 1 && !IsSpace(t[i + 1])
  }

  lemma NormalizeTextIsNormalized(html: string)
    ensures Normalized(NormalizeText(html))
    ensures Visible(NormalizeText(html)) == Visible(StripTags(html))
  {
    var x := StripTags(html);
    assert NormalizeText(html) == Strip(Collapse(x));
    CollapsedIsNormalized(x);
    StripKeepsVisible(Collapse(x));
    CollapseKeepsVisible(x);
  }

  lemma CollapsedIsNormalized(x: string)
    ensures Normalized(Strip(Collapse(x)))
  {
    NormalizeIsJoinedWords(x);
    JoinedWordsAreNormalized(Words(x));
  }

  /** Words joined by single spaces are normalised. */
  lemma {:induction false} JoinedWordsAreNormalized(ws: seq<string>)
    requires forall k :: 0 <= k < |ws| ==> IsWord(ws[k])
    ensures Normalized(Join(ws, " "))
  {
    if |ws| > 1 {
      var w := ws[0];
      var tail := Join(ws[1..], " ");
      var t := Join(ws, " ");
      JoinedWordsAreNormalized(ws[1..]);
      JoinOfWords(ws[1..]);
      assert t == w + " " + tail;
      forall i | 0 <= i < |t| && IsSpace(t[i])
        ensures t[i] == ' ' && 0 < i < |t| - 1 && !IsSpace(t[i + 1])
      {
        if i == |w| {
          assert t[i + 1] == tail[0];
        } else if i > |w| {
          assert t[i] == tail[i - |w| - 1];
          assert t[i + 1] == tail[i - |w|];
        }
      }
    }
  }

  /** `_build_excerpt(html, length=length)`. */
  function BuildExcerpt(html: string, length: nat): (r: string)
    ensures |r| <= length + 2
    ensures r == NormalizeText(html) || (r != [] && r[|r| - 1] == Ellipsis)
  {
    var text := NormalizeText(html);
    if |text| <= length then text
    else BeforeLastSpace(text[..length + 1]) + [Ellipsis]
  }

  /** A text that fits is returned as it is, already normalised, without an ellipsis. */
  lemma ExcerptOfShortText(html: string, length: nat)
    requires |NormalizeText(html)| <= length
    ensures BuildExcerpt(html, length) == NormalizeText(html)
    ensures Normalized(BuildExcerpt(html, length))
  {
    NormalizeTextIsNormalized(html);
  }

  /** A longer text is clipped on a word boundary: the excerpt is a prefix
      of the normalised text, cut just before the last space within the
      first `length + 1` characters (or at `length + 1` characters when
      there is none), followed by the ellipsis. The cut never leaves a
      trailing space and never an empty prefix. */
  lemma ExcerptOfLongText(html: string, length: nat)
    requires |NormalizeText(html)| > length
    ensures var t := NormalizeText(html);
            var r := BuildExcerpt(html, length);
            var clipped := r[..|r| - 1];
            && |r| >= 2 && r[|r| - 1] == Ellipsis
            && clipped <= t && 0 < |clipped| <= length + 1
            && !IsSpace(clipped[|clipped| - 1])
            && (' ' in t[..length + 1] ==>
                  |clipped| <= length && t[|clipped|] == ' ' && ' ' !in t[|clipped| + 1..length + 1])
            && (' ' !in t[..length + 1] ==> clipped == t[..length + 1])
  {
    var t := NormalizeText(html);
    NormalizeTextIsNormalized(html);
    var head := t[..length + 1];
    var clipped := BeforeLastSpace(head);
    var r := BuildExcerpt(html, length);
    assert r == clipped + [Ellipsis];
    assert r[..|r| - 1] == clipped;
    assert !IsSpace(t[0]);
    if ' ' in head {
      var p := |clipped|;
      assert head[p] == ' ' && t[p] == ' ';
      assert 0 < p;
      assert !IsSpace(t[p - 1]);
      assert clipped[p - 1] == t[p - 1];
    } else {
      assert clipped == head;
      assert t[length] != ' ' && head[length] == t[length];
      assert !IsSpace(t[length]);
    }
  }

  /** The summary `_load_project` keeps: the metadata's own when it is
      truthy, otherwise the excerpt of the default length. */
  function Summary(summary: Value, html: string): (r: Value)
    ensures Truthy(r)  || r == Text([])
    ensures Truthy(summary) ==> r == summary
    ensures !Truthy(summary) ==> r.Text? && |r.s| <= ExcerptLength + 2
  {
    if Truthy(summary) then summary else Text(BuildExcerpt(html, ExcerptLength))
  }

  // ---------------------------------------------------------------------
  // Metadata values
  // ---------------------------------------------------------------------

  /** A value the YAML loader may put in the metadata. `Other` stands for the
      remaining kinds (dates, mappings, ...) and carries what `str()` and
      `repr()` give for it and whether it is truthy. */
  datatype Value =
    | Null
    | Bool(b: bool)
    | Int(i: int)
    | Text(s: string)
    | List(items: seq<Value>)
    | Other(str: string, repr: string, truthy: bool)

  /** The exceptions the helpers can raise and do not catch. */
  datatype PyError = TypeError | AttributeError

  /** Python truthiness (`not value` is its negation). */
  predicate Truthy(v: Value) {
    match v
    case Null => false
    case Bool(b) => b
    case Int(i) => i != 0
    case Text(s) => s != ""
    case List(items) => items != []
    case Other(_, _, t) => t
  }

  function DigitChar(d: nat): char
    requires d < 10
  {
    "0123456789"[d]
  }

  predicate IsDigit(c: char) {
    '0' <= c <= '9'
  }

  function DigitValue(c: char): nat
    requires IsDigit(c)
  {
    (c as int - '0' as int) as nat
  }

  /** Decimal digits of `n`, most significant first. */
  function Digits(n: nat): (r: string)
    ensures r != [] && forall k :: 0 <= k < |r| ==> IsDigit(r[k])
  {
    if n < 10 then [DigitChar(n)] else Digits(n / 10) + [DigitChar(n % 10)]
  }

  /** `str(i)` for an integer. */
  function IntToString(i: int): string {
    if i < 0 then "-" + Digits(-i) else Digits(i)
  }

  /** Python's `str(v)`. */
  function Str(v: Value): (r: string)
    ensures v.Text? ==> r == v.s
    ensures v.List? ==> |r| >= 2 && r[0] == '[' && r[|r| - 1] == ']'
    decreases v, 1
  {
    match v
    case Null => "None"
    case Bool(b) => if b then "True" else "False"
    case Int(i) => IntToString(i)
    case Text(s) => s
    case List(items) => "[" + ReprList(v, items) + "]"
    case Other(s, _, _) => s
  }

  /** Python's `repr(v)`, as used inside a list display. */
  function Repr(v: Value): (r: string)
    ensures v.Text? ==> |r| == |v.s| + 2 && r[0] == '\'' && r[|r| - 1] == '\'' && r[1..|r| - 1] == v.s
    ensures !v.Text? && !v.Other? ==> r == Str(v)
    decreases v, 2
  {
    match v
    case Text(s) => "'" + s + "'"
    case Other(_, r, _) => r
    case _ => Str(v)
  }

  /** The items of a list display, `", ".join(repr(x) for x in items)`. */
  function ReprList(ghost owner: Value, items: seq<Value>): string
    requires forall k :: 0 <= k < |items| ==> items[k] < owner
    decreases owner, 0, |items|
  {
    if items == [] then ""
    else if |items| == 1 then Repr(items[0])
    else Repr(items[0]) + ", " + ReprList(owner, items[1..])
  }

  /** `_ensure_list`: None gives `[]`, a list gives its items stringified,
      any other value a one-element list. */
  function EnsureList(v: Value): (r: seq<string>)
    ensures v.Null? ==> r == []
    ensures v.List? ==> |r| == |v.items| && forall k :: 0 <= k < |r| ==> r[k] == Str(v.items[k])
    ensures !v.Null? && !v.List? ==> r == [Str(v)]
  {
    match v
    case Null => []
    case List(items) => seq(|items|, k requires 0 <= k < |items| => Str(items[k]))
    case _ => [Str(v)]
  }

  /** A list of strings passes through `_ensure_list` unchanged, and so
      does a single string, wrapped. */
  lemma EnsureListOfStrings(ss: seq<string>, s: string)
    ensures EnsureList(List(seq(|ss|, k requires 0 <= k < |ss| => Text(ss[k])))) == ss
    ensures EnsureList(Text(s)) == [s]
  {
  }

  /** The strings as YAML string values. */
  function Texts(ss: seq<string>): (vs: seq<Value>)
    ensures |vs| == |ss| && forall k :: 0 <= k < |vs| ==> vs[k] == Text(ss[k])
  {
    seq(|ss|, k requires 0 <= k < |ss| => Text(ss[k]))
  }

  /** `_ensure_list` is idempotent: applied to the list of strings it
      returned, it returns the same list. */
  lemma EnsureListIsIdempotent(v: Value)
    ensures EnsureList(List(Texts(EnsureList(v)))) == EnsureList(v)
  {
    EnsureListOfStrings(EnsureList(v), "");
  }

  // ---------------------------------------------------------------------
  // Asset paths
  // ---------------------------------------------------------------------

  /** `_normalize_asset`. A truthy value that is not a string has no
      `startswith` and raises AttributeError. */
  function NormalizeAsset(v: Value): (r: Result<Option<string>, PyError>)
    ensures !Truthy(v) ==> r == Ok(None)
    ensures Truthy(v) && !v.Text? ==> r == Err(AttributeError)
    ensures v.Text? && v.s != "" ==>
              r.Ok? && r.value.Some? && |r.value.value| <= |v.s| &&
              r.value.value == v.s[|v.s| - |r.value.value|..]
  {
    if !Truthy(v) then Ok(None)
    else if !v.Text? then Err(AttributeError)
    else
      var s := v.s;
      if "http://" <= s || "https://" <= s then Ok(Some(s))
      else
        var cleaned := LStripChar(s, '/');
        LStripCharIsSuffix(s, '/');
        if "static/" <= cleaned then Ok(Some(cleaned[|"static/"|..])) else Ok(Some(cleaned))
  }

  /** Absolute URLs are kept verbatim. */
  lemma NormalizeAssetKeepsUrls(s: string)
    requires "http://" <= s || "https://" <= s
    ensures NormalizeAsset(Text(s)) == Ok(Some(s))
  {
  }

  /** The number of leading "/" of `s`. */
  function LeadingSlashes(s: string): nat {
    |s| - |LStripChar(s, '/')|
  }

  /** Any other path loses all its leading "/" and then at most one
      leading "static/"; the rest is kept as it is. */
  lemma NormalizeAssetPath(s: string)
    requires s != "" && !("http://" <= s) && !("https://" <= s)
    ensures var k := LeadingSlashes(s);
            && k <= |s|
            && (forall j :: 0 <= j < k ==> s[j] == '/')
            && (k == |s| || s[k] != '/')
            && NormalizeAsset(Text(s)) ==
                 Ok(Some(if "static/" <= s[k..] then s[k + |"static/"|..] else s[k..]))
  {
    var k := LeadingSlashes(s);
    AssetOfPath(s);
    LeadingSlashesAreStripped(s);
    if "static/" <= s[k..] {
      SuffixOfSuffix(s, k, |"static/"|);
    }
  }

  /** `lstrip("/")` removes exactly the leading slashes. */
  lemma LeadingSlashesAreStripped(s: string)
    ensures var k := LeadingSlashes(s);
            && k <= |s|
            && (forall j :: 0 <= j < k ==> s[j] == '/')
            && (k == |s| || s[k] != '/')
            && LStripChar(s, '/') == s[k..]
  {
    LStripCharIsSuffix(s, '/');
  }

  lemma AssetOfPath(s: string)
    requires s != "" && !("http://" <= s) && !("https://" <= s)
    ensures var c := LStripChar(s, '/');
            NormalizeAsset(Text(s)) == Ok(Some(if "static/" <= c then c[|"static/"|..] else c))
  {
  }

  /** A suffix of a suffix is a suffix. */
  lemma SuffixOfSuffix<T>(s: seq<T>, k: nat, m: nat)
    requires k + m <= |s|
    ensures s[k..][m..] == s[k + m..]
  {
  }

  // ---------------------------------------------------------------------
  // Year
  // ---------------------------------------------------------------------

  /** Digits with single underscores between them, as `int()` accepts. */
  predicate DigitGroups(d: string) {
    d != [] && IsDigit(d[0]) && IsDigit(d[|d| - 1]) &&
    (forall k :: 0 <= k < |d| ==> IsDigit(d[k]) || d[k] == '_') &&
    (forall k :: 0 <= k < |d| - 1 ==> d[k] == '_' ==> d[k + 1] != '_')
  }

  /** The value of a run of digits and underscores, underscores skipped. */
  function DigitsValue(d: string): nat
    requires forall k :: 0 <= k < |d| ==> IsDigit(d[k]) || d[k] == '_'
  {
    if d == [] then 0
    else if d[|d| - 1] == '_' then DigitsValue(d[..|d| - 1])
    else DigitsValue(d[..|d| - 1]) * 10 + DigitValue(d[|d| - 1])
  }

  /** The default of `sys.get_int_max_str_digits()`: `int()` raises
      ValueError for a decimal string with more digits than this. */
  const MaxStrDigits: nat := 4300

  /** The number of digits in `d`, underscores not counted. */
  function DigitCount(d: string): nat {
    if d == [] then 0 else (if IsDigit(d[0]) then 1 else 0) + DigitCount(d[1..])
  }

  /** The whitespace `int()` skips around a numeral. CPython turns every
      non-ASCII `isspace` character into a space and then skips the ASCII
      whitespace tab to carriage return and the space; the separators
      U+001C to U+001F, for which `isspace` holds, are not skipped. */
  predicate IsIntSpace(c: char) {
    IsSpace(c) && !('\U{1C}' <= c <= '\U{1F}')
  }

  /** The number of characters `int()` skips at the front of `s`. */
  function IntSpaceBefore(s: string): (i: nat)
    ensures i <= |s| && (i == |s| || !IsIntSpace(s[i]))
    ensures forall k :: 0 <= k < i ==> IsIntSpace(s[k])
  {
    if s != [] && IsIntSpace(s[0]) then 1 + IntSpaceBefore(s[1..]) else 0
  }

  /** Where the characters `int()` skips at the end of `s` begin. */
  function IntSpaceAfter(s: string): (j: nat)
    ensures j <= |s| && (j == 0 || !IsIntSpace(s[j - 1]))
    ensures forall k :: j <= k < |s| ==> IsIntSpace(s[k])
  {
    if s != [] && IsIntSpace(s[|s| - 1]) then IntSpaceAfter(s[..|s| - 1]) else |s|
  }

  /** The text `int()` reads: `s` less the whitespace it skips at either end
      (IntStripIsSlice states which slice). */
  function IntStrip(s: string): (r: string)
    ensures r == [] || (!IsIntSpace(r[0]) && !IsIntSpace(r[|r| - 1]))
  {
    var t := s[IntSpaceBefore(s)..];
    t[..IntSpaceAfter(t)]
  }

  /** `IntStrip(s)` is a slice of `s` with only skipped whitespace around it. */
  lemma IntStripIsSlice(s: string)
    ensures var a, r := IntSpaceBefore(s), IntStrip(s);
            && a + |r| <= |s| && r == s[a..a + |r|]
            && (forall k :: 0 <= k < a ==> IsIntSpace(s[k]))
            && (forall k :: a + |r| <= k < |s| ==> IsIntSpace(s[k]))
  {
    var a := IntSpaceBefore(s);
    var j := IntSpaceAfter(s[a..]);
    IntSpaceAfterOfSuffix(s, a);
    SliceOfSuffix(s, a, j);
  }

  /** A prefix of a suffix is a slice. */
  lemma SliceOfSuffix<T>(s: seq<T>, a: nat, j: nat)
    requires a + j <= |s|
    ensures s[a..][..j] == s[a..a + j]
  {
  }

  /** The whitespace skipped at the end of a suffix of `s` ends `s` too. */
  lemma IntSpaceAfterOfSuffix(s: string, a: nat)
    requires a <= |s|
    ensures forall k :: a + IntSpaceAfter(s[a..]) <= k < |s| ==> IsIntSpace(s[k])
  {
    var t := s[a..];
    forall k | a + IntSpaceAfter(t) <= k < |s| ensures IsIntSpace(s[k]) {
      assert s[k] == t[k - a];
    }
  }

  /** A string that neither starts nor ends with skipped whitespace is read whole. */
  lemma IntStripOfTrimmed(s: string)
    requires s == [] || (!IsIntSpace(s[0]) && !IsIntSpace(s[|s| - 1]))
    ensures IntStrip(s) == s
  {
    assert s[0..] == s;
  }

  /** `int(s)` in base 10: skipped whitespace around an optional sign and
      digit groups of at most `MaxStrDigits` digits; None where Python
      raises ValueError. Only a string with a digit in it can be a number. */
  function ParseInt(s: string): (r: Option<int>)
    ensures r.Some? ==> exists k :: 0 <= k < |s| && IsDigit(s[k])
  {
    var t := IntStrip(s);
    if t == [] then None
    else
      var negative := t[0] == '-';
      var d := if t[0] == '-' || t[0] == '+' then t[1..] else t;
      if DigitGroups(d) && DigitCount(d) <= MaxStrDigits then
        NumeralHasDigit(s);
        Some(if negative then -(DigitsValue(d) as int) else DigitsValue(d) as int)
      else None
  }

  /** The digit that starts the digit groups of a numeral lies in `s`. */
  lemma NumeralHasDigit(s: string)
    requires IntStrip(s) != []
    requires var t := IntStrip(s);
             DigitGroups(if t[0] == '-' || t[0] == '+' then t[1..] else t)
    ensures exists k :: 0 <= k < |s| && IsDigit(s[k])
  {
    var t := IntStrip(s);
    IntStripIsSlice(s);
    var j := if t[0] == '-' || t[0] == '+' then 1 else 0;
    assert IsDigit(t[j]);
    assert t[j] == s[IntSpaceBefore(s) + j];
  }

  /** A separator U+001C to U+001F anywhere in the string makes `int()`
      raise ValueError, so the year is None. */
  lemma CoerceYearOfSeparator(s: string, k: nat)
    requires k < |s| && '\U{1C}' <= s[k] <= '\U{1F}'
    ensures ParseInt(s) == None
    ensures CoerceYear(Text(s)) == Ok(None)
  {
    var t := IntStrip(s);
    var a := IntSpaceBefore(s);
    IntStripIsSlice(s);
    assert a <= k < a + |t|;
    assert t[k - a] == s[k];
    var d := if t[0] == '-' || t[0] == '+' then t[1..] else t;
    var e := if t[0] == '-' || t[0] == '+' then k - a - 1 else k - a;
    assert 0 <= e < |d| && d[e] == s[k];
  }

  /** The year coercion of `_load_project`: a missing or null year is None;
      `int()` of the value otherwise, where ValueError is caught and gives
      None and TypeError (lists, dates, mappings) propagates. */
  function CoerceYear(v: Value): (r: Result<Option<int>, PyError>)
    ensures v.Null? ==> r == Ok(None)
    ensures v.Int? ==> r == Ok(Some(v.i))
    ensures v.Text? ==> r.Ok?
    ensures (v.List? || v.Other?) ==> r == Err(TypeError)
  {
    match v
    case Null => Ok(None)
    case Bool(b) => Ok(Some(if b then 1 else 0))
    case Int(i) => Ok(Some(i))
    case Text(s) => Ok(ParseInt(s))
    case List(_) => Err(TypeError)
    case Other(_, _, _) => Err(TypeError)
  }

  lemma {:induction false} DigitsRoundTrip(n: nat)
    ensures DigitsValue(Digits(n)) == n
  {
    if n >= 10 {
      DigitsRoundTrip(n / 10);
      var d := Digits(n);
      assert d[..|d| - 1] == Digits(n / 10);
    }
  }

  lemma {:induction false} DigitCountOfDigits(d: string)
    requires forall k :: 0 <= k < |d| ==> IsDigit(d[k])
    ensures DigitCount(d) == |d|
  {
    if d != [] {
      DigitCountOfDigits(d[1..]);
    }
  }

  /** Round trip: a year written as its decimal string coerces back to it,
      as long as it has at most `MaxStrDigits` digits. */
  lemma CoerceYearOfDecimal(n: int)
    requires |Digits(if n < 0 then -n else n)| <= MaxStrDigits
    ensures CoerceYear(Text(IntToString(n))) == Ok(Some(n))
  {
    if n < 0 {
      ParseNegative(-n);
    } else {
      ParseNatural(n);
    }
  }

  lemma ParseNatural(m: nat)
    requires |Digits(m)| <= MaxStrDigits
    ensures ParseInt(Digits(m)) == Some(m)
  {
    var d := Digits(m);
    DigitCountOfDigits(d);
    assert DigitGroups(d);
    IntStripOfTrimmed(d);
    ParseUnsigned(d);
    DigitsRoundTrip(m);
  }

  lemma ParseUnsigned(d: string)
    requires IntStrip(d) == d && DigitGroups(d) && DigitCount(d) <= MaxStrDigits
    ensures ParseInt(d) == Some(DigitsValue(d) as int)
  {
  }

  lemma ParseNegative(m: nat)
    requires m > 0 && |Digits(m)| <= MaxStrDigits
    ensures ParseInt("-" + Digits(m)) == Some(-(m as int))
  {
    var d := Digits(m);
    DigitCountOfDigits(d);
    assert DigitGroups(d);
    NegatedNumeral(d);
    ParseMinus("-" + d, d);
    DigitsRoundTrip(m);
  }

  lemma NegatedNumeral(d: string)
    requires d != [] && forall k :: 0 <= k < |d| ==> IsDigit(d[k])
    ensures var s := "-" + d; IntStrip(s) == s && s != [] && s[0] == '-' && s[1..] == d
  {
    var s := "-" + d;
    assert s[1..] == d;
    assert s[|s| - 1] == d[|d| - 1];
    IntStripOfTrimmed(s);
  }

  lemma ParseMinus(s: string, d: string)
    requires IntStrip(s) == s && s != [] && s[0] == '-' && s[1..] == d
    requires DigitGroups(d) && DigitCount(d) <= MaxStrDigits
    ensures ParseInt(s) == Some(-(DigitsValue(d) as int))
  {
  }

  /** A numeral with more than `MaxStrDigits` digits gives None, as the
      ValueError `int()` raises for it is caught. */
  lemma CoerceYearOfLongNumeral(d: string)
    requires DigitGroups(d) && DigitCount(d) > MaxStrDigits
    ensures CoerceYear(Text(d)) == Ok(None)
  {
    IntStripOfTrimmed(d);
    ParseTooLong(d);
  }

  lemma ParseTooLong(d: string)
    requires IntStrip(d) == d && DigitGroups(d) && DigitCount(d) > MaxStrDigits
    ensures ParseInt(d) == None
  {
    assert d[0] != '-' && d[0] != '+';
  }

  /** A year string that is not a number gives None, never an error. */
  lemma CoerceYearOfNonNumber(s: string)
    requires forall k :: 0 <= k < |s| ==> !IsDigit(s[k])
    ensures CoerceYear(Text(s)) == Ok(None)
  {
    var t := IntStrip(s);
    IntStripIsSlice(s);
    assert forall k :: 0 <= k < |t| ==> !IsDigit(t[k]) by {
      forall k | 0 <= k < |t| ensures !IsDigit(t[k]) {
        assert t[k] == s[IntSpaceBefore(s) + k];
      }
    }
    if t != [] {
      var d := if t[0] == '-' || t[0] == '+' then t[1..] else t;
      assert d == [] || !IsDigit(d[0]);
    }
  }
}
