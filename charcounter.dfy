/** The character counter of the editor's status bar: the open document loses its
    heading lines, its white space, its ruby readings and bars and its comments, and
    what remains is measured in UTF-16 code units. */
module CharCounter {
  import opened Text

  // ---------------------------------------------------------------------------
  // Lines that are not counted
  // ---------------------------------------------------------------------------

  // `/^#*\s./`: the leading `#`s, one white-space character, then a character that is
  // not a line terminator. `#*` must take every leading `#`, since `\s` never matches `#`.
  predicate HeadingLike(line: string)
  {
    SpaceThenCharAt(line, LeadingHashes(line))
  }

  /** A white-space character at `h`, then a character that is not a line terminator. */
  predicate SpaceThenCharAt(line: string, h: nat)
  {
    h + 1 < |line| && IsWhitespace(line[h]) && !IsLineTerminator(line[h + 1])
  }

  // What `/^#*\s./` accepts, stated directly.
  ghost predicate HeadingRegex(line: string)
  {
    exists k :: SpaceThenCharAt(line, k) && forall m :: 0 <= m < k ==> line[m] == '#'
  }

  lemma HeadingLikeIsRegex(line: string)
    ensures HeadingLike(line) <==> HeadingRegex(line)
  {
    if HeadingRegex(line) {
      var k :| SpaceThenCharAt(line, k) && forall m :: 0 <= m < k ==> line[m] == '#';
      assert LeadingHashes(line) == k;
    }
  }

  /** The lines that are counted, concatenated with no separator. */
  function KeptText(lines: seq<string>): string
  {
    if lines == [] then "" else LineKept(lines[0]) + KeptText(lines[1..])
  }

  /** What one line contributes: nothing for a heading-like line, else the line. */
  function LineKept(line: string): string
  {
    if HeadingLike(line) then "" else line
  }

  // ---------------------------------------------------------------------------
  // The replace chain
  // ---------------------------------------------------------------------------

  /** A global replace of a one-character class by nothing. */
  function RemoveChars(s: string, drop: char -> bool): (r: string)
    ensures forall c :: c in r <==> c in s && !drop(c)
  {
    if s == [] then [] else (if drop(s[0]) then [] else [s[0]]) + RemoveChars(s[1..], drop)
  }

  /** The ruby-start marks of `/[\|｜]/`. */
  predicate IsRubyBar(c: char) { c == '|' || c == '｜' }

  /** Scanning for the end of a lazy `(.+?)` followed by `close`: the first index `j`
      from which `close` occurs, as long as no line terminator comes first. */
  function FindClose(s: string, j: nat, close: string): (r: Option<nat>)
    requires close != []
    ensures r.Some? ==> j <= r.value && At(s, r.value, close) && NoLineTerminatorIn(s, j, r.value)
    ensures r.Some? ==> forall m :: j <= m < r.value ==> !At(s, m, close)
    ensures r.None? ==> forall m :: j <= m && At(s, m, close) ==> !NoLineTerminatorIn(s, j, m)
    decreases |s| - j
  {
    if j + |close| > |s| then None
    else if At(s, j, close) then Some(j)
    else if IsLineTerminator(s[j]) then None
    else FindClose(s, j + 1, close)
  }

  /** Where the match of `open(.+?)close` that starts at the front of `s` ends its inner
      text, if there is one: the inner text is not empty and holds no line terminator,
      and it stops at the first `close`. */
  function SpanEnd(s: string, open: string, close: string): (r: Option<nat>)
    requires close != []
    ensures r.Some? ==> |open| < r.value && r.value + |close| <= |s|
  {
    if At(s, 0, open) && |open| < |s| && !IsLineTerminator(s[|open|]) then FindClose(s, |open| + 1, close)
    else None
  }

  /** `s.replace(/open(.+?)close/g, '')`: scanning from the left, each match, shortest
      first, is deleted and the scan goes on after it. */
  function StripSpans(s: string, open: string, close: string): string
    requires close != []
    decreases |s|
  {
    if s == [] then []
    else match SpanEnd(s, open, close)
      case Some(j) => StripSpans(s[j + |close|..], open, close)
      case None => [s[0]] + StripSpans(s[1..], open, close)
  }

  /** The string `_compileText` returns. */
  function CompiledText(text: string): string
  {
    var kept := KeptText(Split(text, '\n'));
    var noSpace := RemoveChars(kept, IsWhitespace);
    var noRuby := StripSpans(noSpace, "《", "》");
    var noBar := RemoveChars(noRuby, IsRubyBar);
    StripSpans(noBar, "<!--", "-->")
  }

  /** One iteration of the line loop keeps `compiled + KeptText(lines[i..])` fixed. */
  lemma KeptTextStep(compiled: string, lines: seq<string>, i: nat)
    requires i < |lines| && compiled + KeptText(lines[i..]) == KeptText(lines)
    ensures (compiled + LineKept(lines[i])) + KeptText(lines[i + 1..]) == KeptText(lines)
  {
    KeptTextUnfold(lines, i);
    AppendAssoc(compiled, LineKept(lines[i]), KeptText(lines[i + 1..]));
  }

  lemma KeptTextUnfold(lines: seq<string>, i: nat)
    requires i < |lines|
    ensures KeptText(lines[i..]) == LineKept(lines[i]) + KeptText(lines[i + 1..])
  {
    assert lines[i..][1..] == lines[i + 1..];
  }

  /** `_compileText`. */
  method CompileText(text: string) returns (compiled: string)
    ensures compiled == CompiledText(text)
  {
    compiled := "";
    var lines := Split(text, '\n');
    for i := 0 to |lines|
      invariant compiled + KeptText(lines[i..]) == KeptText(lines)
    {
      var line := lines[i];
      KeptTextStep(compiled, lines, i);
      if !HeadingLike(line) {
        compiled := compiled + line;
      } else {
        assert compiled + "" == compiled;
      }
    }
    assert compiled + "" == compiled;
    compiled := RemoveChars(compiled, IsWhitespace);
    compiled := StripSpans(compiled, "《", "》");
    compiled := RemoveChars(compiled, IsRubyBar);
    compiled := StripSpans(compiled, "<!--", "-->");
  }

  /** `_countText`: the length in UTF-16 code units, zero for the empty string. */
  function CountText(text: string): (n: nat)
    ensures n == 0 <==> text == ""
    ensures |text| <= n <= 2 * |text|
    ensures (forall k :: 0 <= k < |text| ==> text[k] as int <= 0xFFFF) ==> n == |text|
  {
    if text != "" then Utf16Length(text) else 0
  }

  // ---------------------------------------------------------------------------
  // Every step only deletes
  // ---------------------------------------------------------------------------

  lemma {:induction false} KeptTextDeletesOnly(lines: seq<string>, sep: char)
    ensures IsSubseq(KeptText(lines), Join(lines, sep))
    decreases |lines|
  {
    if lines == [] {
      SubseqEmpty<char>([]);
    } else {
      var rest := KeptText(lines[1..]);
      KeptTextDeletesOnly(lines[1..], sep);
      LineKeptDeletesOnly(lines[0]);
      if |lines| == 1 {
        KeptTextSingle(lines[0]);
        assert lines == [lines[0]];
      } else {
        SubseqUnderPrefix(rest, [sep], Join(lines[1..], sep));
        SubseqConcat(LineKept(lines[0]), lines[0], rest, [sep] + Join(lines[1..], sep));
        AppendAssoc(lines[0], [sep], Join(lines[1..], sep));
        assert KeptText(lines) == LineKept(lines[0]) + rest;
      }
    }
  }

  lemma LineKeptDeletesOnly(line: string)
    ensures IsSubseq(LineKept(line), line)
  {
    if HeadingLike(line) {
      SubseqEmpty(line);
    } else {
      SubseqRefl(line);
    }
  }

  lemma KeptTextSingle(line: string)
    ensures KeptText([line]) == LineKept(line)
  {
    assert [line][1..] == [];
    assert LineKept(line) + "" == LineKept(line);
  }

  lemma {:induction false} RemoveCharsDeletesOnly(s: string, drop: char -> bool)
    ensures IsSubseq(RemoveChars(s, drop), s)
    decreases |s|
  {
    if s == [] {
      SubseqEmpty<char>([]);
    } else {
      RemoveCharsDeletesOnly(s[1..], drop);
      var r := RemoveChars(s[1..], drop);
      if drop(s[0]) {
        assert RemoveChars(s, drop) == [] + r == r;
        SubseqUnderPrefix(r, [s[0]], s[1..]);
      } else {
        SubseqCons(s[0], r, s[1..]);
      }
      assert [s[0]] + s[1..] == s;
    }
  }

  lemma {:induction false} StripSpansDeletesOnly(s: string, open: string, close: string)
    requires close != []
    ensures IsSubseq(StripSpans(s, open, close), s)
    decreases |s|
  {
    if s == [] {
      SubseqEmpty<char>([]);
    } else {
      match SpanEnd(s, open, close)
      case Some(j) =>
        var cut := j + |close|;
        StripSpansDeletesOnly(s[cut..], open, close);
        SubseqUnderPrefix(StripSpans(s[cut..], open, close), s[..cut], s[cut..]);
        assert s[..cut] + s[cut..] == s;
      case None =>
        StripSpansDeletesOnly(s[1..], open, close);
        SubseqCons(s[0], StripSpans(s[1..], open, close), s[1..]);
        assert [s[0]] + s[1..] == s;
    }
  }

  /** The counted text is what is left of the document after deleting characters:
      nothing is added, nothing is reordered. */
  lemma CompiledTextDeletesOnly(text: string)
    ensures IsSubseq(CompiledText(text), text)
  {
    var lines := Split(text, '\n');
    var kept := KeptText(lines);
    KeptTextDeletesOnly(lines, '\n');
    JoinSplit(text, '\n');
    var noSpace := RemoveChars(kept, IsWhitespace);
    RemoveCharsDeletesOnly(kept, IsWhitespace);
    var noRuby := StripSpans(noSpace, "《", "》");
    StripSpansDeletesOnly(noSpace, "《", "》");
    var noBar := RemoveChars(noRuby, IsRubyBar);
    RemoveCharsDeletesOnly(noRuby, IsRubyBar);
    StripSpansDeletesOnly(noBar, "<!--", "-->");
    SubseqTrans(noSpace, kept, text);
    SubseqTrans(noRuby, noSpace, text);
    SubseqTrans(noBar, noRuby, text);
    SubseqTrans(CompiledText(text), noBar, text);
  }

  /** The counted text holds no white space (line terminators included) and no ruby bar. */
  lemma CompiledTextHasNoSpaceOrBar(text: string)
    ensures forall c :: c in CompiledText(text) ==> !IsWhitespace(c) && !IsRubyBar(c)
  {
    var kept := KeptText(Split(text, '\n'));
    var noSpace := RemoveChars(kept, IsWhitespace);
    var noRuby := StripSpans(noSpace, "《", "》");
    var noBar := RemoveChars(noRuby, IsRubyBar);
    var r := CompiledText(text);
    StripSpansDeletesOnly(noSpace, "《", "》");
    StripSpansDeletesOnly(noBar, "<!--", "-->");
    forall c | c in r ensures !IsWhitespace(c) && !IsRubyBar(c) {
      SubseqElements(r, noBar, c);
      SubseqElements(noRuby, noSpace, c);
    }
  }

  // ---------------------------------------------------------------------------
  // Which spans are removed
  // ---------------------------------------------------------------------------

  lemma {:induction false} FindCloseSkipsInner(s: string, j: nat, e: nat, close: string)
    requires close != [] && j <= e && At(s, e, close) && NoLineTerminatorIn(s, j, e)
    requires forall m :: j <= m < e ==> !At(s, m, close)
    ensures FindClose(s, j, close) == Some(e)
    decreases e - j
  {
    if j < e {
      FindCloseSkipsInner(s, j + 1, e, close);
    }
  }

  /** The closing mark occurs in `inner + close` nowhere from index 1 to before its own
      place: `(.+?)` takes at least one character, so the shortest match of a span with
      this content ends at the span's own closing mark. */
  predicate NoEarlyClose(inner: string, close: string)
  {
    forall m :: 1 <= m < |inner| ==> !At(inner + close, m, close)
  }

  /** The first complete span is deleted with its content, as long as nothing before it
      starts a span, its content is one line, and no closing mark occurs early in it. */
  lemma {:induction false} FirstSpanRemoved(pre: string, open: string, inner: string, close: string, post: string)
    requires open != [] && close != [] && inner != []
    requires open[0] !in pre && NoEarlyClose(inner, close)
    requires forall m :: 0 <= m < |inner| ==> !IsLineTerminator(inner[m])
    ensures StripSpans(pre + open + inner + close + post, open, close) == pre + StripSpans(post, open, close)
    decreases |pre|
  {
    if pre != [] {
      var rest := pre[1..] + open + inner + close + post;
      SpanRegroup(pre, open, inner, close, post);
      assert pre[0] in pre;
      StripSpansFrontChar(pre[0], rest, open, close);
      assert forall c :: c in pre[1..] ==> c in pre;
      FirstSpanRemoved(pre[1..], open, inner, close, post);
      FrontRegroup(pre, StripSpans(post, open, close));
    } else {
      assert pre + open + inner + close + post == open + inner + close + post;
      SpanAtFrontRemoved(open, inner, close, post);
    }
  }

  /** A character that cannot start the opening mark is kept. */
  lemma StripSpansFrontChar(c: char, t: string, open: string, close: string)
    requires open != [] && close != [] && c != open[0]
    ensures StripSpans([c] + t, open, close) == [c] + StripSpans(t, open, close)
  {
    var s := [c] + t;
    if |open| <= |s| {
      assert s[0..|open|][0] == c;
    }
    assert s[1..] == t;
  }

  /** A span at the front is deleted with its marks. */
  lemma SpanAtFrontRemoved(open: string, inner: string, close: string, post: string)
    requires open != [] && close != [] && inner != [] && NoEarlyClose(inner, close)
    requires forall m :: 0 <= m < |inner| ==> !IsLineTerminator(inner[m])
    ensures StripSpans(open + inner + close + post, open, close) == StripSpans(post, open, close)
  {
    var s := open + inner + close + post;
    var e := |open| + |inner|;
    assert s[0..|open|] == open;
    assert s[|open|] == inner[0];
    assert s[e..e + |close|] == close;
    forall m | |open| + 1 <= m < e ensures !At(s, m, close) && !IsLineTerminator(s[m]) {
      assert s[m] == inner[m - |open|];
      WindowInSpan(open, inner, close, post, m - |open|);
    }
    FindCloseSkipsInner(s, |open| + 1, e, close);
    assert s[e + |close|..] == post;
  }


  /** Inside a span at index `|open|`, the closing mark occurs at `|open| + i` exactly
      when it occurs at `i` in `inner + close`. */
  lemma WindowInSpan(open: string, inner: string, close: string, post: string, i: nat)
    requires i < |inner|
    ensures At(open + inner + close + post, |open| + i, close) <==> At(inner + close, i, close)
  {
    var s := open + inner + close + post;
    var w := inner + close;
    var a, b := s[|open| + i..|open| + i + |close|], w[i..i + |close|];
    forall k | 0 <= k < |close| ensures a[k] == b[k] {
      assert a[k] == s[|open| + i + k] && b[k] == w[i + k];
    }
    assert a == b;
  }

  /** A ruby reading `《...》` is deleted with its text; its first character may itself
      be `》`, since `(.+?)` takes at least one character. */
  lemma RubyReadingRemoved(pre: string, reading: string, post: string)
    requires '《' !in pre && reading != []
    requires forall m :: 1 <= m < |reading| ==> reading[m] != '》'
    requires forall m :: 0 <= m < |reading| ==> !IsLineTerminator(reading[m])
    ensures StripSpans(pre + "《" + reading + "》" + post, "《", "》") == pre + StripSpans(post, "《", "》")
  {
    var w := reading + "》";
    forall m | 1 <= m < |reading| ensures !At(w, m, "》") {
      assert w[m..m + 1][0] == w[m] == reading[m];
    }
    FirstSpanRemoved(pre, "《", reading, "》", post);
  }

  /** A comment `<!--...-->` is deleted with its text, whatever hyphens its body holds,
      as long as `-->` does not occur early in it. */
  lemma CommentRemoved(pre: string, body: string, post: string)
    requires '<' !in pre && body != []
    requires forall m :: 1 <= m < |body| ==> !At(body + "-->", m, "-->")
    requires forall m :: 0 <= m < |body| ==> !IsLineTerminator(body[m])
    ensures StripSpans(pre + "<!--" + body + "-->" + post, "<!--", "-->") == pre + StripSpans(post, "<!--", "-->")
  {
    FirstSpanRemoved(pre, "<!--", body, "-->", post);
  }

  /** No two hyphens in a row. */
  predicate NoDoubleHyphen(body: string)
  {
    forall m :: 0 <= m < |body| - 1 ==> !(body[m] == '-' && body[m + 1] == '-')
  }

  /** A body without `--`, such as `2024-01-01` or `TODO-fix`, never closes early. */
  lemma NoDoubleHyphenNoEarlyClose(body: string)
    requires NoDoubleHyphen(body)
    ensures NoEarlyClose(body, "-->")
  {
    var w := body + "-->";
    forall m | 1 <= m < |body| ensures !At(w, m, "-->") {
      if m + 3 <= |w| {
        assert w[m..m + 3][0] == w[m] && w[m..m + 3][1] == w[m + 1] && w[m..m + 3][2] == w[m + 2];
        if m + 1 < |body| {
          assert w[m] == body[m] && w[m + 1] == body[m + 1];
        } else {
          assert w[m + 2] == '-';
        }
      }
    }
  }

  /** A one-line comment whose body has no `--` is deleted with its text, hyphens and all. */
  lemma HyphenatedCommentRemoved(pre: string, body: string, post: string)
    requires '<' !in pre && body != [] && NoDoubleHyphen(body)
    requires forall m :: 0 <= m < |body| ==> !IsLineTerminator(body[m])
    ensures StripSpans(pre + "<!--" + body + "-->" + post, "<!--", "-->") == pre + StripSpans(post, "<!--", "-->")
  {
    NoDoubleHyphenNoEarlyClose(body);
    CommentRemoved(pre, body, post);
  }

  /** A body without hyphens has no `--`. */
  lemma NoHyphenNoDoubleHyphen(body: string)
    requires '-' !in body
    ensures NoDoubleHyphen(body)
  {
    forall m | 0 <= m < |body| - 1 ensures body[m] != '-' {
      assert body[m] in body;
    }
  }

  /** No `《` is followed, one or more characters later, by a `》`. */
  predicate NoRubySpan(t: string)
  {
    forall a, b :: 0 <= a && a + 2 <= b < |t| && t[a] == '《' ==> t[b] != '》'
  }

  lemma {:induction false} SubseqDropFirst<T>(a: seq<T>, b: seq<T>)
    requires IsSubseq(a, b) && a != []
    ensures IsSubseq(a[1..], b[1..])
    decreases |b|
  {
    if !(a[0] == b[0] && IsSubseq(a[1..], b[1..])) {
      SubseqDropFirst(a, b[1..]);
      SubseqUnderPrefix(a[1..], [b[1]], b[2..]);
      assert [b[1]] + b[2..] == b[1..];
    }
  }

  /** Deleting characters never creates a ruby span. */
  lemma {:induction false} NoRubySpanUnderSubseq(a: string, b: string)
    requires IsSubseq(a, b) && NoRubySpan(b)
    ensures NoRubySpan(a)
    decreases |b|
  {
    if b != [] && a != [] {
      assert NoRubySpan(b[1..]) by {
        forall x, y | 0 <= x && x + 2 <= y < |b[1..]| && b[1..][x] == '《' ensures b[1..][y] != '》' {
          assert b[x + 1] == '《' && b[y + 1] == b[1..][y];
        }
      }
      if a[0] == b[0] && IsSubseq(a[1..], b[1..]) {
        NoRubySpanUnderSubseq(a[1..], b[1..]);
        forall x, y | 0 <= x && x + 2 <= y < |a| && a[x] == '《' ensures a[y] != '》' {
          if x > 0 {
            assert a[1..][x - 1] == '《' && a[1..][y - 1] == a[y];
          } else {
            SubseqDropFirst(a[1..], b[1..]);
            assert a[y] in a[1..][1..];
            SubseqElements(a[1..][1..], b[1..][1..], a[y]);
            var n :| 0 <= n < |b[1..][1..]| && b[1..][1..][n] == a[y];
            assert b[n + 2] == a[y];
          }
        }
      } else {
        NoRubySpanUnderSubseq(a, b[1..]);
      }
    }
  }

  /** On one-line text the ruby step leaves no `《` with a `》` after it, apart from
      an empty `《》`. */
  lemma {:induction false} RubyStripLeavesNoSpan(s: string)
    requires forall m :: 0 <= m < |s| ==> !IsLineTerminator(s[m])
    ensures NoRubySpan(StripSpans(s, "《", "》"))
    decreases |s|
  {
    if s != [] {
      match SpanEnd(s, "《", "》")
      case Some(j) =>
        RubyStripLeavesNoSpan(s[j + 1..]);
      case None =>
        RubyStripLeavesNoSpan(s[1..]);
        var rest := StripSpans(s[1..], "《", "》");
        var r := [s[0]] + rest;
        assert StripSpans(s, "《", "》") == r;
        forall x, y | 0 <= x && x + 2 <= y < |r| && r[x] == '《' ensures r[y] != '》' {
          if x > 0 {
            assert rest[x - 1] == '《' && rest[y - 1] == r[y];
          } else {
            // No match at the front: no `》` at index 2 or later.
            StripSpansDeletesOnly(s[1..], "《", "》");
            SubseqLength(rest, s[1..]);
            NoLateClose(s);
            SubseqDropFirst(rest, s[1..]);
            assert r[y] == rest[1..][y - 2];
            SubseqElements(rest[1..], s[1..][1..], r[y]);
          }
        }
    }
  }

  /** A `《` at the front of one-line text that starts no match has no `》` at index 2
      or later. */
  lemma NoLateClose(s: string)
    requires forall m :: 0 <= m < |s| ==> !IsLineTerminator(s[m])
    requires |s| >= 2 && s[0] == '《' && SpanEnd(s, "《", "》") == None
    ensures '》' !in s[2..]
  {
    assert s[0..1] == "《";
    assert FindClose(s, 2, "》") == None;
    forall m | 2 <= m < |s| ensures s[m] != '》' {
      assert NoLineTerminatorIn(s, 2, m);
      assert s[m..m + 1] == [s[m]];
    }
  }

  /** No ruby reading survives in the counted text. */
  lemma CompiledTextHasNoRubySpan(text: string)
    ensures NoRubySpan(CompiledText(text))
  {
    var kept := KeptText(Split(text, '\n'));
    var noSpace := RemoveChars(kept, IsWhitespace);
    var noRuby := StripSpans(noSpace, "《", "》");
    var noBar := RemoveChars(noRuby, IsRubyBar);
    forall m | 0 <= m < |noSpace| ensures !IsLineTerminator(noSpace[m]) {
      assert noSpace[m] in noSpace;
      if IsLineTerminator(noSpace[m]) { LineTerminatorIsWhitespace(noSpace[m]); }
    }
    RubyStripLeavesNoSpan(noSpace);
    RemoveCharsDeletesOnly(noRuby, IsRubyBar);
    StripSpansDeletesOnly(noBar, "<!--", "-->");
    SubseqTrans(CompiledText(text), noBar, noRuby);
    NoRubySpanUnderSubseq(CompiledText(text), noRuby);
  }

  // ---------------------------------------------------------------------------
  // The count
  // ---------------------------------------------------------------------------

  lemma {:induction false} Utf16LengthUnderSubseq(a: string, b: string)
    requires IsSubseq(a, b)
    ensures Utf16Length(a) <= Utf16Length(b)
    decreases |b|
  {
    if b != [] {
      if a != [] && a[0] == b[0] && IsSubseq(a[1..], b[1..]) {
        Utf16LengthUnderSubseq(a[1..], b[1..]);
      } else {
        Utf16LengthUnderSubseq(a, b[1..]);
      }
    }
  }

  /** The count never exceeds the document's own length. */
  lemma CountAtMostDocumentLength(text: string)
    ensures CountText(CompiledText(text)) <= Utf16Length(text)
  {
    CompiledTextDeletesOnly(text);
    Utf16LengthUnderSubseq(CompiledText(text), text);
  }

  // ---------------------------------------------------------------------------
  // Worked examples
  // ---------------------------------------------------------------------------

  /** A heading is not counted, and neither is a line indented with a full-width space. */
  lemma HeadingAndIndentedLinesNotCounted()
    ensures HeadingLike("# 第一話")
    ensures HeadingLike("　吾輩は猫である。")
    ensures !HeadingLike("吾輩は猫である。")
  {
    var h := "# 第一話";
    assert LeadingHashes(h[1..]) == 0;
    assert LeadingHashes(h) == 1;
    var p := "吾輩は猫である。";
    assert LeadingHashes(p) == 0;
  }

  /** A character that starts no match is kept and the scan moves on. */
  lemma StripSpansKeepsFront(s: string, open: string, close: string)
    requires close != [] && s != [] && !At(s, 0, open)
    ensures StripSpans(s, open, close) == [s[0]] + StripSpans(s[1..], open, close)
  {
  }

  /** The comment step is one pass, so it is not idempotent: deleting an inner comment
      can join a `<!` before it and the `--...-->` after it into a new comment, which
      a second pass would delete. */
  lemma CommentStripIsOnePass(x: string, y: string)
    requires x != [] && y != [] && '-' !in x && '<' !in y && '-' !in y
    requires forall m :: 0 <= m < |x| ==> !IsLineTerminator(x[m])
    requires forall m :: 0 <= m < |y| ==> !IsLineTerminator(y[m])
    ensures StripSpans("<!" + ("<!--" + x + "-->" + ("--" + y + "-->")), "<!--", "-->") == "<!" + ("--" + y + "-->")
    ensures StripSpans("<!" + ("--" + y + "-->"), "<!--", "-->") == ""
  {
    FirstPassLeavesComment(x, y);
    SecondPassRemoves(y);
  }

  lemma FirstPassLeavesComment(x: string, y: string)
    requires x != [] && '-' !in x && '<' !in y
    requires forall m :: 0 <= m < |x| ==> !IsLineTerminator(x[m])
    ensures StripSpans("<!" + ("<!--" + x + "-->" + ("--" + y + "-->")), "<!--", "-->") == "<!" + ("--" + y + "-->")
  {
    NoOpenAfterDashes(y);
    InnerCommentRemoved(x, "--" + y + "-->");
  }

  lemma InnerCommentRemoved(x: string, t: string)
    requires x != [] && '-' !in x && '<' !in t
    requires forall m :: 0 <= m < |x| ==> !IsLineTerminator(x[m])
    ensures StripSpans("<!" + ("<!--" + x + "-->" + t), "<!--", "-->") == "<!" + t
  {
    var s2 := "<!--" + x + "-->" + t;
    CommentThenPlainText(x, t);
    StripsTwoFrontChars(s2, "<!--", "-->");
  }

  /** A comment followed by text with no `<` leaves only that text. */
  lemma CommentThenPlainText(x: string, t: string)
    requires x != [] && '-' !in x && '<' !in t
    requires forall m :: 0 <= m < |x| ==> !IsLineTerminator(x[m])
    ensures StripSpans("<!--" + x + "-->" + t, "<!--", "-->") == t
  {
    RegroupAfterComment(x, t);
    NoHyphenNoDoubleHyphen(x);
    HyphenatedCommentRemoved("", x, t);
    StripSpansNoOpen(t, "<!--", "-->");
  }

  lemma RegroupAfterComment(x: string, t: string)
    ensures "" + "<!--" + x + "-->" + t == "<!--" + x + "-->" + t
  {
  }

  lemma NoOpenAfterDashes(y: string)
    requires '<' !in y
    ensures '<' !in "--" + y + "-->"
  {
  }

  /** The first character of `pre`, then the rest of `pre + t`. */
  lemma FrontRegroup(pre: string, t: string)
    requires pre != []
    ensures pre + t == [pre[0]] + (pre[1..] + t)
  {
    AppendAssoc([pre[0]], pre[1..], t);
    assert [pre[0]] + pre[1..] == pre;
  }

  lemma SpanRegroup(pre: string, open: string, inner: string, close: string, post: string)
    requires pre != []
    ensures pre + open + inner + close + post == [pre[0]] + (pre[1..] + open + inner + close + post)
  {
    assert pre + open + inner + close + post == [pre[0]] + (pre[1..] + open + inner + close + post);
  }

  /** `<!` before text that starts no match is kept as it is. */
  lemma StripsTwoFrontChars(s2: string, open: string, close: string)
    requires open == "<!--" && close == "-->" && s2 != [] && s2[0] == '<'
    ensures StripSpans("<!" + s2, open, close) == "<!" + StripSpans(s2, open, close)
  {
    var s := "<!" + s2;
    assert s[1..] == "!" + s2 && s[1..][1..] == s2;
    if |s| >= 4 {
      assert s[0..4][2] == '<';
    }
    StripSpansKeepsFront(s, open, close);
    if |s[1..]| >= 4 {
      assert s[1..][0..4][0] == '!';
    }
    StripSpansKeepsFront(s[1..], open, close);
    AppendAssoc([s[0]], [s[1]], StripSpans(s2, open, close));
    assert [s[0]] + [s[1]] == "<!";
  }

  lemma SecondPassRemoves(y: string)
    requires y != [] && '-' !in y
    requires forall m :: 0 <= m < |y| ==> !IsLineTerminator(y[m])
    ensures StripSpans("<!" + ("--" + y + "-->"), "<!--", "-->") == ""
  {
    RegroupComment(y);
    NoHyphenNoDoubleHyphen(y);
    HyphenatedCommentRemoved("", y, "");
  }

  lemma RegroupComment(y: string)
    ensures "" + "<!--" + y + "-->" + "" == "<!" + ("--" + y + "-->")
  {
    assert "<!--" == "<!" + "--";
  }

  /** Text without the opening mark's first character is left as it is. */
  lemma {:induction false} StripSpansNoOpen(s: string, open: string, close: string)
    requires open != [] && close != [] && open[0] !in s
    ensures StripSpans(s, open, close) == s
    decreases |s|
  {
    if s != [] {
      assert s[0] in s;
      assert !At(s, 0, open) by {
        if |open| <= |s| { assert s[0..|open|][0] == s[0]; }
      }
      assert forall c :: c in s[1..] ==> c in s;
      StripSpansNoOpen(s[1..], open, close);
      assert [s[0]] + s[1..] == s;
    }
  }
}
