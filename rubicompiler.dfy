/** Ruby insertion: entries read from the project's ruby files name a term and the
    text that replaces it, and each kept entry rewrites the first occurrence of its
    term in the compiled document, one entry after another. */
module RubiCompiler {
  import opened Text

  /** One entry of a ruby file as the YAML parser returns it: every field may be
      missing. */
  datatype RubiInfo = RubiInfo(rubi: Option<string>, replace: Option<string>,
                               always: Option<bool>, exclusion: Option<string>)

  /** JavaScript truthiness of a string field: present and not empty. */
  predicate Truthy(field: Option<string>)
  {
    field.Some? && field.value != ""
  }

  /** An entry with both a term and a replacement. */
  predicate IsRule(info: RubiInfo)
  {
    Truthy(info.rubi) && Truthy(info.replace)
  }

  /** The record pushed for a kept entry: its term and replacement only. */
  function Trimmed(info: RubiInfo): RubiInfo
  {
    RubiInfo(info.rubi, info.replace, None, None)
  }

  // ---------------------------------------------------------------------------
  // Collecting the rules
  // ---------------------------------------------------------------------------

  /** The records kept from one file's entries, in entry order. */
  function KeptEntries(entries: seq<RubiInfo>): seq<RubiInfo>
  {
    if entries == [] then []
    else
      var last := Last(entries);
      KeptEntries(entries[..|entries| - 1]) + (if IsRule(last) then [Trimmed(last)] else [])
  }

  /** The records kept from every file, in file order. */
  function KeptRubiData(files: seq<seq<RubiInfo>>): seq<RubiInfo>
  {
    if files == [] then [] else KeptRubiData(files[..|files| - 1]) + KeptEntries(Last(files))
  }

  /** All entries of all files, in file order then entry order. */
  function Flatten<T>(files: seq<seq<T>>): seq<T>
  {
    if files == [] then [] else Flatten(files[..|files| - 1]) + Last(files)
  }

  /** `_getRubiData` applied to the parsed entries of each ruby file. */
  method GetRubiData(files: seq<seq<RubiInfo>>) returns (rubiData: seq<RubiInfo>)
    ensures rubiData == KeptRubiData(files)
  {
    rubiData := [];
    var i := 0;
    while i < |files|
      invariant 0 <= i <= |files|
      invariant rubiData == KeptRubiData(files[..i])
    {
      var data := files[i];
      var j := 0;
      while j < |data|
        invariant 0 <= j <= |data|
        invariant rubiData == KeptRubiData(files[..i]) + KeptEntries(data[..j])
      {
        var rubiObj := data[j];
        if Truthy(rubiObj.rubi) && Truthy(rubiObj.replace) {
          rubiData := rubiData + [RubiInfo(rubiObj.rubi, rubiObj.replace, None, None)];
        }
        assert data[..j + 1][..j] == data[..j];
        j := j + 1;
      }
      assert data[..j] == data;
      assert files[..i + 1][..i] == files[..i];
      i := i + 1;
    }
    assert files[..i] == files;
  }

  lemma {:induction false} KeptEntriesAppend(a: seq<RubiInfo>, b: seq<RubiInfo>)
    ensures KeptEntries(a + b) == KeptEntries(a) + KeptEntries(b)
    decreases |b|
  {
    if b != [] {
      var b0 := b[..|b| - 1];
      assert (a + b)[..|a + b| - 1] == a + b0;
      assert Last(a + b) == Last(b);
      KeptEntriesAppend(a, b0);
    } else {
      assert a + b == a;
    }
  }

  /** Reading file by file keeps the same records as one filter over all entries. */
  lemma {:induction false} KeptRubiDataIsFilter(files: seq<seq<RubiInfo>>)
    ensures KeptRubiData(files) == KeptEntries(Flatten(files))
    decreases |files|
  {
    if files != [] {
      KeptRubiDataIsFilter(files[..|files| - 1]);
      KeptEntriesAppend(Flatten(files[..|files| - 1]), Last(files));
    }
  }

  /** A record is kept exactly when some entry has both a term and a replacement, and
      the record is that entry without its other fields. */
  lemma {:induction false} KeptEntriesMembers(entries: seq<RubiInfo>, r: RubiInfo)
    ensures r in KeptEntries(entries) <==>
      exists k :: 0 <= k < |entries| && IsRule(entries[k]) && r == Trimmed(entries[k])
    decreases |entries|
  {
    if entries != [] {
      var init := entries[..|entries| - 1];
      KeptEntriesMembers(init, r);
      if r in KeptEntries(entries) && r !in KeptEntries(init) {
        assert IsRule(Last(entries)) && r == Trimmed(entries[|entries| - 1]);
      }
      if exists k :: 0 <= k < |entries| && IsRule(entries[k]) && r == Trimmed(entries[k]) {
        var k :| 0 <= k < |entries| && IsRule(entries[k]) && r == Trimmed(entries[k]);
        if k < |init| {
          assert init[k] == entries[k];
        }
      }
    }
  }

  /** Every kept record is a rule, and filtering it again changes nothing. */
  lemma {:induction false} KeptEntriesIdempotent(entries: seq<RubiInfo>)
    ensures forall r :: r in KeptEntries(entries) ==> IsRule(r) && r.always.None? && r.exclusion.None?
    ensures KeptEntries(KeptEntries(entries)) == KeptEntries(entries)
    decreases |entries|
  {
    if entries != [] {
      var init := entries[..|entries| - 1];
      KeptEntriesIdempotent(init);
      var tail := if IsRule(Last(entries)) then [Trimmed(Last(entries))] else [];
      KeptEntriesAppend(KeptEntries(init), tail);
      if tail != [] {
        assert tail[..0] == [];
      }
    }
  }

  // ---------------------------------------------------------------------------
  // Replacing the first occurrence
  // ---------------------------------------------------------------------------

  /** `indexOf` from `i`: the leftmost index at or after `i` where `t` occurs. */
  function IndexFrom(s: string, t: string, i: nat): (r: Option<nat>)
    ensures r.Some? ==> i <= r.value && At(s, r.value, t)
    ensures r.Some? ==> forall k :: i <= k < r.value ==> !At(s, k, t)
    ensures r.None? ==> forall k :: i <= k ==> !At(s, k, t)
    decreases |s| - i
  {
    if i + |t| > |s| then None
    else if At(s, i, t) then Some(i)
    else IndexFrom(s, t, i + 1)
  }

  /** The replacement text of a string-pattern `replace`: `$$` gives `$`, `$&` the
      matched text, `` $` `` the text before the match and `$'` the text after it; with
      no capture groups every other `$` stands for itself. */
  function Substitution(repl: string, matched: string, before: string, after: string): string
    decreases |repl|
  {
    if repl == [] then []
    else if repl[0] == '$' && |repl| >= 2 && repl[1] == '$' then "$" + Substitution(repl[2..], matched, before, after)
    else if repl[0] == '$' && |repl| >= 2 && repl[1] == '&' then matched + Substitution(repl[2..], matched, before, after)
    else if repl[0] == '$' && |repl| >= 2 && repl[1] == '`' then before + Substitution(repl[2..], matched, before, after)
    else if repl[0] == '$' && |repl| >= 2 && repl[1] == '\'' then after + Substitution(repl[2..], matched, before, after)
    else [repl[0]] + Substitution(repl[1..], matched, before, after)
  }

  /** `s.replace(t, repl)` with a string `t`: only the leftmost occurrence is replaced. */
  function ReplaceFirst(s: string, t: string, repl: string): string
  {
    match IndexFrom(s, t, 0)
    case None => s
    case Some(k) => s[..k] + Substitution(repl, t, s[..k], s[k + |t|..]) + s[k + |t|..]
  }

  /** A replacement without `$` is inserted as it is. */
  lemma {:induction false} SubstitutionLiteral(repl: string, matched: string, before: string, after: string)
    requires '$' !in repl
    ensures Substitution(repl, matched, before, after) == repl
    decreases |repl|
  {
    if repl != [] {
      assert repl[0] != '$' by { assert repl[0] in repl; }
      assert forall c :: c in repl[1..] ==> c in repl;
      SubstitutionLiteral(repl[1..], matched, before, after);
    }
  }

  /** A term that does not occur leaves the text as it is. */
  lemma ReplaceFirstAbsent(s: string, t: string, repl: string)
    requires forall k :: !At(s, k, t)
    ensures ReplaceFirst(s, t, repl) == s
  {
  }

  /** Where the term first occurs after `pre`, the text before it and the text after it
      are kept verbatim and only the occurrence is replaced. */
  lemma ReplaceFirstOccurrence(pre: string, t: string, post: string, repl: string)
    requires forall k :: 0 <= k < |pre| ==> !At(pre + t + post, k, t)
    ensures ReplaceFirst(pre + t + post, t, repl) == pre + Substitution(repl, t, pre, post) + post
  {
    var s := pre + t + post;
    assert s[|pre|..|pre| + |t|] == t;
    assert At(s, |pre|, t);
    var r := IndexFrom(s, t, 0);
    assert r.Some?;
    assert r.value == |pre|;
    assert s[..|pre|] == pre;
    assert s[|pre| + |t|..] == post;
  }

  /** Replacing a `$`-free term by itself changes nothing, and so does `$&`. */
  lemma ReplaceFirstWithItself(s: string, t: string)
    requires '$' !in t
    ensures ReplaceFirst(s, t, t) == s
    ensures ReplaceFirst(s, t, "$&") == s
  {
    match IndexFrom(s, t, 0)
    case None =>
    case Some(k) =>
      SubstitutionLiteral(t, t, s[..k], s[k + |t|..]);
      assert Substitution("$&", t, s[..k], s[k + |t|..]) == t + Substitution("", t, s[..k], s[k + |t|..]);
      assert s == s[..k] + s[k..k + |t|] + s[k + |t|..];
  }

  /** With a `$`-free replacement the length changes by the difference of the two
      lengths when the term occurs. */
  lemma ReplaceFirstLength(s: string, t: string, repl: string)
    requires '$' !in repl
    ensures |ReplaceFirst(s, t, repl)| == if IndexFrom(s, t, 0).Some? then |s| - |t| + |repl| else |s|
  {
    match IndexFrom(s, t, 0)
    case None =>
    case Some(k) =>
      SubstitutionLiteral(repl, t, s[..k], s[k + |t|..]);
  }

  // ---------------------------------------------------------------------------
  // Applying the rules
  // ---------------------------------------------------------------------------

  /** One entry applied to the document: entries missing a term or a replacement are
      skipped. */
  function ApplyRule(doc: string, info: RubiInfo): string
  {
    if IsRule(info) then ReplaceFirst(doc, info.rubi.value, info.replace.value) else doc
  }

  /** The entries applied in list order, each to the previous one's output. */
  function ApplyRubi(doc: string, rules: seq<RubiInfo>): string
  {
    if rules == [] then doc else ApplyRule(ApplyRubi(doc, rules[..|rules| - 1]), Last(rules))
  }

  /** `_compileDocumentWithRubi`. */
  method CompileDocumentWithRubi(documents: string, rubiData: seq<RubiInfo>) returns (compiled: string)
    ensures compiled == ApplyRubi(documents, rubiData)
  {
    compiled := documents;
    var i := 0;
    while i < |rubiData|
      invariant 0 <= i <= |rubiData|
      invariant compiled == ApplyRubi(documents, rubiData[..i])
    {
      var rubi := rubiData[i];
      if Truthy(rubi.rubi) && Truthy(rubi.replace) {
        compiled := ReplaceFirst(compiled, rubi.rubi.value, rubi.replace.value);
      }
      assert rubiData[..i + 1][..i] == rubiData[..i];
      i := i + 1;
    }
    assert rubiData[..i] == rubiData;
  }

  /** `addRubiToDocuments` once the ruby files are found and parsed: the rules are
      collected and applied. Filtering before applying changes nothing, so the result is
      every entry of every file applied in order. */
  method AddRubiToDocuments(documents: string, files: seq<seq<RubiInfo>>) returns (formatted: string)
    ensures formatted == ApplyRubi(documents, Flatten(files))
  {
    var rubiData := GetRubiData(files);
    formatted := CompileDocumentWithRubi(documents, rubiData);
    KeptRubiDataIsFilter(files);
    SkippedEntriesIrrelevant(documents, Flatten(files));
  }

  /** Applying `a` then `b` is applying `a + b`: the rules act in list order. */
  lemma {:induction false} ApplyRubiAppend(doc: string, a: seq<RubiInfo>, b: seq<RubiInfo>)
    ensures ApplyRubi(doc, a + b) == ApplyRubi(ApplyRubi(doc, a), b)
    decreases |b|
  {
    if b != [] {
      var b0 := b[..|b| - 1];
      assert (a + b)[..|a + b| - 1] == a + b0;
      assert Last(a + b) == Last(b);
      ApplyRubiAppend(doc, a, b0);
    } else {
      assert a + b == a;
    }
  }

  /** Entries without both a term and a replacement, the empty list among them, leave
      the document as it is. */
  lemma {:induction false} NoRulesNoChange(doc: string, rules: seq<RubiInfo>)
    requires forall k :: 0 <= k < |rules| ==> !IsRule(rules[k])
    ensures ApplyRubi(doc, rules) == doc
    decreases |rules|
  {
    if rules != [] {
      NoRulesNoChange(doc, rules[..|rules| - 1]);
    }
  }

  /** Compiling with the kept records is compiling with all the entries: the skipped
      ones would have been skipped again, and the dropped fields are never read. */
  lemma {:induction false} SkippedEntriesIrrelevant(doc: string, entries: seq<RubiInfo>)
    ensures ApplyRubi(doc, KeptEntries(entries)) == ApplyRubi(doc, entries)
    decreases |entries|
  {
    if entries != [] {
      var init := entries[..|entries| - 1];
      var last := Last(entries);
      SkippedEntriesIrrelevant(doc, init);
      var tail := if IsRule(last) then [Trimmed(last)] else [];
      ApplyRubiAppend(doc, KeptEntries(init), tail);
      if tail != [] {
        assert tail[..0] == [];
      }
    }
  }

  // ---------------------------------------------------------------------------
  // Worked examples
  // ---------------------------------------------------------------------------

  function Rule(term: string, replacement: string): RubiInfo
  {
    RubiInfo(Some(term), Some(replacement), None, None)
  }

  /** A list of one entry applies that entry. */
  lemma ApplyRubiOne(doc: string, r: RubiInfo)
    ensures ApplyRubi(doc, [r]) == ApplyRule(doc, r)
  {
    assert [r][..0] == [];
  }

  /** A list of two entries applies them in order. */
  lemma ApplyRubiTwo(doc: string, r1: RubiInfo, r2: RubiInfo)
    ensures ApplyRubi(doc, [r1, r2]) == ApplyRule(ApplyRule(doc, r1), r2)
  {
    assert [r1, r2][..1] == [r1];
    ApplyRubiOne(doc, r1);
  }


  /** One rule rewrites the first occurrence only; the same rule twice rewrites the
      first two. */
  lemma RepeatedRuleReachesNextOccurrence()
    ensures ApplyRubi("猫と猫", [Rule("猫", "ネコ")]) == "ネコと猫"
    ensures ApplyRubi("猫と猫", [Rule("猫", "ネコ"), Rule("猫", "ネコ")]) == "ネコとネコ"
  {
    var r := Rule("猫", "ネコ");
    ApplyRubiOne("猫と猫", r);
    ApplyRubiTwo("猫と猫", r, r);
    ExampleFirstCat();
    ExampleSecondCat();
  }

  lemma ExampleFirstCat()
    ensures ReplaceFirst("猫と猫", "猫", "ネコ") == "ネコと猫"
  {
    ReplaceFirstOccurrence("", "猫", "と猫", "ネコ");
    SubstitutionLiteral("ネコ", "猫", "", "と猫");
    assert "" + "猫" + "と猫" == "猫と猫";
  }

  lemma ExampleSecondCat()
    ensures ReplaceFirst("ネコと猫", "猫", "ネコ") == "ネコとネコ"
  {
    var s := "ネコと" + "猫" + "";
    forall k | 0 <= k < 3 ensures !At(s, k, "猫") {
      assert s[k] != '猫';
      if k + 1 <= |s| { assert s[k..k + 1][0] == s[k]; }
    }
    ReplaceFirstOccurrence("ネコと", "猫", "", "ネコ");
    SubstitutionLiteral("ネコ", "猫", "ネコと", "");
    assert "ネコと" + "猫" + "" == "ネコと猫";
  }

  /** `$&` in a replacement stands for the term, so a ruby notation `|$&` followed by
      a reading can be written without repeating the term: it puts the bar and the
      reading around the first occurrence. */
  lemma MatchedTextPattern(term: string, post: string, reading: string)
    requires term != "" && '$' !in reading
    ensures ApplyRubi(term + post, [Rule(term, "|$&" + reading)]) == "|" + term + reading + post
  {
    var repl := "|$&" + reading;
    var r := Rule(term, repl);
    ApplyRubiOne(term + post, r);
    assert ApplyRule(term + post, r) == ReplaceFirst(term + post, term, repl);
    ReplaceFirstOccurrence("", term, post, repl);
    assert "" + term + post == term + post;
    var sub := Substitution(repl, term, "", post);
    assert "" + sub + post == sub + post;
    BarMatchedReading(term, reading, "", post);
  }

  lemma BarMatchedReading(term: string, reading: string, before: string, after: string)
    requires '$' !in reading
    ensures Substitution("|$&" + reading, term, before, after) == "|" + term + reading
  {
    var repl := "|$&" + reading;
    assert repl[0] == '|' && repl[1..] == "$&" + reading;
    assert ("$&" + reading)[2..] == reading;
    SubstitutionLiteral(reading, term, before, after);
    AppendAssoc("|", term, reading);
  }
}
