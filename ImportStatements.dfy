/** The import synthesizer: finds every component tag `<Name` in a generated
    JSX text and prepends one import line per distinct tag, under the React
    import line. */
module ImportStatements {
  import opened Text
  import opened Results
  import opened Seqs

  /** Why no text is produced: with no tag in the text, `match` yields `null`
      and the `.map` call on it throws a TypeError. */
  datatype ImportError = NoTagMatch

  const ReactImport := "import React from 'react'"
  const ReactFragmentImport := "import React, { Fragment } from 'react'"
  const FragmentTag := "Fragment"

  // ---------------------------------------------------------------------------
  // The tag scan: `txt.match(/<([A-Z][a-zA-Z0-9_]*?)\b/gm)` with `<` stripped
  // ---------------------------------------------------------------------------

  /** End of the maximal run of word characters that starts at `j`. */
  function WordEnd(s: string, j: nat): (e: nat)
    requires j <= |s|
    ensures j <= e <= |s|
    ensures forall k :: j <= k < e ==> IsWordChar(s[k])
    ensures e == |s| || !IsWordChar(s[e])
    decreases |s| - j
  {
    if j < |s| && IsWordChar(s[j]) then WordEnd(s, j + 1) else j
  }

  /** A match of the pattern begins at `i`: a `<` and then an upper-case letter. */
  predicate TagAt(s: string, i: int)
  {
    0 <= i && i + 1 < |s| && s[i] == '<' && IsUpper(s[i + 1])
  }

  /** The name a match at `i` yields once `<` is stripped. The lazy `*?` must
      stop at a word boundary, so the name runs to the end of the word. */
  function TagNameAt(s: string, i: int): (name: string)
    requires TagAt(s, i)
    ensures |name| >= 1 && IsUpper(name[0])
    ensures AllWordChars(name)
    ensures i + 1 + |name| <= |s| && name == s[i + 1..i + 1 + |name|]
    ensures i + 1 + |name| == |s| || !IsWordChar(s[i + 1 + |name|])
  {
    var e := WordEnd(s, i + 1);
    assert e >= i + 2 by {
      assert IsWordChar(s[i + 1]);
    }
    s[i + 1..e]
  }

  /** The matches from position `i` on; the global flag resumes the search
      where the previous match ended. */
  function ScanFrom(s: string, i: nat): seq<string>
    requires i <= |s|
    decreases |s| - i
  {
    if i == |s| then []
    else if TagAt(s, i) then [TagNameAt(s, i)] + ScanFrom(s, WordEnd(s, i + 1))
    else ScanFrom(s, i + 1)
  }

  /** Every tag name in `s`, left to right, repeats included. */
  function Tags(s: string): seq<string>
  {
    ScanFrom(s, 0)
  }

  // ---------------------------------------------------------------------------
  // The import block
  // ---------------------------------------------------------------------------

  function ImportLine(tag: string): string
  {
    "import " + tag + " from '../../" + tag + "'"
  }

  /** The `map`/`filter(Boolean)` stage: an import line per tag, `null` (then
      dropped) for `Fragment`. */
  function TagImports(names: seq<string>): seq<string>
  {
    if names == [] then []
    else
      var rest := TagImports(names[..|names| - 1]);
      var tag := names[|names| - 1];
      if tag == FragmentTag then rest else rest + [ImportLine(tag)]
  }

  /** One more tag walked: the flag and the collected lines as the loop in
      `AddImportStatements` updates them. */
  lemma TagImportsStep(names: seq<string>, j: int)
    requires 0 <= j < |names|
    ensures (FragmentTag in names[..j + 1]) == (FragmentTag in names[..j] || names[j] == FragmentTag)
    ensures TagImports(names[..j + 1]) ==
      if names[j] == FragmentTag then TagImports(names[..j]) else TagImports(names[..j]) + [ImportLine(names[j])]
  {
    assert names[..j + 1] == names[..j] + [names[j]];
  }

  function BaseImport(fragment: bool): string
  {
    if fragment then ReactFragmentImport else ReactImport
  }

  /** The lines `imports` holds after `unshift`. */
  function ImportBlock(tags: seq<string>): seq<string>
  {
    var names := Dedupe(tags);
    [BaseImport(FragmentTag in names)] + TagImports(names)
  }

  /** What `addImportStatements(txt)` returns, or the failure it throws. */
  function Synthesize(txt: string): Result<string, ImportError>
  {
    var tags := Tags(txt);
    if tags == [] then Failure(NoTagMatch)
    else Success(Join(ImportBlock(tags), "\n") + "\n" + txt)
  }

  /** `addImportStatements`: dedupes the matches into a growing sequence, then
      walks it, switching the React line when `Fragment` is met and collecting
      an import line for every other tag. */
  method AddImportStatements(txt: string) returns (r: Result<string, ImportError>)
    ensures r == Synthesize(txt)
    ensures r.Failure? <==> forall i :: !TagAt(txt, i)
  {
    var matches := Tags(txt);
    if matches == [] {
      TagsEmpty(txt);
      return Failure(NoTagMatch);
    }
    var seen: seq<string> := [];
    for i := 0 to |matches|
      invariant seen == Dedupe(matches[..i])
    {
      DedupeStep(matches, i);
      if matches[i] !in seen {
        seen := seen + [matches[i]];
      }
    }
    assert matches[..|matches|] == matches;
    var importFromReact := ReactImport;
    var imports: seq<string> := [];
    for j := 0 to |seen|
      invariant importFromReact == BaseImport(FragmentTag in seen[..j])
      invariant imports == TagImports(seen[..j])
    {
      TagImportsStep(seen, j);
      if seen[j] == FragmentTag {
        importFromReact := ReactFragmentImport;
      } else {
        imports := imports + [ImportLine(seen[j])];
      }
    }
    assert seen[..|seen|] == seen;
    imports := [importFromReact] + imports;
    assert imports == ImportBlock(matches);
    TagsEmpty(txt);
    return Success(Join(imports, "\n") + "\n" + txt);
  }

  // ---------------------------------------------------------------------------
  // The scan finds exactly the maximal tag names
  // ---------------------------------------------------------------------------

  lemma {:induction false} ScanFromSound(s: string, i: nat, t: string)
    requires i <= |s|
    requires t in ScanFrom(s, i)
    ensures exists k :: i <= k && TagAt(s, k) && t == TagNameAt(s, k)
    decreases |s| - i
  {
    if i == |s| {
    } else if TagAt(s, i) {
      if t != TagNameAt(s, i) {
        ScanFromSound(s, i + 1 + |TagNameAt(s, i)|, t);
      }
    } else {
      ScanFromSound(s, i + 1, t);
    }
  }

  lemma {:induction false} ScanFromComplete(s: string, i: nat, k: int)
    requires i <= k && TagAt(s, k)
    ensures TagNameAt(s, k) in ScanFrom(s, i)
    decreases |s| - i
  {
    if i == k {
    } else if TagAt(s, i) {
      var e := i + 1 + |TagNameAt(s, i)|;
      // The `<` at k is no word character, so the match at i ends before it.
      assert e <= k;
      ScanFromComplete(s, e, k);
    } else {
      ScanFromComplete(s, i + 1, k);
    }
  }

  /** The scanned names are exactly the maximal identifiers that follow a `<`
      and start with an upper-case letter, so `<FragmentX` yields
      `FragmentX`. */
  lemma TagsExact(s: string, t: string)
    ensures t in Tags(s) <==> exists k :: TagAt(s, k) && t == TagNameAt(s, k)
  {
    if t in Tags(s) {
      ScanFromSound(s, 0, t);
    }
    if exists k :: TagAt(s, k) && t == TagNameAt(s, k) {
      var k :| TagAt(s, k) && t == TagNameAt(s, k);
      ScanFromComplete(s, 0, k);
    }
  }

  /** The scan comes back empty exactly when no `<` is followed by an
      upper-case letter. */
  lemma TagsEmpty(s: string)
    ensures Tags(s) == [] <==> forall i :: !TagAt(s, i)
  {
    if Tags(s) != [] {
      TagsExact(s, Tags(s)[0]);
    }
    if exists i :: TagAt(s, i) {
      var i :| TagAt(s, i);
      TagsExact(s, TagNameAt(s, i));
    }
  }

  lemma FragmentXIsNotFragment()
    ensures Tags("<FragmentX/>") == ["FragmentX"]
  {
    var s := "<FragmentX/>";
    ScanMatch(s, 0, 10);
    ScanSkip(s, 10, 12);
    assert s[1..10] == "FragmentX";
  }

  // ---------------------------------------------------------------------------
  // Import lines
  // ---------------------------------------------------------------------------

  /** The tag can be read back from its import line. */
  lemma ImportLineInjective(a: string, b: string)
    requires ImportLine(a) == ImportLine(b)
    ensures a == b
  {
    assert |a| == |b|;
    assert ImportLine(a)[7..7 + |a|] == a;
    assert ImportLine(b)[7..7 + |b|] == b;
  }

  /** The per-tag lines are the import lines of the tags other than `Fragment`,
      in the same order. */
  lemma {:induction false} TagImportsLines(names: seq<string>)
    ensures |TagImports(names)| == |Without(names, FragmentTag)|
    ensures forall i :: 0 <= i < |TagImports(names)| ==> TagImports(names)[i] == ImportLine(Without(names, FragmentTag)[i])
    decreases |names|
  {
    if names != [] {
      TagImportsLines(names[..|names| - 1]);
    }
  }

  /** The React line opens the block and binds `Fragment` exactly when some
      tag is `Fragment`. */
  lemma ImportBlockFirstLine(tags: seq<string>)
    ensures ImportBlock(tags)[0] == (if FragmentTag in tags then ReactFragmentImport else ReactImport)
  {
    DedupeMembers(tags);
  }

  /** The block holds one line more than there are distinct tags other than
      `Fragment`. */
  lemma ImportBlockCount(tags: seq<string>)
    ensures |ImportBlock(tags)| == 1 + |Others(tags, FragmentTag)|
  {
    var names := Dedupe(tags);
    DedupeMembers(tags);
    DedupeDistinct(tags);
    WithoutCount(names, FragmentTag);
    TagImportsLines(names);
    assert |ImportBlock(tags)| == 1 + |TagImports(names)|;
    assert Others(names, FragmentTag) == Others(tags, FragmentTag);
  }

  /** A tag has an import line after the React line exactly when it occurs in
      the text and is not `Fragment`. */
  lemma ImportBlockLine(tags: seq<string>, t: string)
    ensures ImportLine(t) in ImportBlock(tags)[1..] <==> t in tags && t != FragmentTag
  {
    var names := Dedupe(tags);
    var lines := ImportBlock(tags)[1..];
    assert lines == TagImports(names);
    DedupeMembers(tags);
    WithoutMembers(names, FragmentTag);
    TagImportsLines(names);
    var imported := Without(names, FragmentTag);
    if ImportLine(t) in lines {
      var i :| 0 <= i < |lines| && lines[i] == ImportLine(t);
      ImportLineInjective(imported[i], t);
    }
    if t in tags && t != FragmentTag {
      var i :| 0 <= i < |imported| && imported[i] == t;
      assert lines[i] == ImportLine(t);
    }
  }

  /** No import line is repeated. */
  lemma ImportBlockDistinct(tags: seq<string>)
    ensures Distinct(ImportBlock(tags)[1..])
  {
    var names := Dedupe(tags);
    var lines := ImportBlock(tags)[1..];
    assert lines == TagImports(names);
    DedupeDistinct(tags);
    WithoutDistinct(names, FragmentTag);
    TagImportsLines(names);
    var imported := Without(names, FragmentTag);
    forall i, j | 0 <= i < j < |lines| ensures lines[i] != lines[j] {
      if lines[i] == lines[j] {
        ImportLineInjective(imported[i], imported[j]);
      }
    }
  }

  /** `Fragment` never gets an import line of its own. */
  lemma FragmentNotImported(tags: seq<string>)
    ensures ImportLine(FragmentTag) !in ImportBlock(tags)
  {
    ImportBlockLine(tags, FragmentTag);
    var block := ImportBlock(tags);
    assert block == [block[0]] + block[1..];
    assert ImportLine(FragmentTag) != block[0] by {
      assert ImportLine(FragmentTag)[7] == 'F';
    }
  }

  /** The block: the React line first, binding `Fragment` exactly when some tag
      is `Fragment`; then exactly one import line per distinct tag other than
      `Fragment`, and none for `Fragment`. */
  lemma ImportBlockSpec(tags: seq<string>)
    ensures var block := ImportBlock(tags);
      && |block| == 1 + |Others(tags, FragmentTag)|
      && block[0] == (if FragmentTag in tags then ReactFragmentImport else ReactImport)
      && (forall t :: ImportLine(t) in block[1..] <==> t in tags && t != FragmentTag)
      && Distinct(block[1..])
      && ImportLine(FragmentTag) !in block
  {
    ImportBlockCount(tags);
    ImportBlockFirstLine(tags);
    forall t ensures ImportLine(t) in ImportBlock(tags)[1..] <==> t in tags && t != FragmentTag {
      ImportBlockLine(tags, t);
    }
    ImportBlockDistinct(tags);
    FragmentNotImported(tags);
  }

  /** Line `i + 1` of the block imports the `i`-th tag other than `Fragment`
      of the deduplicated tags. */
  lemma ImportLinesAt(tags: seq<string>)
    ensures var imported := Without(Dedupe(tags), FragmentTag);
      && |ImportBlock(tags)| == 1 + |imported|
      && forall i :: 0 <= i < |imported| ==> ImportBlock(tags)[i + 1] == ImportLine(imported[i])
  {
    TagImportsLines(Dedupe(tags));
  }

  /** The tags that get import lines are listed in order of first appearance
      in the text, so the lines after the React line are in that order too. */
  lemma ImportOrder(tags: seq<string>)
    ensures FirstAppearanceOrder(Without(Dedupe(tags), FragmentTag), tags)
  {
    DedupeOrder(tags);
    WithoutOrder(Dedupe(tags), FragmentTag, tags);
  }

  // ---------------------------------------------------------------------------
  // The output text
  // ---------------------------------------------------------------------------

  lemma ImportLineHasNoNewline(t: string)
    requires AllWordChars(t)
    ensures '\n' !in ImportLine(t)
  {
    assert '\n' !in t;
    assert ImportLine(t) == "import " + t + " from '../../" + t + "'";
  }

  lemma BaseImportHasNoNewline(fragment: bool)
    ensures '\n' !in BaseImport(fragment)
  {
  }

  lemma {:induction false} TagImportsHaveNoNewline(names: seq<string>)
    requires forall t :: t in names ==> AllWordChars(t)
    ensures NoneContains(TagImports(names), '\n')
    decreases |names|
  {
    if names != [] {
      var init := names[..|names| - 1];
      var last := names[|names| - 1];
      assert forall t :: t in init ==> t in names;
      TagImportsHaveNoNewline(init);
      ImportLineHasNoNewline(last);
    }
  }

  lemma BlockHasNoNewline(tags: seq<string>)
    requires forall t :: t in tags ==> AllWordChars(t)
    ensures NoneContains(ImportBlock(tags), '\n')
  {
    var names := Dedupe(tags);
    DedupeMembers(tags);
    TagImportsHaveNoNewline(names);
    BaseImportHasNoNewline(FragmentTag in names);
    NoneContainsCons(BaseImport(FragmentTag in names), TagImports(names), '\n');
  }

  /** The output is the import block, one line per `\n`-terminated line, in
      front of the untouched text: React line first, then the tag lines, the
      header holding exactly 1 + (distinct non-`Fragment` tags) lines. */
  lemma SynthesizeSpec(txt: string)
    requires exists i :: TagAt(txt, i)
    ensures Synthesize(txt).Success?
    ensures var out := Synthesize(txt).value;
      var header := out[..|out| - |txt|];
      var tags := Tags(txt);
      && out == header + txt
      && BaseImport(FragmentTag in tags) + "\n" <= header
      && Count(header, '\n') == 1 + |Others(tags, FragmentTag)|
      && header[|header| - 1] == '\n'
  {
    TagsEmpty(txt);
    var tags := Tags(txt);
    var block := ImportBlock(tags);
    var out := Synthesize(txt).value;
    var joined := Join(block, "\n");
    assert out == joined + "\n" + txt;
    var header := out[..|out| - |txt|];
    assert header == joined + "\n";
    forall t | t in tags ensures AllWordChars(t) {
      TagsExact(txt, t);
    }
    BlockHasNoNewline(tags);
    JoinCount(block, '\n');
    CountAppend(joined, "\n", '\n');
    assert Count("\n", '\n') == 1 by {
      assert "\n"[..0] == [];
    }
    ImportBlockSpec(tags);
    DedupeSpec(tags);
    JoinStartsWith(block, "\n");
    if |block| == 1 {
      assert joined == block[0];
    }
  }

  /** A run of word characters from `j` that stops at `e` ends at `e`. */
  lemma {:induction false} WordEndIs(s: string, j: nat, e: nat)
    requires j <= e <= |s|
    requires forall k :: j <= k < e ==> IsWordChar(s[k])
    requires e == |s| || !IsWordChar(s[e])
    ensures WordEnd(s, j) == e
    decreases e - j
  {
    if j < e {
      WordEndIs(s, j + 1, e);
    }
  }

  /** A stretch without a match start adds nothing to the scan. */
  lemma {:induction false} ScanSkip(s: string, i: nat, j: nat)
    requires i <= j <= |s|
    requires forall k :: i <= k < j ==> !TagAt(s, k)
    ensures ScanFrom(s, i) == ScanFrom(s, j)
    decreases j - i
  {
    if i < j {
      ScanSkip(s, i + 1, j);
    }
  }

  /** A match at `i` whose name ends at `e`. */
  lemma ScanMatch(s: string, i: nat, e: nat)
    requires TagAt(s, i) && i + 1 < e <= |s|
    requires forall k :: i + 1 <= k < e ==> IsWordChar(s[k])
    requires e == |s| || !IsWordChar(s[e])
    ensures ScanFrom(s, i) == [s[i + 1..e]] + ScanFrom(s, e)
  {
    WordEndIs(s, i + 1, e);
  }

  lemma {:induction false} WordEndShift(p: string, b: string, j: nat)
    requires j <= |b|
    ensures WordEnd(p + b, |p| + j) == |p| + WordEnd(b, j)
    decreases |b| - j
  {
    if j < |b| {
      assert (p + b)[|p| + j] == b[j];
      if IsWordChar(b[j]) {
        WordEndShift(p, b, j + 1);
      }
    }
  }

  lemma TagAtShift(p: string, b: string, i: nat)
    requires i < |b|
    ensures TagAt(p + b, |p| + i) == TagAt(b, i)
    ensures TagAt(b, i) ==> TagNameAt(p + b, |p| + i) == TagNameAt(b, i)
  {
    if i + 1 < |b| {
      assert (p + b)[|p| + i] == b[i] && (p + b)[|p| + i + 1] == b[i + 1];
    }
    if TagAt(b, i) {
      WordEndShift(p, b, i + 1);
      assert (p + b)[|p| + i + 1..|p| + WordEnd(b, i + 1)] == b[i + 1..WordEnd(b, i + 1)];
    }
  }

  lemma {:induction false} ScanShift(p: string, b: string, i: nat)
    requires i <= |b|
    ensures ScanFrom(p + b, |p| + i) == ScanFrom(b, i)
    decreases |b| - i
  {
    if i < |b| {
      TagAtShift(p, b, i);
      if TagAt(b, i) {
        WordEndShift(p, b, i + 1);
        ScanShift(p, b, WordEnd(b, i + 1));
      } else {
        ScanShift(p, b, i + 1);
      }
    }
  }

  /** `a` ends in a character that can neither open nor continue a match. */
  predicate EndsOutsideTag(a: string)
  {
    |a| > 0 && a[|a| - 1] != '<' && !IsWordChar(a[|a| - 1])
  }

  lemma {:induction false} WordEndPrefix(a: string, b: string, j: nat)
    requires EndsOutsideTag(a) && j < |a|
    ensures WordEnd(a + b, j) == WordEnd(a, j)
    decreases |a| - j
  {
    assert (a + b)[j] == a[j];
    if IsWordChar(a[j]) {
      WordEndPrefix(a, b, j + 1);
    }
  }

  lemma {:induction false} ScanPrefix(a: string, b: string, i: nat)
    requires EndsOutsideTag(a) && i <= |a|
    ensures ScanFrom(a + b, i) == ScanFrom(a, i) + ScanFrom(b, 0)
    decreases |a| - i
  {
    if i == |a| {
      ScanShift(a, b, 0);
    } else {
      assert TagAt(a + b, i) == TagAt(a, i) by {
        assert (a + b)[i] == a[i];
        if i + 1 < |a| {
          assert (a + b)[i + 1] == a[i + 1];
        }
      }
      if TagAt(a, i) {
        WordEndPrefix(a, b, i + 1);
        assert (a + b)[i + 1..WordEnd(a, i + 1)] == a[i + 1..WordEnd(a, i + 1)];
        assert WordEnd(a, i + 1) < |a|;
        ScanPrefix(a, b, WordEnd(a, i + 1));
      } else {
        ScanPrefix(a, b, i + 1);
      }
    }
  }

  /** The scan is lexical: split after a character that neither opens nor
      continues a tag, a text scans as its two halves do. */
  lemma TagsSplit(a: string, b: string)
    requires EndsOutsideTag(a)
    ensures Tags(a + b) == Tags(a) + Tags(b)
  {
    ScanPrefix(a, b, 0);
  }

  /** `<Name`, then text with no further `<`, scans as the one name. */
  lemma SingleTag(s: string, name: string)
    requires |s| > |name| + 1 && s[0] == '<' && s[1..|name| + 1] == name
    requires |name| > 0 && IsUpper(name[0]) && AllWordChars(name)
    requires !IsWordChar(s[|name| + 1])
    requires '<' !in s[1..]
    ensures Tags(s) == [name]
  {
    forall k | 1 <= k < |s| ensures s[k] != '<' {
      assert s[k] == s[1..][k - 1];
    }
    ScanMatch(s, 0, |name| + 1);
    ScanSkip(s, |name| + 1, |s|);
  }

  lemma {:induction false} TagsSplit3(a: string, b: string, c: string)
    requires EndsOutsideTag(a) && EndsOutsideTag(b)
    ensures Tags(a + b + c) == Tags(a) + Tags(b) + Tags(c)
  {
    TagsSplit(a, b);
    assert EndsOutsideTag(a + b) by {
      assert (a + b)[|a + b| - 1] == b[|b| - 1];
    }
    TagsSplit(a + b, c);
  }

  lemma RepeatedTagsScan()
    ensures Tags("<Foo/><Bar/><Foo/>") == ["Foo", "Bar", "Foo"]
  {
    SingleTag("<Foo/>", "Foo");
    SingleTag("<Bar/>", "Bar");
    TagsSplit3("<Foo/>", "<Bar/>", "<Foo/>");
    assert "<Foo/>" + "<Bar/>" + "<Foo/>" == "<Foo/><Bar/><Foo/>";
  }

  lemma RepeatedTagsBlock()
    ensures ImportBlock(["Foo", "Bar", "Foo"]) == [ReactImport, ImportLine("Foo"), ImportLine("Bar")]
  {
    var tags := ["Foo", "Bar", "Foo"];
    assert tags[..2] == ["Foo", "Bar"] && tags[..2][..1] == ["Foo"] && ["Foo"][..0] == [];
    assert Dedupe(tags) == ["Foo", "Bar"];
    assert TagImports(["Foo", "Bar"]) == [ImportLine("Foo"), ImportLine("Bar")];
  }

  /** `<Foo`, `<Bar`, `<Foo`: one line for each, `Foo` first, no `Fragment`
      binding. */
  lemma RepeatedTagsExample()
    ensures ImportBlock(Tags("<Foo/><Bar/><Foo/>")) == [ReactImport, ImportLine("Foo"), ImportLine("Bar")]
  {
    RepeatedTagsScan();
    RepeatedTagsBlock();
  }

  lemma FragmentCloseTag()
    ensures Tags("</Fragment>") == []
  {
    assert forall k :: !TagAt("</Fragment>", k);
    TagsEmpty("</Fragment>");
  }

  lemma FragmentScan()
    ensures Tags("<Fragment><Link/></Fragment>") == ["Fragment", "Link"]
  {
    SingleTag("<Fragment>", "Fragment");
    SingleTag("<Link/>", "Link");
    FragmentCloseTag();
    TagsSplit3("<Fragment>", "<Link/>", "</Fragment>");
    FragmentPieces();
  }

  lemma FragmentPieces()
    ensures "<Fragment>" + "<Link/>" + "</Fragment>" == "<Fragment><Link/></Fragment>"
  {
  }

  lemma FragmentBlock()
    ensures ImportBlock(["Fragment", "Link"]) == [ReactFragmentImport, ImportLine("Link")]
  {
    var tags := ["Fragment", "Link"];
    assert tags[..1] == ["Fragment"] && ["Fragment"][..0] == [];
    assert Dedupe(tags) == tags;
    assert TagImports(tags) == [ImportLine("Link")];
  }

  /** `<Fragment` and `<Link`: `Fragment` joins the React line and gets no line
      of its own. */
  lemma FragmentExample()
    ensures ImportBlock(Tags("<Fragment><Link/></Fragment>")) == [ReactFragmentImport, ImportLine("Link")]
  {
    FragmentScan();
    FragmentBlock();
  }
}
