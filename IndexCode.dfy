/** The source text of the generated `index.js` files: one `import` line per
    name, then an `export default` object literal with one member per name and
    a comma after every member but the last. */
module IndexCode {
  import opened Text
  import opened Results
  import opened Seqs
  import opened PageValidation

  /** `COMMA_OR_NOT(lastIdx)(idx)`: the separator after member `idx`. */
  function CommaOrNot(lastIdx: int, idx: int): (r: string)
    ensures r == "" <==> idx == lastIdx
    ensures r == "" || r == ","
  {
    if idx == lastIdx then "" else ","
  }

  /** `import p from './p'`, without its line end. */
  function ImportStatement(p: string): string
  {
    "import " + p + " from './" + p + "'"
  }

  /** The first `reduce`: the import line of every name, in order. */
  function ImportLines(names: seq<string>): string
  {
    if names == [] then ""
    else ImportLines(names[..|names| - 1]) + ImportStatement(names[|names| - 1]) + "\n"
  }

  /** A member line's text before its separator. */
  function Indented(member: string): string
  {
    "  " + member
  }

  /** The second `reduce`: member `i` indented, followed by
      `COMMA_OR_NOT(lastIdx)(i)` and a line end. */
  function ObjectBody(members: seq<string>, lastIdx: int): string
  {
    if members == [] then ""
    else
      var n := |members|;
      ObjectBody(members[..n - 1], lastIdx) + Indented(members[n - 1]) + CommaOrNot(lastIdx, n - 1) + "\n"
  }

  /** The template both generators fill: the import lines, a blank line, and
      the object literal whose separators come from `COMMA_OR_NOT` of the last
      index of `names`. */
  function ModuleCode(names: seq<string>, members: seq<string>): string
  {
    ImportLines(names) + "\nexport default {\n" + ObjectBody(members, |names| - 1) + "}\n"
  }

  /** `makeCode__RootIndex`: each group directory imported and re-exported
      under its own name. */
  function MakeRootIndex(subdirs: seq<string>): string
  {
    ModuleCode(subdirs, subdirs)
  }

  /** `toLowerCase` on the characters a valid page name can hold. */
  function LowerChar(c: char): (r: char)
    ensures IsUpper(c) ==> 'a' <= r <= 'z' && r as int == c as int + 32
    ensures !IsUpper(c) ==> r == c
  {
    if IsUpper(c) then (c as int + 32) as char else c
  }

  function Lower(s: string): (r: string)
    ensures |r| == |s| && forall i :: 0 <= i < |s| ==> r[i] == LowerChar(s[i])
  {
    if s == [] then [] else Lower(s[..|s| - 1]) + [LowerChar(s[|s| - 1])]
  }

  /** A group index member: the lower-cased name as key, the import as value. */
  function LocaleMember(p: string): string
  {
    Lower(p) + ": " + p
  }

  /** The object literal of a group index once its names are validated. */
  function LocaleIndexCode(pageNames: seq<string>): string
  {
    ModuleCode(pageNames, Map(LocaleMember, pageNames))
  }

  /** `makeCode__LocaleIndex`: the names are validated first, and the first
      invalid one aborts with its error instead of producing code. */
  function MakeLocaleIndex(pageNames: seq<string>): (r: Result<string, ValidationError>)
    ensures r.Success? <==> forall i :: 0 <= i < |pageNames| ==> ValidPageName(pageNames[i])
    ensures r.Failure? ==> Some(r.error) == FirstInvalid(pageNames)
    ensures r.Success? ==> r.value == LocaleIndexCode(pageNames)
  {
    match FirstInvalid(pageNames)
    case Some(e) => Failure(e)
    case None => Success(LocaleIndexCode(pageNames))
  }

  // Properties

  /** Until the last index is reached every member is followed by a comma. */
  lemma {:induction false} ObjectBodyAllCommas(members: seq<string>, lastIdx: int)
    requires 1 <= |members| <= lastIdx
    ensures ObjectBody(members, lastIdx) == Join(Map(Indented, members), ",\n") + ",\n"
    decreases |members|
  {
    var n := |members|;
    var init := members[..n - 1];
    var parts := Map(Indented, members);
    var item := Indented(members[n - 1]);
    var body := ObjectBody(init, lastIdx);
    MapIndex(Indented, members);
    MapPrefix(Indented, members);
    assert ObjectBody(members, lastIdx) == body + item + "," + "\n";
    AppendAssociative(body + item, ",", "\n");
    assert "," + "\n" == ",\n";
    if n == 1 {
      assert body == [] && Join(parts, ",\n") == item;
      AppendEmpty(item);
    } else {
      ObjectBodyAllCommas(init, lastIdx);
      var j := Join(parts[..n - 1], ",\n");
      assert body == j + ",\n";
      assert Join(parts, ",\n") == j + ",\n" + item;
    }
  }

  /** The object body is the indented members joined by `,\n`, plus a final
      line end: a comma after every member except the last. */
  lemma ObjectBodyJoin(members: seq<string>)
    requires members != []
    ensures ObjectBody(members, |members| - 1) == Join(Map(Indented, members), ",\n") + "\n"
  {
    var n := |members|;
    var init := members[..n - 1];
    var parts := Map(Indented, members);
    var item := Indented(members[n - 1]);
    var body := ObjectBody(init, n - 1);
    MapIndex(Indented, members);
    MapPrefix(Indented, members);
    assert ObjectBody(members, n - 1) == body + item + "" + "\n";
    AppendEmpty(item);
    assert body + item + "" == body + item;
    if n == 1 {
      assert body == [] && Join(parts, ",\n") == item;
      AppendEmpty(item);
    } else {
      ObjectBodyAllCommas(init, n - 1);
      var j := Join(parts[..n - 1], ",\n");
      assert body == j + ",\n";
      assert Join(parts, ",\n") == j + ",\n" + item;
    }
  }

  /** The import lines are the import statements joined by line ends, with a
      final line end. */
  lemma {:induction false} ImportLinesJoin(names: seq<string>)
    requires names != []
    ensures ImportLines(names) == Join(Map(ImportStatement, names), "\n") + "\n"
    decreases |names|
  {
    var n := |names|;
    var init := names[..n - 1];
    var parts := Map(ImportStatement, names);
    var item := ImportStatement(names[n - 1]);
    var lines := ImportLines(init);
    MapIndex(ImportStatement, names);
    MapPrefix(ImportStatement, names);
    assert ImportLines(names) == lines + item + "\n";
    if n == 1 {
      assert lines == [] && Join(parts, "\n") == item;
      AppendEmpty(item);
    } else {
      ImportLinesJoin(init);
      var j := Join(parts[..n - 1], "\n");
      assert lines == j + "\n";
      assert Join(parts, "\n") == j + "\n" + item;
    }
  }

  /** With no names, both generators emit an empty object: `COMMA_OR_NOT(-1)`
      is never consulted. */
  lemma EmptyIndex()
    ensures MakeRootIndex([]) == "\nexport default {\n}\n"
    ensures MakeLocaleIndex([]) == Success("\nexport default {\n}\n")
  {
  }

  /** The root index of a non-empty list, written as joins: one import
      statement per directory in the given order, then each directory as a
      shorthand member, comma-separated. */
  lemma RootIndexShape(subdirs: seq<string>)
    requires subdirs != []
    ensures MakeRootIndex(subdirs) ==
      (Join(Map(ImportStatement, subdirs), "\n") + "\n") + "\nexport default {\n" +
      (Join(Map(Indented, subdirs), ",\n") + "\n") + "}\n"
  {
    ImportLinesJoin(subdirs);
    ObjectBodyJoin(subdirs);
  }

  /** The group index of a non-empty valid list, written as joins: the import
      statements, then `lower(p): p` members, comma-separated. */
  lemma LocaleIndexShape(pageNames: seq<string>)
    requires pageNames != []
    requires forall i :: 0 <= i < |pageNames| ==> ValidPageName(pageNames[i])
    ensures MakeLocaleIndex(pageNames) == Success(
      (Join(Map(ImportStatement, pageNames), "\n") + "\n") + "\nexport default {\n" +
      (Join(Map(Indented, Map(LocaleMember, pageNames)), ",\n") + "\n") + "}\n")
  {
    ImportLinesJoin(pageNames);
    ObjectBodyJoin(Map(LocaleMember, pageNames));
  }

  /** Lowering keeps a valid page name's symbols and only changes its
      capitals. */
  lemma LowerValidName(p: string)
    requires ValidPageName(p)
    ensures AllWordChars(Lower(p)) && |Lower(p)| == |p|
    ensures forall i :: 0 <= i < |p| ==> !IsUpper(Lower(p)[i])
  {
  }

  /** Two different valid page names can share a key: `ABout` and `About`
      both export under `about`. */
  lemma KeysCanCollide()
    ensures ValidPageName("ABout") && ValidPageName("About") && "ABout" != "About"
    ensures Lower("ABout") == Lower("About") == "about"
  {
    assert "ABout"[1] != "About"[1];
    assert AllWordChars("ABout") by {
      forall k | 0 <= k < 5 ensures IsWordChar("ABout"[k]) {
      }
    }
    assert AllWordChars("About") by {
      forall k | 0 <= k < 5 ensures IsWordChar("About"[k]) {
      }
    }
    assert Lower("ABout") == "about";
    assert Lower("About") == "about";
  }

  /** The root index for two groups `a` and `b`; the module's documentation
      shows it for `en` and `ru`. */
  lemma RootIndexOfTwo(a: string, b: string)
    ensures MakeRootIndex([a, b]) ==
      ("import " + a + " from './" + a + "'" + "\n") + ("import " + b + " from './" + b + "'" + "\n") +
      "\nexport default {\n" + ("  " + a + ",\n") + ("  " + b + "\n") + "}\n"
  {
    var names := [a, b];
    assert names[..1] == [a] && [a][..0] == [];
    var i1 := ImportStatement(a) + "\n";
    var i2 := ImportStatement(b) + "\n";
    assert ImportLines([a]) == [] + ImportStatement(a) + "\n";
    AppendEmpty(ImportStatement(a));
    assert ImportLines(names) == i1 + ImportStatement(b) + "\n";
    AppendAssociative(i1, ImportStatement(b), "\n");
    var m1 := "  " + a + ",\n";
    var m2 := "  " + b + "\n";
    assert ObjectBody([a], 1) == [] + Indented(a) + "," + "\n";
    AppendEmpty(Indented(a));
    AppendAssociative(Indented(a), ",", "\n");
    assert "," + "\n" == ",\n";
    assert ObjectBody([a], 1) == m1;
    assert ObjectBody(names, 1) == m1 + Indented(b) + "" + "\n";
    AppendEmpty(Indented(b));
    AppendAssociative(m1, Indented(b), "\n");
    var e := "\nexport default {\n";
    assert MakeRootIndex(names) == i1 + i2 + e + (m1 + m2) + "}\n";
    AppendAssociative(i1 + i2 + e, m1, m2);
  }

  /** The documented root index: `en` and `ru`. */
  lemma RootIndexExample()
    ensures MakeRootIndex(["en", "ru"]) ==
      ("import " + "en" + " from './" + "en" + "'" + "\n") + ("import " + "ru" + " from './" + "ru" + "'" + "\n") +
      "\nexport default {\n" + ("  " + "en" + ",\n") + ("  " + "ru" + "\n") + "}\n"
  {
    RootIndexOfTwo("en", "ru");
  }

  lemma ImportLinesOfThree(a: string, b: string, c: string)
    ensures ImportLines([a, b, c]) ==
      ("import " + a + " from './" + a + "'" + "\n") + ("import " + b + " from './" + b + "'" + "\n") +
      ("import " + c + " from './" + c + "'" + "\n")
  {
    var names := [a, b, c];
    assert names[..2] == [a, b] && [a, b][..1] == [a] && [a][..0] == [];
    var i1 := ImportStatement(a) + "\n";
    var i2 := ImportStatement(b) + "\n";
    assert ImportLines([a]) == [] + ImportStatement(a) + "\n";
    AppendEmpty(ImportStatement(a));
    assert ImportLines([a, b]) == i1 + ImportStatement(b) + "\n";
    AppendAssociative(i1, ImportStatement(b), "\n");
    assert ImportLines(names) == i1 + i2 + ImportStatement(c) + "\n";
    AppendAssociative(i1 + i2, ImportStatement(c), "\n");
  }

  lemma ObjectBodyOfThree(x: string, y: string, z: string)
    ensures ObjectBody([x, y, z], 2) == ("  " + x + ",\n") + ("  " + y + ",\n") + ("  " + z + "\n")
  {
    var members := [x, y, z];
    assert members[..2] == [x, y] && [x, y][..1] == [x] && [x][..0] == [];
    assert "," + "\n" == ",\n";
    var m1 := "  " + x + ",\n";
    var m2 := "  " + y + ",\n";
    assert ObjectBody([x], 2) == [] + Indented(x) + "," + "\n";
    AppendEmpty(Indented(x));
    AppendAssociative(Indented(x), ",", "\n");
    assert ObjectBody([x], 2) == m1;
    assert ObjectBody([x, y], 2) == m1 + Indented(y) + "," + "\n";
    AppendAssociative(m1 + Indented(y), ",", "\n");
    AppendAssociative(m1, Indented(y), ",\n");
    assert ObjectBody([x, y], 2) == m1 + m2;
    assert ObjectBody(members, 2) == m1 + m2 + Indented(z) + "" + "\n";
    AppendEmpty(Indented(z));
    AppendAssociative(m1 + m2, Indented(z), "\n");
  }

  /** The group index for three valid page names `a`, `b`, `c` in that order;
      the module's documentation shows it for `About`, `Contact`, `Skills`. */
  lemma LocaleIndexOfThree(a: string, b: string, c: string)
    requires ValidPageName(a) && ValidPageName(b) && ValidPageName(c)
    ensures MakeLocaleIndex([a, b, c]) == Success(
      ("import " + a + " from './" + a + "'" + "\n") + ("import " + b + " from './" + b + "'" + "\n") +
      ("import " + c + " from './" + c + "'" + "\n") + "\nexport default {\n" +
      (("  " + (Lower(a) + ": " + a) + ",\n") + ("  " + (Lower(b) + ": " + b) + ",\n") +
       ("  " + (Lower(c) + ": " + c) + "\n")) + "}\n")
  {
    var names := [a, b, c];
    assert FirstInvalid(names) == None;
    MapIndex(LocaleMember, names);
    assert Map(LocaleMember, names) == [LocaleMember(a), LocaleMember(b), LocaleMember(c)];
    ImportLinesOfThree(a, b, c);
    ObjectBodyOfThree(LocaleMember(a), LocaleMember(b), LocaleMember(c));
  }

  lemma LowerAbout()
    ensures Lower("About") == "about"
  {
  }

  lemma LowerContact()
    ensures Lower("Contact") == "contact"
  {
  }

  lemma LowerSkills()
    ensures Lower("Skills") == "skills"
  {
  }

  lemma ValidExampleNames()
    ensures ValidPageName("About") && ValidPageName("Contact") && ValidPageName("Skills")
  {
    forall k | 0 <= k < 5 ensures IsWordChar("About"[k]) {
    }
    forall k | 0 <= k < 7 ensures IsWordChar("Contact"[k]) {
    }
    forall k | 0 <= k < 6 ensures IsWordChar("Skills"[k]) {
    }
  }

  /** The documented group index: keys `about`, `contact`, `skills`. */
  lemma LocaleIndexExample()
    ensures MakeLocaleIndex(["About", "Contact", "Skills"]) == Success(
      ("import " + "About" + " from './" + "About" + "'" + "\n") +
      ("import " + "Contact" + " from './" + "Contact" + "'" + "\n") +
      ("import " + "Skills" + " from './" + "Skills" + "'" + "\n") + "\nexport default {\n" +
      (("  " + ("about" + ": " + "About") + ",\n") + ("  " + ("contact" + ": " + "Contact") + ",\n") +
       ("  " + ("skills" + ": " + "Skills") + "\n")) + "}\n")
  {
    ValidExampleNames();
    LowerAbout();
    LowerContact();
    LowerSkills();
    LocaleIndexOfThree("About", "Contact", "Skills");
  }
}
