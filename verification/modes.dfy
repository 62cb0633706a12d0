/** The object kinds and the mode table of models/git_object.rb: which tree
    entry mode stands for which kind of object, and the reverse lookup by
    type symbol that tree formatting uses. */
module Modes {

  import opened Results
  import opened Text
  import opened StringExtensions

  /** The classes a loaded object can be an instance of. ExecutableFile,
      GroupWritableFile, SymLink and GitSubModule are kinds of blob. */
  datatype ObjectClass =
    | Commit
    | Tree
    | Blob
    | ExecutableFile
    | GroupWritableFile
    | SymLink
    | GitSubModule

  /** The Ruby class name. */
  function ClassName(c: ObjectClass): string {
    match c
    case Commit => "Commit"
    case Tree => "Tree"
    case Blob => "Blob"
    case ExecutableFile => "ExecutableFile"
    case GroupWritableFile => "GroupWritableFile"
    case SymLink => "SymLink"
    case GitSubModule => "GitSubModule"
  }

  /** The lower-case words a class name is made of. */
  function ClassWords(c: ObjectClass): (ws: seq<string>)
    ensures LowerWords(ws)
  {
    match c
    case Commit => ["commit"]
    case Tree => ["tree"]
    case Blob => ["blob"]
    case ExecutableFile => ["executable", "file"]
    case GroupWritableFile => ["group", "writable", "file"]
    case SymLink => ["sym", "link"]
    case GitSubModule => ["git", "sub", "module"]
  }

  /** The type symbol of a class, `name.underscore.to_sym`, as a string. */
  function TypeSymbol(c: ObjectClass): string {
    match c
    case Commit => "commit"
    case Tree => "tree"
    case Blob => "blob"
    case ExecutableFile => "executable_file"
    case GroupWritableFile => "group_writable_file"
    case SymLink => "sym_link"
    case GitSubModule => "git_sub_module"
  }

  lemma ConcatCapitalizedCons(ws: seq<string>)
    requires |ws| > 0
    ensures ConcatCapitalized(ws) == Capitalize(ws[0]) + ConcatCapitalized(ws[1..])
  {
  }

  lemma ConcatCapitalizedOne(ws: seq<string>)
    requires |ws| == 1
    ensures ConcatCapitalized(ws) == Capitalize(ws[0])
  {
    ConcatCapitalizedCons(ws);
    assert ConcatCapitalized(ws[1..]) == "";
    assert Capitalize(ws[0]) + "" == Capitalize(ws[0]);
  }

  lemma ConcatCapitalizedTwo(ws: seq<string>)
    requires |ws| == 2
    ensures ConcatCapitalized(ws) == Capitalize(ws[0]) + Capitalize(ws[1])
  {
    ConcatCapitalizedCons(ws);
    ConcatCapitalizedOne(ws[1..]);
  }

  lemma ConcatCapitalizedThree(ws: seq<string>)
    requires |ws| == 3
    ensures ConcatCapitalized(ws) == Capitalize(ws[0]) + Capitalize(ws[1]) + Capitalize(ws[2])
  {
    ConcatCapitalizedCons(ws);
    ConcatCapitalizedTwo(ws[1..]);
    AppendAssoc(Capitalize(ws[0]), Capitalize(ws[1]), Capitalize(ws[2]));
  }

  lemma ConcatCapitalizedOfFew(ws: seq<string>)
    requires 1 <= |ws| <= 3
    ensures |ws| == 1 ==> ConcatCapitalized(ws) == Capitalize(ws[0])
    ensures |ws| == 2 ==> ConcatCapitalized(ws) == Capitalize(ws[0]) + Capitalize(ws[1])
    ensures |ws| == 3 ==> ConcatCapitalized(ws) == Capitalize(ws[0]) + Capitalize(ws[1]) + Capitalize(ws[2])
  {
    if |ws| == 1 {
      ConcatCapitalizedOne(ws);
    } else if |ws| == 2 {
      ConcatCapitalizedTwo(ws);
    } else {
      ConcatCapitalizedThree(ws);
    }
  }

  lemma CapitalizeWord(w: string, cw: string)
    requires LowerWord(w)
    requires |cw| == |w| && cw[0] == Upper(w[0]) && cw[1..] == w[1..]
    ensures Capitalize(w) == cw
  {
    CapitalizeLowerWord(w);
  }

  /** `w` capitalised is `cw`. */
  predicate CapitalizesTo(w: string, cw: string) {
    LowerWord(w) && |cw| == |w| && cw[0] == Upper(w[0]) && cw[1..] == w[1..]
  }

  lemma NameOfWords(ws: seq<string>, cws: seq<string>, name: string)
    requires 1 <= |ws| <= 3 && |cws| == |ws|
    requires forall i :: 0 <= i < |ws| ==> CapitalizesTo(ws[i], cws[i])
    requires |ws| == 1 ==> name == cws[0]
    requires |ws| == 2 ==> name == cws[0] + cws[1]
    requires |ws| == 3 ==> name == cws[0] + cws[1] + cws[2]
    ensures ConcatCapitalized(ws) == name
  {
    ConcatCapitalizedOfFew(ws);
    forall i | 0 <= i < |ws|
      ensures Capitalize(ws[i]) == cws[i]
    {
      CapitalizeWord(ws[i], cws[i]);
    }
  }

  lemma SingleWordClassName(c: ObjectClass)
    requires c == Commit || c == Tree || c == Blob
    ensures ClassName(c) == ConcatCapitalized(ClassWords(c))
  {
    match c
    case Commit => NameOfWords(["commit"], ["Commit"], "Commit");
    case Tree => NameOfWords(["tree"], ["Tree"], "Tree");
    case Blob => NameOfWords(["blob"], ["Blob"], "Blob");
  }

  lemma ExecutableFileClassName()
    ensures ClassName(ExecutableFile) == ConcatCapitalized(ClassWords(ExecutableFile))
  {
    assert CapitalizesTo("executable", "Executable");
    assert CapitalizesTo("file", "File");
    assert "ExecutableFile" == "Executable" + "File";
    NameOfWords(["executable", "file"], ["Executable", "File"], "ExecutableFile");
  }

  lemma GroupWritableFileClassName()
    ensures ClassName(GroupWritableFile) == ConcatCapitalized(ClassWords(GroupWritableFile))
  {
    assert CapitalizesTo("group", "Group");
    assert CapitalizesTo("writable", "Writable");
    assert CapitalizesTo("file", "File");
    assert "GroupWritableFile" == "Group" + "Writable" + "File";
    NameOfWords(["group", "writable", "file"], ["Group", "Writable", "File"], "GroupWritableFile");
  }

  lemma SymLinkClassName()
    ensures ClassName(SymLink) == ConcatCapitalized(ClassWords(SymLink))
  {
    assert CapitalizesTo("sym", "Sym");
    assert CapitalizesTo("link", "Link");
    assert "SymLink" == "Sym" + "Link";
    NameOfWords(["sym", "link"], ["Sym", "Link"], "SymLink");
  }

  lemma GitSubModuleClassName()
    ensures ClassName(GitSubModule) == ConcatCapitalized(ClassWords(GitSubModule))
  {
    assert CapitalizesTo("git", "Git");
    assert CapitalizesTo("sub", "Sub");
    assert CapitalizesTo("module", "Module");
    assert "GitSubModule" == "Git" + "Sub" + "Module";
    NameOfWords(["git", "sub", "module"], ["Git", "Sub", "Module"], "GitSubModule");
  }

  /** Every class name is its words, capitalised and run together. */
  lemma ClassNameIsCapitalizedWords(c: ObjectClass)
    ensures ClassName(c) == ConcatCapitalized(ClassWords(c))
  {
    match c
    case Commit => SingleWordClassName(c);
    case Tree => SingleWordClassName(c);
    case Blob => SingleWordClassName(c);
    case ExecutableFile => ExecutableFileClassName();
    case GroupWritableFile => GroupWritableFileClassName();
    case SymLink => SymLinkClassName();
    case GitSubModule => GitSubModuleClassName();
  }

  lemma JoinOfFew(ws: seq<string>)
    requires 1 <= |ws| <= 3
    ensures |ws| == 1 ==> Join(ws, '_') == ws[0]
    ensures |ws| == 2 ==> Join(ws, '_') == ws[0] + "_" + ws[1]
    ensures |ws| == 3 ==> Join(ws, '_') == ws[0] + "_" + ws[1] + "_" + ws[2]
  {
    if |ws| >= 2 {
      assert Join(ws[|ws| - 2..], '_') == ws[|ws| - 2] + "_" + ws[|ws| - 1];
    }
    if |ws| == 3 {
      assert ws[1..] == ws[|ws| - 2..];
    }
  }

  lemma SymbolOfWords(ws: seq<string>, name: string)
    requires 1 <= |ws| <= 3
    requires |ws| == 1 ==> name == ws[0]
    requires |ws| == 2 ==> name == ws[0] + "_" + ws[1]
    requires |ws| == 3 ==> name == ws[0] + "_" + ws[1] + "_" + ws[2]
    ensures Join(ws, '_') == name
  {
    JoinOfFew(ws);
  }

  lemma TypeSymbolIsJoinedWords(c: ObjectClass)
    ensures TypeSymbol(c) == Join(ClassWords(c), '_')
  {
    match c
    case Commit => SymbolOfWords(["commit"], "commit");
    case Tree => SymbolOfWords(["tree"], "tree");
    case Blob => SymbolOfWords(["blob"], "blob");
    case ExecutableFile =>
      assert "executable_file" == "executable" + "_" + "file";
      SymbolOfWords(["executable", "file"], "executable_file");
    case GroupWritableFile =>
      assert "group_writable_file" == "group" + "_" + "writable" + "_" + "file";
      SymbolOfWords(["group", "writable", "file"], "group_writable_file");
    case SymLink =>
      assert "sym_link" == "sym" + "_" + "link";
      SymbolOfWords(["sym", "link"], "sym_link");
    case GitSubModule =>
      assert "git_sub_module" == "git" + "_" + "sub" + "_" + "module";
      SymbolOfWords(["git", "sub", "module"], "git_sub_module");
  }

  /** `name.underscore` of every class is its type symbol. */
  lemma UnderscoreOfClassName(c: ObjectClass)
    ensures Underscore(ClassName(c)) == TypeSymbol(c)
  {
    ClassNameIsCapitalizedWords(c);
    TypeSymbolIsJoinedWords(c);
    UnderscoreOfCapitalized(ClassWords(c));
  }

  /** `camel_case` turns a type symbol back into its class name. */
  lemma CamelCaseOfTypeSymbol(c: ObjectClass)
    ensures CamelCase(TypeSymbol(c)) == ClassName(c)
  {
    ClassNameIsCapitalizedWords(c);
    TypeSymbolIsJoinedWords(c);
    CamelCaseOfJoined(ClassWords(c));
  }

  /** The type recorded in an object's header for instances of a class: the
      class that directly extends GitObject. */
  function BaseType(c: ObjectClass): (t: string)
    ensures t == "commit" || t == "tree" || t == "blob"
  {
    match c
    case Commit => "commit"
    case Tree => "tree"
    case _ => "blob"
  }

  /** VALID_MODES, in its declaration order. */
  const ModeTable: seq<(string, ObjectClass)> := [
    ("40000", Tree),
    ("100644", Blob),
    ("100755", ExecutableFile),
    ("100664", GroupWritableFile),
    ("120000", SymLink),
    ("160000", GitSubModule)
  ]

  /** VALID_MODES as a lookup from mode to class. */
  function ValidModes(): (m: map<string, ObjectClass>)
    ensures m.Keys == {"40000", "100644", "100755", "100664", "120000", "160000"}
    ensures forall i :: 0 <= i < |ModeTable| ==> m[ModeTable[i].0] == ModeTable[i].1
  {
    map["40000" := Tree, "100644" := Blob, "100755" := ExecutableFile,
        "100664" := GroupWritableFile, "120000" := SymLink, "160000" := GitSubModule]
  }

  /** The class a mode stands for, if it is a valid mode. */
  function ClassForMode(mode: string): (r: Option<ObjectClass>)
    ensures r.Some? <==> mode in ValidModes()
    ensures r.Some? ==> r.value != Commit && ValidModes()[mode] == r.value
  {
    if mode in ValidModes() then Some(ValidModes()[mode]) else None
  }

  /** `inject({}) { |acc, (mode, type)| acc.merge(type.underscore.to_sym => mode) }`
      over the first `n` rows of the table. */
  function ModesByTypeUpTo(n: nat): map<string, string>
    requires n <= |ModeTable|
    decreases n
  {
    if n == 0 then map[]
    else ModesByTypeUpTo(n - 1)[Underscore(ClassName(ModeTable[n - 1].1)) := ModeTable[n - 1].0]
  }

  /** `valid_modes_by_type`: the table reversed, keyed by type symbol.
      Every mode is found under its class's type symbol, and every entry
      is such a pair. */
  function ValidModesByType(): (r: map<string, string>)
    ensures forall m :: m in ValidModes() ==> TypeSymbol(ValidModes()[m]) in r && r[TypeSymbol(ValidModes()[m])] == m
    ensures forall t :: t in r ==> r[t] in ValidModes() && TypeSymbol(ValidModes()[r[t]]) == t
  {
    ModesByTypeOfTreesAndBlobs();
    ModesByTypeOfOtherBlobs();
    var r := ModesByTypeUpTo(|ModeTable|);
    TableReversed(r);
    r
  }

  /** The six pairs of the reversed table undo VALID_MODES. */
  lemma TableReversed(r: map<string, string>)
    requires r == map[
      "tree" := "40000", "blob" := "100644", "executable_file" := "100755",
      "group_writable_file" := "100664", "sym_link" := "120000", "git_sub_module" := "160000"]
    ensures forall m :: m in ValidModes() ==> TypeSymbol(ValidModes()[m]) in r && r[TypeSymbol(ValidModes()[m])] == m
    ensures forall t :: t in r ==> r[t] in ValidModes() && TypeSymbol(ValidModes()[r[t]]) == t
  {
    var vm := ValidModes();
    forall m | m in vm
      ensures TypeSymbol(vm[m]) in r && r[TypeSymbol(vm[m])] == m
    {
      assert m in {"40000", "100644", "100755", "100664", "120000", "160000"};
    }
    forall t | t in r
      ensures r[t] in vm && TypeSymbol(vm[r[t]]) == t
    {
      assert t in {"tree", "blob", "executable_file", "group_writable_file", "sym_link", "git_sub_module"};
    }
  }

  /** `mode_for_type`: the mode of a type symbol, nil for any other symbol.
      A mode found is one whose class has that type symbol; none is found
      exactly when no mode's class has it. */
  function ModeForType(t: string): (r: Option<string>)
    ensures r.Some? ==> r.value in ValidModes() && TypeSymbol(ValidModes()[r.value]) == t
    ensures r.None? <==> forall m :: m in ValidModes() ==> TypeSymbol(ValidModes()[m]) != t
  {
    if t in ValidModesByType() then Some(ValidModesByType()[t]) else None
  }

  /** The mode the table gives a class (none for Commit). */
  function ModeOf(c: ObjectClass): (r: Option<string>)
    ensures r.Some? <==> c != Commit
    ensures r.Some? ==> r.value in ValidModes() && ValidModes()[r.value] == c
  {
    match c
    case Commit => None
    case Tree => Some("40000")
    case Blob => Some("100644")
    case ExecutableFile => Some("100755")
    case GroupWritableFile => Some("100664")
    case SymLink => Some("120000")
    case GitSubModule => Some("160000")
  }

  /** One step of the fold: the row's type symbol is mapped to its mode. */
  lemma ModesByTypeStep(n: nat)
    requires 1 <= n <= |ModeTable|
    ensures ModesByTypeUpTo(n) == ModesByTypeUpTo(n - 1)[TypeSymbol(ModeTable[n - 1].1) := ModeTable[n - 1].0]
  {
    UnderscoreOfClassName(ModeTable[n - 1].1);
  }

  lemma ModesByTypeOfTreesAndBlobs()
    ensures ModesByTypeUpTo(3) == map["tree" := "40000", "blob" := "100644", "executable_file" := "100755"]
  {
    ModesByTypeStep(1);
    ModesByTypeStep(2);
    ModesByTypeStep(3);
  }

  lemma ModesByTypeOfOtherBlobs()
    ensures ModesByTypeUpTo(6) ==
      ModesByTypeUpTo(3)["group_writable_file" := "100664"]["sym_link" := "120000"]["git_sub_module" := "160000"]
  {
    ModesByTypeStep(4);
    ModesByTypeStep(5);
    ModesByTypeStep(6);
  }

  /** The reversed table holds exactly the six blob and tree type symbols. */
  lemma ValidModesByTypeContents()
    ensures ValidModesByType() == map[
      "tree" := "40000", "blob" := "100644", "executable_file" := "100755",
      "group_writable_file" := "100664", "sym_link" := "120000", "git_sub_module" := "160000"]
  {
    ModesByTypeOfTreesAndBlobs();
    ModesByTypeOfOtherBlobs();
  }

  /** `mode_for_type(kind.name.underscore)` is the mode VALID_MODES assigns
      to `kind`, and nothing for a commit. */
  lemma ModeForTypeOfClass(c: ObjectClass)
    ensures ModeForType(Underscore(ClassName(c))) == ModeOf(c)
  {
    ValidModesByTypeContents();
    UnderscoreOfClassName(c);
  }

  /** Every mode maps back to itself through its class's type symbol. */
  lemma ModeTableRoundTrip(mode: string)
    requires mode in ValidModes()
    ensures ModeForType(TypeSymbol(ValidModes()[mode])) == Some(mode)
  {
    ValidModesByTypeContents();
  }

  /** Every mode `mode_for_type` gives is one of VALID_MODES. */
  lemma ModeForTypeIsValid(t: string)
    ensures ModeForType(t).Some? ==> ModeForType(t).value in ValidModes()
  {
    ValidModesByTypeContents();
  }
}
