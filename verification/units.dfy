/** A unit's VHDL file (VHDLPackageExtension.toVHDL(HDLUnit)): the names
    derived from the unit's full name, the library and use clauses that
    open the file, the classification of source comments, and the assembly
    of package, entity and architecture from the merged context of the
    unit's statements. */
module Units {
  import opened Wrappers
  import Hdl
  import opened Vhdl
  import opened VhdlContext
  import OrderedMaps
  import Strings
  import Statements
  import Processes
  import opened Env
  import opened Names

  // ----- comments -----

  /** The normal and the documentation comments of an element. */
  datatype Comments = Comments(normal: seq<string>, doc: seq<string>)

  /** One source comment.  A line comment loses `//` and its last
      character (the line end) and is documentation when what is left
      starts with `/`, which is dropped together with a following `<`.
      Anything else is a block comment: it loses two characters at each
      end, is split into lines, and is documentation when it starts with
      `*`, dropped together with a following `<`.  A comment too short
      for its cuts throws. */
  function Classify(comment: string): (r: Result<Comments>)
    ensures r.Ok? <==> if Strings.StartsWith(comment, "//") then |comment| >= 3 else |comment| >= 4
    ensures r.Ok? ==> |r.value.normal| == 0 || |r.value.doc| == 0
    ensures r.Ok? && Strings.StartsWith(comment, "//") ==> |r.value.normal| + |r.value.doc| == 1
  {
    if Strings.StartsWith(comment, "//") then
      if |comment| < 3 then Err(IndexOutOfBounds)
      else
        var t := comment[2..|comment| - 1];
        if Strings.StartsWith(t, "/") then
          Ok(Comments([], [if Strings.StartsWith(t, "/<") then t[2..] else t[1..]]))
        else Ok(Comments([t], []))
    else if |comment| < 4 then Err(IndexOutOfBounds)
    else
      var t := comment[2..|comment| - 2];
      if Strings.StartsWith(t, "*") then
        Ok(Comments([], Strings.Split(if Strings.StartsWith(t, "*<") then t[2..] else t[1..], '\n')))
      else Ok(Comments(Strings.Split(t, '\n'), []))
  }

  /** A line comment written as `//text` gives its text back, and one
      written as `///text` or `///<text` gives it back as documentation. */
  lemma LineCommentRoundTrip(text: string, eol: char)
    requires !Strings.StartsWith(text, "/")
    ensures Classify("//" + text + [eol]) == Ok(Comments([text], []))
    ensures Classify("///<" + text + [eol]) == Ok(Comments([], [text]))
    ensures !Strings.StartsWith(text, "<") ==> Classify("///" + text + [eol]) == Ok(Comments([], [text]))
  {
    var c := "//" + text + [eol];
    assert c[..2] == "//" && c[2..|c| - 1] == text;
    var d := "///<" + text + [eol];
    assert d[..2] == "//" && d[2..|d| - 1] == "/<" + text;
    assert ("/<" + text)[..1] == "/" && ("/<" + text)[..2] == "/<" && ("/<" + text)[2..] == text;
    var e := "///" + text + [eol];
    assert e[..2] == "//" && e[2..|e| - 1] == "/" + text;
    assert ("/" + text)[..1] == "/" && ("/" + text)[1..] == text;
    if |text| >= 1 {
      assert ("/" + text)[..2] == "/" + text[..1];
    }
  }

  /** A block comment `/*` lines `*/` gives its lines back, and one written
      `/**<` lines `*/` gives them back as documentation, when no line holds
      a line end and, for several lines, the last is not empty. */
  lemma BlockCommentRoundTrip(lines: seq<string>)
    requires |lines| >= 1 && (|lines| == 1 || lines[|lines| - 1] != "")
    requires forall i :: 0 <= i < |lines| ==> '\n' !in lines[i]
    ensures var body := Strings.Join(lines, '\n');
            !Strings.StartsWith(body, "*") ==> Classify("/*" + body + "*/") == Ok(Comments(lines, []))
    ensures Classify("/**<" + Strings.Join(lines, '\n') + "*/") == Ok(Comments([], lines))
  {
    var body := Strings.Join(lines, '\n');
    Strings.SplitJoin(lines, '\n');
    if !Strings.StartsWith(body, "*") {
      BlockCommentNormal(body);
    }
    BlockCommentDoc(body);
  }

  lemma BlockCommentNormal(body: string)
    requires !Strings.StartsWith(body, "*")
    ensures Classify("/*" + body + "*/") == Ok(Comments(Strings.Split(body, '\n'), []))
  {
    var c := "/*" + body + "*/";
    assert c[2..|c| - 2] == body;
    if |body| >= 2 {
      assert c[..2] == "/*";
    } else {
      assert !Strings.StartsWith(c, "//") by {
        assert c[1] == '*';
      }
    }
  }

  lemma BlockCommentDoc(body: string)
    ensures Classify("/**<" + body + "*/") == Ok(Comments([], Strings.Split(body, '\n')))
  {
    var d := "/**<" + body + "*/";
    assert d[..2] == "/*";
    assert d[2..|d| - 2] == "*<" + body;
    assert ("*<" + body)[..1] == "*" && ("*<" + body)[..2] == "*<" && ("*<" + body)[2..] == body;
  }

  /** The comments of a list, in order; the first that throws ends it. */
  function CollectComments(cs: seq<string>): (r: Result<Comments>)
    ensures r.Ok? <==> forall i :: 0 <= i < |cs| ==> Classify(cs[i]).Ok?
  {
    if |cs| == 0 then Ok(Comments([], []))
    else
      assert forall i :: 1 <= i < |cs| ==> cs[1..][i - 1] == cs[i];
      Both(Classify(cs[0]), CollectComments(cs[1..]))
  }

  /** The comments of one element followed by those of the rest; the first
      failure is the one reported. */
  function Both(first: Result<Comments>, rest: Result<Comments>): (r: Result<Comments>)
    ensures r.Ok? <==> first.Ok? && rest.Ok?
  {
    var k :- first;
    var m :- rest;
    Ok(Comments(k.normal + m.normal, k.doc + m.doc))
  }

  /** Combining comments is associative. */
  lemma BothAssociative(x: Result<Comments>, y: Result<Comments>, z: Result<Comments>)
    ensures Both(x, Both(y, z)) == Both(Both(x, y), z)
  {
    if x.Ok? && y.Ok? && z.Ok? {
      assert x.value.normal + (y.value.normal + z.value.normal) == (x.value.normal + y.value.normal) + z.value.normal;
      assert x.value.doc + (y.value.doc + z.value.doc) == (x.value.doc + y.value.doc) + z.value.doc;
    }
  }

  /** Collecting two lists of comments one after the other is collecting
      their concatenation: each kind keeps the order of the source, and the
      first comment that throws is the one reported. */
  lemma {:induction false} CollectConcat(a: seq<string>, b: seq<string>)
    ensures CollectComments(a + b) == Both(CollectComments(a), CollectComments(b))
  {
    if |a| == 0 {
      assert a + b == b;
      var rb := CollectComments(b);
      assert rb.Ok? ==> rb.value.normal == [] + rb.value.normal && rb.value.doc == [] + rb.value.doc;
    } else {
      var k := Classify(a[0]);
      assert (a + b)[0] == a[0];
      assert (a + b)[1..] == a[1..] + b;
      assert CollectComments(a + b) == Both(k, CollectComments(a[1..] + b));
      CollectConcat(a[1..], b);
      BothAssociative(k, CollectComments(a[1..]), CollectComments(b));
    }
  }

  /** attachComments: the documentation comments, the normal ones, or the
      normal ones followed by the documentation ones, as the element asks;
      nothing when it asks for neither.  The entity takes the documentation
      comments of its unit and the architecture the normal ones. */
  function AttachComments(cs: seq<string>, doc: bool, normal: bool): (r: Result<Option<seq<string>>>)
    ensures r.Ok? <==> CollectComments(cs).Ok?
    ensures r.Ok? ==> (r.value.Some? <==> doc || normal)
    ensures r.Ok? && doc && normal ==>
              r.value.value == CollectComments(cs).value.normal + CollectComments(cs).value.doc
    ensures r.Ok? && doc && !normal ==> r.value.value == CollectComments(cs).value.doc
    ensures r.Ok? && !doc && normal ==> r.value.value == CollectComments(cs).value.normal
  {
    var k :- CollectComments(cs);
    if doc && normal then Ok(Some(k.normal + k.doc))
    else if doc then Ok(Some(k.doc))
    else if normal then Ok(Some(k.normal))
    else Ok(None)
  }

  // ----- library and use clauses -----

  datatype PkgItem = PkgType(t: VType) | PkgConstant(c: Constant)

  datatype ArchItem = ComponentItem(comp: Component) | InternalItem(internal: Internal)

  /** The design units and context clauses of a file, in file order. */
  datatype LibraryUnit =
    | LibraryClause(lib: string)
    | UseClause(useName: string)
    | PackageDeclaration(pkgName: string, pkgItems: seq<PkgItem>)
    | Entity(entityName: string, ports: seq<Signal>, generics: seq<Constant>, entityItems: seq<DeclItem>)
    | Architecture(archName: string, ofEntity: string, archItems: seq<ArchItem>, archStmts: seq<Concurrent>)

  /** The libraries a file may use without a library clause of its own. */
  const Preseeded: set<string> := {"ieee", "work"}

  /** staticImports: the ieee library and the five packages every file
      uses. */
  function StaticImports(castsUse: string): (r: seq<LibraryUnit>)
    ensures |r| == 6 && r[0] == LibraryClause("ieee")
    ensures forall i :: 1 <= i < 6 ==> r[i].UseClause?
  {
    [LibraryClause("ieee"),
     UseClause("ieee.std_logic_1164.all"),
     UseClause("ieee.numeric_std.all"),
     UseClause(castsUse),
     UseClause("work.ShiftOps.ALL"),
     UseClause("work.Types.ALL")]
  }

  /** The names in the use clauses, in order. */
  function Uses(us: seq<LibraryUnit>): seq<string> {
    if |us| == 0 then []
    else (if us[0].UseClause? then [us[0].useName] else []) + Uses(us[1..])
  }

  /** The libraries of the library clauses, in order. */
  function Libs(us: seq<LibraryUnit>): seq<string> {
    if |us| == 0 then []
    else (if us[0].LibraryClause? then [us[0].lib] else []) + Libs(us[1..])
  }

  /** Use and library clauses distribute over concatenation. */
  lemma ClausesConcat(a: seq<LibraryUnit>, b: seq<LibraryUnit>)
    ensures Uses(a + b) == Uses(a) + Uses(b)
    ensures Libs(a + b) == Libs(a) + Libs(b)
  {
    UsesConcat(a, b);
    LibsConcat(a, b);
  }

  lemma {:induction false} UsesConcat(a: seq<LibraryUnit>, b: seq<LibraryUnit>)
    ensures Uses(a + b) == Uses(a) + Uses(b)
  {
    if |a| == 0 {
      assert a + b == b;
    } else {
      var h := if a[0].UseClause? then [a[0].useName] else [];
      assert (a + b)[0] == a[0];
      assert (a + b)[1..] == a[1..] + b;
      UsesConcat(a[1..], b);
      assert Uses(a + b) == h + (Uses(a[1..]) + Uses(b));
    }
  }

  lemma {:induction false} LibsConcat(a: seq<LibraryUnit>, b: seq<LibraryUnit>)
    ensures Libs(a + b) == Libs(a) + Libs(b)
  {
    if |a| == 0 {
      assert a + b == b;
    } else {
      var h := if a[0].LibraryClause? then [a[0].lib] else [];
      assert (a + b)[0] == a[0];
      assert (a + b)[1..] == a[1..] + b;
      LibsConcat(a[1..], b);
      assert Libs(a + b) == h + (Libs(a[1..]) + Libs(b));
    }
  }

  /** The use clause of an import: its segments and `all`, joined by dots. */
  function UseName(i: Hdl.QName): string {
    Strings.Join(i + ["all"], '.')
  }

  /** The clauses addDefaultLibs adds for the imports: per import a library
      clause for its first segment unless that library is already known,
      then its use clause.  The first segment of an empty import does not
      exist. */
  function ImportClauses(imports: seq<Hdl.QName>, known: set<string>): (r: Result<seq<LibraryUnit>>)
    ensures r.Ok? <==> forall j :: 0 <= j < |imports| ==> |imports[j]| > 0
    ensures r.Ok? ==> |Uses(r.value)| == |imports|
    ensures r.Ok? ==> forall j :: 0 <= j < |imports| ==> Uses(r.value)[j] == UseName(imports[j])
    ensures r.Ok? ==> OrderedMaps.Distinct(Libs(r.value))
    ensures r.Ok? ==> forall l :: l in Libs(r.value) <==>
                        l !in known && exists j :: 0 <= j < |imports| && imports[j][0] == l
  {
    if |imports| == 0 then Ok([])
    else if |imports[0]| == 0 then Err(IndexOutOfBounds)
    else
      var lib := imports[0][0];
      var rest := ImportClauses(imports[1..], known + {lib});
      ImportsTail(imports);
      if rest.Err? then Err(rest.fault)
      else
        var head := ImportHead(imports[0], known);
        ImportClausesStep(imports, known, head, rest.value);
        Ok(head + rest.value)
  }

  /** The clauses of the first import: its library when new, then its use. */
  function ImportHead(i: Hdl.QName, known: set<string>): (r: seq<LibraryUnit>)
    requires |i| > 0
    ensures Uses(r) == [UseName(i)]
    ensures Libs(r) == if i[0] in known then [] else [i[0]]
  {
    var use := [UseClause(UseName(i))];
    assert Uses(use) == [UseName(i)] && Libs(use) == [];
    if i[0] in known then use
    else
      var r := [LibraryClause(i[0])] + use;
      assert r[1..] == use;
      r
  }

  lemma ImportsTail(imports: seq<Hdl.QName>)
    requires |imports| > 0
    ensures (forall j :: 0 <= j < |imports| ==> |imports[j]| > 0) <==>
              |imports[0]| > 0 && forall j :: 0 <= j < |imports[1..]| ==> |imports[1..][j]| > 0
  {
    assert forall j :: 1 <= j < |imports| ==> imports[1..][j - 1] == imports[j];
  }

  /** The inductive step of ImportClauses' contract. */
  lemma ImportClausesStep(imports: seq<Hdl.QName>, known: set<string>, head: seq<LibraryUnit>, rest: seq<LibraryUnit>)
    requires |imports| > 0 && forall j :: 0 <= j < |imports| ==> |imports[j]| > 0
    requires head == ImportHead(imports[0], known)
    requires |Uses(rest)| == |imports| - 1
    requires forall j :: 0 <= j < |imports[1..]| ==> Uses(rest)[j] == UseName(imports[1..][j])
    requires OrderedMaps.Distinct(Libs(rest))
    requires forall l :: l in Libs(rest) <==>
               l !in known + {imports[0][0]} && exists j :: 0 <= j < |imports[1..]| && imports[1..][j][0] == l
    ensures |Uses(head + rest)| == |imports|
    ensures forall j :: 0 <= j < |imports| ==> Uses(head + rest)[j] == UseName(imports[j])
    ensures OrderedMaps.Distinct(Libs(head + rest))
    ensures forall l :: l in Libs(head + rest) <==>
              l !in known && exists j :: 0 <= j < |imports| && imports[j][0] == l
  {
    ClausesConcat(head, rest);
    UsesStep(imports, Uses(rest));
    LibsStep(imports, known, Libs(rest));
  }

  lemma UsesStep(imports: seq<Hdl.QName>, us: seq<string>)
    requires |imports| > 0 && |us| == |imports| - 1
    requires forall j :: 0 <= j < |imports[1..]| ==> us[j] == UseName(imports[1..][j])
    ensures forall j :: 0 <= j < |imports| ==> ([UseName(imports[0])] + us)[j] == UseName(imports[j])
  {
    forall j | 0 <= j < |imports| ensures ([UseName(imports[0])] + us)[j] == UseName(imports[j]) {
      if j > 0 {
        assert imports[1..][j - 1] == imports[j];
      }
    }
  }

  lemma LibsStep(imports: seq<Hdl.QName>, known: set<string>, ls: seq<string>)
    requires |imports| > 0 && forall j :: 0 <= j < |imports| ==> |imports[j]| > 0
    requires OrderedMaps.Distinct(ls)
    requires forall l :: l in ls <==>
               l !in known + {imports[0][0]} && exists j :: 0 <= j < |imports[1..]| && imports[1..][j][0] == l
    ensures var hs := if imports[0][0] in known then [] else [imports[0][0]];
            && OrderedMaps.Distinct(hs + ls)
            && forall l :: l in hs + ls <==> l !in known && exists j :: 0 <= j < |imports| && imports[j][0] == l
  {
    var lib := imports[0][0];
    var hs := if lib in known then [] else [lib];
    assert lib !in ls;
    if lib !in known {
      assert (hs + ls)[1..] == ls;
    } else {
      assert hs + ls == ls;
    }
    forall l ensures l in hs + ls <==> l !in known && exists j :: 0 <= j < |imports| && imports[j][0] == l {
      if l in ls {
        var j :| 0 <= j < |imports[1..]| && imports[1..][j][0] == l;
        assert imports[j + 1] == imports[1..][j];
      }
      if l !in known && exists j :: 0 <= j < |imports| && imports[j][0] == l {
        var j :| 0 <= j < |imports| && imports[j][0] == l;
        if j > 0 && l != lib {
          assert imports[1..][j - 1] == imports[j];
        }
      }
    }
  }

  /** addDefaultLibs: the static imports, then the clauses of the imports,
      with `ieee` and `work` known from the start.  Every library clause
      names a different library. */
  function DefaultLibs(castsUse: string, imports: seq<Hdl.QName>): (r: Result<seq<LibraryUnit>>)
    ensures r.Ok? <==> forall j :: 0 <= j < |imports| ==> |imports[j]| > 0
    ensures r.Ok? ==> |r.value| >= 6 && r.value[..6] == StaticImports(castsUse)
    ensures r.Ok? ==> |Uses(r.value)| == 5 + |imports|
    ensures r.Ok? ==> Uses(r.value)[..5] == Uses(StaticImports(castsUse))
    ensures r.Ok? ==> forall j :: 0 <= j < |imports| ==> Uses(r.value)[5 + j] == UseName(imports[j])
    ensures r.Ok? ==> OrderedMaps.Distinct(Libs(r.value))
  {
    var clauses :- ImportClauses(imports, Preseeded);
    var s := StaticImports(castsUse);
    ClausesConcat(s, clauses);
    StaticClauses(castsUse);
    assert (s + clauses)[..6] == s;
    assert "ieee" !in Libs(clauses);
    assert Libs(s + clauses) == ["ieee"] + Libs(clauses);
    Ok(s + clauses)
  }

  /** The static imports declare `ieee` and use five packages. */
  lemma StaticClauses(castsUse: string)
    ensures Libs(StaticImports(castsUse)) == ["ieee"]
    ensures |Uses(StaticImports(castsUse))| == 5
  {
    var s := StaticImports(castsUse);
    assert s[5..][1..] == [];
    assert Libs(s[5..]) == [] && |Uses(s[5..])| == 1;
    assert s[4..][1..] == s[5..];
    assert Libs(s[4..]) == [] && |Uses(s[4..])| == 2;
    assert s[3..][1..] == s[4..];
    assert Libs(s[3..]) == [] && |Uses(s[3..])| == 3;
    assert s[2..][1..] == s[3..];
    assert Libs(s[2..]) == [] && |Uses(s[2..])| == 4;
    assert s[1..][1..] == s[2..];
    assert Libs(s[1..]) == [] && |Uses(s[1..])| == 5;
  }

  /** The library a use clause draws on: the text before its first dot. */
  function UseLibrary(useName: string): string {
    var parts := Strings.Split(useName, '.');
    if |parts| == 0 then "" else parts[0]
  }

  /** Read in order, every use clause draws on a library that an earlier
      library clause declared or that was known from the start. */
  predicate LibrariesDeclared(us: seq<LibraryUnit>, known: set<string>) {
    |us| == 0 ||
    match us[0]
    case LibraryClause(l) => LibrariesDeclared(us[1..], known + {l})
    case UseClause(u) => UseLibrary(u) in known && LibrariesDeclared(us[1..], known)
    case _ => LibrariesDeclared(us[1..], known)
  }

  /** The use clause of an import draws on its first segment, when no
      segment holds a dot. */
  lemma UseNameLibrary(i: Hdl.QName)
    requires |i| > 0 && forall k :: 0 <= k < |i| ==> '.' !in i[k]
    ensures UseLibrary(UseName(i)) == i[0]
  {
    var parts := i + ["all"];
    assert forall k :: 0 <= k < |parts| ==> '.' !in parts[k] by {
      forall k | 0 <= k < |parts| ensures '.' !in parts[k] {
        if k < |i| {
          assert parts[k] == i[k];
        }
      }
    }
    Strings.SplitJoin(parts, '.');
  }

  /** Every import's use clause comes after a declaration of its library:
      the clauses addDefaultLibs adds never use an undeclared library. */
  lemma {:induction false} ImportsDeclared(imports: seq<Hdl.QName>, known: set<string>)
    requires forall j :: 0 <= j < |imports| ==> |imports[j]| > 0
    requires forall j, k :: 0 <= j < |imports| && 0 <= k < |imports[j]| ==> '.' !in imports[j][k]
    ensures LibrariesDeclared(ImportClauses(imports, known).value, known)
  {
    if |imports| > 0 {
      var lib := imports[0][0];
      var rest := ImportClauses(imports[1..], known + {lib});
      ImportsTail(imports);
      assert ImportClauses(imports, known).value == ImportHead(imports[0], known) + rest.value;
      ImportsDeclared(imports[1..], known + {lib});
      UseNameLibrary(imports[0]);
      HeadDeclared(imports[0], known, rest.value);
    }
  }

  /** The clauses of one import followed by clauses that are fine once its
      library is known. */
  lemma HeadDeclared(i: Hdl.QName, known: set<string>, rest: seq<LibraryUnit>)
    requires |i| > 0 && UseLibrary(UseName(i)) == i[0]
    requires LibrariesDeclared(rest, known + {i[0]})
    ensures LibrariesDeclared(ImportHead(i, known) + rest, known)
  {
    var h := ImportHead(i, known) + rest;
    if i[0] in known {
      assert known + {i[0]} == known;
      assert h[0] == UseClause(UseName(i));
      assert h[1..] == rest;
    } else {
      assert h[0] == LibraryClause(i[0]);
      assert h[1..][0] == UseClause(UseName(i));
      assert h[1..][1..] == rest;
    }
  }

  // ----- the unit -----

  /** How one reference found in the unit uses a type: an enum reference
      names the full name of the enum it resolves to (nothing when it does
      not resolve) and whether that enum is declared in this unit; a
      variable reference likewise, and says whether it is an interface
      reference. */
  datatype TypeUse =
    | EnumUse(enumName: Option<Hdl.QName>, local: bool)
    | VarUse(varName: Option<Hdl.QName>, local: bool, viaInterface: bool)

  /** The import of the package of the unit a foreign enum or variable
      belongs to; types under the `pshdl` root need none. */
  function UseImport(u: TypeUse, c: Ctx): (r: Result<Ctx>)
    ensures r.Ok? ==> r.value.stmts == c.stmts && r.value.decls.(imports := c.decls.imports) == c.decls
    ensures r.Ok? ==> forall m :: m in r.value.decls.imports <==>
              m in c.decls.imports || ForeignPackage(u) == Some(m)
  {
    match u
    case EnumUse(n, local) =>
      var t :- Need(n, Fault.Unresolved);
      if local then Ok(c)
      else if |t| == 0 then Err(IndexOutOfBounds)
      else if t[0] == "pshdl" then Ok(c)
      else
        assert Hdl.SkipLast(["work", PackageName(t), "all"], 1) == ["work", PackageName(t)];
        Ok(AddImport(c, ["work", PackageName(t), "all"]))
    case VarUse(n, local, viaInterface) =>
      if viaInterface then Ok(c)
      else
        var full :- Need(n, Fault.Unresolved);
        var t := Hdl.SkipLast(full, 1);
        if local then Ok(c)
        else if |t| > 0 && t[0] != "pshdl" then
          assert Hdl.SkipLast(["work", PackageName(t), "all"], 1) == ["work", PackageName(t)];
          Ok(AddImport(c, ["work", PackageName(t), "all"]))
        else Ok(c)
  }

  /** The unit whose package a type use imports, if any. */
  function ForeignUnit(u: TypeUse): Option<Hdl.QName> {
    match u
    case EnumUse(n, local) =>
      if n.None? || local || |n.value| == 0 || n.value[0] == "pshdl" then None else n
    case VarUse(n, local, viaInterface) =>
      if viaInterface || n.None? || local then None
      else
        var t := Hdl.SkipLast(n.value, 1);
        if |t| > 0 && t[0] != "pshdl" then Some(t) else None
  }

  /** The package reference imported for a type use: nothing, or the
      package name reference of the foreign unit. */
  function ForeignPackage(u: TypeUse): Option<Hdl.QName> {
    match ForeignUnit(u)
    case None => None
    case Some(t) => Some(["work", PackageName(t)])
  }

  /** A foreign unit outside the `VHDL` root is imported through exactly
      the reference getPackageNameRef gives it. */
  lemma ForeignPackageRef(u: TypeUse)
    requires ForeignUnit(u).Some? && ForeignUnit(u).value[0] != "VHDL"
    ensures PackageNameRef(ForeignUnit(u).value) == Ok(ForeignPackage(u).value)
  {
  }

  function UseImports(uses: seq<TypeUse>, c: Ctx): (r: Result<Ctx>)
    ensures r.Ok? ==> r.value.stmts == c.stmts && r.value.decls.(imports := c.decls.imports) == c.decls
    ensures r.Ok? ==> forall m :: m in r.value.decls.imports <==>
              m in c.decls.imports || exists j :: 0 <= j < |uses| && ForeignPackage(uses[j]) == Some(m)
  {
    if |uses| == 0 then Ok(c)
    else
      var c' :- UseImport(uses[0], c);
      var rest :- UseImports(uses[1..], c');
      assert forall j :: 1 <= j < |uses| ==> uses[1..][j - 1] == uses[j];
      Ok(rest)
  }

  /** The unit's statements lowered in the default context, inits first,
      each fragment merged in order; a statement that produces no fragment
      is skipped. */
  function LowerTop(env: Env, ss: seq<Hdl.Stmt>, from: nat, counter: nat, acc: Ctx): (r: Result<(Ctx, nat)>)
    requires from <= |ss| && Valid(acc)
    ensures r.Ok? ==> Valid(r.value.0) && r.value.1 >= counter
    decreases |ss| - from
  {
    if from == |ss| then Ok((acc, counter))
    else
      var l :- Statements.Lower(env, ss[from], DefaultCtx, counter);
      match l.frag
      case None => LowerTop(env, ss, from + 1, l.counter, acc)
      case Some(f) => LowerTop(env, ss, from + 1, l.counter, Merge(acc, f, false))
  }

  /** Where every statement produces a fragment, the unit's fold is the
      fold of a block in the default context; the two differ only in that a
      block fails on a missing fragment where the unit skips it. */
  lemma {:induction false} LowerTopAsBlock(env: Env, ss: seq<Hdl.Stmt>, from: nat, counter: nat, acc: Ctx, missing: Fault)
    requires from <= |ss| && Valid(acc)
    requires Statements.LowerSeq(env, ss, from, DefaultCtx, counter, acc, missing).Ok?
    ensures LowerTop(env, ss, from, counter, acc) == Statements.LowerSeq(env, ss, from, DefaultCtx, counter, acc, missing)
    decreases |ss| - from
  {
    if from < |ss| {
      var l := Statements.Lower(env, ss[from], DefaultCtx, counter).value;
      LowerTopAsBlock(env, ss, from + 1, l.counter, Merge(acc, l.frag.value, false), missing);
    }
  }

  /** The values of the component map, in the order of its keys. */
  function ComponentItems(m: OrderedMaps.OMap<string, Component>, ks: seq<string>): (r: seq<ArchItem>)
    requires forall k :: k in ks ==> k in m.entries
    ensures |r| == |ks|
    ensures forall i :: 0 <= i < |ks| ==> r[i] == ComponentItem(m.entries[ks[i]])
  {
    if |ks| == 0 then []
    else [ComponentItem(m.entries[ks[0]])] + ComponentItems(m, ks[1..])
  }

  function PkgItems(ts: seq<VType>, cs: seq<Constant>): (r: seq<PkgItem>)
    ensures |r| == |ts| + |cs|
    ensures forall i :: 0 <= i < |ts| ==> r[i] == PkgType(ts[i])
    ensures forall i :: 0 <= i < |cs| ==> r[|ts| + i] == PkgConstant(cs[i])
  {
    if |ts| > 0 then [PkgType(ts[0])] + PkgItems(ts[1..], cs)
    else if |cs| > 0 then [PkgConstant(cs[0])] + PkgItems(ts, cs[1..])
    else []
  }

  function InternalItems(ds: seq<Internal>): (r: seq<ArchItem>)
    ensures |r| == |ds|
    ensures forall i :: 0 <= i < |ds| ==> r[i] == InternalItem(ds[i])
  {
    if |ds| == 0 then [] else [InternalItem(ds[0])] + InternalItems(ds[1..])
  }

  /** The file of a unit from its merged context.  The default clauses come
      first; a unit with package declarations then has its package, a use
      clause for it and the default clauses again; then the entity, named
      by the dashed full name, and its architecture `pshdlGenerated`,
      declaring the components and internals and holding the concurrent
      statements followed by the processes. */
  function UnitFile(env: Env, find: Processes.Finder, fullName: Hdl.QName, c: Ctx): (r: Result<seq<LibraryUnit>>)
    requires Valid(c)
    ensures r.Ok? <==> DefaultLibs(env.castsUse, c.decls.imports).Ok? && Processes.Processes(env, find, c).Ok?
    ensures r.Ok? ==>
              r.value == FileOf(fullName, c, DefaultLibs(env.castsUse, c.decls.imports).value,
                                Processes.Processes(env, find, c).value)
  {
    var libs :- DefaultLibs(env.castsUse, c.decls.imports);
    var procs :- Processes.Processes(env, find, c);
    Ok(FileOf(fullName, c, libs, procs))
  }

  /** The file of a unit, given its default clauses and its processes. */
  function FileOf(fullName: Hdl.QName, c: Ctx, libs: seq<LibraryUnit>, procs: seq<Concurrent>): (r: seq<LibraryUnit>)
    requires Valid(c)
    ensures var n := |r|;
            && n >= |libs| + 2
            && r[n - 2] == Entity(DashString(fullName), c.decls.ports, c.decls.generics,
                                  c.decls.internalTypesConstants)
            && r[n - 1].Architecture?
            && r[n - 1].archName == "pshdlGenerated"
            && r[n - 1].ofEntity == DashString(fullName)
            && r[n - 1].archStmts == c.stmts.concurrent + procs
    ensures var n := |r|;
            && r[..|libs|] == libs
            && (HasPkgDeclarations(c) <==> n > |libs| + 2)
            && (HasPkgDeclarations(c) ==>
                  && r[|libs|] == PackageDeclaration(PackageName(fullName),
                                                     PkgItems(c.decls.externalTypes, c.decls.constantsPkg))
                  && r[|libs| + 1] == UseClause("work." + PackageName(fullName) + ".all")
                  && r[|libs| + 2..n - 2] == libs)
  {
    var pkgName := PackageName(fullName);
    var pkg :=
      if HasPkgDeclarations(c) then
        [PackageDeclaration(pkgName, PkgItems(c.decls.externalTypes, c.decls.constantsPkg)),
         UseClause("work." + pkgName + ".all")] + libs
      else [];
    var name := DashString(fullName);
    var items := ComponentItems(c.decls.components, c.decls.components.keys) + InternalItems(c.decls.internals);
    var e := Entity(name, c.decls.ports, c.decls.generics, c.decls.internalTypesConstants);
    var a := Architecture("pshdlGenerated", name, items, c.stmts.concurrent + procs);
    PackagePartLayout(libs, pkg, e, a, HasPkgDeclarations(c), pkgName,
                      PkgItems(c.decls.externalTypes, c.decls.constantsPkg));
    Assemble(libs, pkg, e, a)
  }

  /** The clauses around the package part: the default clauses, then the
      package, its use clause and the default clauses again when there is
      one, then the entity and the architecture. */
  lemma PackagePartLayout(libs: seq<LibraryUnit>, pkg: seq<LibraryUnit>, e: LibraryUnit, a: LibraryUnit,
                          hasPkg: bool, pkgName: string, items: seq<PkgItem>)
    requires pkg == if hasPkg then [PackageDeclaration(pkgName, items), UseClause("work." + pkgName + ".all")] + libs else []
    ensures var r := Assemble(libs, pkg, e, a);
            var n := |r|;
            && n >= |libs| + 2
            && r[..|libs|] == libs
            && (hasPkg <==> n > |libs| + 2)
            && (hasPkg ==>
                  && r[|libs|] == PackageDeclaration(pkgName, items)
                  && r[|libs| + 1] == UseClause("work." + pkgName + ".all")
                  && r[|libs| + 2..n - 2] == libs)
  {
    var r := Assemble(libs, pkg, e, a);
    if hasPkg {
      assert r[|libs|] == pkg[0] && r[|libs| + 1] == pkg[1];
      assert r[|libs| + 2..|r| - 2] == pkg[2..];
    }
  }

  /** The file in its order: default clauses, package part, entity,
      architecture. */
  function Assemble(libs: seq<LibraryUnit>, pkg: seq<LibraryUnit>, e: LibraryUnit, a: LibraryUnit): (r: seq<LibraryUnit>)
    ensures |r| == |libs| + |pkg| + 2
    ensures r[..|libs|] == libs
    ensures forall i :: 0 <= i < |pkg| ==> r[|libs| + i] == pkg[i]
    ensures r[|r| - 2] == e && r[|r| - 1] == a
  {
    libs + pkg + [e, a]
  }

  /** toVHDL(HDLUnit): the imports of foreign packages, the statements
      lowered and merged, and the file built from the result. */
  function LowerUnit(env: Env, find: Processes.Finder, fullName: Hdl.QName, uses: seq<TypeUse>,
                     inits: seq<Hdl.Stmt>, stmts: seq<Hdl.Stmt>, counter: nat): (r: Result<(seq<LibraryUnit>, nat)>)
    ensures r.Ok? ==> r.value.1 >= counter
    ensures r.Ok? ==> |r.value.0| >= 2 && r.value.0[|r.value.0| - 2].Entity?
                      && r.value.0[|r.value.0| - 2].entityName == DashString(fullName)
    ensures r.Ok? ==> UseImports(uses, Empty()).Ok?
  {
    var c0 :- UseImports(uses, Empty());
    assert Valid(c0);
    var top :- LowerTop(env, inits + stmts, 0, counter, c0);
    var file :- UnitFile(env, find, fullName, top.0);
    Ok((file, top.1))
  }
}
