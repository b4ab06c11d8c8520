/** The accumulator every lowering step returns (VHDLContext): statement
    buckets keyed by normalised clock configuration or by process id, and the
    flat lists of declarations a unit collects.

    The Java object is mutated in place; here each operation returns the
    updated context.  The process-id counter, a static AtomicInteger in the
    source, is an explicit natural number threaded through the lowering. */
module VhdlContext {
  import opened Wrappers
  import opened OrderedMaps
  import SortedSets
  import Hdl
  import opened Vhdl

  /** The process id of statements outside any process block. */
  const DefaultCtx: int := -1

  /** The statement part of a context: everything `merge` skips when told
      to exclude statements. */
  datatype Statements = Statements(
    resets: Buckets<Hdl.RegisterConfig, SeqStmt>,
    clocked: Buckets<Hdl.RegisterConfig, SeqStmt>,
    concurrent: seq<Concurrent>,
    unclocked: Buckets<int, SeqStmt>,
    sensitive: Buckets<int, Hdl.Stmt>)   // the source statement of each unclocked one

  /** The declaration part of a context, which `merge` always combines. */
  datatype Declarations = Declarations(
    noSensitivity: set<int>,
    ports: seq<Signal>,
    constants: seq<Constant>,
    constantsPkg: seq<Constant>,
    generics: seq<Constant>,
    components: OMap<string, Component>,
    internals: seq<Internal>,
    internalTypes: seq<VType>,
    externalTypes: seq<VType>,
    internalTypesConstants: seq<DeclItem>,
    imports: seq<Hdl.QName>)             // a TreeSet: sorted, no duplicates

  datatype Ctx = Ctx(stmts: Statements, decls: Declarations)

  /** For every process id the output statements and their source statements
      come in pairs, under the same keys in the same order.  Every operation
      keeps this; it is stated apart from validity to keep the proofs small. */
  ghost predicate Lockstep(s: Statements) {
    && s.unclocked.keys == s.sensitive.keys
    && forall pid :: |Lookup(s.unclocked, pid)| == |Lookup(s.sensitive, pid)|
  }

  ghost predicate ValidStatements(s: Statements) {
    && OrderedMaps.Valid(s.resets)
    && OrderedMaps.Valid(s.clocked)
    && OrderedMaps.Valid(s.unclocked)
    && OrderedMaps.Valid(s.sensitive)
  }

  ghost predicate ValidDeclarations(d: Declarations) {
    OrderedMaps.Valid(d.components)
  }

  /** The maps are well formed; every operation needs this. */
  ghost predicate Valid(c: Ctx) {
    ValidStatements(c.stmts) && ValidDeclarations(c.decls)
  }

  /** The imports are in the order of their TreeSet, without duplicates. */
  ghost predicate ImportsSorted(d: Declarations) {
    SortedSets.Sorted(SortedSets.NameLess, d.imports)
  }

  /** The invariants every operation keeps. */
  ghost predicate Consistent(c: Ctx) {
    Lockstep(c.stmts) && ImportsSorted(c.decls)
  }

  /** A freshly constructed context. */
  function Empty(): (r: Ctx)
    ensures Valid(r)
    ensures forall k :: Lookup(r.stmts.clocked, k) == [] && Lookup(r.stmts.resets, k) == []
    ensures forall pid :: Lookup(r.stmts.unclocked, pid) == [] && Lookup(r.stmts.sensitive, pid) == []
    ensures r.stmts.concurrent == [] && r.decls.imports == []
    ensures Consistent(r)
  {
    Ctx(Statements(OrderedMaps.Empty(), OrderedMaps.Empty(), [], OrderedMaps.Empty(), OrderedMaps.Empty()),
        Declarations({}, [], [], [], [], OrderedMaps.Empty(), [], [], [], [], []))
  }

  /** addClockedStatement: the statement goes last in the bucket of the
      normalised configuration; no other bucket and no other field changes. */
  function AddClocked(c: Ctx, normalize: Hdl.RegisterConfig -> Hdl.RegisterConfig,
                      config: Hdl.RegisterConfig, s: SeqStmt): (r: Ctx)
    requires Valid(c)
    ensures Valid(r)
    ensures Lookup(r.stmts.clocked, normalize(config)) == Lookup(c.stmts.clocked, normalize(config)) + [s]
    ensures forall k :: k != normalize(config) ==> Lookup(r.stmts.clocked, k) == Lookup(c.stmts.clocked, k)
    ensures r.stmts.clocked.keys == c.stmts.clocked.keys + Fresh([normalize(config)], c.stmts.clocked.entries.Keys)
    ensures r.(stmts := c.stmts.(clocked := r.stmts.clocked)) == r
    ensures r.decls == c.decls
  {
    c.(stmts := c.stmts.(clocked := Append(c.stmts.clocked, normalize(config), s)))
  }

  /** addResetValue: as addClockedStatement, for the reset buckets. */
  function AddReset(c: Ctx, normalize: Hdl.RegisterConfig -> Hdl.RegisterConfig,
                    config: Hdl.RegisterConfig, s: SeqStmt): (r: Ctx)
    requires Valid(c)
    ensures Valid(r)
    ensures Lookup(r.stmts.resets, normalize(config)) == Lookup(c.stmts.resets, normalize(config)) + [s]
    ensures forall k :: k != normalize(config) ==> Lookup(r.stmts.resets, k) == Lookup(c.stmts.resets, k)
    ensures r.(stmts := c.stmts.(resets := r.stmts.resets)) == r
    ensures r.decls == c.decls
  {
    c.(stmts := c.stmts.(resets := Append(c.stmts.resets, normalize(config), s)))
  }

  /** addUnclockedStatement: the output statement and its source statement go
      last in the buckets of the process id, keeping the two in lockstep. */
  function AddUnclocked(c: Ctx, pid: int, s: SeqStmt, source: Hdl.Stmt): (r: Ctx)
    requires Valid(c)
    ensures Valid(r)
    ensures Lookup(r.stmts.unclocked, pid) == Lookup(c.stmts.unclocked, pid) + [s]
    ensures Lookup(r.stmts.sensitive, pid) == Lookup(c.stmts.sensitive, pid) + [source]
    ensures forall p :: p != pid ==> Lookup(r.stmts.unclocked, p) == Lookup(c.stmts.unclocked, p)
    ensures forall p :: p != pid ==> Lookup(r.stmts.sensitive, p) == Lookup(c.stmts.sensitive, p)
    ensures r.stmts.unclocked.keys == c.stmts.unclocked.keys + Fresh([pid], c.stmts.unclocked.entries.Keys)
    ensures r.stmts.(unclocked := c.stmts.unclocked, sensitive := c.stmts.sensitive) == c.stmts
    ensures r.decls == c.decls
    ensures Lockstep(c.stmts) ==> Lockstep(r.stmts)
  {
    var u := Append(c.stmts.unclocked, pid, s);
    var h := Append(c.stmts.sensitive, pid, source);
    assert Lockstep(c.stmts) ==> c.stmts.unclocked.entries.Keys == c.stmts.sensitive.entries.Keys;
    c.(stmts := c.stmts.(unclocked := u, sensitive := h))
  }

  function AddConcurrent(c: Ctx, s: Concurrent): (r: Ctx)
    ensures r.stmts.concurrent == c.stmts.concurrent + [s]
    ensures r.stmts.(concurrent := c.stmts.concurrent) == c.stmts && r.decls == c.decls
  {
    c.(stmts := c.stmts.(concurrent := c.stmts.concurrent + [s]))
  }

  function AddPort(c: Ctx, s: Signal): (r: Ctx)
    ensures r.decls.ports == c.decls.ports + [s]
    ensures r.decls.(ports := c.decls.ports) == c.decls && r.stmts == c.stmts
  {
    c.(decls := c.decls.(ports := c.decls.ports + [s]))
  }

  function AddInternal(c: Ctx, d: Internal): (r: Ctx)
    ensures r.decls.internals == c.decls.internals + [d]
    ensures r.decls.(internals := c.decls.internals) == c.decls && r.stmts == c.stmts
  {
    c.(decls := c.decls.(internals := c.decls.internals + [d]))
  }

  function AddGeneric(c: Ctx, g: Constant): (r: Ctx)
    ensures r.decls.generics == c.decls.generics + [g]
    ensures r.decls.(generics := c.decls.generics) == c.decls && r.stmts == c.stmts
  {
    c.(decls := c.decls.(generics := c.decls.generics + [g]))
  }

  /** addConstantDeclaration: the constant is both an entity constant and a
      declaration of the architecture. */
  function AddConstant(c: Ctx, d: Constant): (r: Ctx)
    ensures r.decls.constants == c.decls.constants + [d]
    ensures r.decls.internalTypesConstants == c.decls.internalTypesConstants + [ConstantItem(d)]
    ensures r.decls.(constants := c.decls.constants, internalTypesConstants := c.decls.internalTypesConstants) == c.decls
    ensures r.stmts == c.stmts
  {
    c.(decls := c.decls.(constants := c.decls.constants + [d],
                         internalTypesConstants := c.decls.internalTypesConstants + [ConstantItem(d)]))
  }

  function AddConstantPkg(c: Ctx, d: Constant): (r: Ctx)
    ensures r.decls.constantsPkg == c.decls.constantsPkg + [d]
    ensures r.decls.(constantsPkg := c.decls.constantsPkg) == c.decls && r.stmts == c.stmts
  {
    c.(decls := c.decls.(constantsPkg := c.decls.constantsPkg + [d]))
  }

  /** addTypeDeclaration: an external type goes to the package only; an
      internal one is both an internal type and an architecture declaration. */
  function AddTypeDeclaration(c: Ctx, t: VType, external: bool): (r: Ctx)
    ensures r.stmts == c.stmts
    ensures external ==> r.decls == c.decls.(externalTypes := c.decls.externalTypes + [t])
    ensures !external ==> r.decls.internalTypes == c.decls.internalTypes + [t]
    ensures !external ==> r.decls.internalTypesConstants == c.decls.internalTypesConstants + [TypeItem(t)]
    ensures !external ==> r.decls.(internalTypes := c.decls.internalTypes,
                                   internalTypesConstants := c.decls.internalTypesConstants) == c.decls
  {
    if external then c.(decls := c.decls.(externalTypes := c.decls.externalTypes + [t]))
    else c.(decls := c.decls.(internalTypes := c.decls.internalTypes + [t],
                              internalTypesConstants := c.decls.internalTypesConstants + [TypeItem(t)]))
  }

  /** The unit needs a package of its own. */
  predicate HasPkgDeclarations(c: Ctx) {
    |c.decls.externalTypes| != 0 || |c.decls.constantsPkg| != 0
  }

  /** A package is needed exactly after an external type or a package
      constant has been added, and never for a fresh context. */
  lemma PkgDeclarationsSources(c: Ctx, t: VType, d: Constant)
    ensures HasPkgDeclarations(AddTypeDeclaration(c, t, true))
    ensures HasPkgDeclarations(AddConstantPkg(c, d))
    ensures HasPkgDeclarations(AddTypeDeclaration(c, t, false)) == HasPkgDeclarations(c)
    ensures HasPkgDeclarations(AddConstant(c, d)) == HasPkgDeclarations(c)
    ensures !HasPkgDeclarations(Empty())
  {
  }

  /** addComponent: keyed by the component's name, a later one replacing an
      earlier one of the same name in place. */
  function AddComponent(c: Ctx, comp: Component): (r: Ctx)
    requires Valid(c)
    ensures Valid(r)
    ensures Get(r.decls.components, comp.compName) == Some(comp)
    ensures forall n :: n != comp.compName ==> Get(r.decls.components, n) == Get(c.decls.components, n)
    ensures r.decls.(components := c.decls.components) == c.decls && r.stmts == c.stmts
  {
    c.(decls := c.decls.(components := Put(c.decls.components, comp.compName, comp)))
  }

  /** setNoSensitivity. */
  function SetNoSensitivity(c: Ctx, pid: int): (r: Ctx)
    ensures r.decls.noSensitivity == c.decls.noSensitivity + {pid}
    ensures r.decls.(noSensitivity := c.decls.noSensitivity) == c.decls && r.stmts == c.stmts
  {
    c.(decls := c.decls.(noSensitivity := c.decls.noSensitivity + {pid}))
  }

  /** addImport: the package part of the name (all but its last segment)
      joins the sorted import set. */
  function AddImport(c: Ctx, n: Hdl.QName): (r: Ctx)
    ensures forall m :: m in r.decls.imports <==> m == Hdl.SkipLast(n, 1) || m in c.decls.imports
    ensures r.decls.(imports := c.decls.imports) == c.decls && r.stmts == c.stmts
  {
    c.(decls := c.decls.(imports := SortedSets.Insert(SortedSets.NameLess, Hdl.SkipLast(n, 1), c.decls.imports)))
  }

  /** The import set stays sorted. */
  lemma AddImportSorted(c: Ctx, n: Hdl.QName)
    requires ImportsSorted(c.decls)
    ensures ImportsSorted(AddImport(c, n).decls)
    ensures Hdl.SkipLast(n, 1) in c.decls.imports ==> AddImport(c, n) == c
  {
    SortedSets.NameOrder();
    SortedSets.InsertSorted(SortedSets.NameLess, Hdl.SkipLast(n, 1), c.decls.imports);
  }

  /** Importing a name twice is the same as importing it once. */
  lemma AddImportIdempotent(c: Ctx, n: Hdl.QName)
    requires ImportsSorted(c.decls)
    ensures AddImport(AddImport(c, n), n) == AddImport(c, n)
  {
    AddImportSorted(c, n);
    AddImportSorted(AddImport(c, n), n);
  }

  /** The order in which names are imported does not matter. */
  lemma AddImportCommutes(c: Ctx, n: Hdl.QName, m: Hdl.QName)
    requires ImportsSorted(c.decls)
    ensures AddImport(AddImport(c, n), m) == AddImport(AddImport(c, m), n)
  {
    var x, y := AddImport(AddImport(c, n), m), AddImport(AddImport(c, m), n);
    AddImportSorted(c, n);
    AddImportSorted(AddImport(c, n), m);
    AddImportSorted(c, m);
    AddImportSorted(AddImport(c, m), n);
    SortedSets.NameOrder();
    SortedSets.SortedUnique(SortedSets.NameLess, x.decls.imports, y.decls.imports);
  }

  /** newProcessID: the incremented counter is both the new id and the new
      counter, so ids handed out one after the other increase strictly. */
  function NewProcessId(counter: nat): (r: (int, nat))
    ensures r.0 == r.1 && r.0 > counter
  {
    (counter + 1, counter + 1)
  }

  // ----- merge -----

  /** Merging keeps the output and source statement lists in lockstep. */
  lemma MergeStatementsLockstep(a: Statements, b: Statements)
    requires ValidStatements(a) && ValidStatements(b)
    requires Lockstep(a) && Lockstep(b)
    ensures Lockstep(MergeStatements(a, b))
  {
    MergeShape(a.unclocked, b.unclocked);
    MergeShape(a.sensitive, b.sensitive);
    assert a.unclocked.entries.Keys == a.sensitive.entries.Keys;
    assert b.unclocked.entries.Keys == b.sensitive.entries.Keys;
    assert MergeStatements(a, b).unclocked == OrderedMaps.Merge(a.unclocked, b.unclocked);
    assert MergeStatements(a, b).sensitive == OrderedMaps.Merge(a.sensitive, b.sensitive);
  }

  /** The statement half of merge: every statement list becomes the
      receiver's list followed by the other's, keys only the other has are
      added after the receiver's, and concurrent statements are appended. */
  function MergeStatements(a: Statements, b: Statements): (r: Statements)
    requires ValidStatements(a) && ValidStatements(b)
    ensures ValidStatements(r)
    ensures forall k :: Lookup(r.clocked, k) == Lookup(a.clocked, k) + Lookup(b.clocked, k)
    ensures forall k :: Lookup(r.resets, k) == Lookup(a.resets, k) + Lookup(b.resets, k)
    ensures forall p :: Lookup(r.unclocked, p) == Lookup(a.unclocked, p) + Lookup(b.unclocked, p)
    ensures forall p :: Lookup(r.sensitive, p) == Lookup(a.sensitive, p) + Lookup(b.sensitive, p)
    ensures r.concurrent == a.concurrent + b.concurrent
  {
    Statements(OrderedMaps.Merge(a.resets, b.resets),
               OrderedMaps.Merge(a.clocked, b.clocked),
               a.concurrent + b.concurrent,
               OrderedMaps.Merge(a.unclocked, b.unclocked),
               OrderedMaps.Merge(a.sensitive, b.sensitive))
  }

  /** The declaration half of merge: lists appended, components put,
      imports and no-sensitivity marks united. */
  function MergeDeclarations(a: Declarations, b: Declarations): (r: Declarations)
    requires ValidDeclarations(a) && ValidDeclarations(b)
    ensures ValidDeclarations(r)
    ensures r.ports == a.ports + b.ports && r.generics == a.generics + b.generics
    ensures r.constants == a.constants + b.constants && r.constantsPkg == a.constantsPkg + b.constantsPkg
    ensures r.internals == a.internals + b.internals
    ensures r.internalTypes == a.internalTypes + b.internalTypes
    ensures r.externalTypes == a.externalTypes + b.externalTypes
    ensures r.internalTypesConstants == a.internalTypesConstants + b.internalTypesConstants
    ensures forall n :: Get(r.components, n) == if n in b.components.entries then Some(b.components.entries[n]) else Get(a.components, n)
    ensures forall m :: m in r.imports <==> m in a.imports || m in b.imports
    ensures r.noSensitivity == a.noSensitivity + b.noSensitivity
  {
    Declarations(a.noSensitivity + b.noSensitivity,
                 a.ports + b.ports,
                 a.constants + b.constants,
                 a.constantsPkg + b.constantsPkg,
                 a.generics + b.generics,
                 PutAll(a.components, b.components),
                 a.internals + b.internals,
                 a.internalTypes + b.internalTypes,
                 a.externalTypes + b.externalTypes,
                 a.internalTypesConstants + b.internalTypesConstants,
                 SortedSets.InsertAll(SortedSets.NameLess, b.imports, a.imports))
  }

  /** merge(other, exclude): with `exclude` the receiver's statements stay as
      they are; the declarations are combined either way. */
  function Merge(a: Ctx, b: Ctx, exclude: bool): (r: Ctx)
    requires Valid(a) && Valid(b)
    ensures Valid(r)
    ensures exclude ==> r.stmts == a.stmts
    ensures !exclude ==> forall k :: Lookup(r.stmts.clocked, k) == Lookup(a.stmts.clocked, k) + Lookup(b.stmts.clocked, k)
    ensures !exclude ==> forall k :: Lookup(r.stmts.resets, k) == Lookup(a.stmts.resets, k) + Lookup(b.stmts.resets, k)
    ensures !exclude ==> forall p :: Lookup(r.stmts.unclocked, p) == Lookup(a.stmts.unclocked, p) + Lookup(b.stmts.unclocked, p)
    ensures !exclude ==> forall p :: Lookup(r.stmts.sensitive, p) == Lookup(a.stmts.sensitive, p) + Lookup(b.stmts.sensitive, p)
    ensures !exclude ==> r.stmts.concurrent == a.stmts.concurrent + b.stmts.concurrent
    ensures r.decls.ports == a.decls.ports + b.decls.ports
    ensures forall m :: m in r.decls.imports <==> m in a.decls.imports || m in b.decls.imports
    ensures r.decls.noSensitivity == a.decls.noSensitivity + b.decls.noSensitivity
  {
    Ctx(if exclude then a.stmts else MergeStatements(a.stmts, b.stmts),
        MergeDeclarations(a.decls, b.decls))
  }

  /** Merging keeps both invariants. */
  lemma MergeConsistent(a: Ctx, b: Ctx, exclude: bool)
    requires Valid(a) && Valid(b) && Consistent(a) && Consistent(b)
    ensures Consistent(Merge(a, b, exclude))
  {
    if !exclude {
      MergeStatementsLockstep(a.stmts, b.stmts);
    }
    MergeDeclarationsSorted(a.decls, b.decls);
  }

  /** The keys of merged statement maps: the receiver's first, then the
      other's new ones in their order. */
  lemma MergeStatementsKeys(a: Statements, b: Statements)
    requires ValidStatements(a) && ValidStatements(b)
    ensures MergeStatements(a, b).clocked.keys == a.clocked.keys + Fresh(b.clocked.keys, a.clocked.entries.Keys)
    ensures MergeStatements(a, b).resets.keys == a.resets.keys + Fresh(b.resets.keys, a.resets.entries.Keys)
    ensures MergeStatements(a, b).unclocked.keys == a.unclocked.keys + Fresh(b.unclocked.keys, a.unclocked.entries.Keys)
  {
    MergeShape(a.clocked, b.clocked);
    MergeShape(a.resets, b.resets);
    MergeShape(a.unclocked, b.unclocked);
  }

  lemma MergeClockedAssociative(a: Statements, b: Statements, c: Statements)
    requires ValidStatements(a) && ValidStatements(b) && ValidStatements(c)
    ensures MergeStatements(MergeStatements(a, b), c).clocked == MergeStatements(a, MergeStatements(b, c)).clocked
  {
    var ab, bc := MergeStatements(a, b), MergeStatements(b, c);
    assert ab.clocked == OrderedMaps.Merge(a.clocked, b.clocked);
    assert bc.clocked == OrderedMaps.Merge(b.clocked, c.clocked);
    OrderedMaps.MergeAssociative(a.clocked, b.clocked, c.clocked);
  }

  lemma MergeResetsAssociative(a: Statements, b: Statements, c: Statements)
    requires ValidStatements(a) && ValidStatements(b) && ValidStatements(c)
    ensures MergeStatements(MergeStatements(a, b), c).resets == MergeStatements(a, MergeStatements(b, c)).resets
  {
    var ab, bc := MergeStatements(a, b), MergeStatements(b, c);
    assert ab.resets == OrderedMaps.Merge(a.resets, b.resets);
    assert bc.resets == OrderedMaps.Merge(b.resets, c.resets);
    OrderedMaps.MergeAssociative(a.resets, b.resets, c.resets);
  }

  lemma MergeUnclockedAssociative(a: Statements, b: Statements, c: Statements)
    requires ValidStatements(a) && ValidStatements(b) && ValidStatements(c)
    ensures MergeStatements(MergeStatements(a, b), c).unclocked == MergeStatements(a, MergeStatements(b, c)).unclocked
  {
    var ab, bc := MergeStatements(a, b), MergeStatements(b, c);
    assert ab.unclocked == OrderedMaps.Merge(a.unclocked, b.unclocked);
    assert bc.unclocked == OrderedMaps.Merge(b.unclocked, c.unclocked);
    OrderedMaps.MergeAssociative(a.unclocked, b.unclocked, c.unclocked);
  }

  lemma MergeSensitiveAssociative(a: Statements, b: Statements, c: Statements)
    requires ValidStatements(a) && ValidStatements(b) && ValidStatements(c)
    ensures MergeStatements(MergeStatements(a, b), c).sensitive == MergeStatements(a, MergeStatements(b, c)).sensitive
  {
    var ab, bc := MergeStatements(a, b), MergeStatements(b, c);
    assert ab.sensitive == OrderedMaps.Merge(a.sensitive, b.sensitive);
    assert bc.sensitive == OrderedMaps.Merge(b.sensitive, c.sensitive);
    OrderedMaps.MergeAssociative(a.sensitive, b.sensitive, c.sensitive);
  }

  lemma MergeStatementsAssociative(a: Statements, b: Statements, c: Statements)
    requires ValidStatements(a) && ValidStatements(b) && ValidStatements(c)
    ensures MergeStatements(MergeStatements(a, b), c) == MergeStatements(a, MergeStatements(b, c))
  {
    MergeClockedAssociative(a, b, c);
    MergeResetsAssociative(a, b, c);
    MergeUnclockedAssociative(a, b, c);
    MergeSensitiveAssociative(a, b, c);
  }

  /** Merging keeps the receiver's import set sorted. */
  lemma MergeDeclarationsSorted(a: Declarations, b: Declarations)
    requires ValidDeclarations(a) && ValidDeclarations(b)
    requires ImportsSorted(a)
    ensures ImportsSorted(MergeDeclarations(a, b))
  {
    SortedSets.NameOrder();
    SortedSets.InsertAllSorted(SortedSets.NameLess, b.imports, a.imports);
  }

  lemma MergeImportsAssociative(a: Declarations, b: Declarations, c: Declarations)
    requires ValidDeclarations(a) && ValidDeclarations(b) && ValidDeclarations(c)
    requires ImportsSorted(a) && ImportsSorted(b)
    ensures MergeDeclarations(MergeDeclarations(a, b), c).imports == MergeDeclarations(a, MergeDeclarations(b, c)).imports
  {
    var ab, bc := MergeDeclarations(a, b), MergeDeclarations(b, c);
    var l, r := MergeDeclarations(ab, c), MergeDeclarations(a, bc);
    MergeDeclarationsSorted(a, b);
    MergeDeclarationsSorted(ab, c);
    MergeDeclarationsSorted(a, bc);
    SortedSets.NameOrder();
    SortedSets.SortedUnique(SortedSets.NameLess, l.imports, r.imports);
  }

  lemma MergeComponentsAssociative(a: Declarations, b: Declarations, c: Declarations)
    requires ValidDeclarations(a) && ValidDeclarations(b) && ValidDeclarations(c)
    ensures MergeDeclarations(MergeDeclarations(a, b), c).components == MergeDeclarations(a, MergeDeclarations(b, c)).components
  {
    var ab, bc := MergeDeclarations(a, b), MergeDeclarations(b, c);
    assert ab.components == PutAll(a.components, b.components);
    assert bc.components == PutAll(b.components, c.components);
    PutAllAssociative(a.components, b.components, c.components);
  }

  lemma MergeDeclarationsAssociative(a: Declarations, b: Declarations, c: Declarations)
    requires ValidDeclarations(a) && ValidDeclarations(b) && ValidDeclarations(c)
    requires ImportsSorted(a) && ImportsSorted(b)
    ensures MergeDeclarations(MergeDeclarations(a, b), c) == MergeDeclarations(a, MergeDeclarations(b, c))
  {
    var l, r := MergeDeclarations(MergeDeclarations(a, b), c), MergeDeclarations(a, MergeDeclarations(b, c));
    MergeImportsAssociative(a, b, c);
    MergeComponentsAssociative(a, b, c);
    DeclarationsExt(l, r);
  }

  lemma DeclarationsExt(x: Declarations, y: Declarations)
    requires x.imports == y.imports && x.components == y.components && x.noSensitivity == y.noSensitivity
    requires x.ports == y.ports && x.constants == y.constants && x.constantsPkg == y.constantsPkg
    requires x.generics == y.generics && x.internals == y.internals && x.internalTypes == y.internalTypes
    requires x.externalTypes == y.externalTypes && x.internalTypesConstants == y.internalTypesConstants
    ensures x == y
  {
  }

  /** Merging contexts is associative, with or without statements: lowering
      may combine fragments in any grouping. */
  lemma MergeAssociative(a: Ctx, b: Ctx, c: Ctx, exclude: bool)
    requires Valid(a) && Valid(b) && Valid(c)
    requires ImportsSorted(a.decls) && ImportsSorted(b.decls)
    ensures Merge(Merge(a, b, exclude), c, exclude) == Merge(a, Merge(b, c, exclude), exclude)
  {
    if !exclude {
      MergeStatementsAssociative(a.stmts, b.stmts, c.stmts);
    }
    MergeDeclarationsAssociative(a.decls, b.decls, c.decls);
  }

  lemma MergeStatementsEmpty(a: Statements)
    requires ValidStatements(a)
    ensures MergeStatements(a, Empty().stmts) == a
  {
    var e := Empty().stmts;
    var m := MergeStatements(a, e);
    assert m.clocked == a.clocked by {
      assert m.clocked == OrderedMaps.Merge(a.clocked, e.clocked);
      OrderedMaps.MergeEmpty(a.clocked);
    }
    assert m.resets == a.resets by {
      assert m.resets == OrderedMaps.Merge(a.resets, e.resets);
      OrderedMaps.MergeEmpty(a.resets);
    }
    assert m.unclocked == a.unclocked by {
      assert m.unclocked == OrderedMaps.Merge(a.unclocked, e.unclocked);
      OrderedMaps.MergeEmpty(a.unclocked);
    }
    assert m.sensitive == a.sensitive by {
      assert m.sensitive == OrderedMaps.Merge(a.sensitive, e.sensitive);
      OrderedMaps.MergeEmpty(a.sensitive);
    }
    assert m.concurrent == a.concurrent + [];
  }

  lemma MergeDeclarationsEmpty(a: Declarations)
    requires ValidDeclarations(a)
    ensures MergeDeclarations(a, Empty().decls) == a
  {
    var e := Empty().decls;
    var m := MergeDeclarations(a, e);
    assert m.components == a.components by {
      assert m.components == PutAll(a.components, e.components);
      OMapExt(m.components, a.components);
    }
    assert m.imports == a.imports;
    DeclarationsExt(m, a);
  }

  /** A fresh context is neutral for merge on the right. */
  lemma MergeEmptyRight(a: Ctx, exclude: bool)
    requires Valid(a)
    ensures Merge(a, Empty(), exclude) == a
  {
    MergeStatementsEmpty(a.stmts);
    MergeDeclarationsEmpty(a.decls);
  }

  // ----- getStatement -----

  /** The bucket map holds one key whose list is the single statement `s`. */
  predicate Sole<K>(b: Buckets<K, SeqStmt>, s: SeqStmt) {
    |b.keys| == 1 && b.keys[0] in b.entries && b.entries[b.keys[0]] == [s]
  }

  /** The fragment is the single statement `s`: the clocked one when there is
      a clocked bucket, the unclocked one otherwise. */
  predicate OnlyStatement(c: Ctx, s: SeqStmt) {
    && |c.stmts.unclocked.keys| <= 1
    && if |c.stmts.clocked.keys| > 0 then Sole(c.stmts.clocked, s) else Sole(c.stmts.unclocked, s)
  }

  function FirstOf(l: seq<SeqStmt>): (r: Result<SeqStmt>)
    ensures r.Ok? <==> |l| == 1
    ensures r.Ok? ==> l == [r.value]
    ensures |l| == 0 ==> r == Err(NoStatementFound)
    ensures |l| > 1 ==> r == Err(MoreThanOneStatement)
  {
    if |l| > 1 then Err(MoreThanOneStatement)
    else if |l| == 0 then Err(NoStatementFound)
    else Ok(l[0])
  }

  /** getStatement: the one statement a fragment lowered to. */
  function GetStatement(c: Ctx): (r: Result<SeqStmt>)
    requires Valid(c)
    ensures r.Ok? ==> OnlyStatement(c, r.value)
    ensures forall s :: OnlyStatement(c, s) ==> r == Ok(s)
    ensures |c.stmts.clocked.keys| > 1 || |c.stmts.unclocked.keys| > 1 ==> r == Err(MoreThanOneStatement)
    ensures |c.stmts.clocked.keys| == 0 && |c.stmts.unclocked.keys| == 0 ==> r == Err(NoStatementFound)
  {
    var ck, uk := c.stmts.clocked.keys, c.stmts.unclocked.keys;
    if |ck| > 1 || |uk| > 1 then Err(MoreThanOneStatement)
    else if |ck| == 1 then FirstOf(c.stmts.clocked.entries[ck[0]])
    else if |uk| == 1 then FirstOf(c.stmts.unclocked.entries[uk[0]])
    else Err(NoStatementFound)
  }

  /** A fragment built from one statement gives that statement back. */
  lemma GetStatementSingle(normalize: Hdl.RegisterConfig -> Hdl.RegisterConfig, config: Hdl.RegisterConfig,
                           pid: int, s: SeqStmt, source: Hdl.Stmt)
    ensures GetStatement(AddClocked(Empty(), normalize, config, s)) == Ok(s)
    ensures GetStatement(AddUnclocked(Empty(), pid, s, source)) == Ok(s)
  {
    var e := Empty();
    var c := AddClocked(e, normalize, config, s);
    assert c.stmts.clocked.keys == [normalize(config)];
    var u := AddUnclocked(e, pid, s, source);
    assert u.stmts.unclocked.keys == [pid];
  }
}
