# PSHDL to VHDL lowering, modelled in Dafny

This project models the core of the PSHDL compiler's VHDL back end. That
core takes the resolved PSHDL model (units, statements, expressions and
declarations) and turns it into a VHDL abstract syntax tree. The model
follows the sources in structure:

- **`VhdlContext`** (`context.dfy`): the per-statement fragment
  `VHDLContext`. It holds:
  - clocked, reset and combinational statements, kept in buckets per
    register configuration or process id;
  - the sensitivity sources;
  - the declarations;
  - the sorted import set.

  `Merge` combines fragments; `GetStatement` extracts the single statement
  of a fragment. The insertion-ordered `LinkedHashMap`s are modelled by
  `OrderedMaps` (`ordered_maps.dfy`). The `TreeSet`s are modelled by
  strictly sorted sequences in `SortedSets` (`sorted_sets.dfy`).
- **`Expressions`** (`expressions.dfy`) with `Literals` (`literals.dfy`):
  `VHDLExpressionExtension`, the lowering of every expression kind to a
  VHDL expression. This covers:
  - literals, with their decimal, based and bit-string encodings;
  - references with bit and array accesses;
  - the operators, which are always parenthesised;
  - casts, concatenation, ternaries and array initialisers;
  - function calls, which are handed to the code-function providers.
- **`Statements`** (`statements.dfy`), with `Declarations`, `Assignments`
  and `Partition`: `VHDLStatementExtension`. It lowers each statement kind
  to a fragment. The central idea is the partition of every nested
  statement into one copy per register configuration and one per process.
  Blocks, if, switch and for each build their fragment by merging their
  children's fragments and then wrapping every bucket. Process blocks
  open fresh process ids from a counter threaded through the lowering.
- **`Functions`** (`functions.dfy`): `VHDLFunctions`, the built-in
  simulation and utility functions. These are `wait`, `waitFor`,
  `waitUntil`, `pulse` and `assertThat` as statements, and `max`, `min`,
  `abs`, `log2ceil`, `log2floor` and `highZ` as expressions.
- **`Processes`**, **`Units`** and **`Names`** (`processes.dfy`,
  `units.dfy`, `names.dfy`): `VHDLPackageExtension`. They cover the
  sensitivity lists of combinational processes and the clock/reset `if`
  of clocked processes. They also cover the names derived from a unit's
  full name, the library and use clauses, the classification of source
  comments, and the assembly of package, entity and architecture.
- **`Libraries`** (`libraries.dfy`): the generated `ShiftOps` and `Types`
  packages.
- **`Validator`** (`validator.dfy`): the VHDL name checks.
- **`Importer`** (`importer.dfy`): the conversion of VHDL port and
  generic declarations back to PSHDL variables. Every operation takes a
  `Variant`. `AsWritten` follows the code. `Corrected` reads binary
  literals in base 2 and gives `std_ulogic_vector` the type `bit<>` (see
  "## Findings").

The helpers the lowering calls but does not define are gathered in the
datatype `Env.Env`. These include the constant evaluator, register
configuration normalisation, VHDL name escaping, the type of an
expression, the width simplification of range bounds, the casts library,
and the ordered list of registered
code-function providers. Each helper is a function-valued field about
which nothing is assumed, so every property holds whatever they compute.

A provider is either the built-in one (`VHDLFunctions`) or a foreign one.
A foreign provider is given as two functions that answer a call with a
VHDL expression or a well-formed fragment, or decline with nothing. The
importer's collaborators (constant evaluation and full names of VHDL
types) are the datatype `Importer.Services`.

The reference search of the sensitivity list is a parameter
`Processes.Finder`. It lists, for each statement, the references it
contains and the assignment each one sits in. The type uses that drive
the imports of a unit are a sequence of `Units.TypeUse`.

Every Java exception that the code throws, or lets happen, is an
`Err(fault)` of `Wrappers.Result`. The fault's constructor names the
exception or message:
- `NullPointer`, `ClassCast` and `IndexOutOfBounds` for the JVM's own
  exceptions;
- `NoCodeGenerated`, `MultiBitAccess`, `SwitchWidthNotConstant` and
  `MoreThanOneStatement` for the compiler's own messages.

A function call in expression position that no provider answers lowers
to `Vhdl.NullExpr`. That node stands for the Java `null` and is passed on
as part of the tree. A statement-level call that no provider answers
gives the fragment `None`. Where the code dereferences that fragment, the
model gives `Err(NullPointer)`, or `Err(NoCodeGenerated)` for the
children of a block.

## Model

| member | source | states |
|---|---|---|
| VhdlContext.Empty | src/org/pshdl/generator/vhdl/VHDLContext.java:62-77 | A new context has every statement bucket empty, no concurrent statements and no imports, and it meets the well-formedness and consistency invariants. |
| VhdlContext.AddClocked | src/org/pshdl/generator/vhdl/VHDLContext.java:79-87 | The statement goes to the end of the bucket of the normalised configuration. Every other bucket and all declarations stay as they were. A configuration seen for the first time is appended to the key order. |
| VhdlContext.AddReset | src/org/pshdl/generator/vhdl/VHDLContext.java:184-192 | The reset statement goes to the end of the normalised configuration's reset bucket, and nothing else changes. |
| VhdlContext.AddUnclocked | src/org/pshdl/generator/vhdl/VHDLContext.java:89-102 | The statement and its source go to the ends of the process's statement and sensitivity lists, which stay in lockstep. Other processes, the other buckets and the declarations stay as they were. |
| VhdlContext.AddConcurrent | src/org/pshdl/generator/vhdl/VHDLContext.java:228-230 | Appends one concurrent statement and changes nothing else. |
| VhdlContext.AddPort | src/org/pshdl/generator/vhdl/VHDLContext.java:172-174 | Appends one port and changes nothing else. |
| VhdlContext.AddInternal | src/org/pshdl/generator/vhdl/VHDLContext.java:176-178 | Appends one internal signal or shared variable and changes nothing else. |
| VhdlContext.AddGeneric | src/org/pshdl/generator/vhdl/VHDLContext.java:180-182 | Appends one generic and changes nothing else. |
| VhdlContext.AddConstant | src/org/pshdl/generator/vhdl/VHDLContext.java:210-213 | The constant is appended both to the constants and to the ordered list of internal types and constants, and to nothing else. |
| VhdlContext.AddConstantPkg | src/org/pshdl/generator/vhdl/VHDLContext.java:236-238 | Appends one package constant and changes nothing else. |
| VhdlContext.AddTypeDeclaration | src/org/pshdl/generator/vhdl/VHDLContext.java:215-222 | An external type goes only to the external types. An internal one goes to the internal types and to the mixed list of internal types and constants. |
| VhdlContext.PkgDeclarationsSources | src/org/pshdl/generator/vhdl/VHDLContext.java:224-226 | A package becomes necessary after an external type or a package constant is added, and never after an internal type or constant. A fresh context needs none. |
| VhdlContext.AddComponent | src/org/pshdl/generator/vhdl/VHDLContext.java:262-264 | The component becomes the entry for its name, replacing any earlier one; the entries for other names stay as they were. |
| VhdlContext.SetNoSensitivity | src/org/pshdl/generator/vhdl/VHDLContext.java:258-260 | Adds the process id to the set of processes without a sensitivity list and changes nothing else. |
| VhdlContext.AddImport | src/org/pshdl/generator/vhdl/VHDLContext.java:232-234 | Afterwards the imports are exactly the earlier ones plus the name without its last segment. |
| VhdlContext.AddImportSorted | src/org/pshdl/generator/vhdl/VHDLContext.java:232-234 | The imports stay in TreeSet order, and adding an import that is already present changes nothing. |
| VhdlContext.AddImportIdempotent | src/org/pshdl/generator/vhdl/VHDLContext.java:232-234 | Adding the same import twice is the same as adding it once. |
| VhdlContext.AddImportCommutes | src/org/pshdl/generator/vhdl/VHDLContext.java:232-234 | The order in which two imports are added does not matter. |
| VhdlContext.NewProcessId | src/org/pshdl/generator/vhdl/VHDLContext.java:240-249 | The new id is the new counter value, and it is larger than every id handed out before. |
| VhdlContext.MergeStatements | src/org/pshdl/generator/vhdl/VHDLContext.java:107-113 | Every clocked, reset, combinational and sensitivity bucket of the result is the receiver's list followed by the argument's. The concurrent statements are concatenated. |
| VhdlContext.MergeStatementsKeys | src/org/pshdl/generator/vhdl/VHDLContext.java:129-139 | The result's key order is the receiver's keys, then the argument's new keys in their own order. |
| VhdlContext.MergeStatementsLockstep | src/org/pshdl/generator/vhdl/VHDLContext.java:107-113 | Merging keeps every process's statements and sensitivity sources in lockstep. |
| VhdlContext.MergeDeclarations | src/org/pshdl/generator/vhdl/VHDLContext.java:114-126 | Declaration lists are concatenated. An argument's component overrides the receiver's entry of the same name. Imports and processes without sensitivity are united. |
| VhdlContext.Merge | src/org/pshdl/generator/vhdl/VHDLContext.java:106-127 | When statements are excluded, the receiver's statements are kept unchanged; otherwise they are merged bucket by bucket. Declarations are merged in both cases. |
| VhdlContext.MergeConsistent | src/org/pshdl/generator/vhdl/VHDLContext.java:106-127 | Merging two consistent contexts gives a consistent one, with lockstep processes and sorted imports. |
| VhdlContext.MergeDeclarationsSorted | src/org/pshdl/generator/vhdl/VHDLContext.java:123 | The merged imports are again in TreeSet order. |
| VhdlContext.MergeStatementsAssociative | src/org/pshdl/generator/vhdl/VHDLContext.java:107-113 | Merging statements is associative. |
| VhdlContext.MergeDeclarationsAssociative | src/org/pshdl/generator/vhdl/VHDLContext.java:114-126 | Merging declarations is associative. |
| VhdlContext.MergeAssociative | src/org/pshdl/generator/vhdl/VHDLContext.java:106-127 | Merging contexts is associative, so a fold over children may group its merges freely. |
| VhdlContext.MergeEmptyRight | src/org/pshdl/generator/vhdl/VHDLContext.java:106-127 | Merging in a fresh context changes nothing. |
| VhdlContext.FirstOf | src/org/pshdl/generator/vhdl/VHDLContext.java:194-208 | A bucket yields its statement exactly when it holds one. With none the result is NoStatementFound, and with more it is MoreThanOneStatement. |
| VhdlContext.GetStatement | src/org/pshdl/generator/vhdl/VHDLContext.java:194-208 | Yields `s` exactly when the fragment's only statement is `s`, with the clocked bucket taking precedence. More than one bucket is an error, and no bucket at all is NoStatementFound. |
| VhdlContext.GetStatementSingle | src/org/pshdl/generator/vhdl/VHDLContext.java:194-208 | A fragment holding one clocked or one combinational statement gives that statement back. |
| OrderedMaps.Put | src/org/pshdl/generator/vhdl/VHDLContext.java:262-264 | `LinkedHashMap.put`: the key maps to the value; a new key is appended to the order, and an existing key keeps its place. |
| OrderedMaps.Append | src/org/pshdl/generator/vhdl/VHDLContext.java:79-87 | Appends the value to the key's list, creating the list (and the key's place in the order) when it is missing. Other keys stay as they were. |
| OrderedMaps.Merge | src/org/pshdl/generator/vhdl/VHDLContext.java:129-139 | Each key's merged list is the receiver's list followed by the argument's. |
| OrderedMaps.MergeShape | src/org/pshdl/generator/vhdl/VHDLContext.java:129-139 | The merged keys are the union of both maps' keys, and new keys are appended in the argument's order. |
| OrderedMaps.MergeAssociative | src/org/pshdl/generator/vhdl/VHDLContext.java:129-139 | Merging list maps is associative. |
| OrderedMaps.MergeEmpty | src/org/pshdl/generator/vhdl/VHDLContext.java:129-139 | An empty list map is the identity of the merge on both sides. |
| OrderedMaps.PutAll | src/org/pshdl/generator/vhdl/VHDLContext.java:120 | `putAll`: the argument's entries override the receiver's, and new keys follow in the argument's order. |
| OrderedMaps.PutAllDomain | src/org/pshdl/generator/vhdl/VHDLContext.java:120 | The keys after `putAll` are the union of both maps' keys. |
| OrderedMaps.PutAllAssociative | src/org/pshdl/generator/vhdl/VHDLContext.java:120 | `putAll` is associative. |
| SortedSets.Insert | src/org/pshdl/generator/vhdl/VHDLContext.java:232-234 | `TreeSet.add`: the elements afterwards are the old ones plus the new one. |
| SortedSets.InsertAll | src/org/pshdl/generator/vhdl/VHDLContext.java:123 | `TreeSet.addAll`: the elements afterwards are the union. |
| SortedSets.InsertSorted | src/org/pshdl/generator/vhdl/VHDLContext.java:77 | Insertion keeps the set sorted, and inserting an element that is present changes nothing. |
| SortedSets.InsertAllSorted | src/org/pshdl/generator/vhdl/VHDLContext.java:123 | Inserting many elements keeps the set sorted. |
| SortedSets.SortedUnique | src/org/pshdl/generator/vhdl/VHDLContext.java:77 | Two sorted sequences with the same elements are equal, so a TreeSet's iteration order depends only on its contents. |
| SortedSets.StringOrder | xtend-gen/org/pshdl/generator/vhdl/VHDLPackageExtension.java:422-478 | The lexicographic string order used for the sensitivity list is a strict total order. |
| SortedSets.NameOrder | src/org/pshdl/generator/vhdl/VHDLContext.java:77 | The segment-wise order on qualified names is a strict total order. |
| Strings.JoinPieces | xtend-gen/org/pshdl/generator/vhdl/VHDLPackageExtension.java:323-332 | Cutting a text at every separator and joining the pieces back gives the text. |
| Strings.SplitJoin | xtend-gen/org/pshdl/generator/vhdl/VHDLPackageExtension.java:323-332 | `String.split` undoes the joining of separator-free parts whose last part is not empty. |
| Strings.ToLower | src/org/pshdl/generator/vhdl/libraries/VHDLShiftLibrary.java:70-74 | Lower-casing keeps the length and lowers exactly the upper-case ASCII letters. |
| Strings.IntToStringRoundTrip | xtend-gen/org/pshdl/generator/vhdl/VHDLExpressionExtension.java:437-440 | Parsing the decimal text of an integer gives the integer back. |
| Literals.EncodeFaults | xtend-gen/org/pshdl/generator/vhdl/VHDLExpressionExtension.java:399-441 | Encoding a literal fails in two cases only. A numeric literal without a value gives NullPointer. A short hex or binary text that would be cut in its based form gives IndexOutOfBounds. String and boolean literals never fail. |
| Literals.ZeroWidthIsOne | xtend-gen/org/pshdl/generator/vhdl/VHDLExpressionExtension.java:400-403 | A requested width of zero encodes as width one. |
| Literals.DecimalThreshold | xtend-gen/org/pshdl/generator/vhdl/VHDLExpressionExtension.java:437-440 | A decimal literal stays decimal exactly when it is not needed as a string and fits in 32-bit two's complement. Otherwise it becomes a binary bit string of the requested width. |
| Literals.BasedThreshold | xtend-gen/org/pshdl/generator/vhdl/VHDLExpressionExtension.java:415-432 | A hex or binary literal keeps its based form `16#…#` or `2#…#` exactly when it is not needed as a string and its value's bit length is at most 32. Otherwise it becomes a hex or binary bit string. |
| Literals.IntLiteralIsDecimal | xtend-gen/org/pshdl/generator/vhdl/VHDLExpressionExtension.java:387-441 | An integer in 32-bit range lowers to a decimal literal whose text parses back to the integer. |
| Literals.IntValue | xtend-gen/org/pshdl/generator/vhdl/VHDLStatementExtension.java:936 | `BigInteger.intValue`: the result is in 32-bit range and congruent to the input modulo 2^32, and it equals the input when the input already fits. |
| Expressions.PrimitiveOf | xtend-gen/org/pshdl/generator/vhdl/VHDLExpressionExtension.java:308-362 | A cast needs a primitive target type. The target is returned exactly when it is one, and a missing type is Unresolved. |
| Expressions.LowerWrapped | xtend-gen/org/pshdl/generator/vhdl/VHDLExpressionExtension.java:622-657 | Every binary operator in a lowered expression sits directly inside parentheses, provided the foreign providers keep the same rule. |
| Expressions.OperatorShape | xtend-gen/org/pshdl/generator/vhdl/VHDLExpressionExtension.java:456-598 | An arithmetic, bit or equality operation lowers to the parenthesised VHDL binary of its lowered operands. A missing operator type is NotImplemented, and a failing operand's fault is passed on. |
| Expressions.LogicalIsBitwise | xtend-gen/org/pshdl/generator/vhdl/VHDLExpressionExtension.java:509-545 | Logical `&&` and `\|\|` lower exactly as bitwise `&` and `\|`, which lower differently from each other. |
| Expressions.TernaryShape | xtend-gen/org/pshdl/generator/vhdl/VHDLExpressionExtension.java:600-616 | A ternary lowers exactly when its three parts do. It becomes a call of the `std_logic_vector` overload of `ternaryOp` with the three lowered parts. |
| Expressions.CastShapes | xtend-gen/org/pshdl/generator/vhdl/VHDLExpressionExtension.java:308-362 | A cast to string is transparent, and a cast of a literal is a cast literal of the target type. A cast without a type is NullPointer, and logical negation lowers like bitwise negation. |
| Expressions.UnchainChain | xtend-gen/org/pshdl/generator/vhdl/VHDLExpressionExtension.java:295-306 | A left-nested concatenation chain can be taken apart into its parts in order. |
| Expressions.LowerAllElementwise | xtend-gen/org/pshdl/generator/vhdl/VHDLExpressionExtension.java:115-120 | Lowering a list succeeds exactly when every element does, yields the elements' lowerings in order, and otherwise fails with the first failing element's fault. |
| Expressions.ConcatLeftNested | xtend-gen/org/pshdl/generator/vhdl/VHDLExpressionExtension.java:295-306 | A concatenation lowers exactly when it has parts and all of them lower, and the result is the left-nested chain of the lowered parts. An empty concatenation is IndexOutOfBounds. |
| Expressions.ToArrayElemsShape | xtend-gen/org/pshdl/generator/vhdl/VHDLExpressionExtension.java:223-249 | The elements of an array initialiser become associations `i => element` in order, and the list succeeds exactly when every element does. |
| Expressions.ArrayInitShape | xtend-gen/org/pshdl/generator/vhdl/VHDLExpressionExtension.java:223-249 | A one-element initialiser is its element. Any other becomes an aggregate of indexed elements followed by `others => fill`. |
| Expressions.ArrayInitZeroFilled | xtend-gen/org/pshdl/generator/vhdl/VHDLExpressionExtension.java:216-249 | A top-level initialiser of one element is that element. Any other lowers exactly when all its elements do. It then becomes the aggregate of the elements at positions 0, 1, … in order, ending with `others => (others => '0')`. |
| Expressions.RefShape | xtend-gen/org/pshdl/generator/vhdl/VHDLExpressionExtension.java:174-214 | Array indices wrap the base in an element access with one index each, and a single bit access adds an index. A bit range adds a `downto` slice, and more than one bit access is MultiBitAccess. |
| Expressions.VarRefName | xtend-gen/org/pshdl/generator/vhdl/VHDLExpressionExtension.java:153-172 | A plain reference is the signal of the escaped last name segment. A frozen reference to a memory variable is that memory's VHDL variable. |
| Expressions.LowerRange | xtend-gen/org/pshdl/generator/vhdl/VHDLExpressionExtension.java:364-385 | A range keeps the requested direction. A range without a start is the single point of its end. |
| Expressions.RangeOfSimplifiedBounds | xtend-gen/org/pshdl/generator/vhdl/VHDLExpressionExtension.java:364-385 | Each bound is first simplified by `simplifyWidth` and then lowered, the end before the start. The range fails as the first bound that fails; otherwise it spans the two lowered bounds in the requested direction. |
| Expressions.FoldedBound | xtend-gen/org/pshdl/generator/vhdl/VHDLExpressionExtension.java:372-383 | A bound that `simplifyWidth` folds to a constant is printed as that constant's decimal literal, whatever the bound was. |
| Expressions.KeptLiteral | xtend-gen/org/pshdl/generator/vhdl/VHDLExpressionExtension.java:372-383 | When `simplifyWidth` maps a literal to its own value or leaves it alone, a literal bound `v` is printed as the decimal literal of `v`. |
| Expressions.ProvideFirstAnswer | xtend-gen/org/pshdl/generator/vhdl/VHDLExpressionExtension.java:279-281 | A function call is answered by the first provider that does not decline. |
| Expressions.ProvideNoAnswer | xtend-gen/org/pshdl/generator/vhdl/VHDLExpressionExtension.java:279-281 | When every provider declines, the call lowers to no expression. |
| Expressions.BuiltinShapes | src/org/pshdl/generator/vhdl/VHDLFunctions.java:77-113 | `max`, `min`, `abs`, `log2ceil` and `log2floor` become calls of the same-named function on the lowered arguments. `highZ` becomes `'Z'`, or an aggregate of `'Z'` over the range from the literal 1 to the width, lowered as a range with both bounds simplified; it fails exactly when that range fails, and its start is `1` when `simplifyWidth` keeps literals. Any other name is declined. |
| Libraries.ShiftFunctionNameInjective | src/org/pshdl/generator/vhdl/libraries/VHDLShiftLibrary.java:70-74 | Distinct pairs of shift operator and type get distinct function names. |
| Libraries.ResolveShiftName | src/org/pshdl/generator/vhdl/libraries/VHDLShiftLibrary.java:50-68 | Looking up a shift function's name in the ShiftOps package finds exactly its declaration `(arg: T; s: NATURAL) return T` when the type maps to VHDL, and nothing otherwise. |
| Libraries.ShiftCallsItsFunction | src/org/pshdl/generator/vhdl/libraries/VHDLShiftLibrary.java:76-83 | A shift lowers to a call of the package function for its operator and type, applied to value and amount. |
| Libraries.ShiftPackageSignatures | src/org/pshdl/generator/vhdl/libraries/VHDLShiftLibrary.java:50-68 | Every function of the ShiftOps package takes an argument of its own return type and a natural shift amount. |
| Libraries.TypesPackageShape | src/org/pshdl/generator/vhdl/libraries/VHDLTypesLibrary.java:51-68 | The Types package holds one `ternaryOp` per listed type, in order, each taking a boolean and two values of its return type. The log2 helpers are outside the package. |
| Expressions.TernaryCallsTypesPackage | src/org/pshdl/generator/vhdl/libraries/VHDLTypesLibrary.java:51-68 | The function a lowered ternary calls is declared by the Types package: it is that package's only overload that returns a logic vector. |
| Declarations.AsIndex | xtend-gen/org/pshdl/generator/vhdl/VHDLStatementExtension.java:549-552 | The generate index for dimension `i` is the one character `'I' + i`, wrapping as a 16-bit `char`. |
| Declarations.AsIndexInjective | xtend-gen/org/pshdl/generator/vhdl/VHDLStatementExtension.java:549-552 | Distinct dimensions (below the surrogate range) get distinct index names. |
| Declarations.ArrayRefNameSource | xtend-gen/org/pshdl/generator/vhdl/VHDLStatementExtension.java:554-576 | An internal array type is named after the variable, and an external one after the (original) full name, both with `_array` and escaping. |
| Declarations.EnumLiteralsAgree | xtend-gen/org/pshdl/generator/vhdl/VHDLStatementExtension.java:265-286 | A reference to an enum literal lowers to the very literal name the enum's type declaration declares. |
| Declarations.PrimitiveOfDecl | xtend-gen/org/pshdl/generator/vhdl/VHDLStatementExtension.java:638-640 | The declaration's type is used exactly when it is primitive. |
| Declarations.EnumTyping | xtend-gen/org/pshdl/generator/vhdl/VHDLStatementExtension.java:641-680 | An enum-typed declaration gets the enum's VHDL type, with one of its declared literals as the default. |
| Declarations.EnumReset | xtend-gen/org/pshdl/generator/vhdl/VHDLStatementExtension.java:641-680 | An enum's reset value is a reference to one of its literals. |
| Declarations.DimRangesStartAtZero | xtend-gen/org/pshdl/generator/vhdl/VHDLStatementExtension.java:703-724 | Every array dimension becomes an ascending range that starts at 0, one per dimension, when `simplifyWidth` keeps literals. |
| Declarations.ArrayType | xtend-gen/org/pshdl/generator/vhdl/VHDLStatementExtension.java:703-724 | A variable without dimensions keeps its type. An array gets a constrained array type over the dimension ranges, which is declared internally or externally. |
| Declarations.UnwrapWrapOthers | xtend-gen/org/pshdl/generator/vhdl/VHDLStatementExtension.java:767-790 | The `others =>` wrapping of a default, one level per dimension, can be undone exactly. |
| Declarations.SignalDefault | xtend-gen/org/pshdl/generator/vhdl/VHDLStatementExtension.java:767-790 | A default value is given only to variables without an explicit reset or to memories that have a reset value. That default is the lowered reset wrapped once per dimension. |
| Declarations.Route | xtend-gen/org/pshdl/generator/vhdl/VHDLStatementExtension.java:790-845 | The direction decides where the variable goes. In, out and inout become ports of that mode; internals become signals or shared variables; hidden and constant become (package) constants; parameters become generics. Exactly one declaration is added. |
| Declarations.ModeRoundTrip | xtend-gen/org/pshdl/generator/vhdl/VHDLStatementExtension.java:790-845 | Port mode and PSHDL direction convert into each other without loss. |
| Declarations.Declare | xtend-gen/org/pshdl/generator/vhdl/VHDLStatementExtension.java:696-846 | Handling a variable adds exactly one declaration and leaves statements and components untouched. |
| Assignments.RefOf | xtend-gen/org/pshdl/generator/vhdl/VHDLStatementExtension.java:963-969 | Only a variable or interface reference can be assigned to; anything else is ClassCast. |
| Assignments.Converted | xtend-gen/org/pshdl/generator/vhdl/VHDLStatementExtension.java:971-997 | A whole-array assignment from a non-initialiser is converted to the target's array type. Fully indexed and interface targets are not converted, and over-indexing is IndexOutOfBounds. |
| Assignments.AssignStmt | xtend-gen/org/pshdl/generator/vhdl/VHDLStatementExtension.java:999-1007 | An assignment to a memory is a variable assignment and any other is a signal assignment. Its target is the lowered left side, and a variable assignment never targets a bare signal name. |
| Assignments.MemorySignalTargetFails | xtend-gen/org/pshdl/generator/vhdl/VHDLStatementExtension.java:999-1003 | A memory whose reference lowers to a bare signal name cannot be assigned: the cast to a variable target fails. |
| Assignments.AssignmentRouting | xtend-gen/org/pshdl/generator/vhdl/VHDLStatementExtension.java:1008-1013 | A register's assignment is the one clocked statement of its normalised configuration. Any other is the one combinational statement of the current process, with itself as sensitivity source. |
| Partition.AddEachBuckets | xtend-gen/org/pshdl/generator/vhdl/VHDLStatementExtension.java:1084-1103 | Adding one statement per new configuration appends the configurations to the key order, and each bucket gets exactly its statement. |
| Partition.UnionKeysDistinct | xtend-gen/org/pshdl/generator/vhdl/VHDLStatementExtension.java:1074-1078 | The configurations of both branches together are free of duplicates and normalised. |
| Partition.AssembleIf | xtend-gen/org/pshdl/generator/vhdl/VHDLStatementExtension.java:1061-1123 | The combinational part is one `if` under the current process holding both branches' combinational statements, with the if statement as source. Declarations of both branches are merged, and an undeclarable condition fails. |
| Partition.IfPartition | xtend-gen/org/pshdl/generator/vhdl/VHDLStatementExtension.java:1074-1103 | Every configuration of either branch gets one `if` with the same condition, holding that configuration's statements from each branch. |
| Partition.CaseChoice | xtend-gen/org/pshdl/generator/vhdl/VHDLStatementExtension.java:923-951 | A default case is `others`. A constant label is a bit string of the switch's width, and needs that width. Any other label is its lowered expression. |
| Partition.Choices | xtend-gen/org/pshdl/generator/vhdl/VHDLStatementExtension.java:923-951 | The choices of all cases, in order; the first failing label's fault otherwise. |
| Partition.AssembleSwitch | xtend-gen/org/pshdl/generator/vhdl/VHDLStatementExtension.java:848-921 | A switch without statements is a fresh context. Otherwise there is one combinational case statement under the current process, with an alternative per case. |
| Partition.SwitchPartition | xtend-gen/org/pshdl/generator/vhdl/VHDLStatementExtension.java:867-899 | Every configuration of any case gets one case statement. It has an alternative per case, holding that case's statements of the configuration. |
| Partition.AssembleFor | xtend-gen/org/pshdl/generator/vhdl/VHDLStatementExtension.java:1017-1059 | The combinational body becomes one `for` loop over the first range, ascending, in the current process. A body without statements is passed through. |
| Partition.ForPartition | xtend-gen/org/pshdl/generator/vhdl/VHDLStatementExtension.java:1026-1042 | Every configuration of the body gets its own `for` loop over the same range holding its statements, and no other process gets any. |
| Partition.SwitchWidth | xtend-gen/org/pshdl/generator/vhdl/VHDLStatementExtension.java:848-864 | The width of a primitive switch is its constant width. A width that is not constant is SwitchWidthNotConstant, and a non-primitive switch has no width. |
| Statements.Lower | xtend-gen/org/pshdl/generator/vhdl/VHDLStatementExtension.java:1129-1162 | Only a function call can come back without a fragment. Function declarations and unknown kinds are NotImplemented, the process counter never goes back, and every fragment is well formed. |
| Statements.LowerBlock | xtend-gen/org/pshdl/generator/vhdl/VHDLStatementExtension.java:180-203 | A process block takes at least one fresh process id. |
| Statements.LowerDecl | xtend-gen/org/pshdl/generator/vhdl/VHDLStatementExtension.java:578-694 | A memory declaration produces an empty fragment and keeps the counter. Any other declaration yields a well-formed fragment and never moves the counter back. |
| Statements.LowerDeclShape | xtend-gen/org/pshdl/generator/vhdl/VHDLStatementExtension.java:578-694 | A declaration without a VHDL type declares nothing. Otherwise it declares one item per variable and adds one reset per explicitly reset register variable, in the bucket of the normalised register configuration. It adds no other statement. |
| Statements.LowerVarsShape | xtend-gen/org/pshdl/generator/vhdl/VHDLStatementExtension.java:687-846 | Handling the variables from a given one on adds one declared item per variable and one reset per explicitly reset variable, at the end of the register's reset bucket. No other bucket changes. |
| Statements.LowerReset | xtend-gen/org/pshdl/generator/vhdl/VHDLStatementExtension.java:737-766 | An explicitly reset register variable adds one statement to the end of its configuration's reset bucket, and nothing else changes. |
| Statements.Generate | xtend-gen/org/pshdl/generator/vhdl/VHDLStatementExtension.java:410-450 | Each dimension wraps the rest in a `for … generate` labelled `generate_<instance>`, indexed by the dimension's letter and ranging over `0 to dim-1`, lowered as a range with both bounds simplified. |
| Statements.GenerateNesting | xtend-gen/org/pshdl/generator/vhdl/VHDLStatementExtension.java:410-450 | The nest has one level per dimension, in order, each with its own index and range, and the instance at the bottom. |
| Statements.LowerInstance | xtend-gen/org/pshdl/generator/vhdl/VHDLStatementExtension.java:295-451 | An empty interface name fails. An interface declared with `@VHDLComponent` becomes a component instantiation named after the last segment of its name: with the value `declare` the component is declared, with any other value the referenced unit is imported. Any other interface becomes an entity instantiation of its name reference, with no declarations. The instantiation is the one concurrent statement, alone or inside the generate nest, and the instantiation fails exactly when the nest does. |
| Statements.LowerPlaced | xtend-gen/org/pshdl/generator/vhdl/VHDLStatementExtension.java:1129-1162 | The combinational statements of a lowered statement lie under the current process or under ids opened while lowering it, and clocked buckets are keyed by normalised configurations. |
| Statements.ProcessBlockOwnIds | xtend-gen/org/pshdl/generator/vhdl/VHDLStatementExtension.java:180-203 | The combinational statements of a process block lie only under the ids it opened itself. |
| Statements.SiblingProcessesDisjoint | xtend-gen/org/pshdl/generator/vhdl/VHDLStatementExtension.java:180-203 | Two statements lowered one after the other never share a process id other than the current one. |
| Statements.IfOnePerConfig | xtend-gen/org/pshdl/generator/vhdl/VHDLStatementExtension.java:1061-1123 | After lowering an if, each configuration holds exactly one `if` with the lowered condition and that configuration's statements of each branch. |
| Statements.SwitchOnePerConfig | xtend-gen/org/pshdl/generator/vhdl/VHDLStatementExtension.java:848-921 | After lowering a switch, each configuration holds exactly one case statement with the lowered switch expression and an alternative per case. |
| Statements.ForOnePerConfig | xtend-gen/org/pshdl/generator/vhdl/VHDLStatementExtension.java:1017-1059 | After lowering a for loop, each configuration holds exactly one loop over the first range with that configuration's body statements. |
| Functions.SeverityTable | src/org/pshdl/generator/vhdl/VHDLFunctions.java:172-196 | The assertion severity names and levels convert into each other, and any other name gives no severity. |
| Functions.VarRefOf | src/org/pshdl/generator/vhdl/VHDLFunctions.java:206-216 | The reference found under casts and negations, if there is one. |
| Functions.SetValue | src/org/pshdl/generator/vhdl/VHDLFunctions.java:201-204 | The assignment of the value, cast to `bit`, to the referenced variable. |
| Functions.Pulse | src/org/pshdl/generator/vhdl/VHDLFunctions.java:145-161 | A pulse is four statements in its own process without sensitivity: set to 0, wait, set to 1, wait. The waits are the lowered `waitFor` of the given time. |
| Functions.WaitForStmt | src/org/pshdl/generator/vhdl/VHDLFunctions.java:135-144 | `waitFor` is a `wait for` of the constant amount in the named unit. A missing argument is IndexOutOfBounds, a unit that is not an enum is ClassCast, and a non-constant amount is NotConstant. |
| Functions.WaitForAmount | src/org/pshdl/generator/vhdl/VHDLFunctions.java:135-144 | A 32-bit amount is written as a decimal literal that parses back to the amount. |
| Functions.PulseTarget | src/org/pshdl/generator/vhdl/VHDLFunctions.java:145-161 | The pulsed variable is the reference under the first argument's casts; without one the result is NullPointer. |
| Functions.AssertionStmt | src/org/pshdl/generator/vhdl/VHDLFunctions.java:172-196 | `assertThat` is an assertion of the lowered condition with the lowered message and the named severity. |
| Functions.SimulationCallsStayInProcess | src/org/pshdl/generator/vhdl/VHDLFunctions.java:122-170 | The wait functions and pulse produce only combinational statements of the current process, which has no sensitivity list. |
| Functions.AssertThatShape | src/org/pshdl/generator/vhdl/VHDLFunctions.java:172-196 | `assertThat` produces one assertion in the current process, whose sensitivity source is the call. |
| Functions.OtherCallsDecline | src/org/pshdl/generator/vhdl/VHDLFunctions.java:122-199 | The built-in provider declines every other function name. |
| Functions.ProvideStmtFirstAnswer | src/org/pshdl/generator/vhdl/VHDLFunctions.java:218-225 | A call statement is answered by the first provider that does not decline. |
| Functions.ProvideStmtNoAnswer | src/org/pshdl/generator/vhdl/VHDLFunctions.java:218-225 | When every provider declines, there is no fragment. |
| Processes.Contribution | xtend-gen/org/pshdl/generator/vhdl/VHDLPackageExtension.java:422-478 | A reference adds its VHDL name to the sensitivity list exactly when it has a variable that is not a memory, not hidden, not a parameter and not a constant. It must also not be the target of its own assignment, and the assignment's target must not be a register. |
| Processes.Gather | xtend-gen/org/pshdl/generator/vhdl/VHDLPackageExtension.java:422-478 | The sensitivity set is sorted and holds exactly the contributed names; the first reference that fails ends the search. |
| Processes.SensitivityList | xtend-gen/org/pshdl/generator/vhdl/VHDLPackageExtension.java:243-274 | A process marked without sensitivity gets an empty list. Otherwise the list is the sorted names contributed by the references in its source statements. |
| Processes.GatherOrderFree | xtend-gen/org/pshdl/generator/vhdl/VHDLPackageExtension.java:422-478 | The sensitivity list does not depend on the order in which references are met. |
| Processes.SensitiveNameIsSignal | xtend-gen/org/pshdl/generator/vhdl/VHDLPackageExtension.java:422-478 | A name in the sensitivity list is the same signal the plain reference lowers to. |
| Processes.UnclockedProcess | xtend-gen/org/pshdl/generator/vhdl/VHDLPackageExtension.java:243-274 | A process with neither sensitivity nor a wait gets a final `wait;`, so every process either has a sensitivity list or waits. |
| Processes.ClockSignals | xtend-gen/org/pshdl/generator/vhdl/VHDLPackageExtension.java:487-542 | Clock and reset must lower to signal names. |
| Processes.ClockedProcess | xtend-gen/org/pshdl/generator/vhdl/VHDLPackageExtension.java:487-542 | A clocked process is one `if`. It is sensitive to the clock, and also to the reset when the reset is asynchronous. |
| Processes.FirstTrue | xtend-gen/org/pshdl/generator/vhdl/VHDLPackageExtension.java:487-542 | The branch an `if`/`elsif` chain takes is the first whose condition holds. |
| Processes.ClockedBehaviour | xtend-gen/org/pshdl/generator/vhdl/VHDLPackageExtension.java:487-542 | Synchronously, on an edge, the reset statements run when reset holds and the clocked ones otherwise. Asynchronously, reset wins over the edge. Without an edge (or reset) nothing runs. |
| Processes.UnclockedProcesses | xtend-gen/org/pshdl/generator/vhdl/VHDLPackageExtension.java:243-274 | One combinational process per process id, in order, with its sensitivity list and statements. |
| Processes.ClockedProcesses | xtend-gen/org/pshdl/generator/vhdl/VHDLPackageExtension.java:275-285 | One clocked process per configuration, in order. |
| Processes.Processes | xtend-gen/org/pshdl/generator/vhdl/VHDLPackageExtension.java:243-285 | The combinational processes come first, then the clocked ones, and each either has a sensitivity list or waits. |
| Names.DashStringRoundTrip | xtend-gen/org/pshdl/generator/vhdl/VHDLPackageExtension.java:359-362 | The underscore-joined name splits back into its segments when none holds an underscore. |
| Names.PackageName | xtend-gen/org/pshdl/generator/vhdl/VHDLPackageExtension.java:351-356 | The package name is the dashed name followed by `Pkg`. |
| Names.NameRef | xtend-gen/org/pshdl/generator/vhdl/VHDLPackageExtension.java:376-383 | A name under `VHDL` drops that root. Any other name is `work.<dashed>`, and an empty name has no first segment. |
| Names.PackageNameRef | xtend-gen/org/pshdl/generator/vhdl/VHDLPackageExtension.java:364-374 | Under `VHDL` the same as the name reference; otherwise the name reference with `Pkg` appended to its last segment. |
| Units.Classify | xtend-gen/org/pshdl/generator/vhdl/VHDLPackageExtension.java:294-333 | A comment is either normal or documentation. A line comment yields one line, and a comment too short for its delimiters makes `substring` throw. |
| Units.LineCommentRoundTrip | xtend-gen/org/pshdl/generator/vhdl/VHDLPackageExtension.java:295-311 | `//text`, `///text` and `///<text` yield `text` back, as a normal or a documentation comment. |
| Units.BlockCommentRoundTrip | xtend-gen/org/pshdl/generator/vhdl/VHDLPackageExtension.java:312-333 | `/*…*/` and `/**<…*/` around lines yield those lines back. |
| Units.CollectConcat | xtend-gen/org/pshdl/generator/vhdl/VHDLPackageExtension.java:294-333 | Collecting the comments of two lists is collecting each and concatenating. |
| Units.AttachComments | xtend-gen/org/pshdl/generator/vhdl/VHDLPackageExtension.java:336-346 | Attached are the normal comments, the documentation, or both (normal first), as requested. |
| Units.StaticClauses | xtend-gen/org/pshdl/generator/vhdl/VHDLPackageExtension.java:405-417 | The fixed clauses declare only the library `ieee` and open five packages. |
| Units.ImportClauses | xtend-gen/org/pshdl/generator/vhdl/VHDLPackageExtension.java:385-403 | One use clause `<import>.all` per import, in order. Each import's library is declared once unless already known, and an empty import fails. |
| Units.DefaultLibs | xtend-gen/org/pshdl/generator/vhdl/VHDLPackageExtension.java:385-403 | The fixed clauses first, then those of the imports; no library is declared twice. |
| Units.ImportsDeclared | xtend-gen/org/pshdl/generator/vhdl/VHDLPackageExtension.java:385-403 | Every use clause draws on a library declared before it or known from the start. |
| Units.UseImport | xtend-gen/org/pshdl/generator/vhdl/VHDLPackageExtension.java:131-170 | A type use of a foreign unit imports that unit's package and nothing else changes. Local types, interface-typed variables and `pshdl` names import nothing. |
| Units.UseImports | xtend-gen/org/pshdl/generator/vhdl/VHDLPackageExtension.java:131-170 | The imports afterwards are the earlier ones plus the package of every foreign type use. |
| Units.LowerTopAsBlock | xtend-gen/org/pshdl/generator/vhdl/VHDLPackageExtension.java:171-194 | The unit's statements are lowered and merged exactly as a block's children in the default context, except that a missing fragment is skipped. |
| Units.UnitFile | xtend-gen/org/pshdl/generator/vhdl/VHDLPackageExtension.java:195-287 | The file can be built exactly when the default clauses and the processes can. It is then the layout `Units.FileOf` gives for them. |
| Units.FileOf | xtend-gen/org/pshdl/generator/vhdl/VHDLPackageExtension.java:195-287 | The file has the default clauses, then the package, its use clause and the clauses again when there are package declarations. Then come the entity named by the dashed name, and its architecture `pshdlGenerated` with the concurrent statements followed by the processes. |
| Units.LowerUnit | xtend-gen/org/pshdl/generator/vhdl/VHDLPackageExtension.java:125-287 | A lowered unit ends with the entity named after the unit and its architecture. |
| Validator.SeverityOf | src/org/pshdl/generator/vhdl/VHDLOutputValidator.java:50-64 | Only a renamed identifier is a warning; keyword type names and parse errors are errors. |
| Validator.AdviseFor | src/org/pshdl/generator/vhdl/VHDLOutputValidator.java:71-87 | There is advice for the two keyword codes only, each with its own text. |
| Validator.CheckNames | src/org/pshdl/generator/vhdl/VHDLOutputValidator.java:95-124 | A variable is reported exactly when escaping renames it. A unit, interface or enum is reported exactly when its joined full name is a keyword. |
| Validator.Check | src/org/pshdl/generator/vhdl/VHDLOutputValidator.java:89-93 | The check always succeeds, keeps the earlier problems, and adds exactly the name problems. |
| Validator.CheckIdempotent | src/org/pshdl/generator/vhdl/VHDLOutputValidator.java:89-93 | Checking twice adds nothing new. |
| Importer.BitStringValueAsWritten | src/org/pshdl/generator/vhdl/VHDLImporter.java:350-356 | As written, the text of a hex, binary or character literal is read in base 16 whatever its kind. |
| Importer.BitStringValue | src/org/pshdl/generator/vhdl/VHDLImporter.java:350-356 | Corrected: a hex or binary literal has the value VHDL gives its digits in its own base; hex and character literals convert as written. |
| Importer.BitString | src/org/pshdl/generator/vhdl/VHDLImporter.java:350-356 | Under either variant, a hex or binary literal converts to exactly the value that variant reads in it. |
| Importer.ReadingsAgree | src/org/pshdl/generator/vhdl/VHDLImporter.java:350-356 | In an expression without binary literals, the as-written reading is the value VHDL gives it. |
| Importer.BinaryLiteralRoundTrip | src/org/pshdl/generator/vhdl/VHDLImporter.java:350-356 | The binary literal of every natural number has that number as its VHDL value, and the corrected importer converts it back to that number. |
| Importer.HexReadingOfBits | src/org/pshdl/generator/vhdl/VHDLImporter.java:350-356 | A string of binary digits read in base 16 gives at least its base-2 value, and more once the digits before the last are not all zero. |
| Importer.BinaryLiteralMisread | src/org/pshdl/generator/vhdl/VHDLImporter.java:348-356 | As written, the binary literal of every natural number n converts to the base-16 value of its digits, which is n exactly when n < 2. |
| Importer.BinaryLiteralAsWritten | src/org/pshdl/generator/vhdl/VHDLImporter.java:350-356 | As written, `B"101"` converts to 257 where its VHDL value is 5. |
| Importer.ArithOf | src/org/pshdl/generator/vhdl/VHDLImporter.java:365-388 | Plus, minus and multiply map to their PSHDL operators, and any other kind of binary expression to none. |
| Importer.GetExpression | src/org/pshdl/generator/vhdl/VHDLImporter.java:348-406 | Under either variant, a signal becomes an unresolved reference; a constant without a value and any unknown kind give nothing, and an unknown operator gives nothing. |
| Importer.ImportKeepsValue | src/org/pshdl/generator/vhdl/VHDLImporter.java:348-406 | Under either variant, an imported integer expression exists and denotes the integer that variant reads in the VHDL one; for the corrected importer, the VHDL value. |
| Importer.AsWrittenKeepsValue | src/org/pshdl/generator/vhdl/VHDLImporter.java:348-406 | The importer as written keeps the VHDL value of every integer expression without binary literals. |
| Importer.SubThenPlus1 | src/org/pshdl/generator/vhdl/VHDLImporter.java:338-345 | `from - to + 1`, folded to a literal when constant evaluation knows it. |
| Importer.RangeWidth | src/org/pshdl/generator/vhdl/VHDLImporter.java:306-320 | Under either variant, the width of a range whose bounds it reads as integers is `from - to + 1` for `downto` and `to - from + 1` for `to`. |
| Importer.ConvertRanges | src/org/pshdl/generator/vhdl/VHDLImporter.java:255-269 | Under either variant, one dimension per index range, the width that variant computes for it, appended in order after the existing ones. |
| Importer.RangeWidths | src/org/pshdl/generator/vhdl/VHDLImporter.java:259-264 | Under either variant, position by position, the widths that variant computes for the index ranges; a range that is not an index range is a failed cast. |
| Importer.PredefinedAsWritten | src/org/pshdl/generator/vhdl/VHDLImporter.java:218-230 | As written, the scalar bit types map to `bit`, and only `std_logic_vector` and `bit_vector` map to `bit<>`. |
| Importer.Predefined | src/org/pshdl/generator/vhdl/VHDLImporter.java:218-230 | The corrected table also maps `std_ulogic_vector` to `bit<>` and otherwise agrees with the code. |
| Importer.VectorsOfBits | src/org/pshdl/generator/vhdl/VHDLImporter.java:218-230 | In the corrected table, every bit type's vector maps to `bit<>`. |
| Importer.UlogicVectorAsWritten | src/org/pshdl/generator/vhdl/VHDLImporter.java:221 | As written, `std_ulogic_vector` has no entry in the type table although `std_ulogic` has. |
| Importer.UlogicVectorImport | src/org/pshdl/generator/vhdl/VHDLImporter.java:218-222 | As written, a port declared `std_ulogic_vector` as a named type imports as nothing while `std_logic_vector` becomes `bit<>`; the corrected importer makes both `bit<>`. |
| Importer.UlogicVectorAsArray | src/org/pshdl/generator/vhdl/VHDLImporter.java:270-278 | As written, a `std_ulogic_vector` declared as an unconstrained array of `std_ulogic` passes by the vector test and imports as `bit` with the extra dimension -20, not as `bit<>`. |
| Importer.CreateVar | src/org/pshdl/generator/vhdl/VHDLImporter.java:322-336 | The variable is named after the last name segment and keeps type, width, dimensions and direction. Its default is the variant's conversion of the VHDL one; a default without a PSHDL form is dropped and marked. |
| Importer.GetVariable | src/org/pshdl/generator/vhdl/VHDLImporter.java:208-283 | Under either variant, an enumeration type and a name outside that variant's type table import as nothing. |
| Importer.GetVariableShape | src/org/pshdl/generator/vhdl/VHDLImporter.java:208-283 | Under either variant, an imported variable's type is the one that variant's type table gives its innermost named subtype. It keeps the last name segment and the direction, and gets one dimension per array index after the given ones. Each array layer adds an annotation, the last naming the VHDL type; each range constraint adds at most one. A named type is created by createVar. |
| Importer.RangeAnnotationOf | src/org/pshdl/generator/vhdl/VHDLImporter.java:236-247 | Under either variant, a range constraint adds one annotation exactly when both bounds have a PSHDL form, written `to;from` for `downto` and `from;to` for `to`. |
| Importer.UnconstrainedMarker | src/org/pshdl/generator/vhdl/VHDLImporter.java:270-278 | An unconstrained array's dimension is the marker `-20`. |
| Importer.RangeAnnotationAscending | src/org/pshdl/generator/vhdl/VHDLImporter.java:231-249 | Under either variant, a range constraint whose bounds it reads as integers is recorded low bound first, whatever its direction. |

## Left out

- `PStoVHDLCompiler`, `VHDLCodeGenCrasher` and `VhdlParserExceptionThrower`: these are drivers around the core, doing file and stream I/O, command-line handling and parser error reporting.
- `VHDLImporter.importFile`, `main` and `getScopes`: parsing VHDL text and walking the parser's scopes is I/O. The importer is modelled from an already parsed declaration, `Importer.Source` and `Importer.Subtype`. `getFullName` is the parameter `Services.fullName`.
- `toVHDL(HDLPackage)` and the rendering of the VHDL tree to text (the vMAGIC output writer): the model stops at the VHDL syntax tree.
- The `Comments` side-store of vMAGIC elements: `attachComments` (both the context's and the package extension's) is modelled as the pure classification of the comment texts, `Units.AttachComments`. Which element they end up on is not modelled, and the entity and architecture comments are not attached.
- The discovery of providers through `HDLCore.getAllImplementations`: it is the explicit list `Env.providers`.
- The search for references and type uses inside statements (`getAllObjectsOf`): it is the parameter `Processes.Finder` and the sequence of `Units.TypeUse` that `Units.LowerUnit` receives.
- Constant evaluation, register-configuration normalisation, name escaping (`VHDLUtils`), `TypeExtension.typeOf`, `HDLPrimitives.simplifyWidth` and the casts library: these are the uninterpreted fields of `Env.Env`. `simplifyWidth` is modelled by the constant a bound folds to, if any; the bound is then that constant's literal, and otherwise the bound itself. The `USE` clause of the casts library is the parameter `castsUse`.
- `Insulin.createArrayForLoop`: the loop that resets an array variable is an input field (`resetLoop`) of each declared variable.
- The port and generic maps of an interface instantiation: `Statements.LowerInstance` models which instantiation it produces, the component or import the `@VHDLComponent` annotation adds, and the generate nest, not the maps.
- Statements.LowerInstance: the declarations `generatePortMap` adds while building the port map (internal signals for unexported ports and the imports of their array types) are not modelled, so the declarations it states are only those of the annotation. The declared component carries no ports or generics, because the lowering of the interface's port declarations into the component is not modelled.
- Declarations.DimRangesStartAtZero: assumes that `simplifyWidth` maps a literal to its own value or leaves it alone, as constant evaluation of a literal does. Nothing else is assumed about `simplifyWidth`.
- Expressions.KeptLiteral: makes the same assumption about `simplifyWidth` and literals.
- Expressions.BuiltinShapes: the start of the `highZ` range is stated to be `1` only under the same assumption.
- The printing of `EnumerationType` in the importer, the text of range annotations, and the values of string literals: these are diagnostics and text.
- The diagnostic printed when a unit's statement produces no fragment: the statement is skipped, as the code does after printing.
- Statements.Lower: the properties a code-function provider other than the built-in one must meet are stated as preconditions of the lemmas that need them. `Env.Fragment` requires well-formed and consistent fragments, `Statements.ForeignPlaced` requires them to stay in their process, and `Expressions.ForeignWrapped` requires parenthesised binaries. Likewise `Statements.Idempotent` assumes that normalising a configuration twice equals normalising it once.
- Statements.Lower: its own contract states only well-formedness, the error kinds and the process counter. The shape of the fragment per statement kind is stated by `Statements.IfOnePerConfig`, `Statements.SwitchOnePerConfig`, `Statements.ForOnePerConfig`, `Statements.LowerPlaced` and `Assignments.AssignmentRouting`.
- Units.LowerUnit: states the end of the file only; the whole layout is stated by `Units.UnitFile` and `Units.FileOf` for the merged context.
- Importer.GetExpression: states the error-free and the `None` cases and, through `Importer.ImportKeepsValue`, the value of every constant expression, but not the exact tree of non-constant expressions.
- Importer.GetVariableShape: bounds the number of annotations instead of listing them one by one.
- Importer.PredefinedAsWritten: a predefined IEEE type is a `Named` leaf compared by its name. vMAGIC's declarations of these types are not part of this model. If `std_ulogic_vector` is an unconstrained array there, its import is the one `Importer.UlogicVectorAsArray` states.
- Assignments.AssignStmt: assumes that every lowered target other than a bare signal name (an array element, a slice, a variable name) implements both of vMAGIC's assignment-target interfaces.
- SortedSets.Less: compares strings by Unicode code point, while Java's `String.compareTo` compares UTF-16 code units. The two orders differ only for characters above U+FFFF.
- SortedSets.NameLess: assumes that qualified names compare segment by segment. `HDLQualifiedName.compareTo` is not part of this model.
- Declarations.AsIndex: returns `IndexOutOfBounds` where `'I' + i` lands in the surrogate range U+D800 to U+DFFF. Java's `char` arithmetic still yields a one-character name there.
- Literals.IntValue: states the 32-bit wrap-around by congruence rather than by the bit pattern.
- The null expression of an unanswered call in expression position is kept as the node `Vhdl.NullExpr`. The NullPointerException it causes happens only when the VHDL tree is rendered, and rendering is not modelled.

## Findings

| source | as written | input that shows it | evidently intended | confidence | as-written member | corrected member |
|---|---|---|---|---|---|---|
| src/org/pshdl/generator/vhdl/VHDLImporter.java:221 | the vector-type test compares with `STD_ULOGIC` twice | a port of type `std_ulogic_vector` fails the vector test and never becomes `bit<>`, while `std_logic_vector` does. If vMAGIC names the type, the port is not imported. If vMAGIC declares it as an unconstrained array, the port becomes a `bit` array with dimension -20 (lines 270-278). | the second comparison is with `STD_ULOGIC_VECTOR`, so every vector of bits maps to `bit<>` | not executed | Importer.UlogicVectorImport | Importer.VectorsOfBits |
| src/org/pshdl/generator/vhdl/VHDLImporter.java:350-356 | hex, binary and character literal texts are all parsed with radix 16 | `B"101"` converts to 257; every binary literal of a number n >= 2 converts to more than n | a binary literal is parsed with radix 2, giving 5 | not executed | Importer.BinaryLiteralMisread | Importer.BinaryLiteralRoundTrip |
