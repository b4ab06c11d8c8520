/** The VHDL names derived from a unit's qualified name
    (VHDLPackageExtension): the dashed name, the package name, and the
    references by which other units reach the entity and its package. */
module Names {
  import opened Wrappers
  import Hdl
  import Strings

  /** dashString: the segments joined with underscores. */
  function DashString(n: Hdl.QName): (r: string)
    ensures |n| == 1 ==> r == n[0]
  {
    Strings.Join(n, '_')
  }

  /** For names whose segments hold no underscore, splitting the dashed form
      at the underscores gives the name back. */
  lemma DashStringRoundTrip(n: Hdl.QName)
    requires |n| >= 1 && (|n| == 1 || n[|n| - 1] != "")
    requires forall i :: 0 <= i < |n| ==> '_' !in n[i]
    ensures Strings.Split(DashString(n), '_') == n
  {
    Strings.SplitJoin(n, '_');
  }

  /** getPackageName: the dashed name followed by `Pkg`. */
  function PackageName(n: Hdl.QName): (r: string)
    ensures Strings.EndsWith(r, "Pkg") && r[..|r| - 3] == DashString(n)
  {
    DashString(n) + "Pkg"
  }

  /** getNameRef: a name under the `VHDL` root refers to an existing VHDL
      unit and loses that segment; any other name is `work.<dashed>`.  The
      first segment of an empty name does not exist. */
  function NameRef(n: Hdl.QName): (r: Result<Hdl.QName>)
    ensures r.Ok? <==> |n| > 0
    ensures r.Ok? && n[0] == "VHDL" ==> r.value == n[1..]
    ensures r.Ok? && n[0] != "VHDL" ==> r.value == ["work", DashString(n)]
  {
    if |n| == 0 then Err(IndexOutOfBounds)
    else if n[0] == "VHDL" then Ok(n[1..])
    else Ok(["work", DashString(n)])
  }

  /** getPackageNameRef: the same as the name reference under the `VHDL`
      root; otherwise the reference to the unit's package, whose last
      segment is the unit reference's with `Pkg` appended. */
  function PackageNameRef(n: Hdl.QName): (r: Result<Hdl.QName>)
    ensures r.Ok? <==> NameRef(n).Ok?
    ensures r.Ok? && n[0] == "VHDL" ==> r == NameRef(n)
    ensures r.Ok? && n[0] != "VHDL" ==>
              && r.value == ["work", PackageName(n)]
              && |NameRef(n).value| == 2 && r.value == [NameRef(n).value[0], NameRef(n).value[1] + "Pkg"]
  {
    if |n| == 0 then Err(IndexOutOfBounds)
    else if n[0] == "VHDL" then Ok(n[1..])
    else Ok(["work", DashString(n) + "Pkg"])
  }}
