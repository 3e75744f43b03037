/** The molecule and the structural analysis a selection is evaluated against, and the
    attribute resolver that maps selection-language property names onto the molecule. */
module Molecules {
  import opened Errors

  datatype Point = Point(x: real, y: real, z: real)

  /** A per-atom attribute array of the molecule: numbers or strings. */
  datatype Column = Nums(nums: seq<real>) | Strs(strs: seq<string>)
  {
    function Length(): nat { if Nums? then |nums| else |strs| }
  }

  /** The selection-language property names and the molecule attribute each one reads. */
  const MolPropMap: map<string, string> := map[
    "serial" := "serial",
    "name" := "name",
    "element" := "element",
    "resname" := "resname",
    "resid" := "resid",
    "insertion" := "insertion",
    "chain" := "chain",
    "segid" := "segid",
    "segname" := "segid",
    "altloc" := "altloc",
    "mass" := "masses",
    "occupancy" := "beta",
    "beta" := "beta",
    "charge" := "charge"
  ]

  /** The attributes that hold text; the others hold numbers. */
  const TextAttrs: set<string> := {"name", "element", "resname", "insertion", "chain", "segid", "altloc"}

  /** A molecule: its named per-atom attributes and its coordinate frames
      (frames[f][i] is atom i in frame f); `frame` is the active frame. */
  datatype Molecule = Molecule(numAtoms: nat, attrs: map<string, Column>, frames: seq<seq<Point>>, frame: nat)
  {
    /** Every attribute the property map names exists, has one entry per atom and holds
        strings exactly when it is a textual attribute, and the active frame holds one
        point per atom. */
    ghost predicate Valid() {
      && (forall p | p in MolPropMap ::
            && MolPropMap[p] in attrs
            && attrs[MolPropMap[p]].Length() == numAtoms
            && (attrs[MolPropMap[p]].Strs? <==> MolPropMap[p] in TextAttrs))
      && frame < |frames| && |frames[frame]| == numAtoms
    }

    /** The coordinates of the active frame. */
    function Coords(): (c: seq<Point>)
      requires Valid()
      ensures |c| == numAtoms
    {
      frames[frame]
    }
  }

  /** The precomputed structural analysis: one mask per class of atom and the fragment
      and sequential residue number of every atom. */
  datatype Analysis = Analysis(
    lipids: seq<bool>, ions: seq<bool>, waters: seq<bool>,
    proteinBb: seq<bool>, nucleicBb: seq<bool>, sidechain: seq<bool>,
    protein: seq<bool>, nucleic: seq<bool>,
    fragments: seq<int>, residues: seq<int>)
  {
    ghost predicate Valid(n: nat) {
      && |lipids| == n && |ions| == n && |waters| == n
      && |proteinBb| == n && |nucleicBb| == n && |sidechain| == n
      && |protein| == n && |nucleic| == n
      && |fragments| == n && |residues| == n
    }
  }

  /** The attribute a property name reads, or UnknownProperty when the name is not in
      the property map (the source's lookup failure). */
  function Resolve(mol: Molecule, p: string): (r: Result<Column>)
    requires mol.Valid()
    ensures r.Ok? <==> p in MolPropMap
    ensures r.Err? ==> r.error == UnknownProperty
    ensures r.Ok? ==> r.value == mol.attrs[MolPropMap[p]] && r.value.Length() == mol.numAtoms
  {
    if p in MolPropMap then Ok(mol.attrs[MolPropMap[p]]) else Err(UnknownProperty)
  }
}
