/**
 * The parsed structure the scripts receive from Biopython's PDB and mmCIF
 * parsers: a structure holds models, a model holds chains, a chain holds
 * residues in file order, and a residue holds atoms with coordinates.
 */
module Structures {

  datatype Point = Point(x: real, y: real, z: real)

  datatype Atom = Atom(name: string, coord: Point)

  /**
   * A residue with its Biopython id `(hetero, number, icode)`: `hetero` is
   * `" "` for a standard polymer residue, `"W"` for water and `"H_<name>"`
   * for any other hetero group.
   */
  datatype Residue = Residue(name: string, hetero: string, number: int, icode: char, atoms: seq<Atom>)

  datatype Chain = Chain(id: string, residues: seq<Residue>)

  datatype Model = Model(chains: seq<Chain>)

  datatype Structure = Structure(models: seq<Model>)

  /** The test `residue.id[0] == " "` both scripts use to keep protein residues only. */
  predicate IsStandard(r: Residue) {
    r.hetero == " "
  }

  /** Squared Euclidean distance; comparing it with a squared radius avoids the square root. */
  function SqDist(p: Point, q: Point): (d: real)
    ensures d >= 0.0
  {
    var dx, dy, dz := p.x - q.x, p.y - q.y, p.z - q.z;
    assert dx * dx >= 0.0 && dy * dy >= 0.0 && dz * dz >= 0.0;
    dx * dx + dy * dy + dz * dz
  }

  /** The residues of the chains, chain by chain, each in file order. */
  function ChainResidues(chains: seq<Chain>): (rs: seq<Residue>)
    ensures forall r :: r in rs <==> exists c :: c in chains && r in c.residues
  {
    if chains == [] then []
    else
      var rest := ChainResidues(chains[1..]);
      assert forall c :: c in chains <==> c == chains[0] || c in chains[1..];
      chains[0].residues + rest
  }

  /** `model.get_residues()`. */
  function Residues(m: Model): seq<Residue> {
    ChainResidues(m.chains)
  }
}
