/**
 * The compound data shared by the chemistry quiz: a compound has an id, a
 * name and a structure made of atoms (with plane coordinates) and bonds
 * between atom ids.
 */
module ChemTypes {

  /**
   * The bond types the viewer knows; Other stands for any other type
   * text the unchecked structure JSON may carry.
   */
  datatype BondType = Single | Double | Triple | Other

  datatype Atom = Atom(id: string, element: string, x: real, y: real)

  datatype Bond = Bond(from: string, to: string, kind: BondType)

  datatype StructureData = StructureData(atoms: seq<Atom>, bonds: seq<Bond>)

  datatype Compound = Compound(id: string, name: string, structure: StructureData)

  /** A structure the quiz can draw: at least one atom and at least one bond. */
  predicate HasStructure(c: Compound) {
    |c.structure.atoms| > 0 && |c.structure.bonds| > 0
  }
}
