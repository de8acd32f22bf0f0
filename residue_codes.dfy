/**
 * The two three-letter to one-letter residue tables the scripts use: the
 * upper-case table written out in the binding-site script, and Biopython's
 * title-case `protein_letters_3to1` used by the sequence extraction.
 */
module ResidueCodes {
  /** The one-letter codes of the twenty standard amino acids. */
  const StandardLetters: string := "ACDEFGHIKLMNPQRSTVWY"

  /** The binding-site script's `aa_three_to_one`. */
  const AaThreeToOne: map<string, char> := map[
    "ALA" := 'A', "CYS" := 'C', "ASP" := 'D', "GLU" := 'E', "PHE" := 'F',
    "GLY" := 'G', "HIS" := 'H', "ILE" := 'I', "LYS" := 'K', "LEU" := 'L',
    "MET" := 'M', "ASN" := 'N', "PRO" := 'P', "GLN" := 'Q', "ARG" := 'R',
    "SER" := 'S', "THR" := 'T', "VAL" := 'V', "TRP" := 'W', "TYR" := 'Y'
  ]

  /** Biopython's `protein_letters_3to1`: the same twenty residues, keyed in title case. */
  const ProteinLetters3To1: map<string, char> := map[
    "Ala" := 'A', "Cys" := 'C', "Asp" := 'D', "Glu" := 'E', "Phe" := 'F',
    "Gly" := 'G', "His" := 'H', "Ile" := 'I', "Lys" := 'K', "Leu" := 'L',
    "Met" := 'M', "Asn" := 'N', "Pro" := 'P', "Gln" := 'Q', "Arg" := 'R',
    "Ser" := 'S', "Thr" := 'T', "Val" := 'V', "Trp" := 'W', "Tyr" := 'Y'
  ]

  /**
   * `aa_three_to_one.get(name, '?')`: a standard letter for the twenty
   * tabulated names and `'?'` for every other name, so that an unknown
   * residue is still reported and is told apart from a known one.
   */
  function OneLetter(name: string): (c: char)
    ensures name in AaThreeToOne ==> c in StandardLetters
    ensures name !in AaThreeToOne <==> c == '?'
  {
    if name in AaThreeToOne then AaThreeToOne[name] else '?'
  }
}
