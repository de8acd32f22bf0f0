/**
 * How both download scripts turn a combined CSV entry such as `1a2bA`
 * into a PDB id and a chain id.
 */
module PdbIds {
  import opened Text

  datatype PdbChain = PdbChain(pdbId: string, chainId: string)

  /**
   * `combined[:4].lower()` and `combined[4:].upper()`, with Python's
   * slicing: a shorter string gives the whole of it as the id and an empty
   * chain.
   */
  function SplitPdbChain(combined: string): (r: PdbChain)
    ensures |r.pdbId| == if |combined| < 4 then |combined| else 4
    ensures |r.pdbId| + |r.chainId| == |combined|
    ensures forall i :: 0 <= i < |r.pdbId| ==> !IsUpperAscii(r.pdbId[i])
    ensures forall i :: 0 <= i < |r.chainId| ==> !IsLowerAscii(r.chainId[i])
  {
    var cut := if |combined| < 4 then |combined| else 4;
    PdbChain(Lower(combined[..cut]), Upper(combined[cut..]))
  }

  /**
   * The split only changes letter case: read case-insensitively, the id
   * followed by the chain is the combined entry.
   */
  lemma SplitPdbChainLosesOnlyCase(combined: string)
    ensures var r := SplitPdbChain(combined);
            Lower(r.pdbId + r.chainId) == Lower(combined)
  {
    var cut := if |combined| < 4 then |combined| else 4;
    var r := SplitPdbChain(combined);
    LowerAppend(r.pdbId, r.chainId);
    LowerOfUpper(combined[cut..]);
    assert Lower(Lower(combined[..cut])) == Lower(combined[..cut]);
    LowerAppend(combined[..cut], combined[cut..]);
    assert combined[..cut] + combined[cut..] == combined;
  }
}
