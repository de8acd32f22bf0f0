/**
 * Extraction of one chain's one-letter sequence from a parsed mmCIF
 * structure, and the FASTA record that is written from it.
 */
module ChainSequences {
  import opened Wrappers
  import opened Text
  import opened Structures
  import opened PdbIds
  import opened ResidueCodes

  /**
   * The name a residue is looked up by: as long as the stripped name and
   * starting with no lower-case letter (`Text.CapitalizeSpec` gives the rest
   * of its case and `LookupNameIgnoresCase` its independence of case).
   */
  function LookupName(r: Residue): (n: string)
    ensures |n| == |Strip(r.name)|
    ensures n != [] ==> !IsLowerAscii(n[0])
  {
    CapitalizeSpec(Strip(r.name));
    Capitalize(Strip(r.name))
  }

  /** Residue names that strip to the same letters up to case, such as ` ala` and `ALA`, are looked up alike. */
  lemma LookupNameIgnoresCase(r: Residue, r': Residue)
    requires Lower(Strip(r.name)) == Lower(Strip(r'.name))
    ensures LookupName(r) == LookupName(r')
  {
    CapitalizeIgnoresCase(Strip(r.name), Strip(r'.name));
  }

  /** The residue is standard and its lookup name is in the table. */
  predicate Known(r: Residue, table: map<string, char>) {
    IsStandard(r) && LookupName(r) in table
  }

  function StandardCount(rs: seq<Residue>): nat {
    if rs == [] then 0
    else StandardCount(rs[..|rs| - 1]) + if IsStandard(rs[|rs| - 1]) then 1 else 0
  }

  /**
   * The letters one chain contributes: one table letter per known residue,
   * in chain order; unknown names and hetero residues are skipped.
   */
  function ResidueLetters(rs: seq<Residue>, table: map<string, char>): seq<char> {
    if rs == [] then []
    else
      var front, r := rs[..|rs| - 1], rs[|rs| - 1];
      var letters := ResidueLetters(front, table);
      if Known(r, table) then letters + [table[LookupName(r)]] else letters
  }

  /** The first chain of the model with the given id, as the `break` picks it. */
  function FirstChain(chains: seq<Chain>, chainId: string): Option<Chain> {
    if chains == [] then None
    else if chains[0].id == chainId then Some(chains[0])
    else FirstChain(chains[1..], chainId)
  }

  /** The chain the search returns has the id, and there is none exactly when no chain has it. */
  lemma {:induction false} FirstChainSpec(chains: seq<Chain>, chainId: string)
    ensures var r := FirstChain(chains, chainId);
            && (r.Some? ==> r.value in chains && r.value.id == chainId)
            && (r.None? <==> forall c :: c in chains ==> c.id != chainId)
  {
    if chains != [] && chains[0].id != chainId {
      FirstChainSpec(chains[1..], chainId);
      assert forall c :: c in chains ==> c == chains[0] || c in chains[1..];
    }
  }

  /** The chain the search returns is the first with the id: no chain before it has that id. */
  lemma {:induction false} FirstChainIsFirst(chains: seq<Chain>, chainId: string)
    ensures var r := FirstChain(chains, chainId);
            r.Some? ==> exists i :: 0 <= i < |chains| && chains[i] == r.value && chains[i].id == chainId
                                  && forall j :: 0 <= j < i ==> chains[j].id != chainId
  {
    if chains != [] && chains[0].id == chainId {
      assert chains[0] == FirstChain(chains, chainId).value;
    } else if chains != [] {
      var tail := chains[1..];
      FirstChainIsFirst(tail, chainId);
      var r := FirstChain(chains, chainId);
      if r.Some? {
        var i :| 0 <= i < |tail| && tail[i] == r.value && tail[i].id == chainId
                 && forall j :: 0 <= j < i ==> tail[j].id != chainId;
        assert chains[i + 1] == r.value;
        assert forall j :: 1 <= j < i + 1 ==> chains[j] == tail[j - 1];
      }
    }
  }

  function ModelLetters(m: Model, chainId: string, table: map<string, char>): seq<char> {
    match FirstChain(m.chains, chainId)
    case Some(c) => ResidueLetters(c.residues, table)
    case None => []
  }

  /** What the model loop accumulates: every model's letters for the chain, model after model. */
  function ChainSequence(models: seq<Model>, chainId: string, table: map<string, char>): seq<char> {
    if models == [] then []
    else ChainSequence(models[..|models| - 1], chainId, table) + ModelLetters(models[|models| - 1], chainId, table)
  }

  /** The standard residues the loops visit: those of the first matching chain of every model. */
  function VisitedStandard(models: seq<Model>, chainId: string): nat {
    if models == [] then 0
    else
      VisitedStandard(models[..|models| - 1], chainId)
      + match FirstChain(models[|models| - 1].chains, chainId)
        case Some(c) => StandardCount(c.residues)
        case None => 0
  }

  predicate HasChain(m: Model, chainId: string) {
    exists c :: c in m.chains && c.id == chainId
  }

  /** Some model has a chain with the requested id. */
  predicate ChainPresent(models: seq<Model>, chainId: string) {
    exists m :: m in models && HasChain(m, chainId)
  }

  lemma ChainPresentStep(models: seq<Model>, k: nat, chainId: string)
    requires k < |models|
    ensures ChainPresent(models[..k + 1], chainId) <==> ChainPresent(models[..k], chainId) || HasChain(models[k], chainId)
  {
    assert forall m :: m in models[..k + 1] <==> m in models[..k] || m == models[k];
  }

  /**
   * The nested loops over models, chains and residues: in every model the
   * first chain with the requested id is walked, standard residues whose
   * stripped, capitalised name is in the table add its letter, and `break`
   * leaves only the chain loop.
   */
  /** The residue loop of one chain: the letters of its known standard residues, in order. */
  method ChainLetters(chain: Chain, table: map<string, char>) returns (letters: seq<char>)
    ensures letters == ResidueLetters(chain.residues, table)
  {
    letters := [];
    for r := 0 to |chain.residues|
      invariant letters == ResidueLetters(chain.residues[..r], table)
    {
      var residue := chain.residues[r];
      assert chain.residues[..r + 1][..r] == chain.residues[..r];
      if residue.hetero == " " {
        var name := Capitalize(Strip(residue.name));
        if name in table {
          letters := letters + [table[name]];
        }
      }
    }
    assert chain.residues[..|chain.residues|] == chain.residues;
  }

  method ExtractChainSequence(s: Structure, chainId: string, table: map<string, char>)
    returns (found: bool, sequence: seq<char>)
    ensures found <==> ChainPresent(s.models, chainId)
    ensures sequence == ChainSequence(s.models, chainId, table)
  {
    found := false;
    sequence := [];
    for k := 0 to |s.models|
      invariant found <==> ChainPresent(s.models[..k], chainId)
      invariant sequence == ChainSequence(s.models[..k], chainId, table)
    {
      var model := s.models[k];
      ghost var before, foundBefore := sequence, found;
      var c := 0;
      while c < |model.chains|
        invariant 0 <= c <= |model.chains|
        invariant FirstChain(model.chains, chainId) == FirstChain(model.chains[c..], chainId)
        invariant sequence == before && found == foundBefore
      {
        var chain := model.chains[c];
        if chain.id == chainId {
          found := true;
          var letters := ChainLetters(chain, table);
          sequence := sequence + letters;
          assert chain in model.chains;
          break;
        }
        assert model.chains[c..][1..] == model.chains[c + 1..];
        c := c + 1;
      }
      FirstChainSpec(model.chains, chainId);
      assert s.models[..k + 1][..k] == s.models[..k];
      ChainPresentStep(s.models, k, chainId);
    }
    assert s.models[..|s.models|] == s.models;
  }

  // ---------------------------------------------------------------------
  // Properties of the extracted sequence.

  lemma {:induction false} ResidueLettersBounds(rs: seq<Residue>, table: map<string, char>)
    ensures |ResidueLetters(rs, table)| <= StandardCount(rs)
    ensures forall i :: 0 <= i < |ResidueLetters(rs, table)| ==> ResidueLetters(rs, table)[i] in table.Values
  {
    if rs != [] {
      ResidueLettersBounds(rs[..|rs| - 1], table);
    }
  }

  /** Every letter of the sequence is a value of the table. */
  lemma {:induction false} ChainSequenceLetters(models: seq<Model>, chainId: string, table: map<string, char>)
    ensures forall i :: 0 <= i < |ChainSequence(models, chainId, table)| ==> ChainSequence(models, chainId, table)[i] in table.Values
  {
    if models != [] {
      ChainSequenceLetters(models[..|models| - 1], chainId, table);
      match FirstChain(models[|models| - 1].chains, chainId)
      case Some(c) => ResidueLettersBounds(c.residues, table);
      case None =>
    }
  }

  /** The sequence is never longer than the number of standard residues visited. */
  lemma {:induction false} ChainSequenceLength(models: seq<Model>, chainId: string, table: map<string, char>)
    ensures |ChainSequence(models, chainId, table)| <= VisitedStandard(models, chainId)
  {
    if models != [] {
      ChainSequenceLength(models[..|models| - 1], chainId, table);
      match FirstChain(models[|models| - 1].chains, chainId)
      case Some(c) => ResidueLettersBounds(c.residues, table);
      case None =>
    }
  }

  /** Residue order is kept: the letters of two stretches of a chain are the letters of each, in order. */
  lemma {:induction false} ResidueLettersAppend(a: seq<Residue>, b: seq<Residue>, table: map<string, char>)
    ensures ResidueLetters(a + b, table) == ResidueLetters(a, table) + ResidueLetters(b, table)
    decreases |b|
  {
    if b == [] {
      assert a + b == a;
    } else {
      var b', r := b[..|b| - 1], b[|b| - 1];
      assert (a + b)[..|a + b| - 1] == a + b';
      ResidueLettersAppend(a, b', table);
    }
  }

  /**
   * When every residue of a chain is standard and known, the letters are
   * exactly the table's letters for the residues, one for one.
   */
  lemma {:induction false} AllKnownLetters(rs: seq<Residue>, table: map<string, char>)
    requires forall i :: 0 <= i < |rs| ==> IsStandard(rs[i]) && LookupName(rs[i]) in table
    ensures |ResidueLetters(rs, table)| == |rs|
    ensures forall i :: 0 <= i < |rs| ==> ResidueLetters(rs, table)[i] == table[LookupName(rs[i])]
  {
    if rs != [] {
      AllKnownLetters(rs[..|rs| - 1], table);
    }
  }

  /**
   * `break` leaves only the chain loop: every model contributes again, so
   * the sequence of two structures' models is the two sequences joined.
   */
  lemma {:induction false} ChainSequenceAppend(a: seq<Model>, b: seq<Model>, chainId: string, table: map<string, char>)
    ensures ChainSequence(a + b, chainId, table) == ChainSequence(a, chainId, table) + ChainSequence(b, chainId, table)
    decreases |b|
  {
    if b == [] {
      assert a + b == a;
    } else {
      var b' := b[..|b| - 1];
      assert (a + b)[..|a + b| - 1] == a + b';
      ChainSequenceAppend(a, b', chainId, table);
    }
  }

  /** Capitalisation makes the lookup case-blind, and hetero groups and unknown names are skipped. */
  lemma ExampleLetters()
    ensures ResidueLetters([Residue("ALA", " ", 1, ' ', []), Residue("HOH", "W", 2, ' ', []),
                            Residue("XYZ", " ", 3, ' ', []), Residue(" gly", " ", 4, ' ', [])],
                           map["Ala" := 'A', "Gly" := 'G']) == "AG"
  {
    var ala, hoh, xyz, gly := Residue("ALA", " ", 1, ' ', []), Residue("HOH", "W", 2, ' ', []),
                              Residue("XYZ", " ", 3, ' ', []), Residue(" gly", " ", 4, ' ', []);
    var rs := [ala, hoh, xyz, gly];
    var table := map["Ala" := 'A', "Gly" := 'G'];
    assert LookupName(ala) == "Ala" by {
      assert Strip("ALA") == "ALA";
    }
    assert LookupName(xyz) == "Xyz" by {
      assert Strip("XYZ") == "XYZ";
    }
    assert LookupName(gly) == "Gly" by {
      assert TrimStart(" gly") == "gly";
      assert Strip(" gly") == "gly";
    }
    assert "Xyz" !in table;
    assert ResidueLetters([ala], table) == "A" by {
      assert [ala][..0] == [];
    }
    assert ResidueLetters(rs[..2], table) == "A" by {
      assert rs[..2][..1] == [ala];
    }
    assert ResidueLetters(rs[..3], table) == "A" by {
      assert rs[..3][..2] == rs[..2];
    }
    assert ResidueLetters(rs, table) == "A" + "G";
  }

  /** With Biopython's table, a padded upper-case `MET` is read as `M` and a water is skipped. */
  lemma BiopythonTableExample()
    ensures ResidueLetters([Residue(" MET", " ", 1, ' ', []), Residue("HOH", "W", 2, ' ', [])],
                           ProteinLetters3To1) == "M"
  {
    var met, hoh := Residue(" MET", " ", 1, ' ', []), Residue("HOH", "W", 2, ' ', []);
    assert LookupName(met) == "Met" by {
      assert TrimStart(" MET") == "MET";
      assert Strip(" MET") == "MET";
    }
    assert ProteinLetters3To1["Met"] == 'M';
    assert ResidueLetters([met], ProteinLetters3To1) == "M" by {
      assert [met][..0] == [];
    }
    assert [met, hoh][..1] == [met];
  }

  // ---------------------------------------------------------------------
  // The FASTA record.

  /** The record handed to the FASTA writer: id, empty description, the sequence. */
  datatype FastaRecord = FastaRecord(id: string, description: string, sequence: string)

  datatype FastaOutcome = ChainNotFound | EmptySequence | FastaWritten(fileName: string, record: FastaRecord)

  /**
   * One row of the representatives CSV against its parsed structure: split
   * the entry, extract the chain's sequence, and write `<pdb>_<chain>.fasta`
   * only when the chain exists and the sequence is not empty.
   */
  method ImportChainSequence(combined: string, s: Structure, table: map<string, char>) returns (out: FastaOutcome)
    ensures var ids := SplitPdbChain(combined);
            out == ChainNotFound <==> !ChainPresent(s.models, ids.chainId)
    ensures var ids := SplitPdbChain(combined);
            out == EmptySequence <==> ChainPresent(s.models, ids.chainId) && ChainSequence(s.models, ids.chainId, table) == []
    ensures var ids := SplitPdbChain(combined);
            out.FastaWritten? ==>
              && out.fileName == ids.pdbId + "_" + ids.chainId + ".fasta"
              && out.record == FastaRecord(ids.pdbId + "_" + ids.chainId, "", ChainSequence(s.models, ids.chainId, table))
  {
    var ids := SplitPdbChain(combined);
    var found, sequence := ExtractChainSequence(s, ids.chainId, table);
    if !found {
      return ChainNotFound;
    }
    if sequence == [] {
      return EmptySequence;
    }
    var name := ids.pdbId + "_" + ids.chainId;
    out := FastaWritten(name + ".fasta", FastaRecord(name, "", sequence));
  }
}
