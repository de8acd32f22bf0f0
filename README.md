# ATP binding sites and chain sequences — a Dafny model

This project models the data-preparation core of a small protein
bioinformatics pipeline. Three scripts are covered.

- **ATP binding-site detection** (`Bowen/Find_ATP_binding_sites.py`). For
  every `.pdb` file, take the structure's first model. Collect its residues
  named `ATP`. Then collect every standard residue (hetero flag `" "`) that
  has an atom within 4.0 Å of some ATP atom. Each such residue is recorded as
  a (name, number) pair. The pairs are sorted by number and written to
  `<id>_true.csv`, where `<id>` is the file name up to its first underscore.
  The file has the header `Residue_Name,Residue_ID` and one line
  `letter,number` per pair. The letter comes from a 20-entry upper-case
  table, with `?` for any other name.
- **Chain-sequence extraction** (`Robin/importPdbData.py`). A combined entry
  such as `1a2bA` is split into the lower-cased id and the upper-cased chain.
  In every model, the first chain whose id equals that chain contributes the
  one-letter codes of its standard residues. Each residue name is stripped and
  capitalised, then looked up in Biopython's three-to-one table; names not in
  the table are skipped. The collected sequence is written as a FASTA record
  `<pdb>_<chain>`, but only when the chain exists and the sequence is not
  empty.
- **FASTA entry selection** (`Robin/importFastaFiles.py`). The downloaded
  multi-record FASTA text is cut at every `>`. The first piece whose text
  matches `{ID}_\d+\|[^|]*\bChain(s)?\b[^|]*\b{chain}\b` is kept, with its
  `>` put back, and written to `<pdb>_<chain>.fasta`.

Modules:

- `Wrappers`: `Option`.
- `Text`: the Python string operations used (`lower`, `upper`, `capitalize`,
  `strip`, `split`, `join`, `endswith`), ASCII only.
- `Decimal`: how an f-string renders an `int`, plus a parser that inverts it.
- `Structures`: the parsed structure, as Biopython's hierarchy of
  structure, model, chain, residue and atom.
- `PdbIds`: the id/chain split.
- `ResidueCodes`: the two three-to-one tables.
- `BindingSites`: detection and sorting.
- `BindingCsv`: the CSV text, the file name and one pass of the script's loop.
- `ChainSequences`: chain extraction and the FASTA outcome.
- `FastaSelection`: the regular expression as an explicit match predicate,
  plus paragraph selection.

The imperative parts keep their loops. Each loop is proved against a
specification function:

- The nested ATP/atom loops compute `BindingSiteSet`.
- The CSV loop writes `CsvText`.
- The model/chain/residue loops build `ChainSequence`, and the `break`
  leaves the chain loop at the first matching chain.
- The paragraph loop stops at the first match.

Properties proved about these specification functions include:

- a membership characterisation of the binding-site set;
- monotonicity in the cutoff;
- that the boundary distance (exactly 4.0 Å) counts;
- that water and other hetero residues never appear;
- that without ATP the file is the header alone;
- a CSV round trip (`parse(write(rows))` gives back every letter and number
  in order);
- that the sequence concatenates over models, so an NMR entry with several
  models gets the chain's letters once per model;
- that the id/chain split loses only letter case.

The model follows the code as written:

- The ligand name is compared exactly, without trimming whitespace.
- Ties in residue number are not broken by insertion code. Only
  (name, number) is stored, so residues that agree in both collapse into one
  pair. The order among pairs with equal numbers is left unspecified.
- The one-letter code falls back to `?` through the 20-entry table of the
  detection script. There is no table of modified residues.
- Sequence alignment and metric evaluation are not part of this model.

## Model

| member | source | states |
|---|---|---|
| `BindingSites.LigandResidues` | Bowen/Find_ATP_binding_sites.py:21-24 | the ATP list holds exactly the model's residues named `ATP`, and no more entries than the model has residues |
| `BindingSites.LigandPointsMembership` | Bowen/Find_ATP_binding_sites.py:32-35 | a point is a search centre exactly when it is the coordinate of an atom of one of the ATP residues |
| `BindingSites.AddSites` | Bowen/Find_ATP_binding_sites.py:37-38 | adding the nearby residues' pairs leaves the set equal to the old set united with those pairs |
| `BindingSites.FindInteractingResidues` | Bowen/Find_ATP_binding_sites.py:27-38 | the nested ATP/atom loops end with exactly the (name, number) pairs of standard residues that have an atom within the cutoff of some ATP atom |
| `BindingSites.BindingSiteMembership` | Bowen/Find_ATP_binding_sites.py:30-38 | a pair is reported if and only if some standard residue of the model with that name and number has an atom within the cutoff of an atom of an ATP residue |
| `BindingSites.NoLigandNoSites` | Bowen/Find_ATP_binding_sites.py:24-38 | a model with no residue named ATP yields no binding sites |
| `BindingSites.CutoffMonotone` | Bowen/Find_ATP_binding_sites.py:28-35 | enlarging the cutoff never loses a binding site |
| `BindingSites.HeteroResiduesIgnored` | Bowen/Find_ATP_binding_sites.py:36 | adding a chain of hetero residues (water, other ligands) that are not ATP leaves the binding sites unchanged, however close they lie |
| `BindingSites.Within` | Bowen/Find_ATP_binding_sites.py:35 | the radius test gives the same answer whichever point is the centre, and a point is within any radius of itself |
| `BindingSites.WithinAlongAxis` | Bowen/Find_ATP_binding_sites.py:35 | for two points that differ by d along one axis, the test holds exactly when -cutoff <= d <= cutoff, so both ends of the radius count |
| `BindingSites.TwoAtomBoundary` | Bowen/Find_ATP_binding_sites.py:35 | for one glycine atom at distance d from one ATP atom, the glycine is reported exactly when the absolute value of d is at most the cutoff (`d * d <= cutoff * cutoff`), so the boundary is included |
| `BindingSites.SortByNumber` | Bowen/Find_ATP_binding_sites.py:41 | the rows are in ascending residue-number order without repeats, hold exactly the set's pairs, and are as many as the set's elements |
| `BindingSites.ListingSize` | Bowen/Find_ATP_binding_sites.py:41 | any duplicate-free listing of exactly a set's elements has the set's size |
| `BindingSites.EmptyListing` | Bowen/Find_ATP_binding_sites.py:41 | sorting the empty set gives no rows |
| `Structures.ChainResidues` | Bowen/Find_ATP_binding_sites.py:24 | a residue is among the model's residues exactly when it belongs to one of its chains |
| `ResidueCodes.OneLetter` | Bowen/Find_ATP_binding_sites.py:44-57 | a name in the table gets one of the 20 standard letters; every other name, and only such a name, gets `?` |
| `Decimal.ShowNat` | Bowen/Find_ATP_binding_sites.py:58 | a natural number renders as a non-empty run of digits without a leading zero |
| `Decimal.ShowInt` | Bowen/Find_ATP_binding_sites.py:58 | an integer renders as digits with a leading `-` exactly when it is negative |
| `Decimal.ShowIntRoundTrip` | Bowen/Find_ATP_binding_sites.py:58 | parsing a rendered residue number gives back the number |
| `BindingCsv.WriteCsv` | Bowen/Find_ATP_binding_sites.py:54-58 | the written text is the header line followed by one `letter,number` line per row, in row order |
| `BindingCsv.RowLineHasNoBreaks` | Bowen/Find_ATP_binding_sites.py:58 | a row line holds no line break and its number holds no comma, so lines and fields stay separable |
| `BindingCsv.ParseRowLine` | Bowen/Find_ATP_binding_sites.py:58 | a row line reads back as its one-letter code and residue number |
| `BindingCsv.SplitRowsText` | Bowen/Find_ATP_binding_sites.py:56-58 | cutting the body at line breaks gives the row lines in order, then the empty piece after the final newline |
| `BindingCsv.CsvRoundTrip` | Bowen/Find_ATP_binding_sites.py:55-58 | reading the file back gives the header-less list of (letter, number) for every row, in order |
| `BindingCsv.CsvFileNamePrefix` | Bowen/Find_ATP_binding_sites.py:52-53 | the output name is the input name's prefix before its first underscore (all of it if there is none) followed by `_true.csv` |
| `BindingCsv.ProcessPdbFile` | Bowen/Find_ATP_binding_sites.py:11-58 | a name not ending in `.pdb` is skipped; a structure without models fails at the first model; otherwise the file `<id>_true.csv` holds the CSV of a sorted listing of the first model's binding sites at 4.0 Å |
| `BindingCsv.NoLigandHeaderOnly` | Bowen/Find_ATP_binding_sites.py:24-58 | without an ATP residue the written file is the header line alone |
| `Text.Lower` | Robin/importPdbData.py:39 | lower-casing keeps the length and leaves no upper-case letter |
| `Text.Upper` | Robin/importPdbData.py:40 | upper-casing keeps the length and leaves no lower-case letter |
| `PdbIds.SplitPdbChain` | Robin/importPdbData.py:38-41 | the id is the first four characters (all of them when shorter) with no upper-case letter, and the chain is the rest with no lower-case letter; together they are as long as the entry |
| `PdbIds.SplitPdbChainLosesOnlyCase` | Robin/importFastaFiles.py:21-24 | read case-insensitively, the id followed by the chain is the combined entry |
| `Text.StripSlice` | Robin/importPdbData.py:101 | stripping yields a contiguous slice with only whitespace cut off either side and no whitespace at either end |
| `Text.CapitalizeSpec` | Robin/importPdbData.py:101 | `capitalize()` keeps the length and the letters up to case, with the first character not lower-case and every later one not upper-case |
| `ChainSequences.LookupName` | Robin/importPdbData.py:101 | the lookup name is as long as the stripped residue name and does not start with a lower-case letter |
| `ChainSequences.LookupNameIgnoresCase` | Robin/importPdbData.py:101 | residues whose names strip to the same letters up to case, such as ` ala` and `ALA`, get the same lookup name |
| `Text.CapitalizeIgnoresCase` | Robin/importPdbData.py:101 | names that differ only in letter case capitalise alike, so `ala`, `ALA` and `Ala` find the same table entry |
| `ChainSequences.FirstChainSpec` | Robin/importPdbData.py:95-106 | the chain the loop stops at belongs to the model and has the requested id; there is none exactly when no chain of the model has it |
| `ChainSequences.FirstChainIsFirst` | Robin/importPdbData.py:95-106 | the chain the loop stops at sits at an index before which no chain has the requested id, so it is the first one, as the `break` makes it |
| `ChainSequences.ChainLetters` | Robin/importPdbData.py:99-105 | the residue loop collects the table letters of the chain's standard residues whose lookup name is in the table, in chain order |
| `ChainSequences.ExtractChainSequence` | Robin/importPdbData.py:92-106 | the flag is set exactly when some model has a chain with the requested id, and the sequence is the letters of the first such chain of every model, in order |
| `ChainSequences.ResidueLettersBounds` | Robin/importPdbData.py:99-105 | a chain contributes at most one letter per standard residue, each a value of the table |
| `ChainSequences.ChainSequenceLetters` | Robin/importPdbData.py:94-105 | every letter of the sequence is a value of the three-to-one table |
| `ChainSequences.ChainSequenceLength` | Robin/importPdbData.py:94-106 | the sequence is no longer than the number of standard residues in the chains visited |
| `ChainSequences.ResidueLettersAppend` | Robin/importPdbData.py:99-103 | the letters of two residue runs are the letters of each, concatenated |
| `ChainSequences.AllKnownLetters` | Robin/importPdbData.py:99-103 | when every residue is standard and known, the sequence has one letter per residue, the i-th being the table entry of the i-th residue's name |
| `ChainSequences.ChainSequenceAppend` | Robin/importPdbData.py:94-106 | the sequence of a structure is the concatenation over its models, so models are never merged or deduplicated |
| `ChainSequences.ExampleLetters` | Robin/importPdbData.py:99-105 | a standard `ALA`, a water, an unknown standard name and a padded lower-case ` gly` give `AG` |
| `ChainSequences.BiopythonTableExample` | Robin/importPdbData.py:99-105 | with Biopython's table, a padded upper-case ` MET` gives `M` and a water is skipped |
| `ChainSequences.ImportChainSequence` | Robin/importPdbData.py:108-118 | a missing chain writes nothing; a present chain with an empty sequence writes nothing; otherwise `<pdb>_<chain>.fasta` holds the record `<pdb>_<chain>` with an empty description and the extracted sequence |
| `Text.Split` | Robin/importFastaFiles.py:41 | splitting gives at least one piece and no piece contains the separator |
| `Text.JoinSplit` | Robin/importFastaFiles.py:41 | joining the pieces with the separator gives back the text, so splitting loses nothing |
| `Text.SplitFirstPiece` | Bowen/Find_ATP_binding_sites.py:52 | the first piece is the prefix up to the first separator, or the whole text |
| `FastaSelection.ChainPatternMatches` | Robin/importFastaFiles.py:45-47 | the search succeeds when, somewhere in the paragraph, the id is followed by `_`, digits and a bar, then a field holding the whole word `Chain` or `Chains` and later the chain id as a whole word; a match needs a bar and at least as many characters as the id, the chain and eight more |
| `FastaSelection.MatchShape` | Robin/importFastaFiles.py:45 | in a match, the id, `_` and digits end at the bar, the word is `Chain` or `Chains`, and (for a chain id without a bar) the word and the chain id lie in the field right after that bar |
| `FastaSelection.MatchInContext` | Robin/importFastaFiles.py:45-47 | a match at any position makes the search succeed, and the search is not anchored: it still succeeds with any text before the paragraph and any text after it that does not start with a word character |
| `FastaSelection.SelectChainRecord` | Robin/importFastaFiles.py:41-49 | the record is empty exactly when no paragraph matches; otherwise it is `>` followed by the first matching paragraph, and it holds no other `>` |
| `FastaSelection.ImportFastaEntry` | Robin/importFastaFiles.py:21-58 | nothing is written exactly when no paragraph matches the pattern built from the upper-cased id and the chain; otherwise `<pdb>_<chain>.fasta` holds `>` and the first matching paragraph |
| `FastaSelection.ExampleHeaderMatches` | Robin/importFastaFiles.py:45-47 | the header of entry `1ABC` that lists `Chains A, B` matches for chain `B`, a whole word after another chain id |
| `FastaSelection.NoBarNoMatch` | Robin/importFastaFiles.py:45 | a paragraph without a vertical bar, such as the empty piece before the first `>`, never matches |

## Left out

- Directory listing, file reading and writing, HTTP downloads, gzip, and the
  PDB/mmCIF parsers: the model starts from the parsed structure and the
  downloaded text, and returns file names and contents as values.
- The representatives CSV reader (`csv.DictReader`, the `pdb_id` column) and
  its error exits: the model takes one already-read entry.
- Biopython's `NeighborSearch` (a KD-tree): it is replaced by its
  definition, every atom within the radius, inclusive.
- Floating point: coordinates and distances are mathematical reals, and the
  comparison uses squared distances.
- Disordered atoms and alternate locations.
- The contents of Biopython's three-to-one table: `ChainSequences` takes the
  table as a parameter, and `ResidueCodes.ProteinLetters3To1` gives its 20
  standard entries. Biopython's table is not part of this model.
- The text `FastaWriter` produces (header line, 60-column wrapping): the record
  is modelled as id, description and sequence.
- Unicode: case mapping, whitespace, `\w` and `\d` are ASCII only.
- Characters of the id or chain that are regular-expression metacharacters
  are matched literally.
- `print` progress messages and the blanket `except Exception` handlers.
- The abort on a structure without models: `structure[0]` is a lookup in
  Biopython's child dictionary and raises `KeyError`. Nothing in the
  script's loop catches it, so the whole run stops and files listed after
  that one are never processed. `NoFirstModel` models only the outcome for
  that one file.
- Alignment, scoring and other pipeline stages: no code for them is part of
  this model.
