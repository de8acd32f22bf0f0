/**
 * What the binding-site script writes for one structure file: the sorted
 * sites as a two-column CSV, named after the file's PDB id.
 */
module BindingCsv {
  import opened Wrappers
  import opened Text
  import opened Decimal
  import opened Structures
  import opened ResidueCodes
  import opened BindingSites

  const HeaderLine: string := "Residue_Name,Residue_ID"

  /** One data line, without its line break: the one-letter code and the residue number. */
  function RowLine(s: Site): string {
    [OneLetter(s.name)] + "," + ShowInt(s.number)
  }

  function RowsText(rows: seq<Site>): string {
    if rows == [] then [] else RowLine(rows[0]) + "\n" + RowsText(rows[1..])
  }

  /** The whole file: the header line, then one line per row, each ended by a line break. */
  function CsvText(rows: seq<Site>): string {
    HeaderLine + "\n" + RowsText(rows)
  }

  lemma {:induction false} RowsTextAppend(rows: seq<Site>, s: Site)
    ensures RowsText(rows + [s]) == RowsText(rows) + RowLine(s) + "\n"
  {
    if rows == [] {
      assert [s][1..] == [];
    } else {
      assert (rows + [s])[1..] == rows[1..] + [s];
      RowsTextAppend(rows[1..], s);
    }
  }

  lemma CsvTextAppend(rows: seq<Site>, s: Site)
    ensures CsvText(rows + [s]) == CsvText(rows) + RowLine(s) + "\n"
  {
    RowsTextAppend(rows, s);
  }

  /** The write loop: the header, then one `"<code>,<number>\n"` per row, in order. */
  method WriteCsv(rows: seq<Site>) returns (content: string)
    ensures content == CsvText(rows)
  {
    content := HeaderLine + "\n";
    assert content == CsvText([]);
    for i := 0 to |rows|
      invariant content == CsvText(rows[..i])
    {
      CsvTextAppend(rows[..i], rows[i]);
      assert rows[..i + 1] == rows[..i] + [rows[i]];
      content := content + RowLine(rows[i]) + "\n";
    }
    assert rows[..|rows|] == rows;
  }

  // ---------------------------------------------------------------------
  // Reading the file back.

  /** What a reader gets back from the rows: each code and number, in order. */
  function Decoded(rows: seq<Site>): seq<(char, int)> {
    if rows == [] then [] else [(OneLetter(rows[0].name), rows[0].number)] + Decoded(rows[1..])
  }

  function RowLines(rows: seq<Site>): seq<string> {
    if rows == [] then [] else [RowLine(rows[0])] + RowLines(rows[1..])
  }

  function ParseRow(line: string): Option<(char, int)> {
    var cells := Split(line, ',');
    if |cells| == 2 && |cells[0]| == 1 then
      match ParseInt(cells[1])
      case Some(n) => Some((cells[0][0], n))
      case None => None
    else None
  }

  function ParseRows(lines: seq<string>): Option<seq<(char, int)>> {
    if lines == [] then Some([])
    else
      match (ParseRow(lines[0]), ParseRows(lines[1..]))
      case (Some(r), Some(rs)) => Some([r] + rs)
      case _ => None
  }

  /** A reader for the file: the header, data lines, and a final line break. */
  function ParseCsv(text: string): Option<seq<(char, int)>> {
    var lines := Split(text, '\n');
    if |lines| >= 2 && lines[0] == HeaderLine && lines[|lines| - 1] == [] then
      ParseRows(lines[1..|lines| - 1])
    else None
  }

  lemma RowLineHasNoBreaks(s: Site)
    ensures '\n' !in RowLine(s)
    ensures ',' !in ShowInt(s.number)
  {
    var c := OneLetter(s.name);
    assert c in StandardLetters || c == '?';
  }

  lemma ParseRowLine(s: Site)
    ensures ParseRow(RowLine(s)) == Some((OneLetter(s.name), s.number))
  {
    RowLineHasNoBreaks(s);
    var c := OneLetter(s.name);
    assert c in StandardLetters || c == '?';
    assert ',' !in [c];
    assert RowLine(s) == [c] + [','] + ShowInt(s.number);
    SplitAtFirst([c], ',', ShowInt(s.number));
    SplitNoSeparator(ShowInt(s.number), ',');
    ShowIntRoundTrip(s.number);
  }

  lemma {:induction false} SplitRowsText(rows: seq<Site>)
    ensures Split(RowsText(rows), '\n') == RowLines(rows) + [[]]
  {
    if rows != [] {
      RowLineHasNoBreaks(rows[0]);
      SplitAtFirst(RowLine(rows[0]), '\n', RowsText(rows[1..]));
      SplitRowsText(rows[1..]);
    }
  }

  lemma {:induction false} ParseRowLines(rows: seq<Site>)
    ensures ParseRows(RowLines(rows)) == Some(Decoded(rows))
  {
    if rows != [] {
      var lines := RowLines(rows);
      ParseRowLine(rows[0]);
      ParseRowLines(rows[1..]);
      assert lines[1..] == RowLines(rows[1..]);
    }
  }

  /**
   * The file reads back as its rows: every row's one-letter code and
   * residue number, in order, after the header.
   */
  lemma CsvRoundTrip(rows: seq<Site>)
    ensures ParseCsv(CsvText(rows)) == Some(Decoded(rows))
  {
    var lines := RowLines(rows);
    assert '\n' !in HeaderLine;
    SplitAtFirst(HeaderLine, '\n', RowsText(rows));
    SplitRowsText(rows);
    var all := Split(CsvText(rows), '\n');
    assert all == [HeaderLine] + lines + [[]];
    assert all[1..|all| - 1] == lines;
    ParseRowLines(rows);
  }

  // ---------------------------------------------------------------------
  // Naming the output and processing one file.

  const CsvSuffix: string := "_true.csv"

  /** `pdb_file.split("_")[0]` followed by `_true.csv`. */
  function CsvFileName(pdbFile: string): string {
    Split(pdbFile, '_')[0] + CsvSuffix
  }

  /**
   * The name is the part of the input name before its first underscore
   * (all of it when there is none), followed by `_true.csv`.
   */
  lemma CsvFileNamePrefix(pdbFile: string)
    ensures var name := CsvFileName(pdbFile);
            var p := name[..|name| - |CsvSuffix|];
            && |name| >= |CsvSuffix| && name[|name| - |CsvSuffix|..] == CsvSuffix
            && '_' !in p && |p| <= |pdbFile| && p == pdbFile[..|p|]
            && (|p| == |pdbFile| || pdbFile[|p|] == '_')
  {
    SplitFirstPiece(pdbFile, '_');
    var name := CsvFileName(pdbFile);
    var p := Split(pdbFile, '_')[0];
    assert name[..|name| - |CsvSuffix|] == p;
  }

  datatype CsvFile = CsvFile(name: string, content: string)

  /**
   * What happens to one directory entry: a name not ending in `.pdb` is
   * skipped; a structure without a first model makes `structure[0]` fail;
   * otherwise the CSV file is written.
   */
  datatype FileOutcome = NotPdbFile | NoFirstModel | Written(file: CsvFile)

  /**
   * One pass of the script's loop body: detect on the first model with the
   * 4.0 cutoff, sort by residue number and serialise.
   */
  method ProcessPdbFile(fileName: string, s: Structure) returns (out: FileOutcome)
    ensures out == NotPdbFile <==> !EndsWith(fileName, ".pdb")
    ensures out == NoFirstModel <==> EndsWith(fileName, ".pdb") && s.models == []
    ensures out.Written? ==>
              && s.models != []
              && out.file.name == CsvFileName(fileName)
              && exists rows :: IsSortedListing(rows, BindingSiteSet(s.models[0], InteractionCutoff))
                             && out.file.content == CsvText(rows)
  {
    if !EndsWith(fileName, ".pdb") {
      return NotPdbFile;
    }
    if s.models == [] {
      return NoFirstModel;
    }
    var sites := FindInteractingResidues(s.models[0], InteractionCutoff);
    var rows := SortByNumber(sites);
    var content := WriteCsv(rows);
    out := Written(CsvFile(CsvFileName(fileName), content));
  }

  /** With no ATP residue in the model the file is the header line alone. */
  lemma NoLigandHeaderOnly(m: Model, rows: seq<Site>)
    requires forall r :: r in Residues(m) ==> r.name != LigandName
    requires IsSortedListing(rows, BindingSiteSet(m, InteractionCutoff))
    ensures CsvText(rows) == "Residue_Name,Residue_ID\n"
  {
    NoLigandNoSites(m, InteractionCutoff);
    EmptyListing(rows);
  }
}
