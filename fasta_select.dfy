/**
 * Selection of one chain's record from the multi-record FASTA text of a
 * PDB entry: the text is cut at every `>`, and the first piece whose header
 * names the chain is kept, with its `>` put back.
 */
module FastaSelection {
  import opened Wrappers
  import opened Text
  import opened Decimal
  import opened PdbIds

  /** The characters the regular expression's `\w` accepts within ASCII. */
  predicate IsWordChar(c: char) {
    'a' <= c <= 'z' || 'A' <= c <= 'Z' || '0' <= c <= '9' || c == '_'
  }

  /** `\b` at position `q`: a word character on exactly one side. */
  predicate WordBoundary(s: string, q: int)
    requires 0 <= q <= |s|
  {
    (q > 0 && IsWordChar(s[q - 1])) != (q < |s| && IsWordChar(s[q]))
  }

  /** `[^|]*` over `s[i..j]`. */
  predicate NoBar(s: string, i: int, j: int)
    requires 0 <= i <= j <= |s|
  {
    forall k :: i <= k < j ==> s[k] != '|'
  }

  /** `\d+` over `s[i..j]`. */
  predicate DigitRun(s: string, i: int, j: int)
    requires 0 <= i <= j <= |s|
  {
    i < j && forall k :: i <= k < j ==> IsDigit(s[k])
  }

  /**
   * One way `{id}_\d+\|[^|]*\bChain(s)?\b[^|]*\b{chain}\b` matches `p`: the
   * id starts at `a` and is followed by `_` and digits, the `|` is at `b`,
   * the word `Chain` or `Chains` spans `c..e`, and the chain id starts at
   * `d`; neither gap holds a `|`.
   */
  predicate MatchAt(p: string, id: string, chain: string, a: int, b: int, c: int, e: int, d: int) {
    && 0 <= a && a + |id| + 1 < b && b < c && c + 5 <= e <= d && d + |chain| <= |p|
    && p[a..a + |id|] == id && p[a + |id|] == '_'
    && DigitRun(p, a + |id| + 1, b) && p[b] == '|'
    && NoBar(p, b + 1, c) && WordBoundary(p, c) && p[c..c + 5] == "Chain"
    && (e == c + 5 || (e == c + 6 && p[c + 5] == 's')) && WordBoundary(p, e)
    && NoBar(p, e, d) && WordBoundary(p, d) && p[d..d + |chain|] == chain && WordBoundary(p, d + |chain|)
  }

  /**
   * What a match is made of: the id, `_` and digits end at the first `|`,
   * the word is `Chain` or `Chains`, and that word and the chain id lie in
   * the same `|`-separated field right after it.
   */
  lemma MatchShape(p: string, id: string, chain: string, a: int, b: int, c: int, e: int, d: int)
    requires MatchAt(p, id, chain, a, b, c, e, d)
    ensures p[a..b + 1] == id + "_" + p[a + |id| + 1..b] + "|"
    ensures p[c..e] == "Chain" || p[c..e] == "Chains"
    ensures '|' !in p[b + 1..d + |chain|] || '|' in chain
  {
    assert p[a..b + 1] == p[a..a + |id|] + [p[a + |id|]] + p[a + |id| + 1..b] + [p[b]];
    if p[c..e] != "Chain" {
      assert p[c..e] == p[c..c + 5] + [p[c + 5]];
    }
    if '|' !in chain {
      forall k | b + 1 <= k < d + |chain| ensures p[k] != '|' {
        if c <= k < e {
          assert p[k] == p[c..e][k - c];
        } else if d <= k {
          assert p[k] == chain[k - d];
        }
      }
    }
  }

  /**
   * `chain_pattern.search(p)` succeeds somewhere in `p`. A match needs a
   * `|` and room for the id, `_`, a digit, `|`, `Chain` and the chain id.
   */
  predicate ChainPatternMatches(p: string, id: string, chain: string): (b: bool)
    ensures b ==> '|' in p && |id| + |chain| + 8 <= |p|
  {
    MatchNeeds(p, id, chain);
    exists a, b, c, e, d | 0 <= a <= |p| && 0 <= b <= |p| && 0 <= c <= |p| && 0 <= e <= |p| && 0 <= d <= |p|
      :: MatchAt(p, id, chain, a, b, c, e, d)
  }

  lemma MatchNeeds(p: string, id: string, chain: string)
    ensures forall a, b, c, e, d :: MatchAt(p, id, chain, a, b, c, e, d) ==> '|' in p && |id| + |chain| + 8 <= |p|
  {
    forall a, b, c, e, d | MatchAt(p, id, chain, a, b, c, e, d) ensures '|' in p {
      assert p[b] == '|';
    }
  }

  /**
   * The search is not anchored: a match at any position stays a match with
   * any text in front and any text behind that does not start with a word
   * character.
   */
  lemma MatchInContext(s: string, p: string, t: string, id: string, chain: string, a: int, b: int, c: int, e: int, d: int)
    requires MatchAt(p, id, chain, a, b, c, e, d)
    requires t == [] || !IsWordChar(t[0])
    ensures ChainPatternMatches(p, id, chain)
    ensures ChainPatternMatches(s + p + t, id, chain)
  {
    var q, n := s + p + t, |s|;
    ShiftMatch(s, p, t, id, chain, a, b, c, e, d);
    assert 0 <= n + a <= |q| && 0 <= n + b <= |q| && 0 <= n + c <= |q| && 0 <= n + e <= |q| && 0 <= n + d <= |q|;
  }

  /** The same match, read inside `s + p + t`, starts `|s|` positions later. */
  lemma ShiftMatch(s: string, p: string, t: string, id: string, chain: string, a: int, b: int, c: int, e: int, d: int)
    requires MatchAt(p, id, chain, a, b, c, e, d)
    requires t == [] || !IsWordChar(t[0])
    ensures var n := |s|; MatchAt(s + p + t, id, chain, n + a, n + b, n + c, n + e, n + d)
  {
    var q, n := s + p + t, |s|;
    assert forall k :: n <= k < n + |p| ==> q[k] == p[k - n];
    assert q[n + a..n + a + |id|] == p[a..a + |id|];
    assert q[n + c..n + c + 5] == p[c..c + 5];
    assert q[n + d..n + d + |chain|] == p[d..d + |chain|];
    assert q[n + a + |id|] == '_' && q[n + b] == '|';
    assert DigitRun(q, n + a + |id| + 1, n + b);
    assert NoBar(q, n + b + 1, n + c);
    assert NoBar(q, n + e, n + d);
    assert e == c + 5 || (e == c + 6 && q[n + c + 5] == 's');
    BoundaryShift(s, p, t, c);
    BoundaryShift(s, p, t, e);
    BoundaryShift(s, p, t, d);
    BoundaryShift(s, p, t, d + |chain|);
  }

  lemma BoundaryShift(s: string, p: string, t: string, k: int)
    requires 1 <= k <= |p|
    requires t == [] || !IsWordChar(t[0])
    ensures WordBoundary(s + p + t, |s| + k) == WordBoundary(p, k)
  {
    var q := s + p + t;
    assert q[|s| + k - 1] == p[k - 1];
    if k < |p| {
      assert q[|s| + k] == p[k];
    } else if t != [] {
      assert q[|s| + k] == t[0];
    }
  }

  /** No paragraph matches. */
  predicate NoneMatches(ps: seq<string>, id: string, chain: string) {
    forall i :: 0 <= i < |ps| ==> !ChainPatternMatches(ps[i], id, chain)
  }

  /** Paragraph `i` matches and no earlier one does. */
  predicate IsFirstMatch(ps: seq<string>, i: int, id: string, chain: string) {
    && 0 <= i < |ps|
    && ChainPatternMatches(ps[i], id, chain)
    && forall j :: 0 <= j < i ==> !ChainPatternMatches(ps[j], id, chain)
  }

  /**
   * The paragraph loop: `chain_sequence` becomes `">" + paragraph` at the
   * first paragraph the pattern matches, the loop stops there, and it stays
   * empty when none matches.
   */
  method SelectChainRecord(fastaText: string, id: string, chain: string) returns (record: string)
    ensures record == [] <==> NoneMatches(Split(fastaText, '>'), id, chain)
    ensures var ps := Split(fastaText, '>');
            record != [] ==> exists i :: IsFirstMatch(ps, i, id, chain) && record == ">" + ps[i]
    ensures record != [] ==> record[0] == '>' && '>' !in record[1..]
  {
    var paragraphs := Split(fastaText, '>');
    record := [];
    for i := 0 to |paragraphs|
      invariant record == []
      invariant forall j :: 0 <= j < i ==> !ChainPatternMatches(paragraphs[j], id, chain)
    {
      if ChainPatternMatches(paragraphs[i], id, chain) {
        record := ">" + paragraphs[i];
        assert record[1..] == paragraphs[i] && '>' !in paragraphs[i];
        assert IsFirstMatch(paragraphs, i, id, chain);
        return;
      }
    }
  }

  datatype FastaFile = FastaFile(name: string, content: string)

  /**
   * One row of the protein list against the downloaded FASTA text: split
   * the entry, search with the upper-cased PDB id, and write
   * `<pdb>_<chain>.fasta` holding the selected record, or nothing.
   */
  method ImportFastaEntry(combined: string, fastaText: string) returns (out: Option<FastaFile>)
    ensures var ids := SplitPdbChain(combined);
            var ps := Split(fastaText, '>');
            out.None? <==> NoneMatches(ps, Upper(ids.pdbId), ids.chainId)
    ensures var ids := SplitPdbChain(combined);
            var ps := Split(fastaText, '>');
            out.Some? ==>
              && out.value.name == ids.pdbId + "_" + ids.chainId + ".fasta"
              && exists i :: IsFirstMatch(ps, i, Upper(ids.pdbId), ids.chainId) && out.value.content == ">" + ps[i]
  {
    var ids := SplitPdbChain(combined);
    var record := SelectChainRecord(fastaText, Upper(ids.pdbId), ids.chainId);
    if record != [] {
      out := Some(FastaFile(ids.pdbId + "_" + ids.chainId + ".fasta", record));
    } else {
      out := None;
    }
  }

  /**
   * A typical RCSB header line matches for a chain listed after `Chains`,
   * whole word, after other chain ids.
   */
  lemma ExampleHeaderMatches()
    ensures ChainPatternMatches("1ABC_1|Chains A, B|ADK", "1ABC", "B")
  {
    var p := "1ABC_1|Chains A, B|ADK";
    assert p[0..4] == "1ABC" && p[4] == '_' && p[5] == '1';
    assert p[6] == '|';
    assert p[7..12] == "Chain" && p[12] == 's' && p[13] == ' ';
    assert p[16] == ' ';
    assert p[17..18] == "B";
    assert p[18] == '|';
    assert DigitRun(p, 5, 6);
    assert NoBar(p, 13, 17);
    assert MatchAt(p, "1ABC", "B", 0, 6, 7, 13, 17);
  }

  /** The piece before the first `>` (empty in a well-formed download) has no `|` and never matches. */
  lemma NoBarNoMatch(p: string, id: string, chain: string)
    requires '|' !in p
    ensures !ChainPatternMatches(p, id, chain)
  {
    forall a, b, c, e, d ensures !MatchAt(p, id, chain, a, b, c, e, d) {
      if 0 <= b < |p| {
        assert p[b] in p;
      }
    }
  }
}
