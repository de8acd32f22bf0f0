/**
 * ATP binding-site detection on the first model of a structure: every
 * standard residue with an atom within the interaction cutoff of an atom of
 * an `ATP` residue, recorded as its (residue name, sequence number) pair,
 * then listed in residue-number order.
 */
module BindingSites {
  import opened Structures

  /** A non-negative search radius, in ångström. */
  type Distance = r: real | 0.0 <= r

  /** The residue name that marks a ligand. */
  const LigandName: string := "ATP"

  /** The binding-site distance threshold. */
  const InteractionCutoff: Distance := 4.0

  /** What is kept of a residue: its name and its sequence number. */
  datatype Site = Site(name: string, number: int)

  function SiteOf(r: Residue): Site {
    Site(r.name, r.number)
  }

  /**
   * The neighbour search's radius test, on squared distances: it does not
   * depend on which point is the centre, and a point is within any radius
   * of itself.
   */
  predicate Within(p: Point, q: Point, cutoff: Distance): (b: bool)
    ensures b <==> SqDist(q, p) <= cutoff * cutoff
    ensures p == q ==> b
  {
    SqDist(p, q) <= cutoff * cutoff
  }

  /** Along one axis the test is `-cutoff <= d <= cutoff`: the radius is inclusive. */
  lemma WithinAlongAxis(p: Point, d: real, cutoff: Distance)
    ensures Within(p, Point(p.x + d, p.y, p.z), cutoff) <==> -(cutoff as real) <= d <= cutoff
  {
    var q := Point(p.x + d, p.y, p.z);
    var m := if d >= 0.0 then d else -d;
    assert SqDist(p, q) == m * m;
    SquareMonotone(m, cutoff);
  }

  /** On non-negative reals, squaring keeps the order both ways. */
  lemma SquareMonotone(x: real, y: real)
    requires 0.0 <= x && 0.0 <= y
    ensures x <= y <==> x * x <= y * y
  {
    if x <= y {
      calc {
        x * x;
      <= x * y;
      <= y * y;
      }
    } else {
      calc {
        y * y;
      <= x * y;
      <  x * x;
      }
    }
  }

  /** The residues named exactly `ATP`, in their order. */
  function LigandResidues(rs: seq<Residue>): (ls: seq<Residue>)
    ensures forall l :: l in ls <==> l in rs && l.name == LigandName
    ensures |ls| <= |rs|
  {
    if rs == [] then []
    else
      var rest := LigandResidues(rs[1..]);
      assert forall l :: l in rs <==> l == rs[0] || l in rs[1..];
      if rs[0].name == LigandName then [rs[0]] + rest else rest
  }

  function Coords(atoms: seq<Atom>): (ps: seq<Point>)
    ensures |ps| == |atoms|
    ensures forall i :: 0 <= i < |atoms| ==> ps[i] == atoms[i].coord
  {
    seq(|atoms|, i requires 0 <= i < |atoms| => atoms[i].coord)
  }

  /** Every atom position of the given ligand residues, residue by residue. */
  function LigandPoints(ls: seq<Residue>): seq<Point> {
    if ls == [] then [] else LigandPoints(ls[..|ls| - 1]) + Coords(ls[|ls| - 1].atoms)
  }

  /** The points are exactly the positions of the atoms of the residues. */
  lemma {:induction false} LigandPointsMembership(ls: seq<Residue>, p: Point)
    ensures p in LigandPoints(ls) <==> exists l, a :: l in ls && a in l.atoms && a.coord == p
  {
    if ls != [] {
      var front, last := ls[..|ls| - 1], ls[|ls| - 1];
      LigandPointsMembership(front, p);
      assert LigandPoints(ls) == LigandPoints(front) + Coords(last.atoms);
      if p in Coords(last.atoms) {
        var i :| 0 <= i < |last.atoms| && Coords(last.atoms)[i] == p;
        assert last in ls && last.atoms[i] in last.atoms;
      }
      if exists l, a :: l in ls && a in l.atoms && a.coord == p {
        var l, a :| l in ls && a in l.atoms && a.coord == p;
        if l == last {
          var i :| 0 <= i < |last.atoms| && last.atoms[i] == a;
          assert Coords(last.atoms)[i] == p;
        } else {
          assert l in front;
        }
      }
    }
  }

  /** Some atom of `r` lies within `cutoff` of some point of `ps`. */
  predicate Touches(r: Residue, ps: seq<Point>, cutoff: Distance) {
    exists b, p :: b in r.atoms && p in ps && Within(b.coord, p, cutoff)
  }

  /**
   * The sites of the standard residues among `rs` that touch `ps`; with a
   * single point this is one neighbour search followed by the filter on
   * protein residues.
   */
  function ContactSites(rs: seq<Residue>, ps: seq<Point>, cutoff: Distance): set<Site> {
    set r | r in rs && IsStandard(r) && Touches(r, ps, cutoff) :: SiteOf(r)
  }

  /** The set the detection accumulates for one model. */
  function BindingSiteSet(m: Model, cutoff: Distance): set<Site> {
    var rs := Residues(m);
    ContactSites(rs, LigandPoints(LigandResidues(rs)), cutoff)
  }

  lemma ContactSitesAppend(rs: seq<Residue>, ps: seq<Point>, p: Point, cutoff: Distance)
    ensures ContactSites(rs, ps + [p], cutoff) == ContactSites(rs, ps, cutoff) + ContactSites(rs, [p], cutoff)
  {
    forall r | r in rs
      ensures Touches(r, ps + [p], cutoff) <==> Touches(r, ps, cutoff) || Touches(r, [p], cutoff)
    {
      if Touches(r, ps + [p], cutoff) {
        var b, q :| b in r.atoms && q in ps + [p] && Within(b.coord, q, cutoff);
        if q in ps { assert Touches(r, ps, cutoff); } else { assert q in [p]; }
      }
      if Touches(r, ps, cutoff) {
        var b, q :| b in r.atoms && q in ps && Within(b.coord, q, cutoff);
        assert q in ps + [p];
      }
      if Touches(r, [p], cutoff) {
        var b, q :| b in r.atoms && q in [p] && Within(b.coord, q, cutoff);
        assert q in ps + [p];
      }
    }
  }

  /** The innermost loop: each site found near one ligand atom is added to `sites`. */
  method AddSites(sites: set<Site>, found: set<Site>) returns (r: set<Site>)
    ensures r == sites + found
  {
    r := sites;
    var pending := found;
    while pending != {}
      invariant pending <= found
      invariant r == sites + (found - pending)
      decreases pending
    {
      var s :| s in pending;
      r := r + {s};
      pending := pending - {s};
    }
  }

  /**
   * The detection loop: for every ATP residue and every one of its atoms,
   * add the sites of the standard residues found within `cutoff` of it.
   */
  method FindInteractingResidues(m: Model, cutoff: Distance) returns (sites: set<Site>)
    ensures sites == BindingSiteSet(m, cutoff)
  {
    var all := Residues(m);
    var atp := LigandResidues(all);
    sites := {};
    for i := 0 to |atp|
      invariant sites == ContactSites(all, LigandPoints(atp[..i]), cutoff)
    {
      var atoms := atp[i].atoms;
      assert LigandPoints(atp[..i]) + Coords(atoms[..0]) == LigandPoints(atp[..i]);
      for j := 0 to |atoms|
        invariant sites == ContactSites(all, LigandPoints(atp[..i]) + Coords(atoms[..j]), cutoff)
      {
        var nearby := ContactSites(all, [atoms[j].coord], cutoff);
        sites := AddSites(sites, nearby);
        ghost var done := LigandPoints(atp[..i]) + Coords(atoms[..j]);
        ContactSitesAppend(all, done, atoms[j].coord, cutoff);
        assert Coords(atoms[..j + 1]) == Coords(atoms[..j]) + [atoms[j].coord];
        assert LigandPoints(atp[..i]) + Coords(atoms[..j + 1]) == done + [atoms[j].coord];
      }
      assert atoms[..|atoms|] == atoms;
      assert atp[..i + 1][..i] == atp[..i];
    }
    assert atp[..|atp|] == atp;
  }

  /**
   * `r` is a standard residue with an atom within `cutoff` of some atom of
   * some ATP residue of `m`.
   */
  ghost predicate ContactsLigand(m: Model, cutoff: Distance, r: Residue) {
    && IsStandard(r)
    && exists l, a, b :: l in Residues(m) && l.name == LigandName
                      && a in l.atoms && b in r.atoms && Within(b.coord, a.coord, cutoff)
  }

  lemma TouchesLigandPoints(m: Model, cutoff: Distance, r: Residue)
    requires IsStandard(r)
    ensures Touches(r, LigandPoints(LigandResidues(Residues(m))), cutoff) <==> ContactsLigand(m, cutoff, r)
  {
    var ls := LigandResidues(Residues(m));
    var ps := LigandPoints(ls);
    if Touches(r, ps, cutoff) {
      var b, p :| b in r.atoms && p in ps && Within(b.coord, p, cutoff);
      LigandPointsMembership(ls, p);
      var l, a :| l in ls && a in l.atoms && a.coord == p;
      assert l in Residues(m) && l.name == LigandName;
    }
    if ContactsLigand(m, cutoff, r) {
      var l, a, b :| l in Residues(m) && l.name == LigandName
                  && a in l.atoms && b in r.atoms && Within(b.coord, a.coord, cutoff);
      assert l in ls;
      LigandPointsMembership(ls, a.coord);
    }
  }

  /**
   * A site is found exactly when some standard residue of the model with
   * that name and number has an atom within `cutoff` of some atom of some
   * ATP residue: the union over all ATP residues and all their atoms.
   */
  lemma BindingSiteMembership(m: Model, cutoff: Distance, s: Site)
    ensures s in BindingSiteSet(m, cutoff) <==>
      exists r :: r in Residues(m) && SiteOf(r) == s && ContactsLigand(m, cutoff, r)
  {
    var rs := Residues(m);
    var ps := LigandPoints(LigandResidues(rs));
    if s in BindingSiteSet(m, cutoff) {
      var r :| r in rs && IsStandard(r) && Touches(r, ps, cutoff) && SiteOf(r) == s;
      TouchesLigandPoints(m, cutoff, r);
    }
    if exists r :: r in Residues(m) && SiteOf(r) == s && ContactsLigand(m, cutoff, r) {
      var r :| r in Residues(m) && SiteOf(r) == s && ContactsLigand(m, cutoff, r);
      TouchesLigandPoints(m, cutoff, r);
    }
  }

  /** Without an ATP residue nothing is found. */
  lemma NoLigandNoSites(m: Model, cutoff: Distance)
    requires forall r :: r in Residues(m) ==> r.name != LigandName
    ensures BindingSiteSet(m, cutoff) == {}
  {
    NoLigandResidues(Residues(m));
  }

  /** Enlarging the cutoff never loses a site. */
  lemma CutoffMonotone(m: Model, c1: Distance, c2: Distance)
    requires c1 <= c2
    ensures BindingSiteSet(m, c1) <= BindingSiteSet(m, c2)
  {
    assert c1 * c1 <= c2 * c2 by {
      assert c1 * c1 <= c1 * c2;
      assert c1 * c2 <= c2 * c2;
    }
    var rs := Residues(m);
    var ps := LigandPoints(LigandResidues(rs));
    forall r | r in rs && Touches(r, ps, c1) ensures Touches(r, ps, c2) {
      var b, p :| b in r.atoms && p in ps && Within(b.coord, p, c1);
      assert Within(b.coord, p, c2);
    }
  }

  lemma ChainResiduesAppend(chains: seq<Chain>, w: Chain)
    ensures ChainResidues(chains + [w]) == ChainResidues(chains) + w.residues
  {
    if chains != [] {
      assert (chains + [w])[1..] == chains[1..] + [w];
      ChainResiduesAppend(chains[1..], w);
    }
  }

  lemma {:induction false} NoLigandResidues(rs: seq<Residue>)
    requires forall r :: r in rs ==> r.name != LigandName
    ensures LigandResidues(rs) == []
  {
    if rs != [] {
      NoLigandResidues(rs[1..]);
    }
  }

  lemma {:induction false} LigandResiduesAppend(a: seq<Residue>, b: seq<Residue>)
    ensures LigandResidues(a + b) == LigandResidues(a) + LigandResidues(b)
  {
    if a != [] {
      assert (a + b)[1..] == a[1..] + b;
      LigandResiduesAppend(a[1..], b);
    } else {
      assert a + b == b;
    }
  }

  /**
   * Hetero groups other than ATP (water, ions, other ligands) never change
   * the result, although their atoms take part in the neighbour search:
   * appending a chain of such residues leaves the set as it was.
   */
  lemma HeteroResiduesIgnored(m: Model, w: Chain, cutoff: Distance)
    requires forall r :: r in w.residues ==> !IsStandard(r) && r.name != LigandName
    ensures BindingSiteSet(Model(m.chains + [w]), cutoff) == BindingSiteSet(m, cutoff)
  {
    var m' := Model(m.chains + [w]);
    ChainResiduesAppend(m.chains, w);
    var rs, rs' := Residues(m), Residues(m');
    assert rs' == rs + w.residues;
    LigandResiduesAppend(rs, w.residues);
    NoLigandResidues(w.residues);
    assert LigandResidues(rs') == LigandResidues(rs);
    assert forall r :: r in rs' && IsStandard(r) <==> r in rs && IsStandard(r);
  }

  /** A protein atom at distance `d` from the only ATP atom; the ATP residue is a hetero group. */
  function TwoAtomModel(d: real): Model {
    Model([Chain("A", [Residue("GLY", " ", 1, ' ', [Atom("CA", Point(d, 0.0, 0.0))]),
                       Residue("ATP", "H_ATP", 2, ' ', [Atom("PG", Point(0.0, 0.0, 0.0))])])])
  }

  /**
   * The boundary is inclusive: the residue is found exactly when its atom
   * is no farther than the cutoff, and the ATP residue itself never is.
   */
  lemma TwoAtomBoundary(d: real, cutoff: Distance)
    ensures BindingSiteSet(TwoAtomModel(d), cutoff) == if d * d <= cutoff * cutoff then {Site("GLY", 1)} else {}
  {
    var m := TwoAtomModel(d);
    var gly := m.chains[0].residues[0];
    var atp := m.chains[0].residues[1];
    var rs := Residues(m);
    assert rs == [gly, atp] by {
      assert m.chains[1..] == [];
      assert ChainResidues(m.chains[1..]) == [];
      assert ChainResidues(m.chains) == m.chains[0].residues + ChainResidues(m.chains[1..]);
    }
    assert LigandResidues(rs) == [atp] by {
      assert rs[1..] == [atp] && rs[1..][1..] == [];
      assert gly.name != LigandName by { assert gly.name[0] != LigandName[0]; }
    }
    var ps := LigandPoints([atp]);
    assert ps == [Point(0.0, 0.0, 0.0)] by {
      assert [atp][..0] == [];
      assert |Coords(atp.atoms)| == 1 && Coords(atp.atoms)[0] == Point(0.0, 0.0, 0.0);
      assert LigandPoints([atp]) == LigandPoints([]) + Coords(atp.atoms);
    }
    assert SqDist(gly.atoms[0].coord, ps[0]) == d * d;
    assert Touches(gly, ps, cutoff) <==> d * d <= cutoff * cutoff by {
      if d * d <= cutoff * cutoff {
        assert gly.atoms[0] in gly.atoms && ps[0] in ps;
      }
    }
    assert !IsStandard(atp);
  }

  // ---------------------------------------------------------------------
  // Ordering the result by residue number.

  predicate SortedByNumber(rows: seq<Site>) {
    forall i, j :: 0 <= i < j < |rows| ==> rows[i].number <= rows[j].number
  }

  predicate Distinct(rows: seq<Site>) {
    forall i, j :: 0 <= i < j < |rows| ==> rows[i] != rows[j]
  }

  /** `rows` lists every element of `sites` once, in non-decreasing residue-number order. */
  predicate IsSortedListing(rows: seq<Site>, sites: set<Site>) {
    && SortedByNumber(rows) && Distinct(rows)
    && (forall s :: s in rows ==> s in sites)
    && (forall s :: s in sites ==> s in rows)
  }

  /**
   * `sorted(sites, key=number)`. The set is visited in an unspecified
   * order, so the order among equal numbers is left open.
   */
  method SortByNumber(sites: set<Site>) returns (rows: seq<Site>)
    ensures IsSortedListing(rows, sites)
    ensures |rows| == |sites|
  {
    rows := [];
    var rest := sites;
    while rest != {}
      invariant SortedByNumber(rows) && Distinct(rows)
      invariant forall s :: s in sites <==> s in rest || s in rows
      invariant forall s :: s in rows ==> s !in rest
      invariant |rows| + |rest| == |sites|
      decreases rest
    {
      var s :| s in rest;
      rows := InsertByNumber(rows, s);
      rest := rest - {s};
    }
  }

  /** One step of the sort: `s` goes after every entry whose number is not larger. */
  method InsertByNumber(rows: seq<Site>, s: Site) returns (r: seq<Site>)
    requires SortedByNumber(rows) && Distinct(rows) && s !in rows
    ensures SortedByNumber(r) && Distinct(r)
    ensures forall t :: t in r <==> t in rows || t == s
    ensures |r| == |rows| + 1
  {
    var k := 0;
    while k < |rows| && rows[k].number <= s.number
      invariant 0 <= k <= |rows|
      invariant forall t :: 0 <= t < k ==> rows[t].number <= s.number
    {
      k := k + 1;
    }
    r := seq(|rows| + 1, i requires 0 <= i <= |rows| => if i < k then rows[i] else if i == k then s else rows[i - 1]);
    forall i, j | 0 <= i < j < |r| ensures r[i].number <= r[j].number && r[i] != r[j] {
      if j < k {
        assert rows[i].number <= rows[j].number && rows[i] != rows[j];
      } else if j == k {
        assert rows[i] in rows;
      } else if i == k {
        assert rows[j - 1] in rows;
      } else if i < k {
        assert rows[i].number <= rows[j - 1].number && rows[i] != rows[j - 1];
      } else {
        assert rows[i - 1].number <= rows[j - 1].number && rows[i - 1] != rows[j - 1];
      }
    }
    forall t | t in rows ensures t in r {
      var i :| 0 <= i < |rows| && rows[i] == t;
      if i < k { assert r[i] == t; } else { assert r[i + 1] == t; }
    }
    assert r[k] == s;
  }

  /** A listing has one entry per element of the set. */
  lemma {:induction false} ListingSize(rows: seq<Site>, sites: set<Site>)
    requires IsSortedListing(rows, sites)
    ensures |rows| == |sites|
  {
    if rows == [] {
      assert sites == {};
    } else {
      var x := rows[0];
      assert forall k :: 1 <= k < |rows| ==> rows[k] != x;
      assert IsSortedListing(rows[1..], sites - {x});
      ListingSize(rows[1..], sites - {x});
    }
  }

  /** A listing of the empty set is empty. */
  lemma EmptyListing(rows: seq<Site>)
    requires IsSortedListing(rows, {})
    ensures rows == []
  {
    ListingSize(rows, {});
  }
}
