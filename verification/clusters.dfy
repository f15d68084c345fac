/** The per-cluster body of `run` in src/rust/src/lib.rs: resolve the
    cluster's member accessions against the parsed lineages, compute their
    lowest common ancestor, and shape the output rows. Reading the input
    files and writing the rows out are not modelled; the rows are returned
    as values, together with the tab-separated text of each. */
module Clusters {
  import opened Wrappers
  import opened Strings
  import opened Taxonomy
  import opened LcaEngine

  /** Column separator of the output. */
  const Tab: char := '\t'

  /** Parsed lineages by cleaned accession. */
  type Lookup = map<string, TaxonomyPath>

  /** What reading the lineage file builds: every entry is the result of
      parsing, stored under its own cleaned accession. */
  predicate ParsedLookup(lookup: Lookup) {
    forall a | a in lookup :: lookup[a].accession == a && Parsed(lookup[a])
  }

  /** Storing a parsed path under its own accession, as the reader of the
      lineage file does with each result of `TaxonomyPath::new`, keeps the
      lookup parsed. */
  lemma InsertParsed(lookup: Lookup, a: string, p: TaxonomyPath)
    requires ParsedLookup(lookup)
    requires p.accession == a && Parsed(p)
    ensures ParsedLookup(lookup[a := p])
  {
  }

  /** One output line: a cluster without an answer, or one member of a
      cluster with the cluster's answer. */
  datatype Row =
    | Unresolved(cluster: string)
    | Assigned(cluster: string, level: Level, taxon: string, accession: string)

  /** The member loop of `run`: the parsed lineage of every member found in
      the lookup, in member order; members that are not found are skipped
      (the source reports each on standard error). */
  function Resolve(members: seq<string>, lookup: Lookup): (paths: seq<TaxonomyPath>)
    ensures |paths| <= |members|
    ensures forall p | p in paths :: p in lookup.Values
    decreases |members|
  {
    if |members| == 0 then
      []
    else
      var init := members[..|members| - 1];
      var a := members[|members| - 1];
      assert members == init + [a];
      var paths := Resolve(init, lookup);
      if a in lookup then paths + [lookup[a]] else paths
  }

  /** The members found in the lookup, in member order. */
  function Found(members: seq<string>, lookup: Lookup): (found: seq<string>)
    ensures |found| <= |members|
    ensures forall k | 0 <= k < |found| :: found[k] in lookup
    decreases |members|
  {
    if |members| == 0 then
      []
    else
      var init := members[..|members| - 1];
      var a := members[|members| - 1];
      if a in lookup then Found(init, lookup) + [a] else Found(init, lookup)
  }

  /** Resolution yields the lineage of each found member, in member order;
      in a parsed lookup, each of them is parsed and carries that member's
      accession. */
  lemma {:induction false} ResolveFound(members: seq<string>, lookup: Lookup)
    ensures |Resolve(members, lookup)| == |Found(members, lookup)|
    ensures forall k | 0 <= k < |Resolve(members, lookup)| ::
      Resolve(members, lookup)[k] == lookup[Found(members, lookup)[k]]
    ensures ParsedLookup(lookup) ==>
      forall k | 0 <= k < |Resolve(members, lookup)| ::
        && Parsed(Resolve(members, lookup)[k])
        && Resolve(members, lookup)[k].accession == Found(members, lookup)[k]
    decreases |members|
  {
    if |members| > 0 {
      ResolveFound(members[..|members| - 1], lookup);
    }
  }

  /** Resolving a concatenation resolves each part in turn. */
  lemma {:induction false} ResolveAppend(x: seq<string>, y: seq<string>, lookup: Lookup)
    ensures Resolve(x + y, lookup) == Resolve(x, lookup) + Resolve(y, lookup)
    decreases |y|
  {
    if |y| > 0 {
      var y' := y[..|y| - 1];
      assert (x + y)[..|x + y| - 1] == x + y';
      ResolveAppend(x, y', lookup);
    } else {
      assert x + y == x;
    }
  }

  /** Every resolved lineage is the lineage of a member found in the
      lookup. */
  lemma {:induction false} ResolvedFromMembers(members: seq<string>, lookup: Lookup, k: nat)
    requires k < |Resolve(members, lookup)|
    ensures exists j | 0 <= j < |members| :: members[j] in lookup && lookup[members[j]] == Resolve(members, lookup)[k]
    decreases |members|
  {
    var n := |members|;
    var init := members[..n - 1];
    if k < |Resolve(init, lookup)| {
      ResolvedFromMembers(init, lookup, k);
      var j :| 0 <= j < |init| && init[j] in lookup && lookup[init[j]] == Resolve(init, lookup)[k];
      assert members[j] == init[j];
    } else {
      assert members[n - 1] in lookup && lookup[members[n - 1]] == Resolve(members, lookup)[k];
    }
  }

  /** When no member is found nothing is resolved. */
  lemma {:induction false} ResolveNoneFound(members: seq<string>, lookup: Lookup)
    requires forall k | 0 <= k < |members| :: members[k] !in lookup
    ensures Resolve(members, lookup) == []
    decreases |members|
  {
    if |members| > 0 {
      ResolveNoneFound(members[..|members| - 1], lookup);
    }
  }

  /** When every member is found, member `k` resolves to its own lineage. */
  lemma {:induction false} ResolveAllFound(members: seq<string>, lookup: Lookup)
    requires forall k | 0 <= k < |members| :: members[k] in lookup
    ensures |Resolve(members, lookup)| == |members|
    ensures forall k | 0 <= k < |members| :: Resolve(members, lookup)[k] == lookup[members[k]]
    decreases |members|
  {
    if |members| > 0 {
      ResolveAllFound(members[..|members| - 1], lookup);
    }
  }

  /** `run`'s output for one cluster: at least one row, every row naming
      the cluster. */
  function ClusterRows(cluster: string, members: seq<string>, lookup: Lookup): (rows: seq<Row>)
    ensures |rows| > 0
    ensures forall i | 0 <= i < |rows| :: rows[i].cluster == cluster
  {
    var paths := Resolve(members, lookup);
    RowsFor(cluster, paths, ComputeLca(paths))
  }

  /** The rows for a cluster whose found members are `paths` and whose
      common ancestor is `answer`. */
  function RowsFor(cluster: string, paths: seq<TaxonomyPath>, answer: Option<Lca>): (rows: seq<Row>)
    requires answer.Some? ==> |paths| > 0
    ensures |rows| > 0
    ensures forall i | 0 <= i < |rows| :: rows[i].cluster == cluster
  {
    match answer
    case None => [Unresolved(cluster)]
    case Some(x) =>
      seq(|paths|, i requires 0 <= i < |paths| => Assigned(cluster, x.level, x.taxon, paths[i].accession))
  }

  /** The shape of a cluster's rows: a single "na" row exactly when its
      found members have no common ancestor (in particular when none is
      found), otherwise one row per found member, in member order, each
      carrying the cluster's rank and ancestry, which that member indeed
      has at that rank. */
  lemma ClusterRowsShape(cluster: string, members: seq<string>, lookup: Lookup)
    ensures var rows := ClusterRows(cluster, members, lookup);
      ComputeLca(Resolve(members, lookup)) == None <==> rows == [Unresolved(cluster)]
    ensures var rows := ClusterRows(cluster, members, lookup);
      var paths := Resolve(members, lookup);
      ComputeLca(paths).Some? ==>
        var x := ComputeLca(paths).value;
        && |rows| == |paths|
        && forall i | 0 <= i < |rows| ::
             && rows[i] == Assigned(cluster, x.level, x.taxon, paths[i].accession)
             && LevelOf(paths[i], rows[i].level) == Some(rows[i].taxon)
  {
    var paths := Resolve(members, lookup);
    var answer := ComputeLca(paths);
    RowsForShape(cluster, paths, answer);
    if answer.Some? {
      assert AgreeAt(paths, answer.value.level, answer.value.taxon);
    }
  }

  /** `RowsFor` gives the single "na" row exactly when there is no answer,
      and otherwise one row per path, in order, carrying the answer; when
      every path agrees on the answer, each row's ancestry is its member's. */
  lemma RowsForShape(cluster: string, paths: seq<TaxonomyPath>, answer: Option<Lca>)
    requires answer.Some? ==> |paths| > 0
    ensures answer == None <==> RowsFor(cluster, paths, answer) == [Unresolved(cluster)]
    ensures answer.Some? ==>
      var rows := RowsFor(cluster, paths, answer);
      var x := answer.value;
      && |rows| == |paths|
      && (forall i | 0 <= i < |rows| :: rows[i] == Assigned(cluster, x.level, x.taxon, paths[i].accession))
      && (AgreeAt(paths, x.level, x.taxon) ==>
            forall i | 0 <= i < |rows| :: LevelOf(paths[i], rows[i].level) == Some(rows[i].taxon))
  {
    if answer.Some? {
      assert RowsFor(cluster, paths, answer)[0].Assigned?;
    }
  }

  /** In a parsed lookup, a cluster with a common ancestor gets one row per
      found member, the accession column listing the found members in
      member order, and each row's taxon is that member's own ancestry at
      the row's rank. */
  lemma ClusterRowsMembers(cluster: string, members: seq<string>, lookup: Lookup)
    requires ParsedLookup(lookup)
    ensures var rows := ClusterRows(cluster, members, lookup);
      var found := Found(members, lookup);
      ComputeLca(Resolve(members, lookup)).Some? ==>
        && |rows| == |found|
        && forall k | 0 <= k < |rows| ::
             && rows[k].Assigned?
             && rows[k].accession == found[k]
             && LevelOf(lookup[found[k]], rows[k].level) == Some(rows[k].taxon)
  {
    var paths := Resolve(members, lookup);
    var found := Found(members, lookup);
    var answer := ComputeLca(paths);
    if answer.Some? {
      var x := answer.value;
      var rows := RowsFor(cluster, paths, answer);
      assert AgreeAt(paths, x.level, x.taxon);
      RowsForShape(cluster, paths, answer);
      ResolveFound(members, lookup);
      forall k | 0 <= k < |rows|
        ensures rows[k].Assigned? && rows[k].accession == found[k]
        ensures LevelOf(lookup[found[k]], rows[k].level) == Some(rows[k].taxon)
      {
        assert paths[k] == lookup[found[k]];
      }
    }
  }

  /** In a parsed lookup, any two members listed under a cluster's answer
      have the same fields from the domain down to the answer's rank: the
      rows' taxon is an ancestry they genuinely share, not only a string
      they happen to have in common. */
  lemma ClusterRowsShareAncestry(cluster: string, members: seq<string>, lookup: Lookup, j: nat, k: nat)
    requires ParsedLookup(lookup)
    requires ComputeLca(Resolve(members, lookup)).Some?
    requires j < |Found(members, lookup)| && k < |Found(members, lookup)|
    ensures var found := Found(members, lookup);
      SameAncestry(lookup[found[j]], lookup[found[k]], ComputeLca(Resolve(members, lookup)).value.level)
  {
    var paths := Resolve(members, lookup);
    ResolveFound(members, lookup);
    LcaAncestry(paths, j, k);
  }

  /** In a parsed lookup, a cluster whose found members agree on `t` at rank
      `l` and disagree at the next rank is labelled `l`, `t` on every row. */
  lemma ClusterStopsAtDivergence(cluster: string, members: seq<string>, lookup: Lookup, l: Level, t: string)
    requires ParsedLookup(lookup)
    requires Index(l) + 1 < Ranks
    requires AgreeAt(Resolve(members, lookup), l, t)
    requires DivergeAt(Resolve(members, lookup), Levels[Index(l) + 1])
    ensures |ClusterRows(cluster, members, lookup)| == |Found(members, lookup)|
    ensures forall k | 0 <= k < |ClusterRows(cluster, members, lookup)| ::
      ClusterRows(cluster, members, lookup)[k] == Assigned(cluster, l, t, Found(members, lookup)[k])
  {
    assert ComputeLca(Resolve(members, lookup)) == Some(Lca(l, t)) by {
      ResolveFound(members, lookup);
      LcaStopsAtDivergence(Resolve(members, lookup), l, t);
    }
    ClusterRowsAssigned(cluster, members, lookup, Lca(l, t));
  }

  /** Once the answer is known, each row is that answer for the found
      member at the same position. */
  lemma ClusterRowsAssigned(cluster: string, members: seq<string>, lookup: Lookup, x: Lca)
    requires ParsedLookup(lookup)
    requires ComputeLca(Resolve(members, lookup)) == Some(x)
    ensures |ClusterRows(cluster, members, lookup)| == |Found(members, lookup)|
    ensures forall k | 0 <= k < |ClusterRows(cluster, members, lookup)| ::
      ClusterRows(cluster, members, lookup)[k] == Assigned(cluster, x.level, x.taxon, Found(members, lookup)[k])
  {
    var paths := Resolve(members, lookup);
    ResolveFound(members, lookup);
    RowsForShape(cluster, paths, Some(x));
  }

  /** A member missing from the lookup changes nothing, wherever it sits. */
  lemma MissingMemberIgnored(cluster: string, x: seq<string>, a: string, y: seq<string>, lookup: Lookup)
    requires a !in lookup
    ensures ClusterRows(cluster, x + [a] + y, lookup) == ClusterRows(cluster, x + y, lookup)
  {
    ResolveAppend(x + [a], y, lookup);
    ResolveAppend(x, [a], lookup);
    ResolveAppend(x, y, lookup);
    assert Resolve([a], lookup) == [] by {
      assert [a][..0] == [];
    }
  }

  /** A cluster none of whose members is found gets the single "na" row. */
  lemma NothingFoundIsUnresolved(cluster: string, members: seq<string>, lookup: Lookup)
    requires forall k | 0 <= k < |members| :: members[k] !in lookup
    ensures ClusterRows(cluster, members, lookup) == [Unresolved(cluster)]
  {
    ResolveNoneFound(members, lookup);
  }

  /** A cluster as read from input: its identifier and its member
      accessions, which need not be distinct. */
  datatype Cluster = Cluster(id: string, members: seq<string>)

  /** Blocks of rows written one after another. */
  function Flatten(blocks: seq<seq<Row>>): (rows: seq<Row>)
    ensures (forall k | 0 <= k < |blocks| :: |blocks[k]| > 0) ==> |rows| >= |blocks|
    decreases |blocks|
  {
    if |blocks| == 0 then [] else Flatten(blocks[..|blocks| - 1]) + blocks[|blocks| - 1]
  }

  lemma {:induction false} FlattenAppend(a: seq<seq<Row>>, b: seq<seq<Row>>)
    ensures Flatten(a + b) == Flatten(a) + Flatten(b)
    decreases |b|
  {
    if |b| > 0 {
      var ab := a + b;
      assert ab[..|ab| - 1] == a + b[..|b| - 1];
      FlattenAppend(a, b[..|b| - 1]);
    } else {
      assert a + b == a;
    }
  }

  /** `f` applied to every element, in order. */
  function MapSeq<A, B>(f: A -> B, xs: seq<A>): (ys: seq<B>)
    ensures |ys| == |xs|
    ensures forall k | 0 <= k < |xs| :: ys[k] == f(xs[k])
  {
    seq(|xs|, k requires 0 <= k < |xs| => f(xs[k]))
  }

  lemma MapSeqAppend<A, B>(f: A -> B, x: seq<A>, y: seq<A>)
    ensures MapSeq(f, x + y) == MapSeq(f, x) + MapSeq(f, y)
  {
    var a := MapSeq(f, x + y);
    var b := MapSeq(f, x) + MapSeq(f, y);
    forall k | 0 <= k < |x + y| ensures a[k] == b[k] {
      if k < |x| {
        assert (x + y)[k] == x[k];
      } else {
        assert (x + y)[k] == y[k - |x|];
      }
    }
  }

  /** Each cluster's block of rows, in the order the clusters are given. */
  function Blocks(clusters: seq<Cluster>, lookup: Lookup): (blocks: seq<seq<Row>>)
    ensures |blocks| == |clusters|
    ensures forall k | 0 <= k < |blocks| :: |blocks[k]| > 0
    ensures forall k | 0 <= k < |blocks| ::
      blocks[k] == ClusterRows(clusters[k].id, clusters[k].members, lookup)
  {
    MapSeq((c: Cluster) => ClusterRows(c.id, c.members, lookup), clusters)
  }

  /** The rows of all clusters, cluster after cluster, at least one per
      cluster. The source walks a hash map, so the order of the clusters is
      not fixed; every order gives the same blocks of rows. */
  function Run(clusters: seq<Cluster>, lookup: Lookup): (rows: seq<Row>)
    ensures |rows| >= |clusters|
  {
    Flatten(Blocks(clusters, lookup))
  }

  /** Clusters are processed independently: the rows of a concatenation are
      the rows of each part. */
  lemma RunAppend(x: seq<Cluster>, y: seq<Cluster>, lookup: Lookup)
    ensures Run(x + y, lookup) == Run(x, lookup) + Run(y, lookup)
  {
    MapSeqAppend((c: Cluster) => ClusterRows(c.id, c.members, lookup), x, y);
    FlattenAppend(Blocks(x, lookup), Blocks(y, lookup));
  }

  /** A single cluster's output is exactly its own rows. */
  lemma RunSingle(c: Cluster, lookup: Lookup)
    ensures Run([c], lookup) == ClusterRows(c.id, c.members, lookup)
  {
    var rows := ClusterRows(c.id, c.members, lookup);
    assert Blocks([c], lookup) == [rows];
    FlattenSingle(rows);
  }

  lemma FlattenSingle(block: seq<Row>)
    ensures Flatten([block]) == block
  {
    assert [block][..0] == [];
  }

  /** The columns of the line the source writes for a row: cluster, `na`,
      `na` without an answer; cluster, rank name, taxon, accession with one.
      The cluster comes first, and a tab-free row gives columns free of
      tabs, rank names included. */
  function RowFields(row: Row): (fields: seq<string>)
    ensures |fields| > 0 && fields[0] == row.cluster
    ensures TabFree(row) ==> Unseparated(fields, Tab)
  {
    match row
    case Unresolved(c) => [c, "na", "na"]
    case Assigned(c, l, t, a) =>
      assert Tab !in Name(l);
      [c, Name(l), t, a]
  }

  /** Reading a row's columns back gives the row again. */
  lemma RowFieldsReadBack(row: Row)
    ensures RowOf(RowFields(row)) == Some(row)
  {
    if row.Assigned? {
      assert LevelNamed(Name(row.level)) == Some(row.level);
    }
  }

  /** Reading the columns of an output line back into a row: three columns
      with `na` in the last two are a cluster without an answer, four
      columns with a rank name second are a member row, and anything else
      is no row. */
  function RowOf(fields: seq<string>): (row: Option<Row>)
    ensures row.Some? ==> RowFields(row.value) == fields
  {
    if |fields| == 3 && fields[1] == "na" && fields[2] == "na" then
      assert fields == [fields[0], "na", "na"];
      Some(Unresolved(fields[0]))
    else if |fields| == 4 && LevelNamed(fields[1]).Some? then
      assert fields == [fields[0], fields[1], fields[2], fields[3]];
      Some(Assigned(fields[0], LevelNamed(fields[1]).value, fields[2], fields[3]))
    else
      None
  }

  /** The line the source writes for a row, without its newline. When no
      column holds a tab, the line splits back on tabs into the row's
      columns and so reads back as the row. */
  function RowText(row: Row): (line: string)
    ensures TabFree(row) ==> Split(line, Tab) == RowFields(row)
    ensures TabFree(row) ==> RowOf(Split(line, Tab)) == Some(row)
  {
    if TabFree(row) then
      FieldsSplitBack(row);
      RowFieldsReadBack(row);
      Join(RowFields(row), Tab)
    else
      Join(RowFields(row), Tab)
  }

  /** No column of the row holds a tab. Clusters, accessions and lineages
      come from tab-separated input, so none of them does. */
  predicate TabFree(row: Row) {
    && Tab !in row.cluster
    && (row.Assigned? ==> Tab !in row.taxon && Tab !in row.accession)
  }

  /** Joining a tab-free row's columns with tabs and splitting on tabs
      gives the columns back. */
  lemma FieldsSplitBack(row: Row)
    requires TabFree(row)
    ensures Split(Join(RowFields(row), Tab), Tab) == RowFields(row)
  {
    SplitJoin(RowFields(row), Tab);
  }
}
