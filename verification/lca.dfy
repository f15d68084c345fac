/** The lowest-common-ancestor engine (`unique_taxa`, `check_level` and `lca`
    in src/rust/src/lib.rs): a walk from the shallowest rank to the deepest
    that records the last rank every member agrees on and stops at the first
    rank where two members disagree. */
module LcaEngine {
  import opened Wrappers
  import opened Taxonomy

  /** What one member says about one rank: its ancestry through that rank,
      or nothing when the rank is absent. */
  type Taxon = Option<string>

  /** How many distinct values a list of taxa holds (`UniqueTaxon`). */
  datatype UniqueTaxon = NonUnique | UniqueNone | UniqueSome(taxon: string)

  /** Every taxon in the list is `t` (vacuously so for the empty list). */
  predicate AllAre(taxa: seq<Taxon>, t: Taxon) {
    forall k | 0 <= k < |taxa| :: taxa[k] == t
  }

  /** Two entries of the list differ; an absent and a present taxon differ. */
  predicate HasTwoDistinct(taxa: seq<Taxon>) {
    exists j, k | 0 <= j < |taxa| && 0 <= k < |taxa| :: taxa[j] != taxa[k]
  }

  /** `unique_taxa`: two distinct values give `NonUnique`; a non-empty list
      of one present value gives that value; anything else, the empty list
      included, gives `UniqueNone`. */
  function UniqueTaxa(taxa: seq<Taxon>): (u: UniqueTaxon)
    ensures u == NonUnique <==> HasTwoDistinct(taxa)
    ensures u == UniqueNone <==> AllAre(taxa, None)
    ensures forall v :: u == UniqueSome(v) <==> |taxa| > 0 && AllAre(taxa, Some(v))
  {
    Scan(taxa, 0, None)
  }

  /** The loop of `unique_taxa` from position `k` on. The set of distinct
      values seen so far never holds more than one element before the loop
      returns, so it is kept as that one element: `seen` is `None` before
      the first insertion and the first taxon afterwards. */
  function Scan(taxa: seq<Taxon>, k: nat, seen: Option<Taxon>): (u: UniqueTaxon)
    requires k <= |taxa|
    requires seen.None? <==> k == 0
    requires seen.Some? ==> seen.value == taxa[0] && AllAre(taxa[..k], taxa[0])
    ensures u == NonUnique <==> HasTwoDistinct(taxa)
    ensures u == UniqueNone <==> AllAre(taxa, None)
    ensures forall v :: u == UniqueSome(v) <==> |taxa| > 0 && AllAre(taxa, Some(v))
    decreases |taxa| - k
  {
    if k == |taxa| then
      assert k > 0 ==> taxa[..k] == taxa;
      match seen
      case Some(Some(t)) => UniqueSome(t)
      case Some(None) => UniqueNone
      case None => UniqueNone
    else if seen.Some? && seen.value != taxa[k] then
      NonUnique
    else
      assert taxa[..k + 1] == taxa[..k] + [taxa[k]];
      Scan(taxa, k + 1, Some(taxa[0]))
  }

  /** The best answer found so far: a rank and the ancestry through it. */
  datatype Lca = Lca(level: Level, taxon: string)

  /** The outcome of one rank: carry on with a candidate, or stop with one. */
  datatype Flow = Continue(candidate: Option<Lca>) | Break(candidate: Option<Lca>)

  /** Each member's value at rank `l`, in member order. */
  function TaxaAt(paths: seq<TaxonomyPath>, l: Level): (taxa: seq<Taxon>)
    ensures |taxa| == |paths|
    ensures forall k | 0 <= k < |paths| :: taxa[k] == LevelOf(paths[k], l)
  {
    seq(|paths|, k requires 0 <= k < |paths| => LevelOf(paths[k], l))
  }

  /** The list of values at a rank classifies the rank: all entries absent
      exactly when the members are all absent there, all equal to a present
      `t` exactly when the members agree on `t`, and two entries differ
      exactly when two members diverge. */
  lemma TaxaAtClassifies(paths: seq<TaxonomyPath>, l: Level)
    ensures AbsentAt(paths, l) <==> AllAre(TaxaAt(paths, l), None)
    ensures forall t :: AgreeAt(paths, l, t) <==> |paths| > 0 && AllAre(TaxaAt(paths, l), Some(t))
    ensures DivergeAt(paths, l) <==> HasTwoDistinct(TaxaAt(paths, l))
  {
    TaxaAtAbsent(paths, l);
    forall t ensures AgreeAt(paths, l, t) <==> |paths| > 0 && AllAre(TaxaAt(paths, l), Some(t)) {
      TaxaAtAgree(paths, l, t);
    }
    TaxaAtDiverge(paths, l);
  }

  /** The all-absent part of `TaxaAtClassifies`. */
  lemma TaxaAtAbsent(paths: seq<TaxonomyPath>, l: Level)
    ensures AbsentAt(paths, l) <==> AllAre(TaxaAt(paths, l), None)
  {
  }

  /** The agreement part of `TaxaAtClassifies`, for one value. */
  lemma TaxaAtAgree(paths: seq<TaxonomyPath>, l: Level, t: string)
    ensures AgreeAt(paths, l, t) <==> |paths| > 0 && AllAre(TaxaAt(paths, l), Some(t))
  {
  }

  /** The divergence part of `TaxaAtClassifies`. */
  lemma TaxaAtDiverge(paths: seq<TaxonomyPath>, l: Level)
    ensures DivergeAt(paths, l) <==> HasTwoDistinct(TaxaAt(paths, l))
  {
    var taxa := TaxaAt(paths, l);
    if DivergeAt(paths, l) {
      var j, k :| 0 <= j < |paths| && 0 <= k < |paths| && LevelOf(paths[j], l) != LevelOf(paths[k], l);
      assert taxa[j] != taxa[k];
    }
    if HasTwoDistinct(taxa) {
      var j, k :| 0 <= j < |taxa| && 0 <= k < |taxa| && taxa[j] != taxa[k];
      assert LevelOf(paths[j], l) != LevelOf(paths[k], l);
    }
  }

  /** Every member is absent at rank `l`. */
  predicate AbsentAt(paths: seq<TaxonomyPath>, l: Level) {
    forall k | 0 <= k < |paths| :: LevelOf(paths[k], l).None?
  }

  /** There is at least one member and every member has value `t` at `l`. */
  predicate AgreeAt(paths: seq<TaxonomyPath>, l: Level, t: string) {
    |paths| > 0 && forall k | 0 <= k < |paths| :: LevelOf(paths[k], l) == Some(t)
  }

  /** Two members have different values at `l`. */
  predicate DivergeAt(paths: seq<TaxonomyPath>, l: Level) {
    exists j, k | 0 <= j < |paths| && 0 <= k < |paths| :: LevelOf(paths[j], l) != LevelOf(paths[k], l)
  }

  /** Every rank is in exactly one of three states: all members absent,
      all members present and equal, or divergent. */
  lemma RankTrichotomy(paths: seq<TaxonomyPath>, l: Level)
    ensures !DivergeAt(paths, l) ==>
      AbsentAt(paths, l) || (LevelOf(paths[0], l).Some? && AgreeAt(paths, l, LevelOf(paths[0], l).value))
    ensures DivergeAt(paths, l) ==> !AbsentAt(paths, l) && forall t :: !AgreeAt(paths, l, t)
    ensures forall t :: AgreeAt(paths, l, t) ==> !AbsentAt(paths, l)
  {
    if !DivergeAt(paths, l) && !AbsentAt(paths, l) {
      var k :| 0 <= k < |paths| && LevelOf(paths[k], l).Some?;
      assert LevelOf(paths[0], l) == LevelOf(paths[k], l);
    }
    if DivergeAt(paths, l) {
      var j, k :| 0 <= j < |paths| && 0 <= k < |paths| && LevelOf(paths[j], l) != LevelOf(paths[k], l);
      assert LevelOf(paths[j], l).Some? || LevelOf(paths[k], l).Some?;
    }
    forall t | AgreeAt(paths, l, t) ensures !AbsentAt(paths, l) {
      assert LevelOf(paths[0], l) == Some(t);
    }
  }

  /** `check_level`: all absent keeps the previous candidate and continues,
      all present and equal makes this rank the candidate and continues,
      and a disagreement stops with the previous candidate. */
  function CheckLevel(l: Level, paths: seq<TaxonomyPath>, previous: Option<Lca>): (f: Flow)
    ensures AbsentAt(paths, l) ==> f == Continue(previous)
    ensures forall t :: AgreeAt(paths, l, t) ==> f == Continue(Some(Lca(l, t)))
    ensures DivergeAt(paths, l) ==> f == Break(previous)
  {
    TaxaAtClassifies(paths, l);
    match UniqueTaxa(TaxaAt(paths, l))
    case UniqueNone => Continue(previous)
    case UniqueSome(t) => Continue(Some(Lca(l, t)))
    case NonUnique => Break(previous)
  }

  /** The `try_fold` of `lca` over the ranks from position `i` on. */
  function Fold(paths: seq<TaxonomyPath>, i: nat, previous: Option<Lca>): (r: Option<Lca>)
    requires i <= Ranks
    ensures r == previous || (r.Some? && i <= Index(r.value.level) && AgreeAt(paths, r.value.level, r.value.taxon))
    decreases Ranks - i
  {
    if i == Ranks then previous
    else
      RankTrichotomy(paths, Levels[i]);
      LevelsIndexed(i);
      match CheckLevel(Levels[i], paths, previous)
      case Continue(c) => Fold(paths, i + 1, c)
      case Break(c) => c
  }

  /** Position of the shallowest rank at or below `from` where members
      disagree, or `Ranks` when there is none. */
  function FirstDivergence(paths: seq<TaxonomyPath>, from: nat): (d: nat)
    requires from <= Ranks
    ensures from <= d <= Ranks
    ensures forall i | from <= i < d :: !DivergeAt(paths, Levels[i])
    ensures d < Ranks ==> DivergeAt(paths, Levels[d])
    decreases Ranks - from
  {
    if from == Ranks then Ranks
    else if DivergeAt(paths, Levels[from]) then from
    else FirstDivergence(paths, from + 1)
  }

  /** Every rank at positions `lo..hi` is absent in every member. */
  predicate AbsentBetween(paths: seq<TaxonomyPath>, lo: nat, hi: nat)
    requires lo <= hi <= Ranks
  {
    forall j | lo <= j < hi :: AbsentAt(paths, Levels[j])
  }

  /** `x` is an answer for the ranks at positions `lo..hi`: all members agree
      on `x` and every deeper rank in the range is absent. */
  predicate AnswerBetween(paths: seq<TaxonomyPath>, x: Lca, lo: nat, hi: nat)
    requires lo <= hi <= Ranks
  {
    && lo <= Index(x.level) < hi
    && AgreeAt(paths, x.level, x.taxon)
    && AbsentBetween(paths, Index(x.level) + 1, hi)
  }

  /** The ranks before the first divergence, from position `i` on, decide
      the fold: if all of them are absent the previous candidate survives,
      otherwise the answer is the deepest of them where every member agrees,
      and every rank after it up to the divergence is absent. */
  lemma FoldOutcome(paths: seq<TaxonomyPath>, i: nat, previous: Option<Lca>)
    requires i <= FirstDivergence(paths, 0)
    ensures AbsentBetween(paths, i, FirstDivergence(paths, 0)) ==> Fold(paths, i, previous) == previous
    ensures !AbsentBetween(paths, i, FirstDivergence(paths, 0)) ==>
      Fold(paths, i, previous).Some? &&
      AnswerBetween(paths, Fold(paths, i, previous).value, i, FirstDivergence(paths, 0))
  {
    if AbsentBetween(paths, i, FirstDivergence(paths, 0)) {
      FoldAllAbsent(paths, i, previous);
    } else {
      FoldAnswer(paths, i, previous);
    }
  }

  /** The fold reaching the first divergence, or the end of the ranks,
      returns the candidate it carries. */
  lemma FoldAtDivergence(paths: seq<TaxonomyPath>, previous: Option<Lca>)
    ensures Fold(paths, FirstDivergence(paths, 0), previous) == previous
  {
    var d := FirstDivergence(paths, 0);
    if d < Ranks {
      assert CheckLevel(Levels[d], paths, previous) == Break(previous);
    }
  }

  /** When every rank from `i` to the first divergence is absent, the fold
      keeps the previous candidate. */
  lemma {:induction false} FoldAllAbsent(paths: seq<TaxonomyPath>, i: nat, previous: Option<Lca>)
    requires i <= FirstDivergence(paths, 0)
    requires AbsentBetween(paths, i, FirstDivergence(paths, 0))
    ensures Fold(paths, i, previous) == previous
    decreases Ranks - i
  {
    if i == FirstDivergence(paths, 0) {
      FoldAtDivergence(paths, previous);
    } else {
      FoldAbsentStep(paths, i, previous);
      FoldAllAbsent(paths, i + 1, previous);
    }
  }

  /** When some rank from `i` to the first divergence is present, the fold
      returns the deepest such rank, on which all members agree. */
  lemma {:induction false} FoldAnswer(paths: seq<TaxonomyPath>, i: nat, previous: Option<Lca>)
    requires i <= FirstDivergence(paths, 0)
    requires !AbsentBetween(paths, i, FirstDivergence(paths, 0))
    ensures Fold(paths, i, previous).Some?
    ensures AnswerBetween(paths, Fold(paths, i, previous).value, i, FirstDivergence(paths, 0))
    decreases Ranks - i, 1
  {
    assert i < FirstDivergence(paths, 0);
    if AbsentAt(paths, Levels[i]) {
      FoldAnswerAbsent(paths, i, previous);
    } else {
      FoldAnswerPresent(paths, i, previous);
    }
  }

  /** `FoldAnswer` at an absent rank: the answer comes from deeper ranks. */
  lemma {:induction false} FoldAnswerAbsent(paths: seq<TaxonomyPath>, i: nat, previous: Option<Lca>)
    requires i < FirstDivergence(paths, 0)
    requires AbsentAt(paths, Levels[i])
    requires !AbsentBetween(paths, i, FirstDivergence(paths, 0))
    ensures Fold(paths, i, previous).Some?
    ensures AnswerBetween(paths, Fold(paths, i, previous).value, i, FirstDivergence(paths, 0))
    decreases Ranks - i, 0
  {
    var d := FirstDivergence(paths, 0);
    FoldAbsentStep(paths, i, previous);
    FoldAnswer(paths, i + 1, previous);
    AnswerWiden(paths, Fold(paths, i + 1, previous).value, i, d);
  }

  /** `FoldAnswer` at a rank where some member is present: this rank is the
      answer unless a deeper one before the divergence is present. */
  lemma {:induction false} FoldAnswerPresent(paths: seq<TaxonomyPath>, i: nat, previous: Option<Lca>)
    requires i < FirstDivergence(paths, 0)
    requires !AbsentAt(paths, Levels[i])
    ensures Fold(paths, i, previous).Some?
    ensures AnswerBetween(paths, Fold(paths, i, previous).value, i, FirstDivergence(paths, 0))
    decreases Ranks - i, 0
  {
    var d := FirstDivergence(paths, 0);
    PresentAgrees(paths, i);
    var t := LevelOf(paths[0], Levels[i]).value;
    var c := Some(Lca(Levels[i], t));
    FoldAgreeStep(paths, i, previous, t);
    if AbsentBetween(paths, i + 1, d) {
      FoldAllAbsent(paths, i + 1, c);
      AnswerHere(paths, i, t, d);
    } else {
      FoldAnswer(paths, i + 1, c);
      AnswerWiden(paths, Fold(paths, i + 1, c).value, i, d);
    }
  }

  /** A rank where all members agree, with only absent ranks after it up
      to `hi`, is the answer for the ranks from it to `hi`. */
  lemma AnswerHere(paths: seq<TaxonomyPath>, i: nat, t: string, hi: nat)
    requires i < hi <= Ranks
    requires AgreeAt(paths, Levels[i], t)
    requires AbsentBetween(paths, i + 1, hi)
    ensures AnswerBetween(paths, Lca(Levels[i], t), i, hi)
  {
    LevelsIndexed(i);
  }

  /** An answer for the ranks from `i + 1` is one for the ranks from `i`. */
  lemma AnswerWiden(paths: seq<TaxonomyPath>, x: Lca, i: nat, hi: nat)
    requires i < hi <= Ranks
    requires AnswerBetween(paths, x, i + 1, hi)
    ensures AnswerBetween(paths, x, i, hi)
  {
  }

  /** A rank before the first divergence where some member is present is
      one where every member agrees with the first. */
  lemma PresentAgrees(paths: seq<TaxonomyPath>, i: nat)
    requires i < FirstDivergence(paths, 0)
    requires !AbsentAt(paths, Levels[i])
    ensures LevelOf(paths[0], Levels[i]).Some?
    ensures AgreeAt(paths, Levels[i], LevelOf(paths[0], Levels[i]).value)
  {
    RankTrichotomy(paths, Levels[i]);
  }

  /** A rank where every member is absent before the first divergence
      passes the previous candidate on. */
  lemma FoldAbsentStep(paths: seq<TaxonomyPath>, i: nat, previous: Option<Lca>)
    requires i < FirstDivergence(paths, 0)
    requires AbsentAt(paths, Levels[i])
    ensures Fold(paths, i, previous) == Fold(paths, i + 1, previous)
    ensures AbsentBetween(paths, i, FirstDivergence(paths, 0)) <==>
            AbsentBetween(paths, i + 1, FirstDivergence(paths, 0))
  {
    assert CheckLevel(Levels[i], paths, previous) == Continue(previous);
  }

  /** A rank where every member agrees on `t` becomes the candidate. */
  lemma FoldAgreeStep(paths: seq<TaxonomyPath>, i: nat, previous: Option<Lca>, t: string)
    requires i < Ranks
    requires AgreeAt(paths, Levels[i], t)
    ensures Fold(paths, i, previous) == Fold(paths, i + 1, Some(Lca(Levels[i], t)))
  {
    assert CheckLevel(Levels[i], paths, previous) == Continue(Some(Lca(Levels[i], t)));
  }

  /** `lca`: the deepest rank, before the first disagreement, at which all
      members agree, with their common ancestry; nothing when every rank
      before the first disagreement is absent. Every rank down to the
      answer is unanimous. */
  function ComputeLca(paths: seq<TaxonomyPath>): (r: Option<Lca>)
    ensures |paths| == 0 ==> r == None
    ensures r == None <==> AbsentBetween(paths, 0, FirstDivergence(paths, 0))
    ensures r.Some? ==> AnswerBetween(paths, r.value, 0, FirstDivergence(paths, 0))
    ensures r.Some? ==> forall i | 0 <= i <= Index(r.value.level) :: !DivergeAt(paths, Levels[i])
  {
    FoldOutcome(paths, 0, None);
    Fold(paths, 0, None)
  }

  /** No rank before the first disagreement that all members agree on lies
      deeper than the answer. */
  lemma LcaIsDeepest(paths: seq<TaxonomyPath>, l: Level, t: string)
    requires Index(l) < FirstDivergence(paths, 0)
    requires AgreeAt(paths, l, t)
    ensures ComputeLca(paths).Some?
    ensures Index(l) <= Index(ComputeLca(paths).value.level)
  {
    RankTrichotomy(paths, l);
    assert !AbsentAt(paths, Levels[Index(l)]);
  }

  /** On parsed paths every member's fields agree from the domain down to
      the answer's rank, and every member is present at that rank. */
  lemma LcaAncestry(paths: seq<TaxonomyPath>, j: nat, k: nat)
    requires forall n | 0 <= n < |paths| :: Parsed(paths[n])
    requires ComputeLca(paths).Some?
    requires j < |paths| && k < |paths|
    ensures LevelOf(paths[j], ComputeLca(paths).value.level) == Some(ComputeLca(paths).value.taxon)
    ensures SameAncestry(paths[j], paths[k], ComputeLca(paths).value.level)
  {
    var x := ComputeLca(paths).value;
    assert LevelOf(paths[j], x.level) == Some(x.taxon) == LevelOf(paths[k], x.level);
    LevelAgreement(paths[j], paths[k], x.level);
  }

  /** Agreement at a rank of parsed paths carries up to every shallower
      rank: there the members are either all absent or all equal. */
  lemma AgreementIsCumulative(paths: seq<TaxonomyPath>, l: Level, t: string, m: Level)
    requires forall k | 0 <= k < |paths| :: Parsed(paths[k])
    requires AgreeAt(paths, l, t)
    requires Index(m) <= Index(l)
    ensures !DivergeAt(paths, m)
  {
    forall k | 0 <= k < |paths| ensures LevelOf(paths[k], m) == LevelOf(paths[0], m) {
      LevelAgreementAbove(paths[k], paths[0], l, m);
    }
  }

  /** Members that agree at a rank and disagree at the next one have that
      rank as their answer; for example two lineages equal through the
      family and different at the genus resolve to the family. */
  lemma LcaStopsAtDivergence(paths: seq<TaxonomyPath>, l: Level, t: string)
    requires forall k | 0 <= k < |paths| :: Parsed(paths[k])
    requires Index(l) + 1 < Ranks
    requires AgreeAt(paths, l, t)
    requires DivergeAt(paths, Levels[Index(l) + 1])
    ensures ComputeLca(paths) == Some(Lca(l, t))
  {
    forall i | 0 <= i <= Index(l) ensures !DivergeAt(paths, Levels[i]) {
      LevelsIndexed(i);
      AgreementIsCumulative(paths, l, t, Levels[i]);
    }
    FirstDivergenceIs(paths, Index(l) + 1);
    LcaIsDeepest(paths, l, t);
    var x := ComputeLca(paths).value;
    assert Index(x.level) == Index(l);
    assert LevelOf(paths[0], l) == Some(t);
  }

  /** The first divergence is at `d` when no rank before `d` diverges and
      rank `d` does. */
  lemma {:induction false} FirstDivergenceIs(paths: seq<TaxonomyPath>, d: nat)
    requires d < Ranks
    requires forall i | 0 <= i < d :: !DivergeAt(paths, Levels[i])
    requires DivergeAt(paths, Levels[d])
    ensures FirstDivergence(paths, 0) == d
  {
  }

  /** Members that disagree at the domain have no common ancestor. */
  lemma DomainDivergenceHasNoLca(paths: seq<TaxonomyPath>)
    requires DivergeAt(paths, Domain)
    ensures ComputeLca(paths) == None
  {
    assert FirstDivergence(paths, 0) == 0;
  }

  /** A lone member resolves to its own deepest present rank, and to
      nothing when it is absent everywhere. */
  lemma SingleMemberLca(p: TaxonomyPath)
    ensures ComputeLca([p]).Some? <==> exists l :: LevelOf(p, l).Some?
    ensures ComputeLca([p]).Some? ==>
      var x := ComputeLca([p]).value;
      && LevelOf(p, x.level) == Some(x.taxon)
      && forall l | Index(x.level) < Index(l) :: LevelOf(p, l).None?
  {
    var paths := [p];
    var r := ComputeLca(paths);
    assert FirstDivergence(paths, 0) == Ranks;
    if exists l :: LevelOf(p, l).Some? {
      var l :| LevelOf(p, l).Some?;
      assert !AbsentAt(paths, Levels[Index(l)]);
    }
    if r.Some? {
      forall l | Index(r.value.level) < Index(l) ensures LevelOf(p, l).None? {
        assert AbsentAt(paths, Levels[Index(l)]);
      }
    }
  }

  /** Members with the same lineage, present at the species rank, resolve
      to the species rank with the whole lineage as taxon. */
  lemma IdenticalLineagesLca(paths: seq<TaxonomyPath>)
    requires |paths| > 0
    requires forall k | 0 <= k < |paths| :: Parsed(paths[k]) && paths[k].fullTaxonomy == paths[0].fullTaxonomy
    requires paths[0].fieldIsSome[Ranks - 1]
    ensures ComputeLca(paths) == Some(Lca(Species, paths[0].fullTaxonomy))
  {
    forall k, l | 0 <= k < |paths| ensures LevelOf(paths[k], l) == LevelOf(paths[0], l) {
      SameLineageSameLevels(paths[k], paths[0], l);
    }
    forall i | 0 <= i < Ranks ensures !DivergeAt(paths, Levels[i]) {
      assert forall k | 0 <= k < |paths| :: LevelOf(paths[k], Levels[i]) == LevelOf(paths[0], Levels[i]);
    }
    assert FirstDivergence(paths, 0) == Ranks;
    SpeciesIsWholeLineage(paths[0]);
    assert AgreeAt(paths, Species, paths[0].fullTaxonomy);
    LcaIsDeepest(paths, Species, paths[0].fullTaxonomy);
  }

  /** Two parsed paths of the same lineage answer alike at every rank. */
  lemma SameLineageSameLevels(p: TaxonomyPath, q: TaxonomyPath, l: Level)
    requires Parsed(p) && Parsed(q)
    requires p.fullTaxonomy == q.fullTaxonomy
    ensures LevelOf(p, l) == LevelOf(q, l)
  {
    assert p.fieldIsSome[Index(l)] == q.fieldIsSome[Index(l)];
    assert p.prefixEndIndex[Index(l)] == q.prefixEndIndex[Index(l)];
  }
}
