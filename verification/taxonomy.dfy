/** The seven taxonomic ranks and the parsed form of one accession's lineage
    (`TaxonomyLevel` and `TaxonomyPath` in src/rust/src/lib.rs). */
module Taxonomy {
  import opened Wrappers
  import opened Strings

  /** Number of ranks every lineage must have (`TAXONOMY_LEVELS`). */
  const Ranks: nat := 7

  /** Character between two fields of a lineage. */
  const Separator: char := ';'

  datatype Level = Domain | Phylum | Class | Order | Family | Genus | Species

  /** The ranks from shallowest to deepest, the order `lca` walks them in. */
  const Levels: seq<Level> := [Domain, Phylum, Class, Order, Family, Genus, Species]

  /** The discriminant of a rank: its position in `Levels`. */
  function Index(l: Level): (i: nat)
    ensures i < Ranks && Levels[i] == l
  {
    match l
    case Domain => 0
    case Phylum => 1
    case Class => 2
    case Order => 3
    case Family => 4
    case Genus => 5
    case Species => 6
  }

  /** `Levels` lists each rank at its own index. */
  lemma LevelsIndexed(i: nat)
    requires i < Ranks
    ensures Index(Levels[i]) == i
  {
    if i == 0 {} else if i == 1 {} else if i == 2 {} else if i == 3 {}
    else if i == 4 {} else if i == 5 {} else {}
  }

  /** The rank's name as written in the output (`Display`). */
  function Name(l: Level): (name: string)
    ensures |name| > 0
    ensures forall k | 0 <= k < |name| :: 'a' <= name[k] <= 'z'
  {
    match l
    case Domain => "domain"
    case Phylum => "phylum"
    case Class => "class"
    case Order => "order"
    case Family => "family"
    case Genus => "genus"
    case Species => "species"
  }

  /** The rank a printed name stands for, if any: the inverse of `Name`. */
  function LevelNamed(name: string): (l: Option<Level>)
    ensures forall x :: l == Some(x) <==> Name(x) == name
  {
    if name == "domain" then Some(Domain)
    else if name == "phylum" then Some(Phylum)
    else if name == "class" then Some(Class)
    else if name == "order" then Some(Order)
    else if name == "family" then Some(Family)
    else if name == "genus" then Some(Genus)
    else if name == "species" then Some(Species)
    else None
  }

  /** Distinct ranks print differently. */
  lemma NameInjective(a: Level, b: Level)
    requires Name(a) == Name(b)
    ensures a == b
  {
  }

  /** One of the four spellings of "na" that mark a rank as unknown; the
      match is case-exact on two characters. */
  predicate IsNa(field: string) {
    field == "na" || field == "NA" || field == "nA" || field == "Na"
  }

  /** A field carries no taxon when it is empty or an "na" spelling:
      exactly the empty field and the two-character fields `n`/`N` followed
      by `a`/`A`. Padded or longer variants are present. */
  function IsAbsent(field: string): (absent: bool)
    ensures absent <==>
      |field| == 0 ||
      (|field| == 2 && (field[0] == 'n' || field[0] == 'N') && (field[1] == 'a' || field[1] == 'A'))
  {
    assert |field| == 2 ==> field == [field[0], field[1]];
    |field| == 0 || IsNa(field)
  }

  /** The record behind `TaxonomyPath`: the cleaned accession, the cleaned
      lineage, and for every rank the end offset of the ancestry prefix
      through that rank and whether the rank's field is present. */
  datatype PathRecord = PathRecord(
    accession: string,
    fullTaxonomy: string,
    prefixEndIndex: seq<nat>,
    fieldIsSome: seq<bool>)

  /** The fixed-size arrays of the source hold seven entries, and every
      offset lies within the lineage so that slicing at it cannot fail. */
  predicate WellShaped(p: PathRecord) {
    && |p.prefixEndIndex| == Ranks
    && |p.fieldIsSome| == Ranks
    && forall i | 0 <= i < Ranks :: p.prefixEndIndex[i] <= |p.fullTaxonomy|
  }

  type TaxonomyPath = p: PathRecord | WellShaped(p)
    witness PathRecord("", "", [0, 0, 0, 0, 0, 0, 0], [false, false, false, false, false, false, false])

  /** The fields of a lineage. */
  function Fields(lineage: string): seq<string> {
    Split(lineage, Separator)
  }

  /** Offset one past the last character of field `i`: the lengths of fields
      `0..i` plus one separator after each of the first `i` fields. */
  function PrefixEnd(fields: seq<string>, i: nat): nat
    requires i < |fields|
  {
    SumLen(fields[..i + 1]) + i
  }

  /** `p` is what parsing its own lineage produces: seven fields, each flag
      telling whether its field is present, each offset at the end of its
      field. */
  predicate Parsed(p: TaxonomyPath) {
    var fields := Fields(p.fullTaxonomy);
    && |fields| == Ranks
    && forall i | 0 <= i < Ranks ::
         && p.fieldIsSome[i] == !IsAbsent(fields[i])
         && p.prefixEndIndex[i] == PrefixEnd(fields, i)
  }

  /** Why a lineage could not be parsed; the source panics instead. */
  datatype ParseError = MalformedTaxonomy(fieldCount: nat)

  /** `TaxonomyPath::new`: trims quotes from both arguments, walks the
      fields of the lineage recording presence flags and running offsets,
      and fails unless there are exactly seven fields. A lineage with more
      than seven fields fails at the eighth, where the source writes past
      its arrays; one with fewer fails the count check afterwards. */
  method New(accession: string, fullTaxonomy: string)
    returns (r: Result<(string, TaxonomyPath), ParseError>)
    ensures r.Ok? <==> |Fields(TrimQuotes(fullTaxonomy))| == Ranks
    ensures r.Err? ==> r.error == MalformedTaxonomy(|Fields(TrimQuotes(fullTaxonomy))|)
    ensures r.Ok? ==>
      && r.value.0 == TrimQuotes(accession)
      && r.value.1.accession == r.value.0
      && r.value.1.fullTaxonomy == TrimQuotes(fullTaxonomy)
      && Parsed(r.value.1)
  {
    var acc := TrimQuotes(accession);
    var full := TrimQuotes(fullTaxonomy);
    var fields := Split(full, Separator);

    var prefixEnds: seq<nat> := [];
    var fieldIsSome: seq<bool> := [];
    var position: nat := 0;
    var i := 0;
    while i < |fields|
      invariant i <= |fields| && i <= Ranks
      invariant |prefixEnds| == i && |fieldIsSome| == i
      invariant FlagsMatch(fieldIsSome, fields)
      invariant EndsMatch(prefixEnds, fields)
      invariant position == SumLen(fields[..i]) + (if i < Ranks then i else Ranks - 1)
    {
      if i >= Ranks {
        return Err(MalformedTaxonomy(|fields|));
      }
      var field := fields[i];
      FlagsMatchStep(fieldIsSome, fields);
      fieldIsSome := fieldIsSome + [!IsAbsent(field)];
      SumLenStep(fields, i);
      position := position + |field|;
      EndsMatchStep(prefixEnds, fields, position);
      prefixEnds := prefixEnds + [position];
      if i < Ranks - 1 {
        position := position + 1;
      }
      i := i + 1;
    }

    if i != Ranks {
      return Err(MalformedTaxonomy(|fields|));
    }

    MatchesAreParsed(acc, full, prefixEnds, fieldIsSome);
    var path: TaxonomyPath := PathRecord(acc, full, prefixEnds, fieldIsSome);
    return Ok((acc, path));
  }

  /** The first `|flags|` flags tell which of the fields are present. */
  predicate FlagsMatch(flags: seq<bool>, fields: seq<string>) {
    |flags| <= |fields| && forall k | 0 <= k < |flags| :: flags[k] == !IsAbsent(fields[k])
  }

  /** The first `|ends|` offsets are the ends of the fields. */
  predicate EndsMatch(ends: seq<nat>, fields: seq<string>) {
    |ends| <= |fields| && forall k | 0 <= k < |ends| :: ends[k] == PrefixEnd(fields, k)
  }

  lemma FlagsMatchStep(flags: seq<bool>, fields: seq<string>)
    requires FlagsMatch(flags, fields) && |flags| < |fields|
    ensures FlagsMatch(flags + [!IsAbsent(fields[|flags|])], fields)
  {
  }

  lemma EndsMatchStep(ends: seq<nat>, fields: seq<string>, end: nat)
    requires EndsMatch(ends, fields) && |ends| < |fields|
    requires end == PrefixEnd(fields, |ends|)
    ensures EndsMatch(ends + [end], fields)
  {
  }

  /** Seven flags and seven offsets that match the seven fields of a lineage
      make a well-shaped, parsed path. */
  lemma MatchesAreParsed(acc: string, full: string, ends: seq<nat>, flags: seq<bool>)
    requires |Fields(full)| == Ranks && |ends| == Ranks && |flags| == Ranks
    requires FlagsMatch(flags, Fields(full)) && EndsMatch(ends, Fields(full))
    ensures WellShaped(PathRecord(acc, full, ends, flags))
    ensures Parsed(PathRecord(acc, full, ends, flags))
  {
    OffsetsWithinLineage(full);
  }

  /** Adding field `i` to the sum over fields `0..i`. */
  lemma SumLenStep(fields: seq<string>, i: nat)
    requires i < |fields|
    ensures SumLen(fields[..i + 1]) == SumLen(fields[..i]) + |fields[i]|
  {
    assert fields[..i + 1][..i] == fields[..i];
  }

  /** No field ends beyond the end of the lineage. */
  lemma OffsetsWithinLineage(lineage: string)
    ensures forall k | 0 <= k < |Fields(lineage)| :: PrefixEnd(Fields(lineage), k) <= |lineage|
  {
    var fields := Fields(lineage);
    JoinSplit(lineage, Separator);
    forall k | 0 <= k < |fields| ensures PrefixEnd(fields, k) <= |lineage| {
      PrefixEndIsJoinLength(fields, k);
      JoinPrefix(fields, k + 1, Separator);
    }
  }

  /** The offset of field `i` is the length of the join of fields `0..i`. */
  lemma PrefixEndIsJoinLength(fields: seq<string>, i: nat)
    requires i < |fields|
    ensures PrefixEnd(fields, i) == |Join(fields[..i + 1], Separator)|
  {
  }

  /** `TaxonomyPath::level`: the lineage up to the end of rank `l` when that
      rank is present, nothing when it is absent. */
  function LevelOf(p: TaxonomyPath, l: Level): (r: Option<string>)
    ensures r.Some? <==> p.fieldIsSome[Index(l)]
    ensures r.Some? ==> r.value <= p.fullTaxonomy && |r.value| == p.prefixEndIndex[Index(l)]
  {
    var i := Index(l);
    if !p.fieldIsSome[i] then None else Some(p.fullTaxonomy[..p.prefixEndIndex[i]])
  }

  /** On a parsed path the value of a rank is the whole ancestry through it:
      its own field and every shallower one, joined by separators. It is
      missing exactly when the rank's field is absent. */
  lemma LevelIsAncestry(p: TaxonomyPath, l: Level)
    requires Parsed(p)
    ensures LevelOf(p, l).None? <==> IsAbsent(Fields(p.fullTaxonomy)[Index(l)])
    ensures LevelOf(p, l).Some? ==>
      LevelOf(p, l).value == Join(Fields(p.fullTaxonomy)[..Index(l) + 1], Separator)
  {
    var fields := Fields(p.fullTaxonomy);
    var i := Index(l);
    JoinSplit(p.fullTaxonomy, Separator);
    PrefixEndIsJoinLength(fields, i);
    JoinPrefix(fields, i + 1, Separator);
  }

  /** The deepest offset is the length of the lineage, so a present species
      rank yields the whole lineage. */
  lemma SpeciesIsWholeLineage(p: TaxonomyPath)
    requires Parsed(p)
    ensures p.prefixEndIndex[Ranks - 1] == |p.fullTaxonomy|
    ensures p.fieldIsSome[Ranks - 1] ==> LevelOf(p, Species) == Some(p.fullTaxonomy)
  {
    var fields := Fields(p.fullTaxonomy);
    JoinSplit(p.fullTaxonomy, Separator);
    PrefixEndIsJoinLength(fields, Ranks - 1);
    assert fields[..Ranks] == fields;
    assert p.fullTaxonomy[..|p.fullTaxonomy|] == p.fullTaxonomy;
  }

  /** The value of a shallower rank is a prefix of the value of a deeper
      one whenever both are present. */
  lemma LevelPrefix(p: TaxonomyPath, a: Level, b: Level)
    requires Parsed(p)
    requires Index(a) <= Index(b)
    requires LevelOf(p, a).Some? && LevelOf(p, b).Some?
    ensures LevelOf(p, a).value <= LevelOf(p, b).value
  {
    var fields := Fields(p.fullTaxonomy);
    assert p.prefixEndIndex[Index(a)] <= p.prefixEndIndex[Index(b)] by {
      SumLenPrefixMonotone(fields, Index(a) + 1, Index(b) + 1);
    }
  }

  /** Sums over longer prefixes are no smaller. */
  lemma {:induction false} SumLenPrefixMonotone(fields: seq<string>, j: nat, k: nat)
    requires j <= k <= |fields|
    ensures SumLen(fields[..j]) <= SumLen(fields[..k])
    decreases k - j
  {
    if j < k {
      SumLenPrefixMonotone(fields, j, k - 1);
      assert fields[..k][..k - 1] == fields[..k - 1];
    }
  }

  /** Two parsed paths have the same fields from the domain down to `l`. */
  predicate SameAncestry(p: TaxonomyPath, q: TaxonomyPath, l: Level)
    requires Parsed(p) && Parsed(q)
  {
    forall j | 0 <= j <= Index(l) :: Fields(p.fullTaxonomy)[j] == Fields(q.fullTaxonomy)[j]
  }

  /** Equal values at a rank mean equal fields at that rank and at every
      shallower one: comparing one cumulative prefix compares the whole
      ancestry. */
  lemma LevelAgreement(p: TaxonomyPath, q: TaxonomyPath, l: Level)
    requires Parsed(p) && Parsed(q)
    requires LevelOf(p, l).Some? && LevelOf(p, l) == LevelOf(q, l)
    ensures SameAncestry(p, q, l)
  {
    var i := Index(l);
    var fp := Fields(p.fullTaxonomy);
    var fq := Fields(q.fullTaxonomy);
    LevelIsAncestry(p, l);
    LevelIsAncestry(q, l);
    SplitUnseparated(p.fullTaxonomy, Separator);
    SplitUnseparated(q.fullTaxonomy, Separator);
    JoinPrefixInjective(fp, fq, i + 1, Separator);
  }

  /** Equal values at a rank mean equal values at every shallower rank. */
  lemma LevelAgreementAbove(p: TaxonomyPath, q: TaxonomyPath, l: Level, m: Level)
    requires Parsed(p) && Parsed(q)
    requires LevelOf(p, l).Some? && LevelOf(p, l) == LevelOf(q, l)
    requires Index(m) <= Index(l)
    ensures LevelOf(p, m) == LevelOf(q, m)
  {
    var i := Index(m);
    var fp := Fields(p.fullTaxonomy);
    var fq := Fields(q.fullTaxonomy);
    LevelAgreement(p, q, l);
    assert fp[..i + 1] == fq[..i + 1];
    LevelIsAncestry(p, m);
    LevelIsAncestry(q, m);
  }

  /** Largest value a `u16` holds, plus one. */
  const U16Limit: nat := 0x1_0000

  /** The path as the source stores it: every offset goes through an
      `as u16` cast, which keeps it modulo 65536. The rest of this model
      keeps the exact offsets; this function exists to exhibit what the
      cast changes. For lineages shorter than 65536 characters it changes
      nothing. */
  function StoredAsU16(p: TaxonomyPath): (q: TaxonomyPath)
    ensures q.accession == p.accession && q.fullTaxonomy == p.fullTaxonomy
    ensures q.fieldIsSome == p.fieldIsSome
    ensures |p.fullTaxonomy| < U16Limit ==> q == p
  {
    var ends := seq(Ranks, i requires 0 <= i < Ranks => p.prefixEndIndex[i] % U16Limit);
    assert |p.fullTaxonomy| < U16Limit ==> ends == p.prefixEndIndex;
    PathRecord(p.accession, p.fullTaxonomy, ends, p.fieldIsSome)
  }

  /** With the cast, a parsed lineage of 65536 characters or more whose
      species rank is present no longer yields itself at that rank: the
      stored offset has wrapped to a shorter prefix. */
  lemma U16CastTruncatesSpecies(p: TaxonomyPath)
    requires Parsed(p)
    requires p.fieldIsSome[Ranks - 1]
    requires |p.fullTaxonomy| >= U16Limit
    ensures LevelOf(p, Species) == Some(p.fullTaxonomy)
    ensures LevelOf(StoredAsU16(p), Species) == Some(p.fullTaxonomy[..|p.fullTaxonomy| % U16Limit])
    ensures LevelOf(StoredAsU16(p), Species) != Some(p.fullTaxonomy)
  {
    SpeciesIsWholeLineage(p);
  }

  /** The fields of a lineage whose domain label is 65536 characters long. */
  function LongFields(): seq<string> {
    [seq(U16Limit, _ => 'x'), "b", "c", "d", "e", "f", "g"]
  }

  /** The parsed path of that lineage, as `New` builds it: every rank
      present, offsets 65536, 65538, ..., 65548. */
  function LongPath(): PathRecord {
    PathRecord("long", Join(LongFields(), Separator),
      seq(Ranks, i => U16Limit + 2 * i),
      seq(Ranks, _ => true))
  }

  /** A concrete lineage on which the cast goes wrong: for
      `x...x;b;c;d;e;f;g` with 65536 `x` characters the stored species
      offset is 12, so the species rank yields `x...x` cut to twelve
      characters instead of the lineage. */
  lemma U16CastCounterexample()
    ensures |LongPath().fullTaxonomy| == 65548
    ensures WellShaped(LongPath())
    ensures Parsed(LongPath())
    ensures LevelOf(StoredAsU16(LongPath()), Species) == Some(LongPath().fullTaxonomy[..12])
    ensures LevelOf(StoredAsU16(LongPath()), Species) != LevelOf(LongPath(), Species)
  {
    LongPathParsed();
    var p: TaxonomyPath := LongPath();
    U16CastTruncatesSpecies(p);
  }

  lemma LongPathParsed()
    ensures |LongPath().fullTaxonomy| == 65548
    ensures WellShaped(LongPath())
    ensures Parsed(LongPath())
    ensures LongPath().fieldIsSome[Ranks - 1]
  {
    LongLength();
    assert WellShaped(LongPath());
    assert Parsed(LongPath()) by {
      LongSplit();
      LongOffsets();
      LongFlags();
    }
  }

  lemma LongLength()
    ensures |LongPath().fullTaxonomy| == 65548
  {
    var fs := LongFields();
    LongSums(Ranks - 1);
    assert fs[..Ranks] == fs;
  }

  lemma LongOffsets()
    ensures forall i | 0 <= i < Ranks :: PrefixEnd(LongFields(), i) == LongPath().prefixEndIndex[i]
  {
    forall i | 0 <= i < Ranks ensures PrefixEnd(LongFields(), i) == LongPath().prefixEndIndex[i] {
      LongSums(i);
    }
  }

  lemma LongFlags()
    ensures forall i | 0 <= i < Ranks :: LongPath().fieldIsSome[i] == !IsAbsent(LongFields()[i])
  {
  }

  lemma LongSplit()
    ensures Fields(Join(LongFields(), Separator)) == LongFields()
  {
    var fs := LongFields();
    assert Unseparated(fs, Separator) by {
      assert forall j | 0 <= j < U16Limit :: fs[0][j] == 'x';
    }
    SplitJoin(fs, Separator);
  }

  lemma {:induction false} LongSums(i: nat)
    requires i < Ranks
    ensures SumLen(LongFields()[..i + 1]) == U16Limit + i
  {
    var fs := LongFields();
    if i == 0 {
      assert fs[..1][..0] == [];
    } else {
      LongSums(i - 1);
      assert fs[..i + 1][..i] == fs[..i];
    }
  }
}
