# Taxonomic lowest common ancestor of sequence clusters

A Dafny model of the consensus-lineage core of taxozack (`src/rust/src/lib.rs`).
Each accession carries a seven-rank lineage such as
`domain_1;phylum_1;class_1;order_1;family_1;genus_1;species_1`. A cluster of
accessions is labelled with the deepest rank at which all of its members
agree, together with the shared ancestry down to that rank.

The model has three parts. Each part follows one piece of the source.

- **Lineage parser** (`taxonomy.dfy`, with the string helpers in `strings.dfy`).
  - `Taxonomy.New` is `TaxonomyPath::new`. It strips quote characters from both ends of the accession and the lineage, then splits the lineage on `;`. It fails unless there are exactly seven fields. For each rank it records a presence flag and the end offset of the ancestry prefix through that rank.
  - `Taxonomy.LevelOf` is `TaxonomyPath::level`. For a present rank it returns that cumulative prefix.
  - A field is absent when it is empty or is exactly `na`, `NA`, `nA` or `Na`.
  - `TaxonomyPath` is a subset type: seven offsets, seven flags, and every offset within the lineage. This stands for the source's fixed arrays and the slice bound.
  - The accession getter `TaxonomyPath::accession` is the datatype field `accession`.
- **LCA engine** (`lca.dfy`).
  - `UniqueTaxa`, `CheckLevel` and `ComputeLca` are `unique_taxa`, `check_level` and `lca`.
  - `lca`'s `try_fold` over the seven ranks is `Fold`, which recurses over rank positions.
  - The engine's main theorem is the contract of `ComputeLca`. Let `d` be the first rank where two members disagree (or 7 if there is none).
    - The result is `None` exactly when every rank before `d` is absent in every member.
    - Otherwise the result's rank lies before `d`, and every member has exactly the result's taxon at that rank.
    - Every rank between the result's rank and `d` is absent, and every rank down to the result's rank is unanimous.
- **Cluster aggregation** (`clusters.dfy`). This is the pure part of `run`'s loop body.
  - Members are looked up and the ones not found are dropped.
  - The LCA is computed over the members that were found.
  - The output is one `na` row, or one row per found member.
  - Rows are returned as values. `RowText` gives the tab-separated line the source writes.

`wrappers.dfy` holds the `Option` and `Result` datatypes.

Quote trimming is `trim_matches('"')`, which removes every leading and every
trailing quote character, however many there are; `Strings.TrimQuotes` does
the same.

Strings are `seq<char>` and are assumed to be ASCII. `field.len()` therefore
counts characters.

## Model

| member | source | states |
|---|---|---|
| Strings.QuoteRunEnd | src/rust/src/lib.rs:47-48 | the scan from the front stops at the first character that is not a quote, and everything it passes is a quote |
| Strings.QuoteRunStart | src/rust/src/lib.rs:47-48 | the scan from the back stops after the last character that is not a quote, never crossing the front cut, and everything it passes is a quote |
| Strings.TrimQuotes | src/rust/src/lib.rs:47-48 | the result is a contiguous piece of the input with only quotes on either side, and it neither starts nor ends with a quote |
| Strings.TrimQuotesIdempotent | src/rust/src/lib.rs:47-48 | trimming an already trimmed string changes nothing |
| Strings.TrimQuotesKeepsUnquoted | src/rust/src/lib.rs:47-48 | a string that neither starts nor ends with a quote is returned unchanged |
| Strings.Split | src/rust/src/lib.rs:55 | splitting yields at least one field, even for the empty string |
| Strings.SplitUnseparated | src/rust/src/lib.rs:55 | no field of a split contains the separator |
| Strings.SplitCount | src/rust/src/lib.rs:55 | the number of fields is the number of separators plus one, so seven fields means six separators |
| Strings.JoinSplit | src/rust/src/lib.rs:55 | joining the fields back with the separator reproduces the string, so splitting loses nothing |
| Strings.SplitJoin | src/rust/src/lib.rs:55 | splitting a join of separator-free fields returns exactly those fields |
| Strings.JoinInjective | src/rust/src/lib.rs:100 | two separator-free field lists with the same join are equal, which is why comparing cumulative prefixes compares whole ancestries |
| Strings.JoinPrefix | src/rust/src/lib.rs:66-73 | the join of the first k fields is a prefix of the join of all fields |
| Taxonomy.Index | src/rust/src/lib.rs:12-21 | every rank has a discriminant below 7, and the rank list used by `lca` holds the rank at that position |
| Taxonomy.LevelsIndexed | src/rust/src/lib.rs:164-172 | the i-th entry of the rank list has discriminant i |
| Taxonomy.Name | src/rust/src/lib.rs:23-35 | every rank name is a non-empty run of lower-case letters, so it never contains a tab |
| Taxonomy.LevelNamed | src/rust/src/lib.rs:23-35 | reading a printed rank name back: the result is a rank exactly when that rank prints as the given name |
| Taxonomy.NameInjective | src/rust/src/lib.rs:23-35 | distinct ranks print differently |
| Taxonomy.IsAbsent | src/rust/src/lib.rs:63-64 | a field is absent exactly when it is empty or is two characters: `n` or `N`, then `a` or `A`; padded or longer variants are present |
| Taxonomy.New | src/rust/src/lib.rs:46-87 | parsing succeeds exactly when the quote-trimmed lineage has seven fields, and otherwise fails with the field count; on success the returned accession is the quote-trimmed input, the path stores that same accession and the trimmed lineage, and every flag and offset matches its field |
| Taxonomy.PrefixEndIsJoinLength | src/rust/src/lib.rs:66-73 | the offset recorded for rank i is the length of fields 0..i joined by separators |
| Taxonomy.LevelOf | src/rust/src/lib.rs:93-101 | a rank has a value exactly when its presence flag is set, and that value is the prefix of the cleaned lineage that ends at the rank's recorded offset |
| Taxonomy.LevelIsAncestry | src/rust/src/lib.rs:93-101 | on a parsed path a rank's value is missing exactly when its field is absent, and otherwise is the fields from the domain through that rank joined by `;` |
| Taxonomy.SpeciesIsWholeLineage | src/rust/src/lib.rs:66-73 | the species offset equals the lineage length, so a present species rank yields the whole lineage |
| Taxonomy.LevelPrefix | src/rust/src/lib.rs:93-101 | when two ranks are both present, the value at the shallower one is a prefix of the value at the deeper one |
| Taxonomy.LevelAgreement | src/rust/src/lib.rs:93-101 | two parsed paths with the same present value at a rank have the same fields at that rank and at every shallower rank |
| Taxonomy.LevelAgreementAbove | src/rust/src/lib.rs:93-101 | two parsed paths with the same present value at a rank have the same value at every shallower rank |
| Taxonomy.StoredAsU16 | src/rust/src/lib.rs:68 | the `as u16` store changes no path whose lineage is shorter than 65536 characters |
| Taxonomy.U16CastTruncatesSpecies | src/rust/src/lib.rs:68 | on a parsed lineage of 65536 characters or more with a present species rank, the cast offset yields a strictly shorter prefix instead of the whole lineage |
| Taxonomy.U16CastCounterexample | src/rust/src/lib.rs:68 | the concrete lineage of 65536 `x` characters followed by `;b;c;d;e;f;g` parses, and with the cast its species value is its first 12 characters |
| LcaEngine.UniqueTaxa | src/rust/src/lib.rs:111-133 | the result is `NonUnique` exactly when two entries differ (absent versus present counts), `UniqueNone` exactly when every entry is absent (the empty list included), and `UniqueSome(v)` exactly when the list is non-empty and every entry is `v` |
| LcaEngine.Scan | src/rust/src/lib.rs:114-132 | from any point of the loop where all entries seen equal the first one, the same three-way classification of the whole list holds |
| LcaEngine.TaxaAt | src/rust/src/lib.rs:146-149 | one value per member, in member order: member k's value at the rank |
| LcaEngine.TaxaAtClassifies | src/rust/src/lib.rs:146-159 | the list of values classifies the rank: all entries absent exactly when every member is absent, all entries the present value t exactly when the members agree on t, two different entries exactly when two members diverge |
| LcaEngine.RankTrichotomy | src/rust/src/lib.rs:151-159 | at every rank the members are all absent, all present and equal to the first member's value, or divergent, and the cases exclude each other |
| LcaEngine.CheckLevel | src/rust/src/lib.rs:140-160 | an all-absent rank continues with the previous candidate, a rank where all members agree on t continues with that rank and t, and a divergent rank stops with the previous candidate |
| LcaEngine.Fold | src/rust/src/lib.rs:174-181 | the fold from rank position i returns the candidate it started with, or a rank at or below position i together with a value every member has at that rank |
| LcaEngine.FirstDivergence | src/rust/src/lib.rs:174-181 | the result is the shallowest divergent rank at or below the start, or 7; no rank before it diverges |
| LcaEngine.FoldOutcome | src/rust/src/lib.rs:174-181 | from any rank before the first divergence, the fold returns the previous candidate if every remaining rank before the divergence is absent, and otherwise the deepest agreed rank before the divergence |
| LcaEngine.AnswerHere | src/rust/src/lib.rs:153-157 | a rank where all members agree, followed only by all-absent ranks up to the divergence, is the answer for that stretch |
| LcaEngine.FoldAbsentStep | src/rust/src/lib.rs:153 | an all-absent rank before the divergence passes the candidate on unchanged |
| LcaEngine.FoldAgreeStep | src/rust/src/lib.rs:154-157 | a rank where all members agree on a value makes that rank and value the candidate the fold carries on with |
| LcaEngine.ComputeLca | src/rust/src/lib.rs:162-184 | there is no result for an empty cluster, and no result exactly when every rank before the first divergence is all-absent; a result lies before the first divergence, every member has exactly its taxon at its rank, every deeper rank up to the divergence is all-absent, and every rank down to it is unanimous |
| LcaEngine.LcaIsDeepest | src/rust/src/lib.rs:162-184 | any rank before the first divergence on which all members agree is at or above the result's rank |
| LcaEngine.LcaAncestry | src/rust/src/lib.rs:162-184 | for parsed members, every member has the result's taxon at the result's rank, and any two members have identical fields from the domain through that rank |
| LcaEngine.AgreementIsCumulative | src/rust/src/lib.rs:146-159 | for parsed members, agreement at a rank rules out divergence at every shallower rank |
| LcaEngine.LcaStopsAtDivergence | src/rust/src/lib.rs:174-181 | parsed members that agree on t at a rank and diverge at the next rank resolve to that rank with taxon t, e.g. lineages equal through the family and different at the genus resolve to the family |
| LcaEngine.DomainDivergenceHasNoLca | src/rust/src/lib.rs:158 | members that disagree at the domain have no common ancestor |
| LcaEngine.SingleMemberLca | src/rust/src/lib.rs:162-184 | a lone member has a result exactly when one of its ranks is present, and the result is its deepest present rank with that rank's value |
| LcaEngine.IdenticalLineagesLca | src/rust/src/lib.rs:162-184 | parsed members with the same lineage and a present species rank resolve to the species rank with the whole lineage |
| LcaEngine.SameLineageSameLevels | src/rust/src/lib.rs:93-101 | two parsed paths of the same lineage give the same value at every rank |
| Clusters.InsertParsed | src/rust/src/lib.rs:226-227 | storing the result of parsing under its own cleaned accession keeps every lookup entry a parse result filed under its own accession |
| Clusters.Resolve | src/rust/src/lib.rs:276-286 | there are never more resolved lineages than members, and every resolved lineage is a value of the lookup |
| Clusters.Found | src/rust/src/lib.rs:276-286 | the accessions of the members that were found, in member order: never more than the members, and each one a key of the lookup |
| Clusters.ResolveFound | src/rust/src/lib.rs:276-286 | the k-th resolved lineage is the lookup entry of the k-th found accession; in a parsed lookup it is a parse result whose accession is that found accession |
| Clusters.ResolvedFromMembers | src/rust/src/lib.rs:276-286 | every resolved lineage is the lookup entry of some member that was found |
| Clusters.ResolveAllFound | src/rust/src/lib.rs:276-286 | when every member is found, the k-th resolved lineage is the k-th member's entry |
| Clusters.ResolveNoneFound | src/rust/src/lib.rs:276-286 | when no member is found, nothing is resolved |
| Clusters.ResolveAppend | src/rust/src/lib.rs:276-286 | resolution keeps member order: resolving a concatenation resolves each part in turn |
| Clusters.ClusterRows | src/rust/src/lib.rs:288-299 | every cluster yields at least one row, and every row names the cluster |
| Clusters.ClusterRowsShape | src/rust/src/lib.rs:288-299 | the rows are the single `na` row exactly when the found members have no LCA; otherwise there is one row per found member, in member order, each with the cluster's rank, taxon and that member's accession, and that member really has that taxon at that rank |
| Clusters.RowsForShape | src/rust/src/lib.rs:288-299 | with no common ancestor the cluster gets exactly the one `na` row; with one, it gets one row per found member in order, each carrying the rank, the taxon and that member's accession, and when every member has that taxon at that rank, each row's taxon is its own member's |
| Clusters.RowsFor | src/rust/src/lib.rs:288-299 | every cluster yields at least one row, and every row names the cluster |
| Clusters.ClusterRowsMembers | src/rust/src/lib.rs:288-299 | in a parsed lookup, when there is a common ancestor the rows are one member row per found member, in order, whose accession is that member's and whose rank and taxon are that member's own value at that rank |
| Clusters.ClusterRowsAssigned | src/rust/src/lib.rs:288-299 | in a parsed lookup, once the common ancestor is known, row k carries it together with the k-th found accession |
| Clusters.ClusterRowsShareAncestry | src/rust/src/lib.rs:288-299 | in a parsed lookup with a common ancestor, any two found members have identical fields from the domain down to the ancestor's rank |
| Clusters.ClusterStopsAtDivergence | src/rust/src/lib.rs:288-299 | in a parsed lookup, found members that agree on t at a rank and diverge at the next give every row that rank and t, with the found accessions in order |
| Clusters.MissingMemberIgnored | src/rust/src/lib.rs:277-285 | inserting a member that is not in the lookup anywhere in the member list leaves the cluster's rows unchanged |
| Clusters.NothingFoundIsUnresolved | src/rust/src/lib.rs:288-289 | a cluster with no member in the lookup yields exactly the single `na` row |
| Clusters.Blocks | src/rust/src/lib.rs:271 | there is one block per cluster, in cluster order, and block k is exactly the rows of cluster k |
| Clusters.Run | src/rust/src/lib.rs:271-300 | all clusters together yield at least one row per cluster |
| Clusters.RunSingle | src/rust/src/lib.rs:271-300 | the output for a single cluster is exactly that cluster's rows |
| Clusters.RunAppend | src/rust/src/lib.rs:271-300 | clusters are processed independently: the rows of a concatenation of cluster lists are the rows of each list in turn |
| Clusters.RowFields | src/rust/src/lib.rs:289-295 | the cluster is the first column, and a row none of whose columns holds a tab gives tab-free columns, the rank name included |
| Clusters.RowOf | src/rust/src/lib.rs:289-295 | a list of columns that reads as a row is exactly the columns of that row |
| Clusters.RowFieldsReadBack | src/rust/src/lib.rs:289-295 | reading a row's columns back gives the same row, so distinct rows have distinct columns |
| Clusters.RowText | src/rust/src/lib.rs:289-295 | a written line of a tab-free row splits back on tabs into the row's columns (`cluster, na, na` or `cluster, level name, taxon, accession`) and so reads back as the row |
| Clusters.FieldsSplitBack | src/rust/src/lib.rs:289-295 | joining a tab-free row's columns with tabs and splitting on tabs gives the columns back |

## Left out

- Reading the two input files (`read_clusters`, `read_taxonomy_paths`). This is file I/O. The lookup and the clusters are parameters, already built.
  - The lower-casing of the lineage in `read_taxonomy_paths` is Unicode case mapping, so it is left out too. `New` takes the lineage as given, as `lca_wrapper` does.
- Writing the output (`BufWriter`, `writeln!`) and the panics from `expect` on I/O errors. Rows are returned as values, and `RowText` gives the line text without its newline.
- The warning printed on standard error for an accession missing from the lookup. It is a side effect only. The accession is dropped as in the source.
- `Config::new` and `std::process::exit`. This is command-line handling.
- `lca_wrapper` and `extendr_module!`. They are the R binding and use foreign types. `lca_wrapper` only parses its arguments with `New` and runs `ComputeLca`.
- `Clusters.Run`: the source walks clusters in hash-map order, which is not modelled. The model takes the clusters as a sequence in whatever order they come; `Blocks` states that block k is the rows of cluster k, so another order writes the same blocks in that other order.
- `LcaEngine.Scan`: the `AHashSet` in `unique_taxa` is kept as "the single distinct value seen so far". The set never holds more than one element before the function returns, so this is the same information. Hashing is not modelled.
- `Taxonomy.New`: the source panics on a malformed lineage. With more than seven fields it fails on an array index before its `assert_eq!`. The model returns `Err(MalformedTaxonomy(n))` in both cases, where n is the total field count.
- `Taxonomy.New`: offsets are exact `nat`s. The source's `as u16` cast is modelled separately by `StoredAsU16`; see Findings.
- Byte length versus character length: strings are modelled as `seq<char>` and assumed to be ASCII.

## Findings

| source | as written | input that shows it | evidently intended | confidence | as-written member | corrected member |
|---|---|---|---|---|---|---|
| src/rust/src/lib.rs:68 | each prefix end offset is stored with `current_position as u16`, which keeps it modulo 65536 (the line carries a TODO about the cast) | the lineage of 65536 `x` characters followed by `;b;c;d;e;f;g`: the species offset 65548 is stored as 12, so `level(Species)` returns the first 12 characters instead of the lineage | offsets are exact, so `level(Species)` of a present species rank is the whole lineage | medium: only lineages of 65536 characters or more are affected; not executed | Taxonomy.U16CastCounterexample | Taxonomy.SpeciesIsWholeLineage |
