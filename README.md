# Chemical Roles Graph — a verified model of the relation engine and its curation tools

The Chemical Roles Graph turns a hand-curated table of *role → target*
relations (`xrefs.tsv`) into a larger inferred table. Each row has eight
strings: `source_db, source_id, source_name, modulation, target_type,
target_db, target_id, target_name`. Around that table the repository has
curation worksheets and linters. This project models the following parts
in Dafny and proves their properties.

- **Relation propagation** (`ExportUtils`, `TargetExpansion`,
  `ExpasyClosure`, `GenerateExport`, `CurateChebiRelations`).
  - Stage A expands each curated ChEBI row along the HGNC→UniProt
    crosswalk, FamPlex family membership and the closure of the Enzyme
    Commission class tree (ExPASy).
  - Stage B re-keys each role's entries onto the chemicals bearing the role.
  - The result is then sorted and deduplicated.
  - The current version (`src/chemical_roles/export/utils.py`) and the two
    older scripts (`generate_export.py`, `curate_chebi_relations.py`) are
    modelled side by side, with their differences proved.
- **EC code extraction** from role names such as `EC 1.2.* inhibitor`
  (`EnzymeCodes`, `CurateChebi`, `CurateChebiRelations`).
- **Candidate selection and grounding rows** for ChEBI and MeSH
  (`CurationUtils`, `CurateChebi`, `CurateMesh`). This covers the ordered
  `SUFFIXES` list, `yield_gilda`, and the exclusion of curated,
  irrelevant and blacklisted identifiers.
- **The linters** (`Lint`, `CurationUtils`): the tab count, single
  mappings with their report, identifier validation, and the xrefs sort.
- **Exporters and importers**:
  - the OBO exporter with its log-once typedef table (`Obo`);
  - the BEL dispatch and the two sorted projections of `write_export`
    (`GenerateExport`);
  - the CHIRO importer (`Chiro`).

Shared pieces:

- `Wrappers`: `Option`/`Result` and the Python exceptions the code raises.
- `Text`: Python string operations on ASCII.
- `Order`: lexicographic order, a stable sort, and `drop_duplicates`
  keeping first copies.
- `Rows`: the eight-column row.

External lookups are parameters of the model: maps or functions for
names, descendants, grounding results, the HGNC→UniProt table, ec2go,
role→bearer chemicals, and bioregistry. These include pyobo, gilda,
protmapper, bioregistry and networkx.

Prefix normalisation in `get_relations_df` strips exactly one upper-case
`DB:` prefix: it is neither case-insensitive nor idempotent
(`CHEBI:CHEBI:1` becomes `CHEBI:1`, and `chebi:1` is left unchanged).
`TargetExpansion.StripPrefixOnce` records this.

## Model

| member | source | states |
|---|---|---|
| Rows.SortAndDedup | src/chemical_roles/export/utils.py:129-131 | the final table is strictly sorted on all eight columns (so no row repeats) and holds exactly the rows given |
| Rows.ColsInjective | src/chemical_roles/export/utils.py:129-131 | the eight sort columns determine the row, so sorting on them is total |
| Order.SortBy | src/chemical_roles/export/utils.py:130 | `sort_values`: the result is ordered by the key and is a permutation of the input |
| Order.DropDuplicates | src/chemical_roles/export/utils.py:131 | `drop_duplicates`: no repeats, the same elements, never longer |
| Order.DropDuplicatesKeepsSorted | src/chemical_roles/utils.py:46-47 | deduplicating after sorting keeps the order |
| Order.StrictlySortedUnique | src/chemical_roles/export/utils.py:129-131 | two strictly sorted tables with the same rows are equal, so the output depends only on the set of rows |
| Order.DedupThenSort | curate_chebi_relations.py:313-319 | deduplicate then sort on an injective key: strictly sorted, same elements |
| ExportUtils.GetRelationsDf | src/chemical_roles/export/utils.py:28-132 | without `use_inferred` the curated rows come back unchanged. Otherwise it fails exactly when Stage A raises, with that error. On success the result is strictly sorted on all eight columns and holds exactly the curated rows plus the inferred ones |
| ExportUtils.CuratedRowsKept | src/chemical_roles/export/utils.py:42-53 | every curated row, including a non-ChEBI one, is in the output; non-ChEBI rows contribute nothing to Stage A |
| ExportUtils.OutputDeterminedByRows | src/chemical_roles/export/utils.py:129-131 | two results with the same rows are the same table |
| ExportUtils.InferredRowOrigin | src/chemical_roles/export/utils.py:104-126 | every inferred row pairs a bearer of some curated ChEBI role with an entry that role's curated row contributed |
| TargetExpansion.GetFamplex | src/chemical_roles/export/utils.py:143-157 | the family map built by the loop is `FamplexMembers` |
| TargetExpansion.FamplexMembersSpec | src/chemical_roles/export/utils.py:147-154 | `(hgnc_id, symbol)` is listed for a family iff some hgnc/`isa`/fplx row (case-insensitive) names the symbol, the symbol has an HGNC id, and that id is `hgnc_id`; no family has an empty list |
| TargetExpansion.UniprotIdNames | src/chemical_roles/export/utils.py:185-194 | current version: an unknown HGNC id gives nothing. The legacy version (generate_export.py:172-182) raises `KeyError`, or `IndexError` when the table is empty (its handler reads the table's first item before re-raising). A known id gives one pair per `', '`-separated UniProt id, each named by its mnemonic, and the ids rejoin to the table entry |
| TargetExpansion.UniprotEntries | src/chemical_roles/export/utils.py:64-65 | one `protein`/`uniprot` entry per pair, in order |
| TargetExpansion.FamilyEntries | src/chemical_roles/export/utils.py:71-74 | every family member gives an hgnc `protein` entry; all entries are hgnc or uniprot proteins with the row's modulation; the current version never fails |
| TargetExpansion.ClosureEntries | src/chemical_roles/export/utils.py:83-87 | one entry per closure member, typed by `DB_TO_TYPE`; fails with `KeyError(db)` iff some member's db is not in `DB_TO_TYPE` |
| TargetExpansion.GoEntries | src/chemical_roles/export/utils.py:89-92 | one `molecular function`/`go` entry per ec2go pair, in order |
| TargetExpansion.StripPrefix | src/chemical_roles/export/utils.py:55-58 | removes one leading `DB.upper() + ':'` when present, else returns the id unchanged |
| TargetExpansion.StripPrefixOnce | src/chemical_roles/export/utils.py:55-58 | only one prefix is removed and a lower-case prefix stays: stripping is not idempotent |
| TargetExpansion.TargetEntries | src/chemical_roles/export/utils.py:50-95 | a non-ChEBI row contributes nothing; contributions are keyed by the ChEBI source and keep the row's modulation; only an EC target (either version) or an hgnc/fplx target (legacy version) can raise |
| TargetExpansion.HgncTarget | src/chemical_roles/export/utils.py:60-65 | an hgnc target gives its `protein`/hgnc entry first, then its UniProt entries (none for an unknown id); it raises only in the legacy version on an unknown id |
| TargetExpansion.FplxTarget | src/chemical_roles/export/utils.py:67-74 | an fplx target keeps its own entry first with its own type, then every family member's hgnc entry; the current version never raises |
| TargetExpansion.EcTarget | src/chemical_roles/export/utils.py:76-92 | an EC code without a closure contributes nothing. Otherwise: one typed entry per closure member, then one GO molecular-function entry per ec2go pair. It raises iff a member's db has no type. The bare EC entry appears only when the code is in its own closure |
| TargetExpansion.OtherTarget | src/chemical_roles/export/utils.py:94-95 | any other target passes through as one unchanged entry |
| TargetExpansion.InferOverTargets | src/chemical_roles/export/utils.py:42-95 | the Stage A loop computes the accumulator `Accumulate`, stopping at the first exception |
| TargetExpansion.AccumulateFailureSticks | src/chemical_roles/export/utils.py:50-95 | once a row raises, later rows do not change the outcome |
| TargetExpansion.AccumulateFails | src/chemical_roles/export/utils.py:50-95 | Stage A fails iff some curated row raises |
| TargetExpansion.AccumulateKeys | src/chemical_roles/export/utils.py:43-95 | every accumulator key is a ChEBI curie with a non-empty list |
| TargetExpansion.AccumulateEntryOrigin | src/chemical_roles/export/utils.py:43-95 | every accumulated entry was contributed by some curated row under that key |
| TargetExpansion.AccumulateEntryPresent | src/chemical_roles/export/utils.py:43-95 | every contributed entry is accumulated under its key |
| TargetExpansion.AccumulateEntries | src/chemical_roles/export/utils.py:43-95 | an entry is accumulated under a key iff some curated row contributes it there |
| TargetExpansion.Bearers | src/chemical_roles/export/utils.py:105-116 | the chemicals bearing the role itself are always bearers |
| TargetExpansion.BearersSubRoles | src/chemical_roles/export/utils.py:105-111 | without `use_sub_roles` the bearers are exactly the role's own chemicals; with it they can only grow; a non-ChEBI role is never widened |
| TargetExpansion.BearerRows | src/chemical_roles/export/utils.py:121-126 | exactly \|entries\| × \|bearers\| rows, each a bearer as source with an entry verbatim |
| TargetExpansion.InferOverRoles | src/chemical_roles/export/utils.py:104-126 | the Stage B loop produces exactly the inferred rows; a role with no bearers adds none |
| TargetExpansion.InferredRowsStep | src/chemical_roles/export/utils.py:104-126 | handling one more role adds exactly that role's entries × bearers |
| ExpasyClosure.BuildGraph | src/chemical_roles/export/utils.py:162-175 | the graph has a child→parent edge for every parent and a member→class edge for every member, and no others |
| ExpasyClosure.EdgesContain | src/chemical_roles/export/utils.py:164-175 | every term's edges are in the graph |
| ExpasyClosure.ClosedSetHoldsAncestors | src/chemical_roles/export/utils.py:178 | a set that holds a node's predecessors and is closed under predecessors holds all its ancestors |
| ExpasyClosure.SearchStart | src/chemical_roles/export/utils.py:178 | the search for ancestors starts from the direct predecessors |
| ExpasyClosure.SearchStep | src/chemical_roles/export/utils.py:178 | visiting one node keeps the search invariant |
| ExpasyClosure.SearchDone | src/chemical_roles/export/utils.py:178 | a finished search has found exactly the ancestors |
| ExpasyClosure.AncestorsOf | src/chemical_roles/export/utils.py:178 | `nx.ancestors`: every node with a path to the node, excluding the node itself |
| ExpasyClosure.ListOf | src/chemical_roles/export/utils.py:178 | `list(...)` of a set: the same elements, each once |
| ExpasyClosure.GetExpasyClosure | src/chemical_roles/export/utils.py:160-182 | keys are the ids of the graph's nodes in the ontology's namespace; each value lists that node's ancestors once each (also generate_export.py:49-70) |
| ExpasyClosure.ClosureExcludesClass | src/chemical_roles/export/utils.py:177-181 | an EC class is never in its own closure |
| GenerateExport.GetRelationsDf | generate_export.py:73-169 | fails exactly when Stage A raises; otherwise holds exactly the inferred rows and none of the curated rows themselves |
| GenerateExport.VariantsDiffer | generate_export.py:172-182 | an hgnc target unknown to the UniProt table raises in this version (`KeyError`, or `IndexError` when the table is empty) and not in the current one; the legacy key is the unstripped source id |
| GenerateExport.CuratedRowsNotCarried | generate_export.py:146-169 | when no role has bearers the output is empty, so curated rows are not carried over |
| GenerateExport.FullKeyInjective | generate_export.py:276-279 | the full table's eight-column key determines the row |
| GenerateExport.Project | generate_export.py:282-283 | the slim projection keeps every row's five slim columns, one for one |
| GenerateExport.FullTable | generate_export.py:273-279 | the full export is strictly sorted on (modulation, target_type, source_db, source_id, source_name, target_db, target_id, target_name) and holds exactly the rows |
| GenerateExport.SlimTable | generate_export.py:282-283 | the slim export is sorted on its five columns and is a permutation of the projection of the deduplicated rows; it is not deduplicated again |
| GenerateExport.SlimTableKeepsRepeats | generate_export.py:282-283 | two rows that differ only in a name give two identical slim lines |
| GenerateExport.AddersTable | generate_export.py:378-385 | activator, agonist and inverse agonist activate; antagonist and inhibitor inhibit; modulator regulates; nothing else maps |
| GenerateExport.TypeMapTable | generate_export.py:368-376 | protein and protein family map to Protein; exactly the seven listed types map |
| GenerateExport.BelEdges | generate_export.py:388-406 | skipping molecular-function rows, it succeeds iff every other row's type and modulation map; then the edges are exactly those rows' edges; otherwise `KeyError` |
| GenerateExport.WriteBelExport | generate_export.py:388-406 | the loop computes `BelEdges` |
| GenerateExport.BelPrefix | generate_export.py:392-406 | each row is skipped, raises on its type, raises on its modulation, or adds one edge — in that order |
| GenerateExport.BelFailureSticks | generate_export.py:400-405 | the first `KeyError` ends the export |
| EnzymeCodes.SpecialNamesNonEmpty | src/chemical_roles/curate/chebi.py:98-116 | each of the four hard-coded names designates at least one code |
| EnzymeCodes.EcToken | src/chemical_roles/curate/chebi.py:128 | the first whitespace token after `EC `: non-empty and without spaces; `IndexError` iff nothing follows but spaces |
| EnzymeCodes.Cleanup | src/chemical_roles/curate/chebi.py:128 | after `*`→`-` and stripping trailing dots, no `*` remains and the code does not end in `.` |
| EnzymeCodes.DashesShape | src/chemical_roles/curate/chebi.py:131-132 | n rounds of `.-` add exactly n dots |
| EnzymeCodes.PaddedShape | src/chemical_roles/curate/chebi.py:131-132 | padding extends the code, brings it to three dots, leaves a code of three or more dots alone and adds no `*` |
| EnzymeCodes.PadEcCode | src/chemical_roles/curate/chebi.py:131-132 | the padding loop computes `Padded` |
| EnzymeCodes.EcCodeOf | src/chemical_roles/curate/chebi.py:128-134 | the parsed code extends the cleaned token, has at least three dots and no `*`; it fails only as the token does |
| EnzymeCodes.EcNamesParse | src/chemical_roles/curate/chebi.py:119-134 | every `EC …inhibitor`/`EC …activator` name parses |
| EnzymeCodes.RegularName | src/chemical_roles/curate/chebi.py:128-134 | `EC <word> <rest>` parses to the padded, cleaned word |
| EnzymeCodes.WildcardExample | src/chemical_roles/curate/chebi.py:128-132 | `EC 1.2.* inhibitor` gives `1.2.-.-` |
| EnzymeCodes.TrailingDotExample | src/chemical_roles/curate/chebi.py:128-132 | `EC 3.4. inhibitor` gives `3.4.-.-` |
| CurateChebi.EcClassification | src/chemical_roles/curate/chebi.py:98-137 | a name is kept iff it is one of the four hard-coded names (modulation inhibitor, fixed codes) or starts `EC ` and ends `inhibitor`/`activator` (that modulation, one parsed code) |
| CurateChebi.ClassifyEcName | src/chemical_roles/curate/chebi.py:98-137 | the branch chain with its padding loop computes `EcClassification` |
| CurateChebi.EcName | src/chemical_roles/curate/chebi.py:149 | `get_name(...) or ec_code`: the looked-up name, or the code when the name is missing or empty |
| CurateChebi.AppendCodeRows | src/chemical_roles/curate/chebi.py:139-165 | appends the code's `protein family`/ec-code row followed by one `activity`/go row per ec2go pair |
| CurateChebi.AppendCodesRows | src/chemical_roles/curate/chebi.py:139-165 | appends the rows of every code in order |
| CurateChebi.AppendNameRows | src/chemical_roles/curate/chebi.py:93-165 | appends one name's rows, none when the name is not classified |
| CurateChebi.ProposeEnzymeModulators | src/chemical_roles/curate/chebi.py:88-167 | the result is `ProposedRows` of the name mapping |
| CurateChebi.GoRowsMembership | src/chemical_roles/curate/chebi.py:153-165 | a GO row is present iff its pair is an ec2go pair of the code |
| CurateChebi.CodesRowsMembership | src/chemical_roles/curate/chebi.py:139-165 | a row is produced for a name iff one of its codes produces it |
| CurateChebi.ProposedRowsMembership | src/chemical_roles/curate/chebi.py:93-165 | a row is proposed iff some mapping entry produces it |
| CurateChebi.ProposedRowsSpec | src/chemical_roles/curate/chebi.py:93-165 | a row is proposed iff it is the EC row or a GO row of a code of a classified name, with that name's modulation |
| CurateChebi.ProposedRowOrigin | src/chemical_roles/curate/chebi.py:93-165 | every proposed row comes from a classified name and one of its codes |
| CurateChebi.ProposedRowPresent | src/chemical_roles/curate/chebi.py:93-165 | every row a classified name's code calls for is proposed |
| CurateChebi.HmgCoaTwoCodes | src/chemical_roles/curate/chebi.py:103-106 | the HMG-CoA reductase name yields rows for both 1.1.1.34 and 1.1.1.88 |
| CurateChebi.CuratedRoleIds | src/chemical_roles/curate/chebi.py:48-57 | exactly the source ids of curated rows whose source_db is chebi |
| CurateChebi.InhibitorCandidates | src/chemical_roles/curate/chebi.py:199-205 | inhibitor descendants minus pathway-inhibitor and enzyme-inhibitor descendants (also curate_chebi_relations.py:177-182) |
| CurateChebi.FirstMatch | src/chemical_roles/curate/chebi.py:297-303 | the first suffix in order the name ends with, or none when none matches |
| CurateChebi.AntagonistBeforeAgonist | src/chemical_roles/curate/chebi.py:297-303 | a name ending `antagonist` takes `antagonist`, not `agonist` |
| CurateChebi.GildaRowsForSpec | src/chemical_roles/curate/chebi.py:284-303 | a row comes from an uncurated, relevant id with a name, labelled with the given suffix or the first matching one |
| CurateChebi.IterGilda | src/chemical_roles/curate/chebi.py:278-303 | every row is about a listed id that is neither curated nor irrelevant and whose name resolves, carrying that name |
| CurateChebi.IterGildaRows | src/chemical_roles/curate/chebi.py:278-303 | every row of `_iter_gilda` is about a listed, uncurated, relevant id whose name resolves, with the right label, and is the row of a non-self grounding result for the name without the chosen suffix, or that id's placeholder |
| CurateChebi.IterGildaComplete | src/chemical_roles/curate/chebi.py:284-295 | for an uncurated, relevant, named id, every non-self grounding hit is emitted, labelled with the given suffix or, without one, with the first `SUFFIXES` entry the name ends with (chebi.py:296-303); an ungrounded id gets its placeholder when missing results are shown |
| CurateChebi.NameFilter | src/chemical_roles/curate/chebi.py:270-274 | keeps exactly the ids whose name, case-folded, ends with the case-folded suffix; a missing name raises `AttributeError` |
| CurateChebi.SuggestXrefsRows | src/chemical_roles/curate/chebi.py:260-275 | every suggestion is about a listed, uncurated, relevant id whose name ends with the suffix, ignoring case, labelled with the suffix |
| CurateChebi.SuggestInhibitorRows | src/chemical_roles/curate/chebi.py:199-208 | every inhibitor suggestion is an inhibitor that is neither a pathway nor an enzyme inhibitor |
| CurateChebi.PathwaySuggestions | src/chemical_roles/curate/chebi.py:170-196 | skips curated, reclassified and blacklisted ids. It raises `KeyError("chebi:<id>")` iff some remaining id has no name. The error names the first such id. It suggests only names ending `inhibitor` and not starting `EC `, with the query cut before ` inhibitor`, and suggests every such id that comes before the first nameless one |
| CurationUtils.Plurals | src/chemical_roles/utils.py:37-40 | each base suffix with `s` appended, in order |
| CurationUtils.SuffixesShape | src/chemical_roles/utils.py:26-40 | 18 suffixes: the nine singulars in declared order, then their plurals; no singular ends in `s`, every plural does (also utils.py:33-47) |
| CurationUtils.NormalizeTerm | src/chemical_roles/utils.py:76-79 | the db is lower-cased; one leading `db:` is stripped from the id when present, matched ignoring case |
| CurationUtils.Hits | src/chemical_roles/utils.py:73-87 | one row per result that is not the queried term itself, and only those |
| CurationUtils.YieldGilda | src/chemical_roles/utils.py:63-89 | with no results: one placeholder row iff `show_missing`. Otherwise every row carries the query's source fields, the label `suffix or '?'` and type `?`, and is the row of a non-self result, so never the query itself; every non-self result appears |
| CurationUtils.YieldGildaSource | src/chemical_roles/utils.py:83-89 | every row carries the query's source fields and label |
| CurationUtils.CountSourcePositive | src/chemical_roles/utils.py:96-98 | a source id that occurs has a count of at least one, and a count of one means that occurrence is its only row |
| CurationUtils.Occurrences | src/chemical_roles/utils.py:96-98 | counts a source id's rows and finds one of them |
| CurationUtils.GetSingleMappings | src/chemical_roles/utils.py:92-100 | an id is listed under a target triple iff it occurs in the slice and has exactly one row in the whole table, whose target is that triple; no listed set is empty (also utils.py:82-90) |
| CurationUtils.SortXrefs | src/chemical_roles/utils.py:43-48 | sorted by (source_db, source_name, modulation), no exact duplicates, the same rows (also utils.py:65-70) |
| CurationUtils.Uncommented | utils.py:50-52 | the text of a line before its first `#` |
| CurationUtils.Cells | utils.py:50-52 | one cell per column: a field that is one of pandas' default NA strings (the empty field, `NA`, `N/A`, `null`, `None`, `nan`, …) and a cell past the end of a short line are missing (`NaN`); every other field is kept as the string it is |
| CurationUtils.DataRecords | utils.py:50-52 | the records are the data lines' records in line order, one per non-blank line and none for a blank one, so order and repeats are kept; a line wider than the header raises `ParserError`, and only then |
| CurationUtils.ReadXrefs | utils.py:50-52 | raises only `EmptyDataError` or `ParserError`; on success the columns are the tab-split fields of one of the lines, and every record has one cell per column |
| CurationUtils.XrefsRecordsSpec | utils.py:50-52 | the first non-blank line names the columns and is not a record; the records are, in order, the records of the data lines after it; `EmptyDataError` iff every line is blank, otherwise only `ParserError` |
| CurationUtils.CommentLineSkipped | utils.py:50-52 | a line starting with `#` before the header is skipped |
| CurateMesh.CuratedMeshIds | src/chemical_roles/curate/mesh.py:41-43 | exactly the source ids of curated rows whose source_db is mesh |
| CurateMesh.LastMatch | src/chemical_roles/curate/mesh.py:45-51 | the last suffix in order the name ends with, or none when none matches |
| CurateMesh.TermFor | src/chemical_roles/curate/mesh.py:46 | the search text is the name without the suffix's length of trailing characters, untrimmed; the label is `suffix.strip('s')` |
| CurateMesh.Candidate | src/chemical_roles/curate/mesh.py:45-51 | a term is a candidate iff it is not curated, not blacklisted and its lower-cased name ends with some suffix; the last matching suffix is used |
| CurateMesh.MeshTermsSpec | src/chemical_roles/curate/mesh.py:45-51 | the comprehension holds exactly the candidates of the name mapping |
| CurateMesh.SortedTerms | src/chemical_roles/curate/mesh.py:53 | the candidates in ascending name order, none lost or added |
| CurateMesh.TermsRowsOrigin | src/chemical_roles/curate/mesh.py:55-57 | every worksheet row is about one of the terms and is the row of a non-self grounding result of that term, with its label, or its placeholder |
| CurateMesh.TermsRowsSorted | src/chemical_roles/curate/mesh.py:53-57 | rows come out in ascending name order |
| CurateMesh.CurateMeshRows | src/chemical_roles/curate/mesh.py:39-57 | the worksheet rows come out in ascending name order |
| CurateMesh.CurateMeshRowsSpec | src/chemical_roles/curate/mesh.py:39-57 | every row is about an uncurated, non-blacklisted MeSH term whose name ends with a suffix, and is that candidate's row for a non-self grounding hit, with its label, or its placeholder; every non-self grounding hit of every candidate appears, with the candidate's label; the rows are in name order |
| CurateMesh.TermsRowsComplete | src/chemical_roles/curate/mesh.py:55-57 | every non-self grounding hit of a term gives its row, and a term that grounds to nothing gets its placeholder when missing terms are shown |
| CurateMesh.OutputShowsUngrounded | src/chemical_roles/curate/mesh.py:56 | with an output file every ungrounded candidate gets its placeholder, whatever `--show-ungrounded` says |
| CurateMesh.LegacyMeshRows | curate_mesh_relations.py:37-46 | one `mesh, id, name, label, ?, ?, ?, ?` line per candidate, in the sorted order |
| CurateMesh.LegacyMeshRowsSpec | curate_mesh_relations.py:45-46 | every candidate has its line, in ascending name order |
| CurateMesh.AntagonistsLabelledAgonist | src/chemical_roles/curate/mesh.py:45-51 | as written, a name ending `antagonists` keeps the suffix `agonists` and the label `agonist` |
| CurateMesh.SuppressorLabel | src/chemical_roles/curate/mesh.py:46 | as written, `suppressor` and `suppressors` are labelled `uppressor` |
| CurateMesh.IntendedCandidate | src/chemical_roles/curate/mesh.py:45-51 | the corrected candidate (first match, singular label) selects exactly the same terms |
| CurateMesh.IntendedCandidateAt | src/chemical_roles/curate/mesh.py:45-51 | the corrected candidate uses the first matching suffix and its singular |
| CurateMesh.IntendedLabels | src/chemical_roles/curate/mesh.py:46 | the corrected label of every suffix is its singular base form |
| CurateMesh.IntendedAntagonistLabel | src/chemical_roles/curate/mesh.py:45-51 | corrected: a name ending `antagonists` is labelled `antagonist` |
| CurateMesh.IntendedSuppressorLabel | src/chemical_roles/curate/mesh.py:46 | corrected: `suppressor(s)` is labelled `suppressor` |
| Lint.Passes | src/chemical_roles/lint.py:26-27 | a line passes iff, stripped, it has exactly seven tabs |
| Lint.Failing | src/chemical_roles/lint.py:25-29 | the 1-based numbers of the failing lines, ascending, every one of them |
| Lint.Stripped | src/chemical_roles/lint.py:26 | every line stripped at both ends |
| Lint.Tabs | src/chemical_roles/lint.py:20-32 | reports exactly the failing lines, stripped, with 1-based numbers in order; exit status 1 iff any failed (also lint.py:18-30) |
| Lint.TabsReportsFailing | src/chemical_roles/lint.py:25-28 | every reported line fails and is shown stripped |
| Lint.TabsReportsInOrder | src/chemical_roles/lint.py:25-28 | reports come in increasing line order |
| Lint.TabsReportsEvery | src/chemical_roles/lint.py:25-29 | every failing line is reported |
| Lint.CountJoinTabs | src/chemical_roles/lint.py:27 | n tab-free fields joined by tabs contain n − 1 tabs |
| Lint.EightColumnsPass | src/chemical_roles/lint.py:26-27 | a line of eight tab-free fields with no outer space passes |
| Lint.EmptyLastColumnFails | src/chemical_roles/lint.py:26-27 | a line whose eighth field is empty fails, because stripping removes its last tab |
| Lint.StripTrailingTab | src/chemical_roles/lint.py:26-27 | stripping a trailing tab never adds tabs |
| Lint.ProteinPrMask | src/chemical_roles/lint.py:41 | selects the rows with target_db pr and type protein |
| Lint.GoComplexMask | src/chemical_roles/lint.py:47 | selects the rows with target_db go and type protein complex |
| Lint.MeshMask | src/chemical_roles/lint.py:53 | selects the rows with target_db mesh |
| Lint.MolecularFunctionMask | src/chemical_roles/lint.py:59 | selects the rows of type molecular function |
| Lint.Mappings | src/chemical_roles/lint.py:35-71 | the four slices are checked independently; the closing message is printed iff any is non-empty; nothing exits |
| Lint.ReportNonEmpty | src/chemical_roles/lint.py:43-63 | a slice's report is non-empty iff some id in it is singly mapped |
| Lint.LegacyMappings | lint.py:33-48 | exits 1 iff the pr/protein or go/protein-complex slice is non-empty; the go check runs only when the pr check passed |
| Lint.MaxNameLength | src/chemical_roles/lint.py:75 | the longest target name length in the report |
| Lint.PadRight | src/chemical_roles/lint.py:77 | `{k:{m}}`: the name, then spaces up to width m |
| Lint.RoleWord | src/chemical_roles/lint.py:77 | `role` iff exactly one id is listed, `roles` otherwise |
| Lint.ReportLines | src/chemical_roles/lint.py:74-77 | one line per report entry |
| Lint.ReportLinesAligned | src/chemical_roles/lint.py:74-77 | each line is `db:id ! <name padded to the longest> for role(s) <ids>` |
| Lint.FirstInvalid | src/chemical_roles/lint.py:90-105 | the first pair whose prefix is not normal or whose id fails validation, or none iff all pass |
| Lint.ValidateSpec | src/chemical_roles/lint.py:86-105 | validation passes iff every source and target prefix is normal and every id valid; any bad source pair is reported before any target pair |
| Obo.DropNa | src/chemical_roles/export/obo.py:28 | exactly the complete rows survive `dropna`; a table with no missing cell passes through whole and in order |
| Obo.TypedefOf | src/chemical_roles/export/obo.py:55-62 | exactly two triples map: go/biological process/activator to RO positively regulates and go/biological process/inhibitor to RO negatively regulates |
| Obo.TypedefLog.GetTypedef | src/chemical_roles/export/obo.py:67-74 | returns the typedef of the triple; an unmapped triple is logged, and written out only the first time |
| Obo.FirstSeen | src/chemical_roles/export/obo.py:41-43 | each source once, exactly the sources of the rows |
| Obo.GatheredSpec | src/chemical_roles/export/obo.py:45-47 | a relationship belongs to a source's term iff some row adds it |
| Obo.GroupsShape | src/chemical_roles/export/obo.py:49-51 | every yielded term has at least one relationship, all gathered from its rows |
| Obo.GroupsComplete | src/chemical_roles/export/obo.py:49-51 | every source with a relationship is yielded |
| Obo.GroupsDistinct | src/chemical_roles/export/obo.py:49-51 | no source is yielded twice |
| Obo.FirstSeenOrder | src/chemical_roles/export/obo.py:40-43 | terms are in the order their sources first appear |
| Obo.RelationshipOf | src/chemical_roles/export/obo.py:45-47 | a row adds a relationship iff its triple has a typedef, with the upper-cased target reference |
| Obo.Items | src/chemical_roles/export/obo.py:40-47 | one (upper-cased source reference, relationship) pair per row |
| Obo.RelationshipFromTypedef | src/chemical_roles/export/obo.py:45-47 | the relationship is built from the typedef that was looked up |
| Obo.AddRow | src/chemical_roles/export/obo.py:40-47 | a new source is created once and later rows reuse it; the relationship is appended when there is one; unmapped triples are logged |
| Obo.GroupRows | src/chemical_roles/export/obo.py:29-47 | the loop leaves the sources in first-seen order with their relationships; every unmapped triple is logged |
| Obo.YieldTerms | src/chemical_roles/export/obo.py:49-51 | only terms with a relationship are yielded, in first-seen order |
| Obo.IterTerms | src/chemical_roles/export/obo.py:26-51 | `iter_terms` yields the grouped terms of the complete rows and logs their unmapped triples |
| Obo.ExportedTerms | src/chemical_roles/export/obo.py:40-51 | terms are distinct, each non-empty and holding exactly its source's relationships, and every mapped row's source is exported |
| Obo.RelationshipsAreRegulations | src/chemical_roles/export/obo.py:45-62 | every exported relationship is a RO regulation of an upper-cased GO target from one of the source's rows |
| Obo.GroupsOrdered | src/chemical_roles/export/obo.py:49-51 | the yielded terms keep the first-seen order of their sources |
| Obo.TermsFirstSeen | src/chemical_roles/export/obo.py:49-51 | for a yielded term before another, some row of the first comes before every row of the second |
| Obo.GetObo | src/chemical_roles/export/obo.py:17-23 | the ontology is named Chemical Roles Graph, prefix crog, with the exported terms |
| Chiro.Mappings | chiro/import_chiro.py:23-26 | one name map for each of the five mapping prefixes and no other |
| Chiro.Namespace | chiro/import_chiro.py:40 | the lower-cased text before the first colon, so it holds no colon |
| Chiro.ImportChiro | chiro/import_chiro.py:20-53 | the loop with its skips and exceptions computes the sorted rows `Imported` |
| Chiro.NodeRowShape | chiro/import_chiro.py:29-47 | a row is `chebi`, the node, its ChEBI name, the relation without `_of`, the target's namespace (a loaded one), the target and its name looked up by the full curie |
| Chiro.NodeRowFailures | chiro/import_chiro.py:30-41 | a node raises iff it has data but no relationship, an empty list, a first string that is not two words, or a known chemical whose target namespace was not loaded |
| Chiro.UnknownChemicalSkipped | chiro/import_chiro.py:35-38 | an unknown chemical is skipped before its target namespace is looked at |
| Chiro.CollectSpec | chiro/import_chiro.py:28-47 | fails iff some node raises, with the first such node's error; otherwise exactly the nodes' rows, at most one per node |
| Chiro.ImportedSorted | chiro/import_chiro.py:52-53 | the written rows are the collected rows in sorted order, none lost or added |
| CurateChebiRelations.ChildRow | curate_chebi_relations.py:147-153 | a closure member is an `enzyme` when its db is ec-code, a `protein` otherwise, named by its id when it has no name |
| CurateChebiRelations.NodeCodes | curate_chebi_relations.py:102-134 | a hard-coded name designates its codes but leaves the modulation as it was; a regular `EC` name sets inhibitor/activator from its ending |
| CurateChebiRelations.ClassifyNode | curate_chebi_relations.py:99-134 | the branch chain with its padding loop computes `NodeCodes` |
| CurateChebiRelations.AppendLegacyCodeRows | curate_chebi_relations.py:139-153 | appends the bare `enzyme`/ec-code row, then one row per closure member |
| CurateChebiRelations.AppendLegacyCodesRows | curate_chebi_relations.py:139-153 | appends the rows of every code in order |
| CurateChebiRelations.GetEnzymeInhibitorDf | curate_chebi_relations.py:91-155 | the node walk computes `LegacyEnzymeRows`, with `modulation` unbound at the start |
| CurateChebiRelations.WalkNodes | curate_chebi_relations.py:95-153 | the node loop computes `LegacyEnzymeRows` |
| CurateChebiRelations.EnzymeStep | curate_chebi_relations.py:95-153 | one node: skipped; raises `UnboundLocalError` when its codes need a modulation never set; or appends its rows |
| CurateChebiRelations.RegularNamesSucceed | curate_chebi_relations.py:119-134 | without hard-coded names the walk succeeds and every row's modulation is inhibitor or activator, matching its name's ending |
| CurateChebiRelations.BareRowKept | curate_chebi_relations.py:139-145 | the bare row is kept even when the code has no closure |
| CurateChebiRelations.LegacyCodesRowsBare | curate_chebi_relations.py:139-140 | every code gets its bare row |
| CurateChebiRelations.LegacyCodesRowsSource | curate_chebi_relations.py:139-153 | every row carries the node's id, name and modulation |
| CurateChebiRelations.ChildRowsSource | curate_chebi_relations.py:147-153 | every child row is built from a closure member |
| CurateChebiRelations.ActivatorNode | curate_chebi_relations.py:119-134 | an `EC … activator` name sets modulation activator and designates one code |
| CurateChebiRelations.FirstIrregularNameRaises | curate_chebi_relations.py:102-116 | as written, a hard-coded name met before any regular one raises `UnboundLocalError` |
| CurateChebiRelations.StaleModulation | curate_chebi_relations.py:102-140 | as written, a hard-coded inhibitor name after an activator is labelled `activator` |
| CurateChebiRelations.CuratedIds | curate_chebi_relations.py:223-224 | exactly the chebi ids of the curated rows |
| CurateChebiRelations.LegacyPathwaySuggestions | curate_chebi_relations.py:158-174 | exactly the uncurated, unreclassified, non-blacklisted ids whose name ends `inhibitor` and does not start `EC `, each with its query |
| CurateChebiRelations.LegacyNodeRecords | curate_chebi_relations.py:233-239 | one six-field record per result (db lower-cased), or one seven-field placeholder iff `show_missing` |
| CurateChebiRelations.NodeRecordShape | curate_chebi_relations.py:237-239 | a hit has six fields and a placeholder seven; all begin with node, name, suffix |
| CurateChebiRelations.LegacySuggestXrefsRecords | curate_chebi_relations.py:209-239 | every record is about a listed, uncurated id whose name ends with the suffix, matched case-sensitively |
| CurateChebiRelations.LegacySuggestKeepsEveryHit | curate_chebi_relations.py:227-237 | every grounding hit of an eligible id is kept, the query itself included |
| CurateChebiRelations.SplitRelationship | curate_chebi_relations.py:282 | `r.split()` into exactly two words, else `ValueError` |
| CurateChebiRelations.HasRoles | curate_chebi_relations.py:280-285 | the `has_role` targets of a node, or `ValueError` iff some string is not two words |
| CurateChebiRelations.ChildTriplesSpec | curate_chebi_relations.py:277-286 | one triple per role of a child, carrying its name |
| CurateChebiRelations.ChildrenTriplesSpec | curate_chebi_relations.py:277-286 | the triples of a list of children are those of each child |
| CurateChebiRelations.IterateRolesSpec | curate_chebi_relations.py:275-286 | a triple is yielded iff its child has an edge (of any type) into a listed id and has that role |
| CurateChebiRelations.LegacyMembershipStricter | curate_chebi_relations.py:250-251 | this script's membership test is case-sensitive: a lower-case hgnc row is dropped that the current one keeps |
| CurateChebiRelations.BuildXrefs | curate_chebi_relations.py:260-265 | the loop builds `XrefsTable` |
| CurateChebiRelations.XrefsTableSpec | curate_chebi_relations.py:260-265 | an entry is listed for a ChEBI id iff one of its curated rows gives it |
| CurateChebiRelations.FplxExtended | curate_chebi_relations.py:263-265 | an fplx xref adds an hgnc protein entry per family member |
| CurateChebiRelations.JoinRolesSpec | curate_chebi_relations.py:267-271 | each (child, name, role) is joined with every xref of its role |
| CurateChebiRelations.LegacyRelationOrigin | curate_chebi_relations.py:242-272 | every relation row is a child of a curated id, named from the graph, that bears a curated role, with one of that role's xref entries |
| CurateChebiRelations.MainKeyInjective | curate_chebi_relations.py:318-319 | the seven sort columns determine the row |
| CurateChebiRelations.MainTable | curate_chebi_relations.py:313-319 | the concatenation, deduplicated, strictly sorted on (modulation, entity_type, chebi_id, chebi_name, db, db_id, db_name), holds exactly the rows of both frames |

## Left out

- HTTP calls (`post_gilda`, the FamPlex CSV downloads), `get_graph`'s download and pickle cache, and every file read or write. Grounding results, FamPlex rows, ontology graphs and tables are inputs.
- pyobo, protmapper, bioregistry, networkx and `get_ec2go` internals. Their lookups are parameters: maps, or functions such as `normalize` and `valid`.
- Python's `lower`, `upper` and `casefold` are modelled on ASCII letters only. `strip` and `split` use ASCII whitespace.
- Logging, `tqdm`, `click` wiring, `print` of worksheets and the JSON dumps of the suggestion functions. The model produces the printed rows as sequences.
- The summary tables, plots and README rewriting of `write_export` and of `curate_chebi_relations.py`'s `main` (lines 321-332). This includes that `main`'s slim table and its re-sort of the curated file (line 298). `rewrite_repo_readme` is left out for the same reason.
- `src/chemical_roles/export/build.py`, `bel.py`, the CLI modules and the Wikidata scripts. They are not part of this model.
- pybel graph construction. BEL export is modelled as the list of (source, relation, target) edges the adders would add.
- The typedef grouping pyobo performs when writing the OBO file.
- Chiro.ImportChiro: the file writing is left out. The header names eight columns (with `type`) while each row has seven fields. The model produces the seven-field rows.
- TargetExpansion.BearerRows, TargetExpansion.InferOverRoles, GenerateExport.GetRelationsDf: stated as sets of rows. The bearers come from a Python set whose iteration order is arbitrary, so the source promises no row order before the final sort. The legacy output is neither sorted nor deduplicated, so repeats are not counted there.
- ExpasyClosure.ListOf: the order of each closure list is that of a set and is not stated.
- ExpasyClosure.GetExpasyClosure: when two graph nodes share an identifier, the dict comprehension keeps the last one (src/chemical_roles/export/utils.py:177-181). The model picks one such node without saying which.
- TargetExpansion.Bearers: the source looks sub-roles up in a table keyed only by `chebi`, so a normalized sub-role with any other prefix would raise `KeyError`; the model takes every sub-role to be a ChEBI role, as ChEBI's own sub-hierarchy gives only ChEBI roles.
- CurationUtils.ReadXrefs: several `read_csv` details are not modelled. These are: the index column pandas infers when the first data line has one field more than the header; renaming of duplicate or empty header names; quoting; and lines holding only spaces. The NA strings are those of pandas 2, which reads `None` as missing where pandas 1 did not; the repository does not pin a pandas version. The records are not converted into rows. The other modules take rows in which every cell is present.
- Lint.ProteinPrMask, Lint.GoComplexMask, Lint.MolecularFunctionMask: `mappings` reads a column named `type` (src/chemical_roles/lint.py:41, 47, 59), and the model reads it as the row's target type. `XREFS_COLUMNS` names that column `target_type`. If the file's header follows it, `mappings` raises `KeyError: 'type'`, and the model does not show this.
- Lint.Mappings: the four reports are stated as the single-mapping relation, not as printed text. `_p`'s text is modelled separately by `Lint.ReportLines`.
- Order.SortBy: ties keep their input order (a stable sort). pandas' default sort does not promise this. No output depends on it except through rows that compare equal on the key.
- GenerateExport.BelEdges, GenerateExport.WriteBelExport, TargetExpansion.Lookups: chemical names are a total function and rows have no missing cell, so the `df.dropna()` before the BEL loop (generate_export.py:391) is a no-op in the model. A `None` name from `pyobo.get_name` in Stage B (src/chemical_roles/export/utils.py:124) and the row it would drop are not modelled.
- Names that pyobo returns as `None` are modelled as `Option`. `_iter_gilda` skips them, `_suggest_xrefs_curation` raises `AttributeError`, and `suggest_pathway_inhibitor_curation` raises `KeyError`. Graph lookups of the older script are total functions.

## Findings

| source | as written | input that shows it | evidently intended | confidence | as-written member | corrected member |
|---|---|---|---|---|---|---|
| curate_chebi_relations.py:102-116 | the four hard-coded EC names append codes but never set `modulation`, so the row takes the previous node's modulation, or raises `UnboundLocalError` when no earlier node set it | nodes `[("1", "EC 1.1.1.1 activator"), ("2", "EC 3.5.5.1 (nitrilase) inhhibitor")]` label node 2 `activator`; the second node alone raises | `modulation = "inhibitor"` in each branch, as the newer `propose_enzyme_modulators` does | high (not executed) | CurateChebiRelations.StaleModulation | CurateChebi.EcClassification |
| src/chemical_roles/curate/mesh.py:45-51 | the comprehension overwrites the entry for every matching suffix, so the last match wins | a MeSH name ending `antagonists` matches `antagonists` and then `agonists`, and is labelled `agonist` | the first match, as the ChEBI worksheet takes it, giving `antagonist` | high (not executed) | CurateMesh.AntagonistsLabelledAgonist | CurateMesh.IntendedAntagonistLabel |
| src/chemical_roles/curate/mesh.py:46 | `suffix.strip('s')` strips `s` at both ends | suffix `suppressor` gives the label `uppressor` | `rstrip('s')`, giving `suppressor` | high (not executed) | CurateMesh.SuppressorLabel | CurateMesh.IntendedSuppressorLabel |

The older `curate_mesh_relations.py:38` has the same `strip('s')` and last-match
behaviour. The worksheet functions (`CurateMesh.CurateMeshRows`,
`CurateMesh.LegacyMeshRows`) model the code as written.
`CurateMesh.IntendedCandidate` is the corrected selection. It keeps
exactly the same terms and labels each with the singular of its first
matching suffix.
