# Proofs about the repository's identities, diagrams and overlays

This project models the parts of the architecture repository that are hardest to get right by
reading, and proves what they promise, for every input:

* **Identity.** Entity ids `PREFIX@epoch.random[.slug]` and connection ids `{src}---{tgt}@@{type}`,
  whose separator is ambiguous because ids may hold hyphens; canonical keys; rewriting references
  after renames (`ArtifactIds.dfy`, `Renames.dfy`).
* **Candidate repositories.** The committed store under a stack of in-flight overlays, with the
  entities and connections extracted from changed diagrams. The main theorem is a refinement: no
  lookup and no listing, under any filter, tells a stack of overlays from the committed store in which
  its changes have been applied
  (`DiagramExtraction.dfy`, `CandidateRepositories.dfy`, `CandidateStacks.dfy`, `StackRefinement.dfy`).
  What is extracted is told apart from the extraction, record by record (`DiagramContents.dfy`).
* **PlantUML bodies.** Which alias a line declares, rewriting its colour, label lines and label without
  changing that, reading nesting and reading labelled groupings. Restyling is proved for every line,
  whatever its label lines say (`PumlQuotations.dfy`, `PumlDeclarations.dfy`, `PumlAliases.dfy`,
  `PumlRestyle.dfy`, `PumlLabelLines.dfy`), and for bodies under a lens (`PumlBodies.dfy`,
  `PumlLenses.dfy`), and what it writes is read back by a reader of its own (`PumlReadback.dfy`);
  relabelling for every name (`PumlLabels.dfy`); a spelled declaration is read as spelled
  (`PumlSpellings.dfy`). The two block readers are stack machines, proved against forests: every body,
  balanced or not, is the printing of a forest (`Blocks.dfy`), each reader returns what that forest
  says (`PumlNesting.dfy`, `PumlGroupings.dfy`), and a body drawn as boxes of lines is read as drawn
  (`PumlDrawings.dfy`). `PumlCounterexamples.dfy` holds the inputs that fail.
* **Concept scopes.** The meet of two scopes, and exactly when it is an intersection
  (`ConceptScopes.dfy`).
* **Search.** Reciprocal rank fusion and the chunking of text for embedding (`RankFusion.dfy`,
  `CorpusText.dfy`).
* **Moves and migrations.** Rewriting relative links after a move, and moving inline references of
  diagrams into bindings (`DocLinks.dfy`, `BindingMigration.dfy`).

`Text.dfy`, `Orders.dfy` and `Sequences.dfy` hold what these share: strings as Python treats them, the
order of strings, first occurrences, what a loop selects. Which characters beyond ASCII are blanks, digits or letters is
left unspecified, so every theorem holds whatever Unicode's tables say.

Where the code falls short of what its documentation says, the code is modelled as it is, a lemma
shows an input that fails, and another proves when the property holds, as an if and only if:

* A meet of scopes can admit a connection both operands refuse (`MeetCanAdmitMore`,
  `MeetIsConjunctionIff`), and is not associative on connections (`NonAssociativePairExists`,
  `ConnectionMeetIsAssociativeIff`).
* Fusion is independent of the order of its lists exactly when no two found candidates tie on score,
  kind and id (`TieExists`, `OrderFreeIffTieFree`); candidates of the declared record types never do.
* Rewriting a connection reference to current slugs keeps its identity exactly when the rewrite is
  safe (`DriftingPairExists`, `RewriteIsSoundIffSafe`); between two well-formed ids it always is.
* Label lines are an element's raw attribute values. A quotation mark in one ends the label, so that
  what follows is read as code: the label line `size: 19" as Z` makes `"" as Y` declare `Z`
  (`AliasCanChange`), and `size: 19" rack` is appended anew by every restyle (`LabelCanGrow`). The alias
  is kept exactly where it stands ahead of the label, or label and rest are read as the rest
  (`RestyleKeepsDeclarationIff`); a second restyle changes nothing exactly where no label line holds a
  mark, or no alias is left, or nothing is rewritten, given the next point (`RestyleIsIdempotentIff`).
  A line break in a label line cuts the declaration in two: under `note: a`, newline, `'b` the body
  declares nothing (`BodyCanFallSilent`, `BrokenLabelDeclares`). All three happen with a fill.
* Writing label lines without a fill can besides turn a line that opens nothing into one that opens a
  block (`BraceCanBeBared`), and can need a second pass (`TwoColoursNeedTwoPasses`); a fill prevents
  these two.
* A name given to an element is not read back when it holds the mark of an appended block, begins a
  line in guillemets, or brings a sprite of its own to a label that has none, as `<$x>Foo` does
  (`NameCanBeLost`, `SpriteCanBeLost`, `NameReadsBackIff`).
* A filtered listing of an overlay can show a stale record (`StaleListing`, `ExactIffClean`), and
  through that an entity that moves between diagrams of different types is lost when its old diagram
  is changed last (`MovedCanBeLost`, `MovedSurvivesIff`).
* Binding migration drops the reference of an item that has no id, whose id an item before it has
  taken, or whose binding id is taken by an existing binding or by the scope (`TakenIdLosesReference`,
  `ScopeLosesReference`, `ReferenceIsKeptIff`, `KeepsEveryReferenceIff`).

`dafny verify dfyconfig.toml` checks everything.

## Model

| member | source | states |
|---|---|---|
| `ArtifactIds.ParseIsTheGrammar` | src/domain/artifact_id.py:46-49 | the scanner accepts exactly the strings the id grammar derives and returns their parts |
| `ArtifactIds.IdStartReads` | src/domain/artifact_id.py:247-249 | a prefix, an `@` and a digit are taken for the start of an id wherever they stand |
| `ArtifactIds.IdStartSpells` | src/domain/artifact_id.py:247-249 | and nothing else is |
| `ArtifactIds.StableOfSpelling` | src/domain/artifact_id.py:76-118 | on well-formed ids the textual stable form and slug are the id's own stem and slug |
| `ArtifactIds.ShortIsInjective` | src/domain/artifact_id.py:181-192 | two ids with the same short form share prefix, epoch and key |
| `ArtifactIds.EntityKeyIdempotent` | src/domain/artifact_id.py:97-111 | the canonical entity key of a key is itself, on all strings |
| `ArtifactIds.EndpointSplit` | src/domain/artifact_id.py:252-277 | the scanning loop returns the first `---` an id start follows, failing that the first `---` |
| `ArtifactIds.SeparatorIsUnique` | src/domain/artifact_id.py:247-277 | in `{src}---{tgt}` of well-formed ids exactly one `---` is followed by an id start, whatever hyphens the ids hold |
| `ArtifactIds.AsWrittenRestores` | src/domain/artifact_id.py:280-298 | whatever is read from a string prints back as that string |
| `ArtifactIds.ConnectionRoundTrip` | src/domain/artifact_id.py:280-298 | printing and reading a connection are inverse for every two ids and non-empty type |
| `ArtifactIds.ConnectionIdsInjective` | src/domain/artifact_id.py:247-298 | equal connection ids have equal endpoints and types |
| `ArtifactIds.StableConnOfSpelling` | src/domain/artifact_id.py:217-227 | the stable form of a connection is the connection of its endpoints' stems |
| `ArtifactIds.EntityIsNotConnection` | src/domain/artifact_id.py:230-244 | a well-formed entity id is never taken for a connection |
| `ArtifactIds.ReferenceKeyIsStem` | src/domain/artifact_id.py:230-244 | the canonical key of a reference, however padded, is the spelling of its stem |
| `ArtifactIds.ReferenceKeysAgree` | src/domain/artifact_id.py:217-244 | two references share a key if and only if they agree on stems and type |
| `ArtifactIds.ReferenceKeyIsAFixpoint` | src/domain/artifact_id.py:230-244 | the key of a reference is its own key |
| `Renames.CanonicalIdsByStem` | src/domain/artifact_id.py:121-134 | the loop files every id under its stem and nothing else |
| `Renames.IndexOfWellFormedIds` | src/domain/artifact_id.py:121-134 | an index of well-formed ids files each under its own stem |
| `Renames.RespellingKeepsIdentity` | src/domain/artifact_id.py:137-164 | the current spelling of an endpoint has its stable form, and has no newer spelling |
| `Renames.BothEndsAreSpelledNow` | src/domain/artifact_id.py:362-379 | between well-formed ids the answer reads back with source and target each spelled as the index has them now, an id without a slug, of an unknown or of an ambiguous stem as it was, and there is none if and only if nothing changes |
| `Renames.SpelledNowExists` | src/domain/artifact_id.py:137-164 | every id has such a spelling |
| `Renames.RewriteIsSoundIffSafe` | src/domain/artifact_id.py:362-379 | for every readable reference and index, the rewrite keeps the stable connection id if and only if it is safe, and then a second rewrite says nothing |
| `Renames.RewriteOfIdsSettles` | src/domain/artifact_id.py:362-379 | between two well-formed ids the rewrite always keeps identity and is a fixpoint |
| `Renames.RewriteCanDrift` | src/domain/artifact_id.py:362-379 | over a placeholder target, a current slug holding three hyphens makes the rewrite lose identity |
| `Renames.DriftingPairExists` | src/domain/artifact_id.py:362-379 | a concrete renamed id for which that happens |
| `DiagramExtraction.ExtractDiagramEntities` | src/application/_diagram_entity_extraction.py:98-151 | the nested loops return the records of the items that carry a local id, in order |
| `DiagramExtraction.DiagramLocalToFull` | src/application/_diagram_entity_extraction.py:154-178 | the loops map each local id to the id of the last entity extracted under it |
| `DiagramExtraction.LocalIdsNameEntities` | src/application/_diagram_entity_extraction.py:154-178 | a local id resolves if and only if an entity is extracted under it, and then to such an entity |
| `DiagramExtraction.ExtractDiagramConnections` | src/application/_diagram_entity_extraction.py:210-244 | the loops return the records of the diagram's rows, then of connection-like items |
| `DiagramExtraction.ConnectionsEndAtEntities` | src/application/_diagram_entity_extraction.py:181-244 | every endpoint is an extracted entity's id, or marked unknown where no entity has that local id |
| `DiagramContents.EntitiesAreTheNodes` | src/application/_diagram_entity_extraction.py:98-151 | the entities are the items with a local id, one each and in order: under that id, their type, their diagram's version, status, type and id, and the first of label, text, name and local id |
| `DiagramContents.ConnectionsAreTheJoins` | src/application/_diagram_entity_extraction.py:181-244 | the connections are the complete rows, then the complete items without a local id, in order, each from the last entity drawn under its source to the last under its target, or unknown, with its type, version and status |
| `DiagramContents.EachRowIsConnected` | src/application/_diagram_entity_extraction.py:181-244 | for each complete row there is such a record |
| `DiagramContents.EachConnectionIsStated` | src/application/_diagram_entity_extraction.py:210-244 | and no record but of such a row or item |
| `DiagramExtraction.GroupRecordIs` | src/application/_diagram_entity_extraction.py:113-151 | every extracted record names its diagram as host, its type as domain, and its scoped or bare id |
| `DiagramExtraction.ScopedIsInjective` | src/application/_diagram_entity_extraction.py:129 | `{diagram}#{type}/{local}` determines its parts |
| `DiagramExtraction.ConnectionIdsAreApart` | src/application/_diagram_entity_extraction.py:196-198 | among diagrams that file nothing under `conn` no connection takes an entity's id |
| `DiagramExtraction.SharedIdsAreWorkspaceIds` | src/application/_diagram_entity_extraction.py:108-111 | two diagrams share an entity id only where both file it workspace-wide |
| `CandidateRepositories.ListEntities` | src/application/candidate_repository.py:144-162 | the listing holds each entity the layers show once, by ascending id |
| `CandidateRepositories.ListDiagrams` | src/application/candidate_repository.py:164-177 | the same for diagrams |
| `CandidateRepositories.ListingIsUnique` | src/application/candidate_repository.py:162 | there is one such listing of what a view holds: sorted, each id once |
| `CandidateRepositories.GetIffListed` | src/application/candidate_repository.py:127-162 | in any stack an id resolves to a record if and only if the unfiltered listing shows that record |
| `CandidateRepositories.GetDiagramIffListed` | src/application/candidate_repository.py:136-177 | the same for diagrams |
| `CandidateRepositories.FilteredShowsMatches` | src/application/candidate_repository.py:144-162 | in any stack a filtered listing shows every matching record of the view |
| `CandidateRepositories.FilteredIsVisible` | src/application/candidate_repository.py:144-162 | in any stack it shows only ids the view resolves, under matching records |
| `CandidateRepositories.FilteredShowsDiagrams` | src/application/candidate_repository.py:164-177 | in any stack a filtered diagram listing shows every matching diagram of the view |
| `CandidateRepositories.ListedAsAsked` | src/application/candidate_repository.py:144-162 | every record of a filtered listing has the type, domain and status asked for |
| `CandidateRepositories.AskedIsListed` | src/application/candidate_repository.py:144-162 | and every record in view that has them is listed |
| `CandidateRepositories.ListedDiagramAsAsked` | src/application/candidate_repository.py:164-177 | every diagram of a filtered listing has the type and status asked for |
| `CandidateRepositories.AskedDiagramIsListed` | src/application/candidate_repository.py:164-177 | and every diagram in view that has them is listed |
| `CandidateRepositories.ExactMeansFiltered` | src/application/candidate_repository.py:144-162 | where no listing is stale, a filtered listing equals the filter of the full one |
| `CandidateRepositories.ExactIffClean` | src/application/candidate_repository.py:151-162 | over an exact base, an overlay's filtered listings are exact if and only if every added id the base resolves is suppressed or keeps its type, domain and status |
| `CandidateRepositories.StaleListing` | src/application/candidate_repository.py:154-161 | an overlay over which a filtered listing shows a record the view no longer holds |
| `CandidateRepositories.ChildIds` | src/application/candidate_repository.py:183-189 | the ids the base lists under the diagram's type and host |
| `CandidateRepositories.CandidateWith` | src/application/candidate_repository.py:197-240 | the loops build the overlay that suppresses what is touched with its children and adds the changed diagrams with what they carry |
| `CandidateStacks.ExtractionIsFaithful` | src/application/_diagram_entity_extraction.py:98-151 | whatever the workspace types, extraction files records under their own ids with their own host and domain |
| `CandidateStacks.CandidateIsWellKeyed` | src/application/candidate_repository.py:233-240 | overlays file every record under its own id |
| `CandidateStacks.NoClashIff` | src/application/_diagram_entity_extraction.py:98-151 | changed diagrams whose ids leave room for the marks file nothing under one id if and only if they have distinct ids, share no workspace-wide id and name none of the diagrams so |
| `CandidateStacks.ExtractedIsAdded` | src/application/candidate_repository.py:227-237 | with no clash of ids every extracted entity ends up in the additions |
| `CandidateStacks.ConnectionIsAdded` | src/application/candidate_repository.py:227-237 | so does every extracted connection, unless a later diagram files one under its id |
| `CandidateStacks.LastIsFiled` | src/application/candidate_repository.py:234-235 | of several entities extracted under one id the last is kept |
| `CandidateStacks.LastConnectionIsFiled` | src/application/candidate_repository.py:236-237 | and so of connections |
| `CandidateStacks.StepKeepsHosts` | src/application/candidate_repository.py:197-240 | one step keeps every hosted entity's diagram in view, of the entity's domain, and keeps entity and diagram ids apart |
| `CandidateStacks.ChangedHostsItsExtraction` | src/application/candidate_repository.py:206-237 | the entities hosted by a changed diagram are exactly those extracted from it |
| `CandidateStacks.StackKeepsHosts` | src/application/candidate_repository.py:120-240 | over every stack, hosts are in view with the entity's domain as their type |
| `CandidateStacks.CandidateIsClean` | src/application/candidate_repository.py:222-237 | a step whose re-extracted ids belonged to changed or deleted diagrams is clean |
| `CandidateStacks.OwnIsClean` | src/application/candidate_repository.py:144-240 | over every stack of such steps each overlay is clean |
| `CandidateStacks.StackListsExactlyIff` | src/application/candidate_repository.py:144-240 | for every stack, filtered listings are exact at each level if and only if each overlay is clean |
| `CandidateStacks.StackListsDiagramsExactly` | src/application/candidate_repository.py:164-240 | over every stack at all, a filtered diagram listing shows exactly the matching diagrams of the view |
| `StackRefinement.SuppressedIffRemoved` | src/application/candidate_repository.py:222-231 | what a step suppresses of the entities in view is what applying the change removes: what is deleted and what the touched diagrams hosted |
| `StackRefinement.StepShows` | src/application/candidate_repository.py:197-240 | one overlay over a view of a store resolves every id as the store the change leads to |
| `StackRefinement.StepShowsIff` | src/application/candidate_repository.py:144-240 | one overlay over such a view answers every question, lookups and filtered listings, as that store if and only if it is clean |
| `StackRefinement.StackShows` | src/application/candidate_repository.py:120-240 | any stack of clean overlays answers every question, both lookups and both listings under every filter, as the committed store in which all its changes have been applied; each change has its own workspace types |
| `StackRefinement.StackShowsIff` | src/application/candidate_repository.py:120-240 | where ids are kept apart, every level of a stack does so if and only if every overlay is clean |
| `StackRefinement.AppliedIsSound` | src/application/candidate_repository.py:206-237 | that store has its hosts and uses its ids once again |
| `StackRefinement.ObservedListAlike` | src/application/candidate_repository.py:144-162 | views no question tells apart list the same entities in the same order |
| `StackRefinement.ObservedListDiagramsAlike` | src/application/candidate_repository.py:164-177 | and the same diagrams |
| `StackRefinement.StackHostsItsExtraction` | src/application/candidate_repository.py:206-237 | in every stack, whichever step changed a diagram last, the entities it hosts are exactly those extracted from it then, until one of them is deleted or extracted elsewhere |
| `StackRefinement.InTurnIsBoth` | src/application/candidate_repository.py:227-237 | applying two changes in turn is applying both at once |
| `StackRefinement.TwoStepsAreOne` | src/application/candidate_repository.py:197-240 | no question tells changing two diagrams one after the other from changing both at once, when neither takes an id another diagram holds |
| `StackRefinement.EitherOrder` | src/application/candidate_repository.py:197-240 | nor the two orders from each other |
| `StackRefinement.MovedSurvivesIff` | src/application/candidate_repository.py:154-189 | an entity that moves is there if its old diagram is changed first; changed last, it is there if and only if the two diagrams are of one type |
| `StackRefinement.MovedCanBeLost` | src/application/candidate_repository.py:154-189 | two diagrams of different types for which the moved entity is lost |
| `Blocks.EveryBodyIsAForest` | src/application/puml_relation_parsing.py:129-152 | any sequence of opening, plain and closing lines, less its stray closings and closed at the end, is the printing of a forest |
| `Blocks.ForestRoundTrip` | src/application/puml_relation_parsing.py:129-152 | a printed forest is read back as itself |
| `PumlAliases.AliasIgnoresTail` | src/application/puml_alias_declarations.py:35-71 | the alias search reads the same with or without a trailing colour and brace |
| `PumlQuotations.QuotationIff` | src/application/puml_alias_declarations.py:38 | a text has a quotation if and only if it has two quotation marks |
| `PumlQuotations.QuotationIs` | src/application/puml_alias_declarations.py:258-264 | the text between the first two marks is the quotation found, whatever stands behind |
| `PumlLabelLines.RestyledDeclaration` | src/application/puml_alias_declarations.py:211-275 | whatever the label lines say, the rewritten line declares what the line declared, and is left alone by a further call, exactly under conditions read off the line and the style |
| `PumlRestyle.RestyleKeepsDeclarationIff` | src/application/puml_alias_declarations.py:211-275 | for every line and all label lines, the declaration is kept if and only if nothing is rewritten, or the label lines leave the alias to be read as it was and no colour that stood behind a brace is dropped |
| `PumlRestyle.RewriteKeepsDeclarationIff` | src/application/puml_alias_declarations.py:211-275 | a rewritten line names the alias it named if and only if the alias stands ahead of the label or label and rest are read as the rest, and names none if and only if neither reading finds one |
| `PumlRestyle.RestyleKeepsDeclaration` | src/application/puml_alias_declarations.py:225-230 | with a fill and no quotation mark in a label line every line declares the same alias and opens the same block, or neither |
| `PumlRestyle.RestyleWithoutFillIff` | src/application/puml_alias_declarations.py:211-275 | with neither, the alias is kept, and the block is kept if and only if no colour stands behind a brace |
| `PumlRestyle.LabelSettles` | src/application/puml_alias_declarations.py:200-208 | restyling a label replaces what an earlier restyle appended |
| `PumlRestyle.RestyleIsIdempotent` | src/application/puml_alias_declarations.py:258-275 | restyling again with a style that supplies a fill and no quotation mark changes nothing |
| `PumlLabelLines.RewriteAddsQuotes` | src/application/puml_alias_declarations.py:258-264 | every rewrite adds the quotation marks of its label lines and takes none away |
| `PumlLabelLines.RestyleIsIdempotentIff` | src/application/puml_alias_declarations.py:211-275 | for every line and all label lines, a second restyle changes nothing if and only if nothing is rewritten, no alias is left, or no label line holds a quotation mark and the style supplies a fill or the line settles at once |
| `PumlLabelLines.SettlesIff` | src/application/puml_alias_declarations.py:246-275 | a line settles at once if and only if behind the colour dropped there is no second one, and a brace laid bare stands behind one blank and no colour |
| `PumlLabelLines.LeavesAloneIff` | src/application/puml_alias_declarations.py:211-275 | a restyle leaves a line alone if and only if it rewrites nothing or label and tail stand as the style writes them |
| `PumlReadback.ColoursReadBack` | src/application/puml_alias_declarations.py:266-275 | cut at its semicolons and colons, the colour a rewritten line closes with gives back the fill under `back`, the border under `line` and the ink under `text`, each exactly where the style has it |
| `PumlReadback.LabelLinesReadBack` | src/application/puml_alias_declarations.py:200-208 | the block a label ends in gives back the label lines in order, each between its tint tags, and ahead of it the label says what it said |
| `PumlReadback.LineShowsItsLabelLines` | src/application/puml_alias_declarations.py:256-264 | so does the label of a rewritten line, for label lines without quotation marks |
| `PumlReadback.RewriteKeepsTheText` | src/application/puml_alias_declarations.py:243-275 | a rewritten line keeps its margin and all text about its first label, but for blanks, a colour and a brace at its end |
| `PumlReadback.LensPaintsEachLine` | src/application/viewpoints/diagram_reading_lens.py:340-364 | under a lens each line of a body shows the colours of the style of its alias |
| `PumlReadback.LensSparesTheRest` | src/application/viewpoints/diagram_reading_lens.py:340-364 | and each line without a style stays as it was |
| `PumlSpellings.DeclarationReads` | src/application/puml_alias_declarations.py:35-71 | a labelled declaration is read under the alias it is spelled with, hyphens and all, whatever its label says and whatever follows, and as opening a block if and only if it ends in a brace |
| `PumlCounterexamples.AliasCanChange` | src/application/viewpoints/diagram_reading_lens.py:219-236 | with any fill, and whatever precedes its mark, the label line `a" as d` makes `"" as c` declare `d` |
| `PumlCounterexamples.LabelCanGrow` | src/application/viewpoints/diagram_reading_lens.py:219-236 | with any fill, and whatever stands about its mark, the label line `a"b` is appended anew by each pass over `"" as c` |
| `PumlCounterexamples.BodyCanFallSilent` | src/application/viewpoints/diagram_reading_lens.py:219-236 | with any fill, under the label line `a`, newline, `'b` the body `"" as c` declares nothing |
| `PumlCounterexamples.BraceCanBeBared` | src/application/puml_alias_declarations.py:238-275 | without a fill, `"" as c {` with a colour behind it opens a block it did not open |
| `PumlCounterexamples.TwoColoursNeedTwoPasses` | src/application/puml_alias_declarations.py:246-275 | without a fill, two colours behind `"" as c` need two passes |
| `PumlLabels.LabelSaysTheName` | src/application/puml_alias_declarations.py:118-125 | a label says the words of its name in order, one blank apart, quotation marks written as apostrophes |
| `PumlLabels.SpelledLabelIsRead` | src/application/puml_alias_declarations.py:112-145 | a label spelled with a sprite, a name, a line in guillemets and a block is read as those |
| `PumlLabels.PlainLabelIsRead` | src/application/puml_alias_declarations.py:128-145 | and one spelled as a name alone is that name |
| `PumlLabels.PartsReadBackIff` | src/application/puml_alias_declarations.py:128-145 | any name among such parts is read back with them if and only if it is readable there |
| `PumlLabels.RelabelKeepsDeclaration` | src/application/puml_alias_declarations.py:163-178 | whatever an element is called, its line declares the same alias and opens the same block |
| `PumlLabels.RelabelReadsBackIff` | src/application/puml_alias_declarations.py:128-178 | the new name, the sprite and the appended lines are all read back if and only if the name brings no sprite, holds no appended block and begins no closing line in guillemets |
| `PumlLabels.NameReadsBackIff` | src/application/puml_alias_declarations.py:148-178 | for every line and every name: a name that brings no sprite is read back if and only if the last two hold; one that does if and only if its sprite closes in the appended lines and they go on to spell it |
| `PumlLabels.SpriteNameIsLost` | src/application/puml_alias_declarations.py:112-145 | so on a label without a sprite a name that holds a whole one is always lost |
| `PumlCounterexamples.NameCanBeLost` | src/application/puml_alias_declarations.py:128-178 | the mark of an appended block is not read back as a name of `"" as c` |
| `PumlCounterexamples.SpriteCanBeLost` | src/application/puml_alias_declarations.py:112-145 | nor is `<$w>v` for any words |
| `PumlLabels.RelabelOverwrites` | src/application/puml_alias_declarations.py:163-178 | calling an element one readable name and then another is calling it the other |
| `PumlBodies.ApplyToLines` | src/application/viewpoints/diagram_reading_lens.py:340-364 | the loop over a body's lines rewrites each and keeps the closing newline or its absence |
| `PumlBodies.BreakEndsALine` | src/application/viewpoints/diagram_reading_lens.py:340-364 | every line break ends a line, a carriage return and its newline together |
| `PumlLenses.LensDeclaresLineByLine` | src/application/viewpoints/diagram_reading_lens.py:340-364 | a body under any lens declares what its restyled lines declare, one after the other, whatever marks and breaks the label lines hold |
| `PumlLenses.BrokenLabelDeclares` | src/application/puml_alias_declarations.py:200-275 | a newline in a label cuts a rewritten line in two, and the line declares what the two parts declare |
| `PumlLenses.LensKeepsDeclaredAliasesIff` | src/application/puml_alias_declarations.py:225-230 | under label lines without line breaks a body declares the same aliases in the same order if and only if each line keeps its alias, and the same declarations if and only if each line keeps its own |
| `PumlLenses.LensKeepsDeclaredAliases` | src/application/puml_alias_declarations.py:225-230 | with a fill in every style and no quotation mark the declarations are always kept |
| `PumlBodies.BodyFixedIff` | src/application/viewpoints/diagram_reading_lens.py:340-364 | a rewriting of lines leaves a body alone if and only if its breaks are newlines and each line is left alone, provided no line is made to end in a break |
| `PumlLenses.LensLeavesAloneIff` | src/application/viewpoints/diagram_reading_lens.py:340-364 | for all label lines and every body, a restyled one or any other: a lens leaves it alone if and only if its breaks are newlines and every line to be rewritten stands as its style writes it |
| `PumlLenses.LensIsIdempotentIff` | src/application/viewpoints/diagram_reading_lens.py:340-364 | under label lines without line breaks, applying a lens twice is applying it once if and only if it settles every line: by the line's own style, or, where a label line gives the line another alias, by that one's |
| `PumlLenses.LensIsIdempotent` | src/application/viewpoints/diagram_reading_lens.py:340-364 | with a fill in every style and no quotation mark it always is |
| `PumlNesting.DeclaredAliasIsNamed` | src/application/puml_alias_declarations.py:62-71 | no line declares the empty alias, which marks scopes that name nothing |
| `PumlNesting.NestedDeclarations` | src/application/puml_relation_parsing.py:129-152 | for every body the loop returns the preorder of its forest: each declaration with its enclosing path |
| `PumlNesting.ReadsForest` | src/application/puml_relation_parsing.py:129-152 | reading a printed forest finds its preorder and leaves the open scopes as they were |
| `PumlNesting.TogetherEveryAncestor` | src/application/puml_relation_parsing.py:116-126 | for one declaration the direct and indirect relations name every aliased ancestor once, in order |
| `PumlNesting.NestingIsStatedExactlyOnce` | src/application/puml_relation_parsing.py:75-152 | for every body the two readings together state each containment its forest draws exactly once, anonymous scopes being transparent |
| `PumlNesting.ContainmentIsImmediate` | src/application/puml_relation_parsing.py:75-96 | for every body the containment relations are the pairs of an aliased box and an alias standing immediately in it, in order |
| `PumlDrawings.FoundAsDrawn` | src/application/puml_relation_parsing.py:129-152 | a body drawn as lines, boxes between an opening and a closing line, with aliases or without, and any other lines in them, is found in drawn order, each declaration with the boxes about it; skipped lines change nothing |
| `PumlDrawings.ContainedAsDrawn` | src/application/puml_relation_parsing.py:75-152 | its containment relations are what stands immediately in a box, and with the indirect ones all that is drawn, each once |
| `PumlGroupings.GroupOpenReads` | src/application/puml_grouping_parsing.py:23-25 | every spelling the pattern allows is read with its own label and stereotype |
| `PumlGroupings.GroupOpenSpells` | src/application/puml_grouping_parsing.py:23-25 | only such spellings are read as opening a grouping |
| `PumlGroupings.CreditInnermost` | src/application/puml_grouping_parsing.py:54-70 | the search from the top of the stack credits the innermost grouping |
| `PumlGroupings.ParseLabeledGroupings` | src/application/puml_grouping_parsing.py:41-83 | for every body the loop returns the groupings its forest closes, in closing order, each with the declarations it is innermost around, first occurrences only |
| `PumlGroupings.ReadsForest` | src/application/puml_grouping_parsing.py:60-82 | reading a printed forest returns its groupings and credits the rest to the grouping around it |
| `PumlDrawings.GroupedAsDrawn` | src/application/puml_grouping_parsing.py:41-83 | a body drawn as lines has the groupings drawn, each under its label with the declarations it is innermost about |
| `PumlGroupings.NothingIsCreditedTwice` | src/application/puml_grouping_parsing.py:44-48 | each declaration of a forest is a member of one grouping or of none, counted with repeats |
| `PumlGroupings.EveryBodyCreditsOnce` | src/application/puml_grouping_parsing.py:60-82 | in every body the members credited, with repeats, are among its declarations |
| `PumlGroupings.ReturnedMembers` | src/application/puml_grouping_parsing.py:77-82 | a returned grouping lists each of its members once and nothing else |
| `ConceptScopes.IntersectHierarchyPredicates` | src/domain/concept_scope.py:164-176 | the loop over a dictionary and an order list computes the merge |
| `ConceptScopes.MergedAdmits` | src/domain/concept_scope.py:164-176 | the merged predicates admit what all the predicates admit |
| `ConceptScopes.CombineInLoops` | src/domain/concept_scope.py:188-194 | the nested loops build the combinations of rules that survive |
| `ConceptScopes.MeetAdmitsEntityType` | src/domain/concept_scope.py:79-149 | a meet admits an entity type if and only if both operands do, with any info or none |
| `ConceptScopes.EntityMeetIsALattice` | src/domain/concept_scope.py:79-149 | on entity types the meet is commutative, associative and idempotent in what it admits |
| `ConceptScopes.MeetAdmitsConnection` | src/domain/concept_scope.py:96-227 | exactly which connections a meet admits |
| `ConceptScopes.OneRuleAdmits` | src/domain/concept_scope.py:23-43 | a scope of one rule admits exactly its sources as sources and its targets as targets, on the connection type it names |
| `ConceptScopes.OneLevelAdmits` | src/domain/concept_scope.py:11-19 | a scope asking for or excluding one level of the hierarchy reads that level, from the top or the bottom |
| `ConceptScopes.OneClassAdmits` | src/domain/concept_scope.py:79-89 | a scope asking for classes admits what has one of them |
| `ConceptScopes.MeetIsConjunctionIff` | src/domain/concept_scope.py:96-227 | when the meet is the conjunction on a connection, as an if and only if |
| `ConceptScopes.ConnectionMeetCommutes` | src/domain/concept_scope.py:135-227 | on connections the meet is commutative |
| `ConceptScopes.MeetCanAdmitMore` | src/domain/concept_scope.py:179-209 | two scopes whose meet admits a connection each refuses |
| `ConceptScopes.ConnectionMeetIsAssociativeIff` | src/domain/concept_scope.py:96-227 | for any three scopes and any connection, when the two groupings of the meet agree, as an if and only if |
| `ConceptScopes.UnsilencedMeetIsAssociative` | src/domain/concept_scope.py:96-227 | where no meet falls silent about the type the meet is associative and is the conjunction |
| `ConceptScopes.NonAssociativePairExists` | src/domain/concept_scope.py:135-227 | scopes whose two groupings differ on a connection |
| `RankFusion.KeepFirstOccurrences` | src/domain/rank_fusion.py:77-85 | the loop keeps the first occurrences in order |
| `RankFusion.FuseRankedLists` | src/domain/rank_fusion.py:54-74 | the loops return the specified fusion, or refuse a `k` below 1 |
| `RankFusion.FuseIsComplete` | src/domain/rank_fusion.py:54-74 | the output is ordered and holds each candidate of the union exactly once, scored by the formula |
| `RankFusion.OutputIsOrdered` | src/domain/rank_fusion.py:71-95 | scores never rise; of two equal ones the type declared earlier comes first, declared types before others, and of one type the smaller id |
| `Orders.FirstDifferenceDecides` | src/domain/rank_fusion.py:88-95 | ids compare by the first character in which they differ |
| `RankFusion.OrderIsUnique` | src/domain/rank_fusion.py:88-95 | where the key separates, it allows one order |
| `RankFusion.FusionIsOrderFree` | src/domain/rank_fusion.py:54-95 | without ties, permuting the lists changes nothing |
| `RankFusion.RepeatsCountOnce` | src/domain/rank_fusion.py:59-85 | dropping repeats within lists changes nothing, ties or not |
| `RankFusion.TiesFollowTheOrder` | src/domain/rank_fusion.py:71-95 | of two tied candidates each can be brought first by reordering the lists |
| `RankFusion.OrderFreeIffTieFree` | src/domain/rank_fusion.py:54-95 | fusion ignores the order of the lists if and only if no two found candidates tie |
| `RankFusion.OrderDecidesTies` | src/domain/rank_fusion.py:71-95 | two candidates of undeclared types under one id, ranked oppositely by two lists, come out in the order of the list given first |
| `RankFusion.TieExists` | src/domain/rank_fusion.py:88-95 | two candidates that tie |
| `RankFusion.DeclaredTypesNeverTie` | src/domain/rank_fusion.py:88-95 | candidates of declared record types never tie |
| `RankFusion.BothBeatsOne` | src/domain/rank_fusion.py:63-95 | of two lists, a candidate ranked `k + 1` or better in both precedes every candidate found by one |
| `RankFusion.BothCanFollowOne` | src/domain/rank_fusion.py:63-95 | at rank `k + 2` in both lists a candidate follows a first place of one where the key prefers that |
| `RankFusion.BoundIsExact` | src/domain/rank_fusion.py:63-95 | so the bound is exact: for every `k` there are such lists |
| `RankFusion.PromotionNeverHurts` | src/domain/rank_fusion.py:63-95 | moving a candidate up in one list never worsens its place, for any `k` of at least 1 |
| `CorpusText.WordsAcross` | src/domain/corpus_text.py:45-68 | any blank parts the words ahead of it from those behind |
| `CorpusText.WordsOfToken` | src/domain/corpus_text.py:45-68 | and a text without blanks is one word |
| `CorpusText.WordsOfJoin` | src/domain/corpus_text.py:45-68 | joining words and splitting them again is the identity |
| `CorpusText.SaturatedStaysAhead` | src/domain/corpus_text.py:45-68 | a split in which no passage could take its successor's first word needs no more passages than any other that fits |
| `CorpusText.TextChunks` | src/domain/corpus_text.py:45-68 | the chunks' words are the text's words, each chunk fits or is one over-long word, and no such split has fewer |
| `DocLinks.RouteArrives` | src/application/repo_path_helpers.py:363-371 | the relative route leads from the directory to the target |
| `DocLinks.RelPathReadsBack` | src/application/repo_path_helpers.py:363-371 | the written route is read back component by component |
| `DocLinks.RelPathResolves` | src/application/repo_path_helpers.py:363-380 | a written route resolves lexically from its directory to exactly its target |
| `DocLinks.RewriteFollowsTheMove` | src/application/repo_path_helpers.py:334-373 | a link to the moved target resolves to the new target from the new directory; any other link is unchanged |
| `DocLinks.ThereAndBack` | src/application/repo_path_helpers.py:334-380 | moving there and back gives a link resolving to the original target |
| `DocLinks.RouteIsShortest` | src/application/repo_path_helpers.py:363-371 | no walk to the target takes fewer components |
| `DocLinks.RewriteIsShortest` | src/application/repo_path_helpers.py:334-380 | no relative link to the new target is shorter than the rewritten one |
| `BindingMigration.MigrateDiagramEntities` | tools/diagrams/migrate_diagrams_to_bindings.py:55-112 | the loops return the cleaned entries, the new bindings and their number |
| `BindingMigration.FreeScopeName` | tools/diagrams/migrate_diagrams_to_bindings.py:69-73 | the search ends, at the first free name in order |
| `BindingMigration.TakenBound` | tools/diagrams/migrate_diagrams_to_bindings.py:69-73 | among the first names one more than are taken, one is free |
| `BindingMigration.BindingsAreWellNamed` | tools/diagrams/migrate_diagrams_to_bindings.py:69-107 | minted ids differ from every existing one and from each other |
| `BindingMigration.NothingInlineIsLeft` | tools/diagrams/migrate_diagrams_to_bindings.py:66-111 | no scope key and no inline entity id remains |
| `BindingMigration.MigrationKeepsTheRest` | tools/diagrams/migrate_diagrams_to_bindings.py:66-111 | and nothing else goes: each other entry stands in its place under its key, plain values as they were, each list with its items in order, each item with all its other fields in order and under their values |
| `BindingMigration.PaddedItemIsBound` | tools/diagrams/migrate_diagrams_to_bindings.py:94-107 | an item, however padded its values, is bound under `bind-` and its id to the entity it names |
| `BindingMigration.ScopeAloneIsBound` | tools/diagrams/migrate_diagrams_to_bindings.py:66-83 | a scope, however padded, is bound under `bind-scope`, and one that is false is not bound |
| `BindingMigration.MigratedIsAFixpoint` | tools/diagrams/migrate_diagrams_to_bindings.py:55-112 | migrating migrated entries changes nothing and binds nothing |
| `BindingMigration.SecondRunAddsNothing` | tools/diagrams/migrate_diagrams_to_bindings.py:55-112 | a second run adds no binding |
| `BindingMigration.BindingsAreExplained` | tools/diagrams/migrate_diagrams_to_bindings.py:94-107 | every new correspondence is one an item stated |
| `BindingMigration.ReferencesSettle` | tools/diagrams/migrate_diagrams_to_bindings.py:94-107 | after migrating, the id each reference would be bound under is taken |
| `BindingMigration.UnscopedIff` | tools/diagrams/migrate_diagrams_to_bindings.py:66-83 | which id the scope takes can be told from the entries: the first name free of the existing bindings and of the references ahead of the scope |
| `BindingMigration.ReferenceIsKeptIff` | tools/diagrams/migrate_diagrams_to_bindings.py:55-112 | a single correspondence is kept if and only if its item has an id, no binding is named after it, the scope does not take that name, and it is the first to carry that id |
| `BindingMigration.KeepsEveryReferenceIff` | tools/diagrams/migrate_diagrams_to_bindings.py:55-112 | every correspondence is kept if and only if each comes from an item with its own id, whose binding id is free and is not the one the scope takes |
| `BindingMigration.OrdinaryIdsAreNotTaken` | tools/diagrams/migrate_diagrams_to_bindings.py:69-73 | the scope never takes the binding id of an item whose id does not begin with `scope` |
| `BindingMigration.TakenIdLosesReference` | tools/diagrams/migrate_diagrams_to_bindings.py:94-107 | the reference of an item whose binding id exists is lost |
| `BindingMigration.ScopeLosesReference` | tools/diagrams/migrate_diagrams_to_bindings.py:66-107 | so is that of an item `scope` behind the scope key, with no binding existing at all |
| `BindingMigration.ScopeIsKept` | tools/diagrams/migrate_diagrams_to_bindings.py:66-83 | a stated scope is always bound |

## Left out

- Files, git, subprocesses, HTTP and MCP, caches, settings: input and output, with no property of this kind.
- The committed store behind `CandidateRepositories`: taken as records by id whose own listings are sorted and filtered exactly; how the SQLite index keeps that is not modelled.
- `scope_for_path` of candidate repositories, which only delegates.
- Fields of records no lookup, filter or theorem reads (paths, keywords, display text, extra fields) are not carried.
- YAML values are taken as the text `str` gives them, with missing and falsy values as the empty text; distinctions YAML makes below that are not modelled.
- A diagram without a `diagram-entities` dictionary or a `connections` list is one with none of either.
- RankFusion.FuseRankedLists: scores are exact reals, so rounding of floating point sums is not modelled.
- ConceptScopes.MeetAdmitsEntityType: a hierarchy index below the negative length, on which the code raises, is treated as not admitted.
- DocLinks.RewriteFollowsTheMove: paths beginning with exactly two slashes, and the branches for `OSError` and `ValueError`, are not modelled.
- PumlRestyle.RestyleKeepsDeclarationIff: requires colours of colour characters; what reaches the rewrite is a checked `#rrggbb` literal or a colour from a fixed table. Label lines are any text.
- PumlLenses.LensKeepsDeclaredAliasesIff: requires that label lines hold no line break, since two lines could otherwise make up for one another; `LensDeclaresLineByLine` says what is declared with breaks.
- PumlLenses.LensIsIdempotentIff: requires that label lines hold no line break; `LensLeavesAloneIff` decides idempotence with breaks, asked of the restyled body.
- CandidateStacks.StackKeepsHosts: requires that changed diagrams have distinct ids and that entity, connection and diagram ids do not coincide, since additions are one map over all three; `NoClashIff` says when changed diagrams keep that up among themselves.
- BindingMigration.KeepsEveryReferenceIff: requires that no key is listed twice, which a dictionary ensures.
- PumlReadback.ColoursReadBack: colours without `;` and `:`, which the reader cuts at; the colours that reach the rewrite are six hexadecimal digits.
- PumlReadback.LabelLinesReadBack: label lines without a written line break, which the reader cuts at.
- Renames.BothEndsAreSpelledNow: between well-formed ids; for any other reference `RewriteIsSoundIffSafe` says when it is sound.
- `parse_connection_reference` and `full_ids_with_stem`: the first adds an arrow spelling to the reading proved here, the second a search pattern.
- The three arrow patterns of `declared_relations` and macro-call aliases: no structural specification to prove them against.
- `diagram_bound_entity_ids`, `diagram_member_text` and the content text of entities: text for the search index.
- Mutation policies, baselines, release age and exceptions: finite tables.
- Existence checks, symbolic links and the remaining path helpers.
