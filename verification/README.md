# Readium EPUB package parsing and media-overlay lookup, in Dafny

This project models two pure, sequential parts of the Readium Kotlin toolkit and proves
properties of them.

- **The EPUB package document (OPF) parser** (`PackageDocument.parse` and its helpers
  `Item.parse`, `Spine.parse`, `Itemref.parse`, `Guide.parse` / `mapToEPUB3Spec`). It takes
  an already-parsed XML element tree and builds a `PackageDocument`: manifest items, the
  spine with its itemrefs, reading direction and legacy `toc`, and the legacy guide
  (section 2.6 of OPF 2.0.1) with its types renamed to EPUB 3 Structural Semantics terms.
  It returns none when the metadata does not parse or when `manifest` or `spine` is
  missing. Entries without a usable `href` or `idref` are dropped one by one.
- **Media-overlay node lookup** (`MediaOverlays.clip`, `findNode`, `findNextNode`,
  `getFirstNonSectionChild`). These are recursive searches over an immutable tree of
  SMIL-derived nodes. Nodes whose role contains "section" only group other nodes.

Files:

- `wrappers.dfy`: `Option`.
- `seqs.dfy`: Kotlin's `map` and `mapNotNull`. `IsSelection` states what it means to be the
  order-preserving subsequence of the successful results, and a lemma proves that
  `mapNotNull` produces exactly that.
- `xml.dfy`: the element tree (`ElementNode`): `getAttr`, `get`, `getFirst`.
- `urls.dfy`: `Url`, an opaque stand-in for the toolkit's URL type.
- `collaborators.dfy`: the helpers the parser calls whose source is not part of
  this model, gathered in one `Env` record that every parsing function takes as a parameter.
- `package_document.dfy`, `package_document_properties.dfy`: the OPF parser and its properties.
- `media_overlays.dfy`, `media_overlays_properties.dfy`: the lookups, and their relation to
  the *playable frontier* of the tree. The frontier is the document-order list you get by
  replacing every section with the frontier of its children.

Three points where the code says more than its comments or names suggest; the model
follows the code:

- Each property token yields exactly one resolved term. Both call sites
  (`PackageDocument.kt:70` and `:163-164`) use `map`, not `mapNotNull`, and `resolveProperty`
  returns a string for every token, so no token is ever dropped.
- `findNode` returns from inside its loop at the first section it meets
  (`MediaOverlays.kt:28-29`), with whatever the search in that section gives, even nothing.
  `findNextNode`, by contrast, carries on to the next sibling after a section
  (`MediaOverlays.kt:55-58`). `FindNodeIsFirstFrontierMatch` shows that any node `findNode`
  returns is the first match of the frontier, and `FindNodeFindsLeadingMatch` that a match
  before any section is always found. `FindNodeMissesMatchAfterSection` shows that the
  converse fails in general: a match after a section with no match in it is not found.
- The comment on `Guide.parse` (`PackageDocument.kt:117`) says that EPUB 3.0 and later do
  not support the guide element, but `PackageDocument.parse` calls `Guide.parse` whatever
  the version (`PackageDocument.kt:39` and `:49`). `VersionGatesOnlyToc` shows that the
  version changes nothing but the spine `toc`; the guide is the same for every version.

## Model

| member | source | states |
|---|---|---|
| `EpubPackage.EffectivePrefixes` | readium/streamer/src/main/java/org/readium/r2/streamer/parser/epub/PackageDocument.kt:30-31 | The keys are the reserved keys plus the declared keys. A declared prefix wins on a shared key. A reserved-only key keeps its reserved URI. |
| `EpubPackageProperties.NoDeclaredPrefixes` | readium/streamer/src/main/java/org/readium/r2/streamer/parser/epub/PackageDocument.kt:30-31 | Without a `prefix` attribute, the effective prefixes are exactly the reserved ones. |
| `EpubPackage.EpubVersion` | readium/streamer/src/main/java/org/readium/r2/streamer/parser/epub/PackageDocument.kt:32 | The version is 1.2 when `version` is absent or does not parse as a number. Otherwise it is the parsed number. |
| `EpubPackage.Parse` | readium/streamer/src/main/java/org/readium/r2/streamer/parser/epub/PackageDocument.kt:29-51 | Some exactly when the metadata parses and the package has a `manifest` child and a `spine` child in the OPF namespace. A missing guide gives an empty guide. A `toc` is only present below version 3.0. Path, version, unique identifier and metadata are passed through. The manifest, spine and guide are those parsed from the first `manifest`, `spine` and `guide` children, with the effective prefixes and the package version. |
| `EpubPackageProperties.VersionGatesOnlyToc` | readium/streamer/src/main/java/org/readium/r2/streamer/parser/epub/PackageDocument.kt:41-50 | Two packages that differ only in `version` have the same manifest, itemrefs, direction and guide. |
| `EpubPackage.ResolveHref` | readium/streamer/src/main/java/org/readium/r2/streamer/parser/epub/PackageDocument.kt:65-68 | An href resolves exactly when it is present and converts as an EPUB href. The result is that URL resolved against the package path. |
| `EpubPackage.ResolveProperties` | readium/streamer/src/main/java/org/readium/r2/streamer/parser/epub/PackageDocument.kt:69-76 | An absent `properties` reads as "". There is one resolved term per token, in token order, each resolved with the given vocabulary. |
| `EpubPackage.ParseItem` | readium/streamer/src/main/java/org/readium/r2/streamer/parser/epub/PackageDocument.kt:64-85 | None exactly when `href` is absent or does not convert. Otherwise `id`, `fallback`, `media-overlay` and `media-type` are copied verbatim, and the properties match the tokens one to one under the ITEM vocabulary. |
| `EpubPackage.ParseManifest` | readium/streamer/src/main/java/org/readium/r2/streamer/parser/epub/PackageDocument.kt:46-47 | Every manifest entry comes from an OPF `item` child that parses to it. There are no more entries than items. |
| `EpubPackageProperties.ManifestKeepsResolvableItems` | readium/streamer/src/main/java/org/readium/r2/streamer/parser/epub/PackageDocument.kt:46-47 | The manifest is the order-preserving subsequence of the parsed `item` children. Every item that parses is kept, in document order, and nothing else. |
| `EpubPackageProperties.FailedItemDoesNotAffectSiblings` | readium/streamer/src/main/java/org/readium/r2/streamer/parser/epub/PackageDocument.kt:46-47 | Removing a child that does not parse leaves the manifest unchanged. |
| `EpubPackage.ParseItemref` | readium/streamer/src/main/java/org/readium/r2/streamer/parser/epub/PackageDocument.kt:159-166 | None exactly when `idref` is absent. `linear` is false exactly when the attribute is the exact string "no". The properties match the tokens one to one under the ITEMREF vocabulary. |
| `EpubPackageProperties.LinearExamples` | readium/streamer/src/main/java/org/readium/r2/streamer/parser/epub/PackageDocument.kt:160-161 | "no" gives non-linear. "NO", "false" and absent give linear. A missing `idref` drops the itemref. |
| `EpubPackage.ParseDirection` | readium/streamer/src/main/java/org/readium/r2/streamer/parser/epub/PackageDocument.kt:102-106 | RTL exactly for "rtl" and LTR exactly for "ltr". Every other value gives none. |
| `EpubPackageProperties.DirectionExamples` | readium/streamer/src/main/java/org/readium/r2/streamer/parser/epub/PackageDocument.kt:102-106 | "default", "RTL" and absent give no direction. |
| `EpubPackage.ParseSpine` | readium/streamer/src/main/java/org/readium/r2/streamer/parser/epub/PackageDocument.kt:95-109 | The direction follows `page-progression-direction`. `toc` is present exactly when the version is below 3.0 and the attribute is present, and then it equals the attribute. |
| `EpubPackageProperties.SpineKeepsIdentifiedItemrefs` | readium/streamer/src/main/java/org/readium/r2/streamer/parser/epub/PackageDocument.kt:96-101 | The itemrefs are the order-preserving subsequence of the parsed `itemref` children that carry an `idref`. |
| `EpubPackageProperties.TocGatedByVersion` | readium/streamer/src/main/java/org/readium/r2/streamer/parser/epub/PackageDocument.kt:32-48 | In a parsed package, `toc` is the spine attribute below 3.0 and none from 3.0 on. A package without `version` reads as 1.2 and keeps its `toc`. |
| `EpubPackageProperties.TocExample` | readium/streamer/src/main/java/org/readium/r2/streamer/parser/epub/PackageDocument.kt:107 | `toc="ncx1"` gives "ncx1" at 2.0 and none at 3.0. |
| `EpubPackage.Epub3Type` | readium/streamer/src/main/java/org/readium/r2/streamer/parser/epub/PackageDocument.kt:140-146 | The four legacy types are renamed as the table says. Every other value passes unchanged. No result is a legacy name. |
| `EpubPackageProperties.Epub3TypeIdempotent` | readium/streamer/src/main/java/org/readium/r2/streamer/parser/epub/PackageDocument.kt:140-146 | Renaming twice is renaming once. |
| `EpubPackage.MapToEpub3Spec` | readium/streamer/src/main/java/org/readium/r2/streamer/parser/epub/PackageDocument.kt:139-149 | A legacy type is resolved under its EPUB 3 name, any other type as written, both with the TYPE vocabulary. |
| `EpubPackage.ParseReference` | readium/streamer/src/main/java/org/readium/r2/streamer/parser/epub/PackageDocument.kt:122-136 | None exactly when `href` is absent or does not convert. `title` is copied. There is at most one relation, and none exactly when `type` is absent. Otherwise the relation is the renamed type resolved with the TYPE vocabulary. |
| `EpubPackageProperties.GuideTextIsBodymatter` | readium/streamer/src/main/java/org/readium/r2/streamer/parser/epub/PackageDocument.kt:139-148 | `type="text"` yields the `bodymatter` term of the TYPE vocabulary. |
| `EpubPackage.ParseGuide` | readium/streamer/src/main/java/org/readium/r2/streamer/parser/epub/PackageDocument.kt:119-137 | No guide element gives no links. There are no more links than references. Every link has at most one relation. |
| `EpubPackageProperties.GuideKeepsResolvableReferences` | readium/streamer/src/main/java/org/readium/r2/streamer/parser/epub/PackageDocument.kt:122-136 | The links are the order-preserving subsequence of the parsed `reference` children with a usable `href`. |
| `MediaOverlays.FindNode` | readium/shared/src/main/java/org/readium/r2/shared/MediaOverlays.kt:26-35 | A result is never a section. It matches the reference, or the reference is null. It lies in the playable frontier of the list. Completeness is stated by `FindNodeFindsLeadingMatch` and `FindNodeNoSectionNoMatch`. |
| `MediaOverlaysProperties.FindNodeIsFirstFrontierMatch` | readium/shared/src/main/java/org/readium/r2/shared/MediaOverlays.kt:26-35 | Any node found is the first matching node of the frontier in document order. |
| `MediaOverlaysProperties.FindNodeStopsAtFirstSection` | readium/shared/src/main/java/org/readium/r2/shared/MediaOverlays.kt:28-29 | At the first section before any match, the result is the search in its children, even when that finds nothing. Later siblings never change it. |
| `MediaOverlaysProperties.FindNodeMissesMatchAfterSection` | readium/shared/src/main/java/org/readium/r2/shared/MediaOverlays.kt:27-34 | A match that follows a section with no match in it is not found, although it is the first match of the frontier. |
| `MediaOverlaysProperties.FindNodeFindsLeadingMatch` | readium/shared/src/main/java/org/readium/r2/shared/MediaOverlays.kt:27-31 | A matching non-section node preceded only by non-matching non-section nodes is the result. |
| `MediaOverlaysProperties.FindNodeNoSectionNoMatch` | readium/shared/src/main/java/org/readium/r2/shared/MediaOverlays.kt:27-34 | A list without sections and without a matching node gives null. |
| `MediaOverlaysProperties.FindNodeWildcard` | readium/shared/src/main/java/org/readium/r2/shared/MediaOverlays.kt:27-34 | With a null reference, a list whose first node is not a section gives that node. An empty list gives null. |
| `MediaOverlays.NodeForFragment` | readium/shared/src/main/java/org/readium/r2/shared/MediaOverlays.kt:23 | A result is a non-section frontier node that matches the reference. The lookup is `findNode` on the top-level nodes, so the `FindNode` lemmas describe it. |
| `MediaOverlays.ClipFor` | readium/shared/src/main/java/org/readium/r2/shared/MediaOverlays.kt:18-21 | Null exactly when no node is found. Otherwise it is the clip of a frontier node equivalent to the reference. |
| `MediaOverlaysProperties.ClipOfFirstMatch` | readium/shared/src/main/java/org/readium/r2/shared/MediaOverlays.kt:18-21 | A clip, when there is one, is that of the first matching node of the frontier. |
| `MediaOverlays.FirstNonSection` | readium/shared/src/main/java/org/readium/r2/shared/MediaOverlays.kt:71-78 | For a list of children, the result is the first node of their frontier. It is null exactly when that frontier is empty. |
| `MediaOverlays.FirstNonSectionChild` | readium/shared/src/main/java/org/readium/r2/shared/MediaOverlays.kt:70-79 | The result is the first non-section descendant reached through sections, and never a section. It is null exactly when there is none. |
| `MediaOverlaysProperties.FirstNonSectionChildSpec` | readium/shared/src/main/java/org/readium/r2/shared/MediaOverlays.kt:70-79 | Null exactly when every descendant reached through sections is a section. All-section chains are skipped. |
| `MediaOverlays.FindNextFrom` | readium/shared/src/main/java/org/readium/r2/shared/MediaOverlays.kt:42-68 | When something is found, `prevFound` is false, and the found node is a non-section frontier node. A scope with an empty frontier hands the flag back unchanged. |
| `MediaOverlays.FindNextNode` | readium/shared/src/main/java/org/readium/r2/shared/MediaOverlays.kt:42-68 | When something is found, `prevFound` is false and the node is a non-section frontier node. An all-section scope gives `(null, false)`. |
| `MediaOverlaysProperties.FindNextFromIsFrontierSearch` | readium/shared/src/main/java/org/readium/r2/shared/MediaOverlays.kt:42-68 | For either starting flag, the result, flag included, equals the successor search on the flat frontier. Sections are crossed as if absent. |
| `MediaOverlaysProperties.FindNextNodeAfterMatch` | readium/shared/src/main/java/org/readium/r2/shared/MediaOverlays.kt:45-67 | After the first match at frontier position j comes position j+1. A match in last position gives `(null, true)`, so the enclosing scope continues. |
| `MediaOverlaysProperties.FindNextNodeWithoutMatch` | readium/shared/src/main/java/org/readium/r2/shared/MediaOverlays.kt:55-67 | No match anywhere gives `(null, false)`. |
| `MediaOverlaysProperties.SuccessorEntersSection` | readium/shared/src/main/java/org/readium/r2/shared/MediaOverlays.kt:46-52 | `[A, B(section [C, D])]` queried at A gives C, not B. |
| `MediaOverlays.NodeAfterFragment` | readium/shared/src/main/java/org/readium/r2/shared/MediaOverlays.kt:39 | A node returned is a non-section frontier node. |

## Left out

- Helpers whose source is not part of this model are parameters (fields of `Collaborators.Env`), so every result holds whatever they do:
  - `Url.fromEpubHref`, `Url.resolve` and `isEquivalent`.
  - `parseProperties`, `parsePrefixes` and `resolveProperty`.
  - `MetadataParser`.
  - `PACKAGE_RESERVED_PREFIXES` and `DEFAULT_VOCAB.*`.
- `toDoubleOrNull` is a parameter giving an exact rational. Floating-point parsing and rounding are not modelled; only the `< 3.0` comparison is.
- `ElementNode` is not part of this model. Elements are modelled with one attribute map, without attribute namespaces. `ElementNode.id` is taken to read the `id` attribute.
- `Namespaces.OPF` is not part of this model. Its value is the OPF 2.0.1 namespace URI.
- `MediaOverlayNode` and `Clip` are not part of this model. A node carries its clip as a stored value, and how a clip is derived from the SMIL audio element is not modelled.
- `Link` keeps only the fields the guide sets: href, title and rels.
- The navigation-document parser is not part of this model; only its test is available, not its source.
- Serialization (`Serializable`) and API-visibility annotations carry no behaviour and are not modelled.
