/** The EPUB package document (OPF) parser: an already-parsed element tree in,
    a `PackageDocument` with manifest, spine and legacy guide out, or none when
    the document lacks one of its mandatory parts. */
module EpubPackage {
  import opened Wrappers
  import opened Urls
  import opened Collaborators
  import opened Xml
  import Seqs

  datatype ReadingProgression = RTL | LTR

  /** One manifest entry. Only constructed with a resolved `href`. */
  datatype Item = Item(
    href: Url,
    id: Option<string>,
    fallback: Option<string>,
    mediaOverlay: Option<string>,
    mediaType: Option<string>,
    properties: seq<string>)

  /** One spine entry. Only constructed with an `idref`. */
  datatype Itemref = Itemref(idref: string, linear: bool, properties: seq<string>)

  /** The reading order; `toc` is the legacy NCX reference, read before EPUB 3 only. */
  datatype Spine = Spine(itemrefs: seq<Itemref>, direction: Option<ReadingProgression>, toc: Option<string>)

  /** A publication link as built from a legacy guide `reference`. */
  datatype Link = Link(href: Url, title: Option<string>, rels: set<string>)

  datatype PackageDocument = PackageDocument(
    path: Url,
    epubVersion: real,
    uniqueIdentifierId: Option<string>,
    metadata: seq<MetadataItem>,
    manifest: seq<Item>,
    spine: Spine,
    guide: seq<Link>)

  /** The version assumed when `version` is absent or not a number. */
  const LegacyVersion: real := 1.2

  /** The first EPUB version without a spine `toc` attribute. */
  const Epub3: real := 3.0

  // ---------------------------------------------------------------------------
  // Package-level attributes

  /** The `prefix` declarations of the package element; none declared is an empty map. */
  function PackagePrefixes(env: Env, document: Element): PrefixMap {
    match GetAttr(document, "prefix")
    case Some(p) => env.parsePrefixes(p)
    case None => map[]
  }

  /** The reserved prefixes overlaid with the package's own declarations. */
  function EffectivePrefixes(env: Env, document: Element): (m: PrefixMap)
    ensures m.Keys == env.reservedPrefixes.Keys + PackagePrefixes(env, document).Keys
    ensures forall k :: k in PackagePrefixes(env, document) ==> m[k] == PackagePrefixes(env, document)[k]
    ensures forall k :: k in env.reservedPrefixes && k !in PackagePrefixes(env, document) ==>
              m[k] == env.reservedPrefixes[k]
  {
    env.reservedPrefixes + PackagePrefixes(env, document)
  }

  /** The `version` attribute as a number, 1.2 when it is absent or unparsable. */
  function EpubVersion(env: Env, document: Element): (v: real)
    ensures GetAttr(document, "version").None? ==> v == LegacyVersion
    ensures GetAttr(document, "version").Some? ==>
              v == env.toVersion(GetAttr(document, "version").value).GetOr(LegacyVersion)
  {
    match GetAttr(document, "version")
    case Some(s) => env.toVersion(s).GetOr(LegacyVersion)
    case None => LegacyVersion
  }

  // ---------------------------------------------------------------------------
  // Shared entry helpers

  /** The `href`, converted as an EPUB href and resolved against the package path;
      none when the attribute is missing or does not convert. */
  function ResolveHref(env: Env, filePath: Url, href: Option<string>): (r: Option<Url>)
    ensures r.Some? <==> href.Some? && env.fromEpubHref(href.value).Some?
    ensures r.Some? ==> r.value == env.resolve(filePath, env.fromEpubHref(href.value).value)
  {
    match href
    case None => None
    case Some(h) =>
      match env.fromEpubHref(h)
      case None => None
      case Some(u) => Some(env.resolve(filePath, u))
  }

  /** The tokens of a `properties` attribute (absent reads as ""), each resolved
      against the given default vocabulary: one term per token, in token order. */
  function ResolveProperties(env: Env, attr: Option<string>, prefixMap: PrefixMap, vocab: string): (r: seq<string>)
    ensures |r| == |env.parseProperties(attr.GetOr(""))|
    ensures forall i :: 0 <= i < |r| ==>
              r[i] == env.resolveProperty(env.parseProperties(attr.GetOr(""))[i], prefixMap, vocab)
  {
    Seqs.Map(t => env.resolveProperty(t, prefixMap, vocab), env.parseProperties(attr.GetOr("")))
  }

  // ---------------------------------------------------------------------------
  // Manifest

  /** `Item.parse`: none exactly when `href` is absent or does not convert; otherwise
      the attributes copied verbatim and the properties resolved with the item vocabulary. */
  function ParseItem(env: Env, element: Element, filePath: Url, prefixMap: PrefixMap): (r: Option<Item>)
    ensures r.None? <==> GetAttr(element, "href").None? || env.fromEpubHref(GetAttr(element, "href").value).None?
    ensures r.Some? ==>
              && r.value.href == env.resolve(filePath, env.fromEpubHref(GetAttr(element, "href").value).value)
              && r.value.id == GetAttr(element, "id")
              && r.value.fallback == GetAttr(element, "fallback")
              && r.value.mediaOverlay == GetAttr(element, "media-overlay")
              && r.value.mediaType == GetAttr(element, "media-type")
    ensures r.Some? ==>
              var tokens := env.parseProperties(GetAttr(element, "properties").GetOr(""));
              && |r.value.properties| == |tokens|
              && forall i :: 0 <= i < |tokens| ==>
                   r.value.properties[i] == env.resolveProperty(tokens[i], prefixMap, env.itemVocab)
  {
    match ResolveHref(env, filePath, GetAttr(element, "href"))
    case None => None
    case Some(href) =>
      Some(Item(
        href,
        Id(element),
        GetAttr(element, "fallback"),
        GetAttr(element, "media-overlay"),
        GetAttr(element, "media-type"),
        ResolveProperties(env, GetAttr(element, "properties"), prefixMap, env.itemVocab)))
  }

  function ItemParser(env: Env, filePath: Url, prefixMap: PrefixMap): Element -> Option<Item> {
    e => ParseItem(env, e, filePath, prefixMap)
  }

  /** The manifest: the `item` children that parse, in document order. */
  function ParseManifest(env: Env, manifest: Element, filePath: Url, prefixMap: PrefixMap): (r: seq<Item>)
    ensures |r| <= |Get(manifest, "item", OPF)|
    ensures forall it :: it in r ==> exists e :: e in Get(manifest, "item", OPF) && ParseItem(env, e, filePath, prefixMap) == Some(it)
  {
    Seqs.MapNotNull(ItemParser(env, filePath, prefixMap), Get(manifest, "item", OPF))
  }

  // ---------------------------------------------------------------------------
  // Spine

  /** `Itemref.parse`: none exactly when `idref` is absent; `linear` is false only for
      the exact value "no"; properties resolved with the itemref vocabulary. */
  function ParseItemref(env: Env, element: Element, prefixMap: PrefixMap): (r: Option<Itemref>)
    ensures r.None? <==> GetAttr(element, "idref").None?
    ensures r.Some? ==> Some(r.value.idref) == GetAttr(element, "idref")
    ensures r.Some? ==> (!r.value.linear <==> GetAttr(element, "linear") == Some("no"))
    ensures r.Some? ==>
              var tokens := env.parseProperties(GetAttr(element, "properties").GetOr(""));
              && |r.value.properties| == |tokens|
              && forall i :: 0 <= i < |tokens| ==>
                   r.value.properties[i] == env.resolveProperty(tokens[i], prefixMap, env.itemrefVocab)
  {
    match GetAttr(element, "idref")
    case None => None
    case Some(idref) =>
      var notLinear := GetAttr(element, "linear") == Some("no");
      Some(Itemref(idref, !notLinear, ResolveProperties(env, GetAttr(element, "properties"), prefixMap, env.itemrefVocab)))
  }

  function ItemrefParser(env: Env, prefixMap: PrefixMap): Element -> Option<Itemref> {
    e => ParseItemref(env, e, prefixMap)
  }

  /** `page-progression-direction`: "rtl" and "ltr" only; anything else, absent or
      "default" included, is unspecified. */
  function ParseDirection(attr: Option<string>): (d: Option<ReadingProgression>)
    ensures d == Some(RTL) <==> attr == Some("rtl")
    ensures d == Some(LTR) <==> attr == Some("ltr")
  {
    match attr
    case Some("rtl") => Some(RTL)
    case Some("ltr") => Some(LTR)
    case _ => None
  }

  /** `Spine.parse`: itemrefs in order, the direction, and the `toc` attribute read
      only when the version is below 3.0. */
  function ParseSpine(env: Env, element: Element, prefixMap: PrefixMap, epubVersion: real): (s: Spine)
    ensures |s.itemrefs| <= |Get(element, "itemref", OPF)|
    ensures s.direction == Some(RTL) <==> GetAttr(element, "page-progression-direction") == Some("rtl")
    ensures s.direction == Some(LTR) <==> GetAttr(element, "page-progression-direction") == Some("ltr")
    ensures s.toc.Some? <==> epubVersion < Epub3 && GetAttr(element, "toc").Some?
    ensures s.toc.Some? ==> s.toc == GetAttr(element, "toc")
  {
    var itemrefs := Seqs.MapNotNull(ItemrefParser(env, prefixMap), Get(element, "itemref", OPF));
    var direction := ParseDirection(GetAttr(element, "page-progression-direction"));
    var ncx := if epubVersion < Epub3 then GetAttr(element, "toc") else None;
    Spine(itemrefs, direction, ncx)
  }

  // ---------------------------------------------------------------------------
  // Guide (section 2.6 of OPF 2.0.1)

  /** The legacy guide types renamed to their EPUB 3 Structural Semantics terms. */
  const LegacyGuideTypes: map<string, string> :=
    map["title-page" := "titlepage", "text" := "bodymatter",
        "acknowledgements" := "acknowledgments", "notes" := "endnotes"]

  /** The guide `type` rewritten to its EPUB 3 name; other values pass unchanged. */
  function Epub3Type(legacy: string): (t: string)
    ensures legacy in LegacyGuideTypes ==> t == LegacyGuideTypes[legacy]
    ensures legacy !in LegacyGuideTypes ==> t == legacy
    ensures t !in LegacyGuideTypes
  {
    if legacy in LegacyGuideTypes then LegacyGuideTypes[legacy] else legacy
  }

  /** `mapToEPUB3Spec`: the rewritten type resolved with the TYPE vocabulary. */
  function MapToEpub3Spec(env: Env, legacy: string, prefixMap: PrefixMap): (r: string)
    ensures legacy in LegacyGuideTypes ==> r == env.resolveProperty(LegacyGuideTypes[legacy], prefixMap, env.typeVocab)
    ensures legacy !in LegacyGuideTypes ==> r == env.resolveProperty(legacy, prefixMap, env.typeVocab)
  {
    env.resolveProperty(Epub3Type(legacy), prefixMap, env.typeVocab)
  }

  /** One guide `reference`: none exactly when `href` is absent or does not convert;
      at most one relation, none exactly when `type` is absent. */
  function ParseReference(env: Env, node: Element, filePath: Url, prefixMap: PrefixMap): (r: Option<Link>)
    ensures r.None? <==> GetAttr(node, "href").None? || env.fromEpubHref(GetAttr(node, "href").value).None?
    ensures r.Some? ==>
              && r.value.href == env.resolve(filePath, env.fromEpubHref(GetAttr(node, "href").value).value)
              && r.value.title == GetAttr(node, "title")
              && |r.value.rels| <= 1
              && (r.value.rels == {} <==> GetAttr(node, "type").None?)
    ensures r.Some? && GetAttr(node, "type").Some? ==>
              r.value.rels == {env.resolveProperty(Epub3Type(GetAttr(node, "type").value), prefixMap, env.typeVocab)}
  {
    match ResolveHref(env, filePath, GetAttr(node, "href"))
    case None => None
    case Some(href) =>
      var rels := match GetAttr(node, "type")
        case Some(t) => {MapToEpub3Spec(env, t, prefixMap)}
        case None => {};
      Some(Link(href, GetAttr(node, "title"), rels))
  }

  function ReferenceParser(env: Env, filePath: Url, prefixMap: PrefixMap): Element -> Option<Link> {
    e => ParseReference(env, e, filePath, prefixMap)
  }

  /** `Guide.parse`: no guide element gives no links; otherwise the references that
      parse, in document order, each with at most one relation. */
  function ParseGuide(env: Env, element: Option<Element>, filePath: Url, prefixMap: PrefixMap): (r: seq<Link>)
    ensures element.None? ==> r == []
    ensures element.Some? ==> |r| <= |Get(element.value, "reference", OPF)|
    ensures forall l :: l in r ==> |l.rels| <= 1
  {
    match element
    case None => []
    case Some(e) => Seqs.MapNotNull(ReferenceParser(env, filePath, prefixMap), Get(e, "reference", OPF))
  }

  // ---------------------------------------------------------------------------
  // The package document

  /** `PackageDocument.parse`: none exactly when the metadata does not parse or the
      package has no `manifest` or no `spine` child in the OPF namespace; a missing
      `guide` is never fatal. */
  function Parse(env: Env, document: Element, filePath: Url): (r: Option<PackageDocument>)
    ensures r.Some? <==>
              && env.parseMetadata(EffectivePrefixes(env, document), document, filePath).Some?
              && (exists i :: 0 <= i < |document.children| && HasName(document.children[i], "manifest", OPF))
              && (exists i :: 0 <= i < |document.children| && HasName(document.children[i], "spine", OPF))
    ensures r.Some? ==>
              && r.value.path == filePath
              && r.value.epubVersion == EpubVersion(env, document)
              && r.value.uniqueIdentifierId == GetAttr(document, "unique-identifier")
              && Some(r.value.metadata) == env.parseMetadata(EffectivePrefixes(env, document), document, filePath)
    ensures r.Some? && r.value.spine.toc.Some? ==> r.value.epubVersion < Epub3
    ensures r.Some? && GetFirst(document, "guide", OPF).None? ==> r.value.guide == []
    ensures r.Some? ==>
              && r.value.manifest == ParseManifest(env, GetFirst(document, "manifest", OPF).value,
                                                   filePath, EffectivePrefixes(env, document))
              && r.value.spine == ParseSpine(env, GetFirst(document, "spine", OPF).value,
                                             EffectivePrefixes(env, document), EpubVersion(env, document))
              && r.value.guide == ParseGuide(env, GetFirst(document, "guide", OPF),
                                             filePath, EffectivePrefixes(env, document))
  {
    var prefixMap := EffectivePrefixes(env, document);
    var epubVersion := EpubVersion(env, document);
    match env.parseMetadata(prefixMap, document, filePath)
    case None => None
    case Some(metadata) =>
      match GetFirst(document, "manifest", OPF)
      case None => None
      case Some(manifestElement) =>
        match GetFirst(document, "spine", OPF)
        case None => None
        case Some(spineElement) =>
          var guideElement := GetFirst(document, "guide", OPF);
          Some(PackageDocument(
            filePath,
            epubVersion,
            GetAttr(document, "unique-identifier"),
            metadata,
            ParseManifest(env, manifestElement, filePath, prefixMap),
            ParseSpine(env, spineElement, prefixMap, epubVersion),
            ParseGuide(env, guideElement, filePath, prefixMap)))
  }
}
