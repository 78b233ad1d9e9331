/** Properties of the package-document parser that relate several of its parts. */
module EpubPackageProperties {
  import opened Wrappers
  import opened Urls
  import opened Collaborators
  import opened Xml
  import Seqs
  import opened EpubPackage

  /** The manifest is the order-preserving subsequence of the `item` children whose
      `href` is present and converts: every such item is kept, in document order,
      and nothing else. */
  lemma {:induction false} ManifestKeepsResolvableItems(env: Env, document: Element, filePath: Url)
    ensures Parse(env, document, filePath).Some? ==>
            var items := Get(GetFirst(document, "manifest", OPF).value, "item", OPF);
            var parser := ItemParser(env, filePath, EffectivePrefixes(env, document));
            Seqs.IsSelection(parser, items, Parse(env, document, filePath).value.manifest,
                             Seqs.KeptPositions(parser, items))
  {
    if Parse(env, document, filePath).Some? {
      var items := Get(GetFirst(document, "manifest", OPF).value, "item", OPF);
      Seqs.MapNotNullIsSelection(ItemParser(env, filePath, EffectivePrefixes(env, document)), items);
    }
  }

  /** An item that does not parse does not affect its siblings: removing it from
      the manifest element leaves the manifest unchanged. */
  lemma FailedItemDoesNotAffectSiblings(env: Env, manifest: Element, filePath: Url, prefixMap: PrefixMap,
                                        before: seq<Element>, item: Element, after: seq<Element>)
    requires manifest.children == before + [item] + after
    requires ParseItem(env, item, filePath, prefixMap).None?
    ensures ParseManifest(env, manifest, filePath, prefixMap) ==
            ParseManifest(env, manifest.(children := before + after), filePath, prefixMap)
  {
    var single := Named([item], "item", OPF);
    assert single == [] || single == [item];
    NamedAppend(before + [item], after, "item", OPF);
    NamedAppend(before, [item], "item", OPF);
    NamedAppend(before, after, "item", OPF);
    Seqs.MapNotNullDropFailures(ItemParser(env, filePath, prefixMap),
                                Named(before, "item", OPF), single, Named(after, "item", OPF));
  }

  /** The spine keeps, in document order, exactly the `itemref` children that carry an `idref`. */
  lemma {:induction false} SpineKeepsIdentifiedItemrefs(env: Env, element: Element, prefixMap: PrefixMap, epubVersion: real)
    ensures var refs := Get(element, "itemref", OPF);
            var parser := ItemrefParser(env, prefixMap);
            Seqs.IsSelection(parser, refs, ParseSpine(env, element, prefixMap, epubVersion).itemrefs,
                             Seqs.KeptPositions(parser, refs))
  {
    Seqs.MapNotNullIsSelection(ItemrefParser(env, prefixMap), Get(element, "itemref", OPF));
  }

  /** The guide keeps, in document order, exactly the `reference` children whose
      `href` is present and converts. */
  lemma {:induction false} GuideKeepsResolvableReferences(env: Env, element: Element, filePath: Url, prefixMap: PrefixMap)
    ensures var refs := Get(element, "reference", OPF);
            var parser := ReferenceParser(env, filePath, prefixMap);
            Seqs.IsSelection(parser, refs, ParseGuide(env, Some(element), filePath, prefixMap),
                             Seqs.KeptPositions(parser, refs))
  {
    Seqs.MapNotNullIsSelection(ReferenceParser(env, filePath, prefixMap), Get(element, "reference", OPF));
  }

  /** The version gate on the spine `toc`: it is the attribute below 3.0 and absent
      from 3.0 on; a package without `version` is read as 1.2, so its `toc` is read. */
  lemma {:induction false} TocGatedByVersion(env: Env, document: Element, filePath: Url)
    ensures Parse(env, document, filePath).Some? ==>
            var pkg := Parse(env, document, filePath).value;
            var spineElement := GetFirst(document, "spine", OPF).value;
            && pkg.spine.toc == (if pkg.epubVersion < Epub3 then GetAttr(spineElement, "toc") else None)
            && (GetAttr(document, "version").None? ==>
                  pkg.epubVersion == LegacyVersion && pkg.spine.toc == GetAttr(spineElement, "toc"))
  {
    if Parse(env, document, filePath).Some? {
      var spineElement := GetFirst(document, "spine", OPF).value;
      var pkg := Parse(env, document, filePath).value;
      assert pkg.spine == ParseSpine(env, spineElement, EffectivePrefixes(env, document), pkg.epubVersion);
    }
  }

  /** `toc="ncx1"` reads as "ncx1" at version 2.0 and as nothing at version 3.0. */
  lemma TocExample(env: Env, prefixMap: PrefixMap)
    ensures var spine := Element("spine", OPF, map["toc" := "ncx1"], []);
            && ParseSpine(env, spine, prefixMap, 2.0).toc == Some("ncx1")
            && ParseSpine(env, spine, prefixMap, 3.0).toc == None
  {
  }

  /** `linear` is compared exactly: only "no" makes an itemref non-linear. */
  lemma LinearExamples(env: Env, prefixMap: PrefixMap)
    ensures ParseItemref(env, Element("itemref", OPF, map["idref" := "c1", "linear" := "no"], []), prefixMap).value.linear == false
    ensures ParseItemref(env, Element("itemref", OPF, map["idref" := "c1", "linear" := "NO"], []), prefixMap).value.linear == true
    ensures ParseItemref(env, Element("itemref", OPF, map["idref" := "c1", "linear" := "false"], []), prefixMap).value.linear == true
    ensures ParseItemref(env, Element("itemref", OPF, map["idref" := "c1"], []), prefixMap).value.linear == true
    ensures ParseItemref(env, Element("itemref", OPF, map["linear" := "no"], []), prefixMap).None?
  {
  }

  /** Only "rtl" and "ltr" give a reading progression; "default" does not. */
  lemma DirectionExamples()
    ensures ParseDirection(Some("rtl")) == Some(RTL)
    ensures ParseDirection(Some("ltr")) == Some(LTR)
    ensures ParseDirection(Some("default")) == None
    ensures ParseDirection(Some("RTL")) == None
    ensures ParseDirection(None) == None
  {
  }

  /** Rewriting a guide type twice is rewriting it once: no EPUB 3 name is itself a legacy name. */
  lemma Epub3TypeIdempotent(legacy: string)
    ensures Epub3Type(Epub3Type(legacy)) == Epub3Type(legacy)
  {
  }

  /** `<reference type="text" href="c1.xhtml"/>` carries the `bodymatter` term of the TYPE vocabulary. */
  lemma GuideTextIsBodymatter(env: Env, filePath: Url, prefixMap: PrefixMap)
    requires env.fromEpubHref("c1.xhtml").Some?
    ensures var node := Element("reference", OPF, map["type" := "text", "href" := "c1.xhtml"], []);
            ParseReference(env, node, filePath, prefixMap) ==
              Some(Link(env.resolve(filePath, env.fromEpubHref("c1.xhtml").value), None,
                        {env.resolveProperty("bodymatter", prefixMap, env.typeVocab)}))
  {
  }

  /** Without a `prefix` attribute the effective prefixes are exactly the reserved ones. */
  lemma NoDeclaredPrefixes(env: Env, document: Element)
    requires GetAttr(document, "prefix").None?
    ensures EffectivePrefixes(env, document) == env.reservedPrefixes
  {
  }

  /** The `version` attribute gates only the spine `toc`: two packages that differ in
      nothing but their version have the same manifest, itemrefs, direction and guide. */
  lemma {:induction false} VersionGatesOnlyToc(env: Env, document: Element, filePath: Url, version: string)
    ensures Parse(env, document, filePath).Some? &&
            Parse(env, document.(attributes := document.attributes["version" := version]), filePath).Some? ==>
            var a := Parse(env, document, filePath).value;
            var b := Parse(env, document.(attributes := document.attributes["version" := version]), filePath).value;
            && a.manifest == b.manifest
            && a.spine.itemrefs == b.spine.itemrefs
            && a.spine.direction == b.spine.direction
            && a.guide == b.guide
  {
    var other := document.(attributes := document.attributes["version" := version]);
    assert GetAttr(other, "prefix") == GetAttr(document, "prefix");
    assert EffectivePrefixes(env, other) == EffectivePrefixes(env, document);
  }
}
