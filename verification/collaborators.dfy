/** The helpers the package-document parser calls but whose source is not part of
    this model. They are passed as one record, so every property proved below holds
    whatever these helpers do. */
module Collaborators {
  import opened Wrappers
  import opened Urls
  import Xml

  /** Vocabulary prefix -> vocabulary URI. */
  type PrefixMap = map<string, string>

  /** An entry of the package `metadata`; its parsing is the metadata parser's business. */
  datatype MetadataItem = MetadataItem(element: Xml.Element)

  datatype Env = Env(
    /** `Url.fromEpubHref`: decodes an EPUB href; none when it is not a valid reference. */
    fromEpubHref: string -> Option<Url>,
    /** `base.resolve(reference)`. */
    resolve: (Url, Url) -> Url,
    /** `parseProperties`: the tokens of a `properties` attribute. */
    parseProperties: string -> seq<string>,
    /** `parsePrefixes`: the declarations of a `prefix` attribute. */
    parsePrefixes: string -> PrefixMap,
    /** `resolveProperty(token, prefixMap, defaultVocabulary)`: total, one term per token. */
    resolveProperty: (string, PrefixMap, string) -> string,
    /** `MetadataParser(prefixMap).parse(document, filePath)`. */
    parseMetadata: (PrefixMap, Xml.Element, Url) -> Option<seq<MetadataItem>>,
    /** `String.toDoubleOrNull`, as an exact rational. */
    toVersion: string -> Option<real>,
    /** `PACKAGE_RESERVED_PREFIXES`. */
    reservedPrefixes: PrefixMap,
    /** `DEFAULT_VOCAB.ITEM`, `DEFAULT_VOCAB.ITEMREF`, `DEFAULT_VOCAB.TYPE`. */
    itemVocab: string,
    itemrefVocab: string,
    typeVocab: string)
}
