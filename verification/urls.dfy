/** URL values. Their structure (parsing, normalisation, equivalence) belongs to
    the toolkit's `Url` type, which is not part of this model: every operation on
    them comes in as a collaborator. */
module Urls {
  datatype Url = Url(text: string)
}

