/** The register table: one entry per device register, read in table order. */
module Catalog {
  import opened Wrappers

  /** One row of the table, with the keys of the source's dict. `slug` is absent until the
      metric setup writes it back into the row. */
  datatype Entry = Entry(
    register: nat,
    count: nat,
    dataType: string,
    rw: string,
    unit: string,
    shortName: string,
    description: string,
    slug: Option<string>)

  /** The datatypes published as a Gauge; every other name is published as an Info. */
  const NumericDatatypes: seq<string> := ["uint8", "uint16", "sint16", "uint32", "sint32", "fl32"]

  predicate IsNumeric(dataType: string)
  {
    dataType in NumericDatatypes
  }

  predicate IsWriteOnly(e: Entry)
  {
    e.rw == "w"
  }

  /** The configured slug library call; the model treats it as a given deterministic function. */
  type Slugify = string -> string

  /** The metric name of an entry: the slug of "empro_" followed by its short name. */
  function SlugOf(slugify: Slugify, e: Entry): string
  {
    slugify("empro_" + e.shortName)
  }

  /** The slug depends on the short name alone: rows with the same short name share a slug. */
  lemma SameShortNameSameSlug(slugify: Slugify, e1: Entry, e2: Entry)
    requires e1.shortName == e2.shortName
    ensures SlugOf(slugify, e1) == SlugOf(slugify, e2)
  {
  }

  /** The row with its slug written back: the slug is set and every other key is kept. */
  function WithSlug(slugify: Slugify, e: Entry): (r: Entry)
    ensures r.slug == Some(SlugOf(slugify, e))
    ensures r.(slug := e.slug) == e
  {
    e.(slug := Some(SlugOf(slugify, e)))
  }

  /** Every row carries a slug. */
  predicate Annotated(table: seq<Entry>)
  {
    forall i :: 0 <= i < |table| ==> table[i].slug.Some?
  }

  /** No two rows carry the same slug. */
  predicate SlugsDistinct(table: seq<Entry>)
  {
    forall i, j :: 0 <= i < j < |table| ==> table[i].slug != table[j].slug
  }
}
