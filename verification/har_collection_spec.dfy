/** The examples of `Readme::HarCollection`, stated over the model. */
module HarCollectionExamples {
  import opened RubyHash
  import opened HarCollections

  /** A Ruby symbol such as `:keep`. */
  datatype Symbol = Symbol(name: string)

  /** The example's hash `{keep: "keep", reject: "reject"}`. */
  function ExampleHash(): Hash<Symbol, string> {
    [Entry(Symbol("keep"), "keep"), Entry(Symbol("reject"), "reject")]
  }

  /** The example's filter double, answering `{keep: "kept"}` whatever it is given. */
  function ExampleFilter(h: Hash<Symbol, string>): Hash<Symbol, string> {
    [Entry(Symbol("keep"), "kept")]
  }

  /** "#to_h returns a hash with filtering applied". */
  lemma ToHAppliesFilter()
    ensures ToH(HarCollection(ExampleFilter, ExampleHash())) == [Entry(Symbol("keep"), "kept")]
  {
  }

  /** "#to_a returns an array with filtering applied": the symbol key is the name, unchanged. */
  lemma ToAAppliesFilter()
    ensures ToA(HarCollection(ExampleFilter, ExampleHash())) == [NameValue(Symbol("keep"), "kept")]
  {
  }
}
