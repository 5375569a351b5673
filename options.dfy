/** The capability options a fixture is configured with (CollectionOptions). */
module Options {

  /** The flags the collection fixture consults. */
  datatype CollectionOption = Unique | ReadOnly | ToStringPrintItems

  /** A flag set. Setting a flag yields a new value; the receiver is unchanged. */
  datatype CollectionOptions = CollectionOptions(flags: set<CollectionOption>)
  {
    /** True exactly when `flag` is set; the default options hold none. */
    predicate Has(flag: CollectionOption)
      ensures Has(flag) <==> flag in flags
      ensures this == NoOptions ==> !Has(flag)
    {
      flag in flags
    }

    /** The options with `flag` switched on or off and every other flag as before. */
    function Set(flag: CollectionOption, on: bool): (r: CollectionOptions)
      ensures r.Has(flag) == on
      ensures forall other :: other != flag ==> r.Has(other) == Has(other)
    {
      CollectionOptions(if on then flags + {flag} else flags - {flag})
    }
  }

  /** The options with no flag set. */
  const NoOptions := CollectionOptions({})

  /** Of two updates of the same flag, the later one wins. */
  lemma SetLastWins(o: CollectionOptions, flag: CollectionOption, first: bool, second: bool)
    ensures o.Set(flag, first).Set(flag, second) == o.Set(flag, second)
  {
  }

  /** Updates of different flags commute. */
  lemma SetCommutes(o: CollectionOptions, f: CollectionOption, g: CollectionOption, a: bool, b: bool)
    requires f != g
    ensures o.Set(f, a).Set(g, b) == o.Set(g, b).Set(f, a)
  {
  }

  /** Setting a flag to the value it already has gives back the same options. */
  lemma SetCurrentIsIdentity(o: CollectionOptions, flag: CollectionOption)
    ensures o.Set(flag, o.Has(flag)) == o
  {
  }
}
