/** CollectionHelper/CollectionExtension.cs: a nullable sequence is an `Option<seq<T>>`. */
module CollectionExtension {
  import opened Wrappers

  /** Enumerable.Any(): whether a first element exists. */
  predicate Any<T>(xs: seq<T>) {
    |xs| > 0
  }

  /** `collection?.Any()`: null when the collection is null, else Any's answer. */
  function NullConditionalAny<T>(collection: Option<seq<T>>): Option<bool> {
    match collection
    case None => None
    case Some(xs) => Some(Any(xs))
  }

  /** `collection?.Any() != true`: true exactly for a null or an empty collection. */
  function IsEmptyOrNull<T>(collection: Option<seq<T>>): (r: bool)
    ensures collection.None? ==> r
    ensures collection.Some? ==> (r <==> |collection.value| == 0)
  {
    NullConditionalAny(collection) != Some(true)
  }

  /** The answer depends on presence and length only, never on the elements. */
  lemma IsEmptyOrNullIgnoresElements<T>(a: seq<T>, b: seq<T>)
    requires |a| == |b|
    ensures IsEmptyOrNull(Some(a)) == IsEmptyOrNull(Some(b))
  {
  }
}
