/** SetYAMLParser: a collection parser whose target class is `Set` and whose
    loader turns the collection produced by the collection loader into a
    set. */
module SetYamlParser {
  import opened Wrappers
  import opened Parsers
  import opened FileConfiguration

  /** Why loading a set failed. */
  datatype LoadFailure<E> =
    | Propagated(cause: E)   // thrown by the collection loader, passed on unchanged
    | NullCollection         // the collection loader returned null

  /** The elements of a collection, duplicates collapsed. */
  function ToSet<T(!new)>(xs: seq<T>): (r: set<T>)
    ensures forall x :: x in r <==> x in xs
  {
    set x | x in xs
  }

  /** No element occurs twice. */
  ghost predicate NoDuplicates<T>(xs: seq<T>) {
    forall i, j :: 0 <= i < j < |xs| ==> xs[i] != xs[j]
  }

  /** `getLoader()`: runs the collection loader (whose outcome is `loaded`)
      and copies its result into a new set. */
  function Load<T(!new), E>(loaded: Result<Option<seq<T>>, E>): (r: Result<set<T>, LoadFailure<E>>)
    ensures loaded.Failure? ==> r == Failure(Propagated(loaded.error))
    ensures loaded.Success? && loaded.value.None? ==> r == Failure(NullCollection)
    ensures loaded.Success? && loaded.value.Some? ==>
              r.Success? && forall x :: x in r.value <==> x in loaded.value.value
  {
    match loaded
    case Failure(e) => Failure(Propagated(e))
    case Success(None) => Failure(NullCollection)
    case Success(Some(xs)) => Success(ToSet(xs))
  }

  /** Duplicates collapse: the set is never larger than the collection, and
      is exactly as large when the collection has no duplicates. */
  lemma {:induction false} ToSetSize<T(!new)>(xs: seq<T>)
    ensures |ToSet(xs)| <= |xs|
    ensures |ToSet(xs)| == |xs| <==> NoDuplicates(xs)
  {
    if xs != [] {
      var t := xs[1..];
      ToSetSize(t);
      assert xs == [xs[0]] + t;
      if xs[0] in t {
        assert ToSet(xs) == ToSet(t);
        var j :| 0 <= j < |t| && t[j] == xs[0];
        assert xs[0] == xs[j + 1];
      } else {
        assert ToSet(xs) == ToSet(t) + {xs[0]};
        if NoDuplicates(t) {
          forall i, j | 0 <= i < j < |xs| ensures xs[i] != xs[j] {
            if i > 0 {
              assert xs[i] == t[i - 1] && xs[j] == t[j - 1];
            } else {
              assert xs[j] == t[j - 1] && t[j - 1] in t;
            }
          }
        } else {
          var i, j :| 0 <= i < j < |t| && t[i] == t[j];
          assert xs[i + 1] == xs[j + 1];
        }
      }
    }
  }

  /** Loading ignores order: collections that are permutations of each
      other load to the same set. */
  lemma LoadIgnoresOrder<T(!new), E>(xs: seq<T>, ys: seq<T>)
    requires multiset(xs) == multiset(ys)
    ensures Load<T, E>(Success(Some(xs))) == Load<T, E>(Success(Some(ys)))
  {
    assert forall x :: x in xs <==> x in multiset(xs);
    assert forall y :: y in ys <==> y in multiset(ys);
    assert ToSet(xs) == ToSet(ys);
  }

  /** The declared target class of SetYAMLParser is `Set`; it is not the
      structural fallback. */
  lemma SetParserTarget()
    ensures SetParser.OClass() == SetType && !SetParser.IsFallback()
  {
  }

  /** Once registered, SetYAMLParser answers every request for `Set` as long
      as no other parser claims that exact class. The rest of the registry
      may hold duplicate classes, as normalisation can produce. */
  lemma SetParserResolves(ps: seq<Parser>, assignableFrom: (TypeId, TypeId) -> bool)
    requires SetParser in ps
    requires forall q :: q in ps && q.OClass() == SetType ==> q == SetParser
    requires !assignableFrom(ConfigurationType, SetType)
    ensures Resolve(ps, Some(SetType), assignableFrom) == Some(SetParser)
  {
    var i :| 0 <= i < |ps| && ps[i] == SetParser;
    assert Accepts(ExactClass(SetType), ps[i]);
  }
}
