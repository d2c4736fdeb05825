/** The global parser registry of FileConfiguration: an ordered list of
    parsers with idempotent registration, removal by target class, a
    structural fallback kept at the end, and two-pass resolution of the
    parser for a class. */
module FileConfiguration {
  import opened Wrappers
  import opened Parsers

  // ---------------------------------------------------------------------
  // The list-level specification
  // ---------------------------------------------------------------------

  /** Some parser in `ps` declares exactly class `c`. */
  predicate HasClass(ps: seq<Parser>, c: TypeId) {
    exists q :: q in ps && q.OClass() == c
  }

  /** No two parsers in `ps` declare the same class. */
  ghost predicate DistinctClasses(ps: seq<Parser>) {
    forall i, j :: 0 <= i < j < |ps| ==> ps[i].OClass() != ps[j].OClass()
  }

  /** How many SerializableYAMLParser entries `ps` holds. */
  ghost function Fallbacks(ps: seq<Parser>): nat {
    multiset(ps)[SerializableParser]
  }

  /** One step of `addParsers`: a null argument, or one whose class is
      already registered, is skipped; anything else goes to the end. */
  function AddOne(ps: seq<Parser>, p: Option<Parser>): seq<Parser> {
    if p.Some? && !HasClass(ps, p.value.OClass()) then ps + [p.value] else ps
  }

  /** `addParsers(args...)`: the arguments are offered one by one, in order. */
  function AddAll(ps: seq<Parser>, args: seq<Option<Parser>>): (r: seq<Parser>)
    decreases |args|
    ensures ps <= r && |r| <= |ps| + |args|
  {
    if args == [] then ps else AddAll(AddOne(ps, args[0]), args[1..])
  }

  /** The classes of the non-null parsers in `args`. */
  ghost function ClassesOf(args: seq<Option<Parser>>): set<TypeId> {
    set i | 0 <= i < |args| && args[i].Some? :: args[i].value.OClass()
  }

  /** `removeIf(p -> p.getOClass() in cs)`: keeps, in order, the parsers whose
      class is not in `cs`. */
  function Without(ps: seq<Parser>, cs: set<TypeId>): (r: seq<Parser>)
    ensures |r| <= |ps|
  {
    if ps == [] then []
    else
      (if ps[0].OClass() in cs then [] else [ps[0]]) + Without(ps[1..], cs)
  }

  /** `removeIf(s -> s instanceof SerializableYAMLParser)`. */
  function DropFallbacks(ps: seq<Parser>): (r: seq<Parser>)
    ensures forall q :: q in r <==> q in ps && !q.IsFallback()
    ensures |r| <= |ps|
  {
    if ps == [] then []
    else (if ps[0].IsFallback() then [] else [ps[0]]) + DropFallbacks(ps[1..])
  }

  /** What `getParsers()` leaves in the registry: a non-empty list whose last
      parser is not the fallback loses every fallback and gets a fresh one
      appended; any other list is left as it is. */
  function Normalize(ps: seq<Parser>): (r: seq<Parser>)
    ensures ps == [] ==> r == []
    ensures ps != [] ==> r != [] && r[|r| - 1].IsFallback()
    ensures ps != [] && ps[|ps| - 1].IsFallback() ==> r == ps
    ensures forall q: Parser :: !q.IsFallback() ==> (q in r <==> q in ps)
  {
    if ps != [] && !ps[|ps| - 1].IsFallback() then DropFallbacks(ps) + [SerializableParser] else ps
  }

  /** The two filters `getParser` runs over the registry. */
  datatype Criterion =
    | ExactClass(c: TypeId)
    | AssignableTo(c: TypeId, assignableFrom: (TypeId, TypeId) -> bool)

  predicate Accepts(crit: Criterion, p: Parser) {
    match crit
    case ExactClass(c) => p.OClass() == c
    case AssignableTo(c, assignableFrom) => assignableFrom(p.OClass(), c)
  }

  /** `stream().filter(...).findFirst()`. */
  function FindFirst(ps: seq<Parser>, crit: Criterion): (r: Option<Parser>)
    ensures r.None? <==> forall i :: 0 <= i < |ps| ==> !Accepts(crit, ps[i])
    ensures r.Some? ==> r.value in ps && Accepts(crit, r.value)
  {
    if ps == [] then None
    else if Accepts(crit, ps[0]) then Some(ps[0])
    else
      var r := FindFirst(ps[1..], crit);
      assert forall i :: 1 <= i < |ps| ==> ps[i] == ps[1..][i - 1];
      r
  }

  /** A class that `getParser` looks up in the registry: neither an enum, nor
      an array, nor a configuration type. */
  predicate Plain(c: TypeId, assignableFrom: (TypeId, TypeId) -> bool) {
    !c.isEnum && !c.isArray && !assignableFrom(ConfigurationType, c)
  }

  /** `getParser(cls)` over the (already normalised) registry `ps`;
      `assignableFrom(a, b)` is `a.isAssignableFrom(b)`. */
  function Resolve(ps: seq<Parser>, cls: Option<TypeId>, assignableFrom: (TypeId, TypeId) -> bool): (r: Option<Parser>)
    ensures r.Some? && cls.Some? && Plain(cls.value, assignableFrom) ==>
              r.value in ps && (r.value.OClass() == cls.value || assignableFrom(r.value.OClass(), cls.value))
  {
    match cls
    case None => None
    case Some(c) =>
      if c.isEnum then Some(EnumParser(c))
      else if c.isArray then Some(ArrayParser)
      else if assignableFrom(ConfigurationType, c) then None
      else
        var exact := FindFirst(ps, ExactClass(c));
        if exact.Some? then exact else FindFirst(ps, AssignableTo(c, assignableFrom))
  }

  // ---------------------------------------------------------------------
  // The registry as mutable state
  // ---------------------------------------------------------------------

  /** The static `parsers` list of FileConfiguration. */
  class ParserRegistry {
    var parsers: seq<Parser>

    /** At most one structural fallback is ever registered. */
    ghost predicate Valid()
      reads this
    {
      Fallbacks(parsers) <= 1
    }

    constructor ()
      ensures Valid() && parsers == []
    {
      parsers := [];
    }

    /** `addParsers(YAMLParser...)`. */
    method AddParsers(args: seq<Option<Parser>>)
      requires Valid()
      modifies this
      ensures Valid()
      ensures parsers == AddAll(old(parsers), args)
    {
      var i := 0;
      while i < |args|
        invariant 0 <= i <= |args|
        invariant Fallbacks(parsers) <= 1
        invariant AddAll(parsers, args[i..]) == AddAll(old(parsers), args)
      {
        assert args[i..][1..] == args[i + 1..];
        var p := args[i];
        AddOneFallbacks(parsers, p);
        if p.Some? && !HasClass(parsers, p.value.OClass()) {
          parsers := parsers + [p.value];
        }
        i := i + 1;
      }
    }

    /** `removeParsers(YAMLParser...)`. */
    method RemoveParsers(args: seq<Option<Parser>>)
      requires Valid()
      modifies this
      ensures Valid()
      ensures parsers == Without(old(parsers), ClassesOf(args))
    {
      WithoutNothing(parsers);
      var i := 0;
      assert args[..i] == [] && ClassesOf(args[..i]) == {};
      while i < |args|
        invariant 0 <= i <= |args|
        invariant parsers == Without(old(parsers), ClassesOf(args[..i]))
      {
        var p := args[i];
        RemoveStep(old(parsers), args, i);
        if p.Some? {
          parsers := Without(parsers, {p.value.OClass()});
        }
        i := i + 1;
      }
      assert args[..i] == args;
      WithoutFallbacks(old(parsers), ClassesOf(args));
    }

    /** `getParsers()`: normalises the registry and returns it. */
    method GetParsers() returns (r: seq<Parser>)
      requires Valid()
      modifies this
      ensures Valid()
      ensures parsers == Normalize(old(parsers)) && r == parsers
    {
      if |parsers| > 0 && !parsers[|parsers| - 1].IsFallback() {
        parsers := DropFallbacks(parsers);
        NoFallbacksLeft(parsers);
        parsers := parsers + [SerializableParser];
      }
      r := parsers;
    }

    /** `getParser(Class)`: special classes are answered without touching
        the registry; any other class normalises it (twice, when the exact
        pass fails) and searches it. */
    method GetParser(cls: Option<TypeId>, assignableFrom: (TypeId, TypeId) -> bool) returns (r: Option<Parser>)
      requires Valid()
      modifies this
      ensures Valid()
      ensures parsers == if cls.Some? && Plain(cls.value, assignableFrom) then Normalize(old(parsers)) else old(parsers)
      ensures r == Resolve(parsers, cls, assignableFrom)
    {
      if cls.None? {
        return None;
      }
      var c := cls.value;
      if c.isEnum {
        return Some(EnumParser(c));
      }
      if c.isArray {
        return Some(ArrayParser);
      }
      if assignableFrom(ConfigurationType, c) {
        return None;
      }
      var ps := GetParsers();
      r := FindFirst(ps, ExactClass(c));
      if r.None? {
        NormalizeIdempotent(old(parsers));
        ps := GetParsers();
        r := FindFirst(ps, AssignableTo(c, assignableFrom));
      }
    }
  }

  // ---------------------------------------------------------------------
  // Helper facts
  // ---------------------------------------------------------------------

  lemma WithoutNothing(ps: seq<Parser>)
    ensures Without(ps, {}) == ps
  {
    if ps != [] {
      WithoutNothing(ps[1..]);
      assert ps == [ps[0]] + ps[1..];
    }
  }

  lemma ClassesOfSnoc(args: seq<Option<Parser>>, p: Option<Parser>)
    ensures ClassesOf(args + [p]) == if p.Some? then ClassesOf(args) + {p.value.OClass()} else ClassesOf(args)
  {
    var a := args + [p];
    if p.Some? {
      assert a[|args|].Some? && a[|args|].value.OClass() == p.value.OClass();
    }
    forall c | c in ClassesOf(a) ensures c in ClassesOf(args) || (p.Some? && c == p.value.OClass()) {
      var i :| 0 <= i < |a| && a[i].Some? && a[i].value.OClass() == c;
      if i < |args| {
        assert a[i] == args[i];
      }
    }
    forall c | c in ClassesOf(args) ensures c in ClassesOf(a) {
      var i :| 0 <= i < |args| && args[i].Some? && args[i].value.OClass() == c;
      assert a[i] == args[i];
    }
  }

  /** One iteration of the `removeParsers` loop. */
  lemma RemoveStep(ps: seq<Parser>, args: seq<Option<Parser>>, i: int)
    requires 0 <= i < |args|
    ensures Without(ps, ClassesOf(args[..i + 1])) ==
              if args[i].Some? then Without(Without(ps, ClassesOf(args[..i])), {args[i].value.OClass()})
              else Without(ps, ClassesOf(args[..i]))
  {
    ClassesOfSnoc(args[..i], args[i]);
    assert args[..i + 1] == args[..i] + [args[i]];
    if args[i].Some? {
      WithoutWithout(ps, ClassesOf(args[..i]), {args[i].value.OClass()});
    }
  }

  lemma NoFallbacksLeft(ps: seq<Parser>)
    requires forall q :: q in ps ==> !q.IsFallback()
    ensures Fallbacks(ps) == 0
  {
    assert SerializableParser !in ps;
  }

  /** Two positions holding the same parser make it occur twice. */
  lemma TwoCopies(ps: seq<Parser>, i: int)
    requires 0 <= i < |ps| - 1 && ps[i] == ps[|ps| - 1]
    ensures multiset(ps)[ps[i]] >= 2
  {
    var init := ps[..|ps| - 1];
    assert ps == init + [ps[|ps| - 1]];
    assert ps[i] == init[i];
    assert ps[i] in multiset(init);
  }

  // ---------------------------------------------------------------------
  // addParsers
  // ---------------------------------------------------------------------

  /** Adding keeps the registry invariant: the fallback is only appended
      when no parser of its class, so no fallback, is registered. */
  lemma AddOneFallbacks(ps: seq<Parser>, p: Option<Parser>)
    requires Fallbacks(ps) <= 1
    ensures Fallbacks(AddOne(ps, p)) <= 1
  {
    if p.Some? && !HasClass(ps, p.value.OClass()) {
      assert multiset(ps + [p.value]) == multiset(ps) + multiset{p.value};
      if p.value.IsFallback() {
        assert SerializableParser !in ps;
      }
    }
  }

  /** Every parser in the new registry was either registered before or is
      one of the non-null arguments. */
  lemma {:induction false} AddAllFrom(ps: seq<Parser>, args: seq<Option<Parser>>)
    ensures forall q :: q in AddAll(ps, args) ==> q in ps || Some(q) in args
    decreases |args|
  {
    if args != [] {
      var next := AddOne(ps, args[0]);
      AddAllFrom(next, args[1..]);
      forall q | q in AddAll(ps, args) ensures q in ps || Some(q) in args {
        if q in next && q !in ps {
          assert next == ps + [args[0].value];
          assert args[0] == Some(q);
        } else if q !in next {
          var j :| 0 <= j < |args[1..]| && args[1..][j] == Some(q);
          assert args[j + 1] == Some(q);
        }
      }
    }
  }

  /** Afterwards, the class of every non-null argument is registered (by it
      or by a parser that was there first). */
  lemma {:induction false} AddAllCovers(ps: seq<Parser>, args: seq<Option<Parser>>)
    ensures forall i :: 0 <= i < |args| && args[i].Some? ==> HasClass(AddAll(ps, args), args[i].value.OClass())
    decreases |args|
  {
    if args != [] {
      var next := AddOne(ps, args[0]);
      var r := AddAll(ps, args);
      AddAllCovers(next, args[1..]);
      forall i | 0 <= i < |args| && args[i].Some? ensures HasClass(r, args[i].value.OClass()) {
        if i == 0 {
          var q :| q in next && q.OClass() == args[0].value.OClass();
          var k :| 0 <= k < |next| && next[k] == q;
          assert r[k] == q;
        } else {
          assert args[i] == args[1..][i - 1];
        }
      }
    }
  }

  /** Every parser appended by the call declares a class that was not
      registered before it: a duplicate of a registered class is skipped. */
  lemma {:induction false} AddAllNewClasses(ps: seq<Parser>, args: seq<Option<Parser>>)
    ensures forall k :: |ps| <= k < |AddAll(ps, args)| ==> !HasClass(ps, AddAll(ps, args)[k].OClass())
    decreases |args|
  {
    if args != [] {
      var next := AddOne(ps, args[0]);
      var r := AddAll(ps, args);
      AddAllNewClasses(next, args[1..]);
      forall k | |ps| <= k < |r| ensures !HasClass(ps, r[k].OClass()) {
        if k < |next| {
          assert next == ps + [args[0].value] && r[k] == next[k];
        } else {
          assert r == AddAll(next, args[1..]) && !HasClass(next, r[k].OClass());
          PrefixHasClass(ps, next, r[k].OClass());
        }
      }
    }
  }

  /** A class registered in a list is registered in every extension of it. */
  lemma PrefixHasClass(ps: seq<Parser>, qs: seq<Parser>, c: TypeId)
    requires ps <= qs
    ensures HasClass(ps, c) ==> HasClass(qs, c)
  {
    if HasClass(ps, c) {
      var q :| q in ps && q.OClass() == c;
      var j :| 0 <= j < |ps| && ps[j] == q;
      assert qs[j] == q;
    }
  }

  /** Pairwise-distinct target classes stay pairwise distinct. */
  lemma {:induction false} AddAllDistinct(ps: seq<Parser>, args: seq<Option<Parser>>)
    requires DistinctClasses(ps)
    ensures DistinctClasses(AddAll(ps, args))
    decreases |args|
  {
    if args != [] {
      var next := AddOne(ps, args[0]);
      if next != ps {
        forall i, j | 0 <= i < j < |next| ensures next[i].OClass() != next[j].OClass() {
          if j == |ps| {
            assert next[i] in ps;
          }
        }
      }
      AddAllDistinct(next, args[1..]);
    }
  }

  /** Within one call, the earliest argument declaring a class not yet
      registered is the one kept: it gets in, and every parser of its class
      in the result is that argument, so later arguments of the same class
      are dropped. */
  lemma AddAllFirstOfClassKept(ps: seq<Parser>, args: seq<Option<Parser>>, i: int)
    requires 0 <= i < |args| && args[i].Some?
    requires !HasClass(ps, args[i].value.OClass())
    requires forall j :: 0 <= j < i && args[j].Some? ==> args[j].value.OClass() != args[i].value.OClass()
    ensures args[i].value in AddAll(ps, args)
    ensures forall q :: q in AddAll(ps, args) && q.OClass() == args[i].value.OClass() ==> q == args[i].value
  {
    var p := args[i].value;
    var c := p.OClass();
    var a, b := args[..i], args[i..];
    assert args == a + b;
    AddAllConcat(ps, a, b);
    var mid := AddAll(ps, a);
    AddAllFrom(ps, a);
    forall q | q in mid ensures q.OClass() != c {
      if q !in ps {
        var j :| 0 <= j < |a| && a[j] == Some(q);
        assert args[j] == Some(q);
      }
    }
    var next := mid + [p];
    assert AddOne(mid, b[0]) == next;
    assert b[1..] == args[i + 1..];
    var r := AddAll(next, b[1..]);
    assert AddAll(ps, args) == r;
    assert r[|mid|] == p;
    AddAllNewClasses(next, b[1..]);
    assert next[|mid|] == p && HasClass(next, c);
    forall k | 0 <= k < |r| && k != |mid| ensures r[k].OClass() != c {
      if k < |mid| {
        assert r[k] == mid[k];
      } else {
        assert !HasClass(next, r[k].OClass());
      }
    }
    forall q | q in r && q.OClass() == c ensures q == p {
      var k :| 0 <= k < |r| && r[k] == q;
    }
  }

  /** One call with the arguments `a + b` is the call with `a` followed by
      the call with `b`: arguments are handled strictly in order. */
  lemma {:induction false} AddAllConcat(ps: seq<Parser>, a: seq<Option<Parser>>, b: seq<Option<Parser>>)
    ensures AddAll(ps, a + b) == AddAll(AddAll(ps, a), b)
    decreases |a|
  {
    if a == [] {
      assert a + b == b;
    } else {
      assert (a + b)[1..] == a[1..] + b;
      AddAllConcat(AddOne(ps, a[0]), a[1..], b);
    }
  }

  /** When every non-null argument's class is already registered, the
      registry is unchanged. */
  lemma {:induction false} AddAllRegistered(ps: seq<Parser>, args: seq<Option<Parser>>)
    requires forall i :: 0 <= i < |args| && args[i].Some? ==> HasClass(ps, args[i].value.OClass())
    ensures AddAll(ps, args) == ps
    decreases |args|
  {
    if args != [] {
      assert AddOne(ps, args[0]) == ps;
      assert forall i :: 0 <= i < |args[1..]| ==> args[1..][i] == args[i + 1];
      AddAllRegistered(ps, args[1..]);
    }
  }

  /** Registering the same parsers twice is the same as registering them once. */
  lemma AddAllIdempotent(ps: seq<Parser>, args: seq<Option<Parser>>)
    ensures AddAll(AddAll(ps, args), args) == AddAll(ps, args)
  {
    AddAllCovers(ps, args);
    AddAllRegistered(AddAll(ps, args), args);
  }

  /** A parser whose class is already registered never replaces the
      registered one: the first registration for a class wins. */
  lemma AddAllFirstWins(ps: seq<Parser>, args: seq<Option<Parser>>, q: Parser)
    requires q in AddAll(ps, args) && HasClass(ps, q.OClass())
    ensures q in ps
  {
    var r := AddAll(ps, args);
    AddAllNewClasses(ps, args);
    var k :| 0 <= k < |r| && r[k] == q;
    assert k < |ps|;
    assert r[k] == ps[k];
  }

  // ---------------------------------------------------------------------
  // removeParsers
  // ---------------------------------------------------------------------

  /** Removing class set `a`, then `b`, is removing `a + b` at once. */
  lemma {:induction false} WithoutWithout(ps: seq<Parser>, a: set<TypeId>, b: set<TypeId>)
    ensures Without(Without(ps, a), b) == Without(ps, a + b)
  {
    if ps != [] {
      WithoutWithout(ps[1..], a, b);
      var s := Without(ps, a);
      if ps[0].OClass() in a {
        assert s == Without(ps[1..], a);
      } else {
        assert s == [ps[0]] + Without(ps[1..], a);
        assert s[0] == ps[0] && s[1..] == Without(ps[1..], a);
      }
    }
  }

  /** A parser survives removal exactly when it was registered and its class
      is not removed. */
  lemma {:induction false} WithoutMembers(ps: seq<Parser>, cs: set<TypeId>)
    ensures forall q :: q in Without(ps, cs) <==> q in ps && q.OClass() !in cs
  {
    if ps != [] {
      WithoutMembers(ps[1..], cs);
      assert ps == [ps[0]] + ps[1..];
    }
  }

  /** Removal never adds a fallback. */
  lemma {:induction false} WithoutFallbacks(ps: seq<Parser>, cs: set<TypeId>)
    ensures Fallbacks(Without(ps, cs)) <= Fallbacks(ps)
  {
    if ps != [] {
      WithoutFallbacks(ps[1..], cs);
      var head := if ps[0].OClass() in cs then [] else [ps[0]];
      assert ps == [ps[0]] + ps[1..];
      assert multiset(Without(ps, cs)) == multiset(head) + multiset(Without(ps[1..], cs));
    }
  }

  /** Removal filters each part of the list independently, so the parsers
      that stay keep their relative order. */
  lemma {:induction false} WithoutConcat(a: seq<Parser>, b: seq<Parser>, cs: set<TypeId>)
    ensures Without(a + b, cs) == Without(a, cs) + Without(b, cs)
  {
    if a == [] {
      assert a + b == b;
    } else {
      var ab := a + b;
      var head := if a[0].OClass() in cs then [] else [a[0]];
      assert ab != [] && ab[0] == a[0] && ab[1..] == a[1..] + b;
      calc {
        Without(ab, cs);
        head + Without(a[1..] + b, cs);
        { WithoutConcat(a[1..], b, cs); }
        head + (Without(a[1..], cs) + Without(b, cs));
        (head + Without(a[1..], cs)) + Without(b, cs);
        Without(a, cs) + Without(b, cs);
      }
    }
  }

  /** Removal touches nothing when no registered parser has a removed class. */
  lemma {:induction false} WithoutUnrelated(ps: seq<Parser>, cs: set<TypeId>)
    requires forall i :: 0 <= i < |ps| ==> ps[i].OClass() !in cs
    ensures Without(ps, cs) == ps
  {
    if ps != [] {
      WithoutUnrelated(ps[1..], cs);
      assert ps == [ps[0]] + ps[1..];
    }
  }

  /** What `removeParsers(args...)` leaves: exactly the parsers whose class no
      non-null argument declares. */
  lemma RemovedClassesGone(ps: seq<Parser>, args: seq<Option<Parser>>, q: Parser)
    ensures q in Without(ps, ClassesOf(args)) <==>
              q in ps && forall i :: 0 <= i < |args| && args[i].Some? ==> args[i].value.OClass() != q.OClass()
  {
    WithoutMembers(ps, ClassesOf(args));
    if q in ps && q.OClass() in ClassesOf(args) {
      var i :| 0 <= i < |args| && args[i].Some? && args[i].value.OClass() == q.OClass();
    }
  }

  // ---------------------------------------------------------------------
  // getParsers
  // ---------------------------------------------------------------------

  lemma {:induction false} DropFallbacksConcat(a: seq<Parser>, b: seq<Parser>)
    ensures DropFallbacks(a + b) == DropFallbacks(a) + DropFallbacks(b)
  {
    if a == [] {
      assert a + b == b;
    } else {
      var ab := a + b;
      var h := if a[0].IsFallback() then [] else [a[0]];
      assert ab[0] == a[0] && ab[1..] == a[1..] + b;
      calc {
        DropFallbacks(ab);
        h + DropFallbacks(a[1..] + b);
        { DropFallbacksConcat(a[1..], b); }
        h + (DropFallbacks(a[1..]) + DropFallbacks(b));
        (h + DropFallbacks(a[1..])) + DropFallbacks(b);
        DropFallbacks(a) + DropFallbacks(b);
      }
    }
  }

  lemma {:induction false} DropFallbacksIdempotent(ps: seq<Parser>)
    ensures DropFallbacks(DropFallbacks(ps)) == DropFallbacks(ps)
  {
    if ps != [] {
      DropFallbacksIdempotent(ps[1..]);
      DropFallbacksConcat(if ps[0].IsFallback() then [] else [ps[0]], DropFallbacks(ps[1..]));
    }
  }

  /** Normalising does not reorder, add or drop any parser other than the
      fallback: the non-fallback parsers form the same sequence before and
      after. */
  lemma NormalizeKeepsOrder(ps: seq<Parser>)
    ensures DropFallbacks(Normalize(ps)) == DropFallbacks(ps)
  {
    if ps != [] && !ps[|ps| - 1].IsFallback() {
      DropFallbacksConcat(DropFallbacks(ps), [SerializableParser]);
      DropFallbacksIdempotent(ps);
    }
  }

  /** With at most one fallback registered (the registry's invariant),
      normalising leaves exactly one fallback, and it is the last parser. */
  lemma NormalizeSingleFallback(ps: seq<Parser>)
    requires Fallbacks(ps) <= 1
    ensures Fallbacks(Normalize(ps)) <= 1
    ensures forall i :: 0 <= i < |Normalize(ps)| - 1 ==> !Normalize(ps)[i].IsFallback()
  {
    var r := Normalize(ps);
    if ps != [] && !ps[|ps| - 1].IsFallback() {
      var d := DropFallbacks(ps);
      NoFallbacksLeft(d);
      assert r == d + [SerializableParser];
      forall i | 0 <= i < |r| - 1 ensures !r[i].IsFallback() {
        assert r[i] == d[i] && d[i] in d;
      }
    } else {
      forall i | 0 <= i < |r| - 1 ensures !r[i].IsFallback() {
        if r[i].IsFallback() {
          TwoCopies(r, i);
          assert false;
        }
      }
    }
  }

  /** A second `getParsers()` changes nothing. */
  lemma NormalizeIdempotent(ps: seq<Parser>)
    ensures Normalize(Normalize(ps)) == Normalize(ps)
  {
  }

  // ---------------------------------------------------------------------
  // getParser
  // ---------------------------------------------------------------------

  /** `findFirst` returns the parser at the first index the filter accepts. */
  lemma {:induction false} FindFirstIsFirst(ps: seq<Parser>, crit: Criterion, i: int)
    requires 0 <= i < |ps| && Accepts(crit, ps[i])
    requires forall j :: 0 <= j < i ==> !Accepts(crit, ps[j])
    ensures FindFirst(ps, crit) == Some(ps[i])
  {
    if i > 0 {
      assert !Accepts(crit, ps[0]);
      assert forall j :: 0 <= j < i - 1 ==> ps[1..][j] == ps[j + 1];
      FindFirstIsFirst(ps[1..], crit, i - 1);
    }
  }

  /** null, enum, array and configuration classes are answered without
      looking at the registry: null and configuration types get no parser,
      an enum a fresh EnumYAMLParser for it, an array a fresh ArrayYAMLParser. */
  lemma ResolveSpecialClasses(ps: seq<Parser>, other: seq<Parser>, cls: Option<TypeId>, assignableFrom: (TypeId, TypeId) -> bool)
    requires cls.None? || !Plain(cls.value, assignableFrom)
    ensures Resolve(ps, cls, assignableFrom) == Resolve(other, cls, assignableFrom)
    ensures Resolve(ps, cls, assignableFrom) ==
              if cls.None? then None
              else if cls.value.isEnum then Some(EnumParser(cls.value))
              else if cls.value.isArray then Some(ArrayParser)
              else None
  {
  }

  /** Exact match first: when a registered parser declares exactly the
      requested class, the first such parser is returned. */
  lemma ResolveExactFirst(ps: seq<Parser>, c: TypeId, assignableFrom: (TypeId, TypeId) -> bool, i: int)
    requires Plain(c, assignableFrom)
    requires 0 <= i < |ps| && ps[i].OClass() == c
    requires forall j :: 0 <= j < i ==> ps[j].OClass() != c
    ensures Resolve(ps, Some(c), assignableFrom) == Some(ps[i])
  {
    FindFirstIsFirst(ps, ExactClass(c), i);
  }

  /** An exact match always beats a supertype parser, wherever the supertype
      parser sits in the list. */
  lemma ResolveExactBeatsSupertype(ps: seq<Parser>, c: TypeId, assignableFrom: (TypeId, TypeId) -> bool)
    requires Plain(c, assignableFrom) && HasClass(ps, c)
    ensures Resolve(ps, Some(c), assignableFrom).Some?
    ensures Resolve(ps, Some(c), assignableFrom).value.OClass() == c
  {
    var q :| q in ps && q.OClass() == c;
    var k :| 0 <= k < |ps| && ps[k] == q;
    assert !(forall i :: 0 <= i < |ps| ==> !Accepts(ExactClass(c), ps[i])) by {
      assert Accepts(ExactClass(c), ps[k]);
    }
  }

  /** Without an exact match, the first parser in list order whose class is
      assignable from the requested one is returned. */
  lemma ResolveFirstSupertype(ps: seq<Parser>, c: TypeId, assignableFrom: (TypeId, TypeId) -> bool, i: int)
    requires Plain(c, assignableFrom) && !HasClass(ps, c)
    requires 0 <= i < |ps| && assignableFrom(ps[i].OClass(), c)
    requires forall j :: 0 <= j < i ==> !assignableFrom(ps[j].OClass(), c)
    ensures Resolve(ps, Some(c), assignableFrom) == Some(ps[i])
  {
    assert forall j :: 0 <= j < |ps| ==> !Accepts(ExactClass(c), ps[j]) by {
      forall j | 0 <= j < |ps| ensures !Accepts(ExactClass(c), ps[j]) {
        assert ps[j] in ps;
      }
    }
    FindFirstIsFirst(ps, AssignableTo(c, assignableFrom), i);
  }

  /** A plain class gets no parser exactly when no registered parser's class
      equals it or is assignable from it. */
  lemma ResolveNone(ps: seq<Parser>, c: TypeId, assignableFrom: (TypeId, TypeId) -> bool)
    requires Plain(c, assignableFrom)
    ensures Resolve(ps, Some(c), assignableFrom).None? <==>
              forall i :: 0 <= i < |ps| ==> ps[i].OClass() != c && !assignableFrom(ps[i].OClass(), c)
  {
    if forall i :: 0 <= i < |ps| ==> ps[i].OClass() != c && !assignableFrom(ps[i].OClass(), c) {
      assert forall i :: 0 <= i < |ps| ==> !Accepts(ExactClass(c), ps[i]);
      assert forall i :: 0 <= i < |ps| ==> !Accepts(AssignableTo(c, assignableFrom), ps[i]);
    }
  }

  /** In a registry that has been used (non-empty, so normalised to end with
      the fallback) every plain class that is a Serializable gets a parser. */
  lemma ResolveFallbackReachable(ps: seq<Parser>, c: TypeId, assignableFrom: (TypeId, TypeId) -> bool)
    requires ps != [] && Plain(c, assignableFrom) && assignableFrom(SerializableType, c)
    ensures Resolve(Normalize(ps), Some(c), assignableFrom).Some?
  {
    var n := Normalize(ps);
    ResolveNone(n, c, assignableFrom);
    assert n[|n| - 1].OClass() == SerializableType;
  }

  /** The fallback is scanned last: in a normalised registry that satisfies
      the registry invariant, a plain class other than Serializable itself is
      resolved to the fallback only when no other parser matches it. */
  lemma ResolveFallbackLast(ps: seq<Parser>, c: TypeId, assignableFrom: (TypeId, TypeId) -> bool)
    requires Fallbacks(ps) <= 1 && Plain(c, assignableFrom) && c != SerializableType
    requires Resolve(Normalize(ps), Some(c), assignableFrom) == Some(SerializableParser)
    ensures forall q :: q in Normalize(ps) && !q.IsFallback() ==>
              q.OClass() != c && !assignableFrom(q.OClass(), c)
  {
    var n := Normalize(ps);
    NormalizeSingleFallback(ps);
    assert FindFirst(n, ExactClass(c)).None?;
    forall q | q in n && !q.IsFallback() ensures q.OClass() != c && !assignableFrom(q.OClass(), c) {
      var k :| 0 <= k < |n| && n[k] == q;
      assert k < |n| - 1;
      assert !Accepts(ExactClass(c), n[k]);
      if assignableFrom(q.OClass(), c) {
        var j := FirstAccepting(n, AssignableTo(c, assignableFrom), k);
        FindFirstIsFirst(n, AssignableTo(c, assignableFrom), j);
        assert false;
      }
    }
  }

  /** The first index at or below `k` that `crit` accepts. */
  lemma {:induction false} FirstAccepting(ps: seq<Parser>, crit: Criterion, k: int) returns (j: int)
    requires 0 <= k < |ps| && Accepts(crit, ps[k])
    ensures 0 <= j <= k && Accepts(crit, ps[j])
    ensures forall i :: 0 <= i < j ==> !Accepts(crit, ps[i])
    decreases k
  {
    if exists i :: 0 <= i < k && Accepts(crit, ps[i]) {
      var i :| 0 <= i < k && Accepts(crit, ps[i]);
      j := FirstAccepting(ps, crit, i);
    } else {
      j := k;
    }
  }
}
