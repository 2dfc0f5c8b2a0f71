/**
 * The `@Singleton` checks of the annotation processor
 * org.voidzero.influx.InfluxProcessor: which annotated classes are checked,
 * the three checks each of them goes through, and the cache of class names
 * that makes every class go through them only once.
 *
 * The compiler's element model is reduced to the `Element` datatype; the
 * `Messager` is the list `diagnostics`, one (class name, reason) record per
 * error printed.
 */
module Processor {

  import opened Sequences

  /** `Element.getKind()`, as far as the processor tells kinds apart. Classes,
      interfaces and the other type declarations (enums, records, annotation
      types) are `TypeElement`s; fields, parameters, enum constants and the
      other declarations are not. */
  datatype ElementKind = ClassKind | InterfaceKind | OtherTypeKind | NonTypeKind

  /** `element.asType().getKind()`: only `DECLARED` is of interest. */
  datatype TypeKind = Declared | OtherType

  /** An element enclosed by a type: a constructor with its number of
      parameters, or any other member. */
  datatype Member = Constructor(parameterCount: nat) | OtherMember

  /** An element annotated with `@Singleton`. */
  datatype Element = Element(
    qualifiedName: string,
    kind: ElementKind,
    isAbstract: bool,      // the modifiers contain `ABSTRACT`
    typeKind: TypeKind,
    enclosed: seq<Member>)

  /** Why a `@Singleton` class is rejected. */
  datatype Reason = InterfaceNotAllowed | AbstractNotAllowed | NoArgConstructorMissing

  /** An error printed through the `Messager`, about the class named. */
  datatype Diagnostic = Diagnostic(className: string, reason: Reason)

  const Singleton: string := "jakarta.inject.Singleton"

  /** The error text printed for a diagnostic. */
  function Message(d: Diagnostic): (m: string)
    ensures |d.className| < |m| && m[..|d.className|] == d.className
  {
    d.className + match d.reason
      case InterfaceNotAllowed => " cannot be an interface because it is annotated with @Singleton"
      case AbstractNotAllowed => " cannot be abstract because it is annotated with @Singleton"
      case NoArgConstructorMissing => " must have a no-arg or default constructor because it is annotated with @Singleton"
  }

  /** The element is a `TypeElement`, so that the cast `(TypeElement) element`
      succeeds. */
  predicate IsTypeElement(e: Element)
  {
    e.kind != NonTypeKind
  }

  /** The element passes the `DECLARED` filter of `processSingleton` but is
      not a type element: the cast that follows throws `ClassCastException`. */
  predicate CastFails(e: Element)
  {
    e.typeKind == Declared && !IsTypeElement(e)
  }

  ghost predicate HasCastFailure(es: seq<Element>)
  {
    exists i :: 0 <= i < |es| && CastFails(es[i])
  }

  // The kind predicates.

  /** `isClass`: a class is a type element. */
  function IsClass(e: Element): (b: bool)
    ensures b ==> IsTypeElement(e)
  {
    e.kind == ClassKind
  }

  /** `isInterface`: never true of a class. */
  function IsInterface(e: Element): (b: bool)
    ensures b ==> !IsClass(e)
  {
    e.kind == InterfaceKind
  }

  /** `isAbstractClass`: a class, and so never an interface. */
  function IsAbstractClass(e: Element): (b: bool)
    ensures b ==> IsClass(e) && !IsInterface(e)
  {
    IsClass(e) && e.isAbstract
  }

  /** `isConcreteClass`: a class, and then exactly when it is not abstract. */
  function IsConcreteClass(e: Element): (b: bool)
    ensures b ==> IsClass(e)
    ensures IsClass(e) ==> (b <==> !IsAbstractClass(e))
  {
    IsClass(e) && !e.isAbstract
  }

  /** A class is concrete or abstract and never both; nothing else is either. */
  lemma ClassIsConcreteOrAbstract(e: Element)
    ensures IsClass(e) <==> IsConcreteClass(e) || IsAbstractClass(e)
    ensures !(IsConcreteClass(e) && IsAbstractClass(e))
  {
  }

  /** Some enclosed element is a constructor without parameters. */
  ghost predicate DeclaresNoArgConstructor(e: Element)
  {
    exists m :: m in e.enclosed && m == Constructor(0)
  }

  /** `hasNoArgConstructor`: the scan over the enclosed elements, which
      stops at the first constructor without parameters. */
  method HasNoArgConstructor(e: Element) returns (found: bool)
    ensures found <==> DeclaresNoArgConstructor(e)
  {
    for i := 0 to |e.enclosed|
      invariant forall j :: 0 <= j < i ==> e.enclosed[j] != Constructor(0)
    {
      var member := e.enclosed[i];
      if member.Constructor? {
        if member.parameterCount == 0 {
          assert member in e.enclosed;
          return true;
        }
      }
    }
    return false;
  }

  // The three checks, as the diagnostics each adds.

  function InterfaceCheck(e: Element): seq<Diagnostic>
  {
    if IsInterface(e) then [Diagnostic(e.qualifiedName, InterfaceNotAllowed)] else []
  }

  function AbstractCheck(e: Element): seq<Diagnostic>
  {
    if IsAbstractClass(e) then [Diagnostic(e.qualifiedName, AbstractNotAllowed)] else []
  }

  ghost function ConstructorCheck(e: Element): seq<Diagnostic>
  {
    if DeclaresNoArgConstructor(e) then [] else [Diagnostic(e.qualifiedName, NoArgConstructorMissing)]
  }

  /** The three checks run in turn, none skipped because an earlier one
      failed: each reports its error exactly when its condition fails, only
      about the class checked, and interface and abstract class never come
      together. */
  ghost function Checks(e: Element): (ds: seq<Diagnostic>)
    ensures Diagnostic(e.qualifiedName, InterfaceNotAllowed) in ds <==> IsInterface(e)
    ensures Diagnostic(e.qualifiedName, AbstractNotAllowed) in ds <==> IsAbstractClass(e)
    ensures Diagnostic(e.qualifiedName, NoArgConstructorMissing) in ds <==> !DeclaresNoArgConstructor(e)
    ensures forall d :: d in ds ==> d.className == e.qualifiedName
    ensures |ds| <= 2
  {
    InterfaceCheck(e) + AbstractCheck(e) + ConstructorCheck(e)
  }

  /** What the processor has done so far: the class cache, the names that went
      through the checks, in order, the diagnostics printed, and whether a
      `ClassCastException` has escaped, after which nothing more is done. */
  datatype Round = Round(cache: set<string>, checked: seq<string>, diagnostics: seq<Diagnostic>, thrown: bool)

  /** Every name in the cache went through the checks, and only once. */
  ghost predicate Consistent(r: Round)
  {
    NoDup(r.checked) && Elements(r.checked) == r.cache
  }

  /** The element is a type element of declared type whose name is not cached
      yet: the loop of `processSingleton` caches and checks it. */
  predicate IsNewClass(r: Round, e: Element)
  {
    !r.thrown && e.typeKind == Declared && IsTypeElement(e) && e.qualifiedName !in r.cache
  }

  /** One pass of the loop of `processSingleton`. */
  ghost function SingletonStep(r: Round, e: Element): Round
  {
    if r.thrown || e.typeKind != Declared then r
    else if !IsTypeElement(e) then r.(thrown := true)
    else if e.qualifiedName in r.cache then r
    else r.(cache := r.cache + {e.qualifiedName},
            checked := r.checked + [e.qualifiedName],
            diagnostics := r.diagnostics + Checks(e))
  }

  /** The loop of `processSingleton` over `es`: the cache only grows, what was
      checked and printed before is kept, and after an exception nothing
      changes. */
  ghost function SingletonRound(r: Round, es: seq<Element>): (q: Round)
    decreases |es|
    ensures r.cache <= q.cache
    ensures r.checked <= q.checked && r.diagnostics <= q.diagnostics
    ensures r.thrown ==> q == r
  {
    if es == [] then r else SingletonStep(SingletonRound(r, es[..|es| - 1]), es[|es| - 1])
  }

  /** The names of the elements of declared type. */
  ghost function DeclaredNames(es: seq<Element>): set<string>
  {
    set i | 0 <= i < |es| && es[i].typeKind == Declared :: es[i].qualifiedName
  }

  /** The elements of declared type, in order. */
  function DeclaredOnly(es: seq<Element>): (ds: seq<Element>)
    ensures forall e :: e in ds ==> e in es && e.typeKind == Declared
  {
    if es == [] then []
    else DeclaredOnly(es[..|es| - 1]) + (if es[|es| - 1].typeKind == Declared then [es[|es| - 1]] else [])
  }

  lemma DeclaredNamesSnoc(es: seq<Element>)
    requires es != []
    ensures DeclaredNames(es) == DeclaredNames(es[..|es| - 1])
      + (if es[|es| - 1].typeKind == Declared then {es[|es| - 1].qualifiedName} else {})
  {

  }

  lemma CastFailureSnoc(es: seq<Element>)
    requires es != []
    ensures HasCastFailure(es) <==> HasCastFailure(es[..|es| - 1]) || CastFails(es[|es| - 1])
  {
    var init := es[..|es| - 1];
    if HasCastFailure(init) {
      var i :| 0 <= i < |init| && CastFails(init[i]);
      assert es[i] == init[i];
    }
    if HasCastFailure(es) && !CastFails(es[|es| - 1]) {
      var i :| 0 <= i < |es| && CastFails(es[i]);
      assert init[i] == es[i];
    }
  }

  /** The exception escapes exactly when some element passes the `DECLARED`
      filter without being a type element. */
  lemma {:induction false} RoundThrows(r: Round, es: seq<Element>)
    ensures SingletonRound(r, es).thrown <==> r.thrown || HasCastFailure(es)
    decreases |es|
  {
    if es != [] {
      RoundThrows(r, es[..|es| - 1]);
      CastFailureSnoc(es);
    }
  }

  /** Once the exception is thrown, the remaining elements are not looked at. */
  lemma {:induction false} RoundAfterThrow(r: Round, es: seq<Element>, k: nat)
    requires k <= |es| && SingletonRound(r, es[..k]).thrown
    ensures SingletonRound(r, es) == SingletonRound(r, es[..k])
    decreases |es|
  {
    if |es| > k {
      var init := es[..|es| - 1];
      assert init[..k] == es[..k];
      RoundAfterThrow(r, init, k);
    } else {
      assert es[..k] == es;
    }
  }

  /** The first element that fails the cast ends the loop: it is not cached,
      nothing after it is looked at, and the loop up to it ran normally. */
  lemma RoundStopsAtCast(r: Round, es: seq<Element>, k: nat)
    requires !r.thrown
    requires k < |es| && CastFails(es[k])
    requires forall i :: 0 <= i < k ==> !CastFails(es[i])
    ensures !SingletonRound(r, es[..k]).thrown
    ensures SingletonRound(r, es) == SingletonRound(r, es[..k]).(thrown := true)
  {
    var init := es[..k];
    assert !HasCastFailure(init) by {
      forall i | 0 <= i < k ensures !CastFails(init[i]) {
        assert init[i] == es[i];
      }
    }
    RoundThrows(r, init);
    assert es[..k + 1][..k] == init;
    RoundAfterThrow(r, es, k + 1);
  }

  /** A field of class type annotated `@Singleton`, followed by a class: the
      cast throws at the field, and the class is neither cached nor checked. */
  lemma FieldStopsTheLoop()
    ensures var field := Element("Foo.foo", NonTypeKind, false, Declared, []);
      var bar := Element("Bar", ClassKind, false, Declared, [Constructor(0)]);
      SingletonRound(Round({}, [], [], false), [field, bar]) == Round({}, [], [], true)
  {
    var field := Element("Foo.foo", NonTypeKind, false, Declared, []);
    var bar := Element("Bar", ClassKind, false, Declared, [Constructor(0)]);
    var r := Round({}, [], [], false);
    assert [field, bar][..1] == [field] && [field][..0] == [];
    assert SingletonRound(r, [field]) == r.(thrown := true);
  }

  /** After a round the cache holds at most the names it held before and the
      names of the elements of declared type; exactly those when the loop ran
      to its end. */
  lemma {:induction false} RoundCache(r: Round, es: seq<Element>)
    ensures SingletonRound(r, es).cache <= r.cache + DeclaredNames(es)
    ensures !SingletonRound(r, es).thrown ==> SingletonRound(r, es).cache == r.cache + DeclaredNames(es)
    decreases |es|
  {
    if es != [] {
      RoundCache(r, es[..|es| - 1]);
      DeclaredNamesSnoc(es);
    }
  }

  /** A round keeps every cached name checked exactly once. */
  lemma {:induction false} RoundKeepsConsistent(r: Round, es: seq<Element>)
    requires Consistent(r)
    ensures Consistent(SingletonRound(r, es))
    decreases |es|
  {
    if es != [] {
      var p := SingletonRound(r, es[..|es| - 1]);
      RoundKeepsConsistent(r, es[..|es| - 1]);
      var e := es[|es| - 1];
      if IsNewClass(p, e) {
        var c := p.checked + [e.qualifiedName];
        forall i | 0 <= i < |p.checked| ensures c[i] != e.qualifiedName {
          assert c[i] == p.checked[i] && p.checked[i] in Elements(p.checked);
        }
        ElementsAppend(p.checked, [e.qualifiedName]);
      }
    }
  }

  /** The names a round sends through the checks are exactly the names it
      adds to the cache, so a cached name is never checked again; when the
      loop runs to its end, they are the uncached names of declared type. */
  lemma RoundChecksOnlyNewNames(r: Round, es: seq<Element>)
    requires Consistent(r)
    ensures var q := SingletonRound(r, es);
      Elements(q.checked[|r.checked|..]) == q.cache - r.cache
    ensures var q := SingletonRound(r, es);
      !q.thrown ==> Elements(q.checked[|r.checked|..]) == DeclaredNames(es) - r.cache
  {
    var q := SingletonRound(r, es);
    RoundKeepsConsistent(r, es);
    var added := q.checked[|r.checked|..];
    assert q.checked == r.checked + added;
    ElementsAppend(r.checked, added);
    NoDupAppendDisjoint(r.checked, added);
    assert Elements(added) == q.cache - r.cache;
    RoundCache(r, es);
  }

  /** Every diagnostic a round prints is about a class it checked. */
  lemma {:induction false} RoundDiagnosticsAreAboutChecked(r: Round, es: seq<Element>)
    ensures var q := SingletonRound(r, es);
      forall d :: d in q.diagnostics[|r.diagnostics|..] ==> d.className in q.checked[|r.checked|..]
    decreases |es|
  {
    if es != [] {
      var p := SingletonRound(r, es[..|es| - 1]);
      RoundDiagnosticsAreAboutChecked(r, es[..|es| - 1]);
      var e := es[|es| - 1];
      if IsNewClass(p, e) {
        var printed, checked := p.diagnostics[|r.diagnostics|..], p.checked[|r.checked|..];
        DropAppend(p.diagnostics, Checks(e), |r.diagnostics|);
        DropAppend(p.checked, [e.qualifiedName], |r.checked|);
        forall d | d in printed + Checks(e) ensures d.className in checked + [e.qualifiedName] {
          if d in printed {
            assert d.className in checked;
          }
        }
      }
    }
  }

  /** A round over classes that are all cached already caches, checks and
      prints nothing. */
  lemma {:induction false} RoundOverCachedChangesNothing(r: Round, es: seq<Element>)
    requires DeclaredNames(es) <= r.cache
    ensures var q := SingletonRound(r, es);
      q.cache == r.cache && q.checked == r.checked && q.diagnostics == r.diagnostics
    decreases |es|
  {
    if es != [] {
      DeclaredNamesSnoc(es);
      RoundOverCachedChangesNothing(r, es[..|es| - 1]);
    }
  }

  /** Running the same elements through a second time changes nothing. */
  lemma RoundIdempotent(r: Round, es: seq<Element>)
    ensures SingletonRound(SingletonRound(r, es), es) == SingletonRound(r, es)
  {
    var q := SingletonRound(r, es);
    if !q.thrown {
      RoundCache(r, es);
      RoundOverCachedChangesNothing(q, es);
      RoundThrows(r, es);
      RoundThrows(q, es);
    }
  }

  /** Elements not of declared type are skipped: dropping them beforehand
      gives the same round. */
  lemma {:induction false} RoundSkipsUndeclared(r: Round, es: seq<Element>)
    ensures SingletonRound(r, es) == SingletonRound(r, DeclaredOnly(es))
    decreases |es|
  {
    if es != [] {
      var init := es[..|es| - 1];
      var e := es[|es| - 1];
      RoundSkipsUndeclared(r, init);
      if e.typeKind == Declared {
        var ds := DeclaredOnly(init) + [e];
        assert ds[..|ds| - 1] == DeclaredOnly(init);
      } else {
        assert DeclaredOnly(es) == DeclaredOnly(init);
      }
    }
  }

  /** `process` over the annotations found in a round: only `@Singleton`
      changes the state, and an exception ends the loop over annotations. */
  ghost function ProcessRound(r: Round, annotations: seq<string>, annotated: string -> seq<Element>): (q: Round)
    decreases |annotations|
    ensures r.cache <= q.cache
    ensures r.checked <= q.checked && r.diagnostics <= q.diagnostics
    ensures r.thrown ==> q == r
  {
    if annotations == [] then r
    else
      var p := ProcessRound(r, annotations[..|annotations| - 1], annotated);
      if !p.thrown && annotations[|annotations| - 1] == Singleton then SingletonRound(p, annotated(Singleton)) else p
  }

  /** Once the exception is thrown, the remaining annotations are not looked at. */
  lemma {:induction false} ProcessRoundAfterThrow(r: Round, annotations: seq<string>, k: nat, annotated: string -> seq<Element>)
    requires k <= |annotations| && ProcessRound(r, annotations[..k], annotated).thrown
    ensures ProcessRound(r, annotations, annotated) == ProcessRound(r, annotations[..k], annotated)
    decreases |annotations|
  {
    if |annotations| > k {
      var init := annotations[..|annotations| - 1];
      assert init[..k] == annotations[..k];
      ProcessRoundAfterThrow(r, init, k, annotated);
    } else {
      assert annotations[..k] == annotations;
    }
  }

  /** Without `@Singleton` among the annotations, a round changes nothing. */
  lemma {:induction false} OtherAnnotationsChangeNothing(r: Round, annotations: seq<string>, annotated: string -> seq<Element>)
    requires Singleton !in annotations
    ensures ProcessRound(r, annotations, annotated) == r
    decreases |annotations|
  {
    if annotations != [] {
      var init := annotations[..|annotations| - 1];
      assert forall a :: a in init ==> a in annotations;
      OtherAnnotationsChangeNothing(r, init, annotated);
    }
  }

  /** How `process` ends: it returns whether it claims the annotations, or the
      `ClassCastException` of `processSingleton` escapes it. */
  datatype Completion = Returned(claimed: bool) | ClassCastThrown

  /** The processor. Java keeps `classCache` in a static field, shared by
      every instance; one object stands for all of them here. */
  class InfluxProcessor {
    var classCache: set<string>
    var diagnostics: seq<Diagnostic>
    /** The names that went through the three checks, in order. */
    ghost var checked: seq<string>

    ghost function State(): Round
      reads this
    {
      Round(classCache, checked, diagnostics, false)
    }

    ghost predicate Valid()
      reads this
    {
      Consistent(State())
    }

    constructor ()
      ensures Valid() && classCache == {} && checked == [] && diagnostics == []
    {
      classCache := {};
      checked := [];
      diagnostics := [];
    }

    /** `process`: `false` when there is no annotation to claim, `true`
        otherwise, unless the exception of `processSingleton` escapes. */
    method Process(annotations: seq<string>, annotated: string -> seq<Element>) returns (result: Completion)
      requires Valid()
      modifies this
      ensures Valid()
      ensures ProcessRound(old(State()), annotations, annotated)
        == Round(classCache, checked, diagnostics, result.ClassCastThrown?)
      ensures result.Returned? ==> (result.claimed <==> |annotations| > 0)
      ensures old(checked) <= checked && old(classCache) <= classCache
    {
      if |annotations| == 0 {
        return Returned(false);
      }
      for i := 0 to |annotations|
        invariant Valid()
        invariant State() == ProcessRound(old(State()), annotations[..i], annotated)
        invariant old(checked) <= checked && old(classCache) <= classCache
      {
        assert annotations[..i + 1][..i] == annotations[..i];
        if annotations[i] == Singleton {
          var thrown := ProcessSingleton(annotated(Singleton));
          if thrown {
            ProcessRoundAfterThrow(old(State()), annotations, i + 1, annotated);
            return ClassCastThrown;
          }
        }
      }
      assert annotations[..|annotations|] == annotations;
      return Returned(true);
    }

    /** `processSingleton`; `thrown` is the `ClassCastException` of the cast
        to `TypeElement`. */
    method ProcessSingleton(elements: seq<Element>) returns (thrown: bool)
      requires Valid()
      modifies this
      ensures Valid()
      ensures SingletonRound(old(State()), elements) == Round(classCache, checked, diagnostics, thrown)
    {
      for i := 0 to |elements|
        invariant State() == SingletonRound(old(State()), elements[..i])
      {
        assert elements[..i + 1][..i] == elements[..i];
        var element := elements[i];
        if element.typeKind != Declared {
          continue;
        }
        if !IsTypeElement(element) {
          RoundAfterThrow(old(State()), elements, i + 1);
          RoundKeepsConsistent(old(State()), elements);
          return true;
        }
        var className := element.qualifiedName;
        if className in classCache {
          continue;
        }
        classCache := classCache + {className};
        checked := checked + [className];
        AssertNotInterface(element);
        AssertNotAbstractClass(element);
        AssertHasNoArgConstructor(element);
      }
      assert elements[..|elements|] == elements;
      RoundKeepsConsistent(old(State()), elements);
      thrown := false;
    }

    /** `assertNotInterface`. */
    method AssertNotInterface(e: Element)
      modifies this`diagnostics
      ensures diagnostics == old(diagnostics) + InterfaceCheck(e)
    {
      if IsInterface(e) {
        diagnostics := diagnostics + [Diagnostic(e.qualifiedName, InterfaceNotAllowed)];
      }
    }

    /** `assertNotAbstractClass`. */
    method AssertNotAbstractClass(e: Element)
      modifies this`diagnostics
      ensures diagnostics == old(diagnostics) + AbstractCheck(e)
    {
      if IsAbstractClass(e) {
        diagnostics := diagnostics + [Diagnostic(e.qualifiedName, AbstractNotAllowed)];
      }
    }

    /** `assertHasNoArgConstructor`. */
    method AssertHasNoArgConstructor(e: Element)
      modifies this`diagnostics
      ensures diagnostics == old(diagnostics) + ConstructorCheck(e)
    {
      var found := HasNoArgConstructor(e);
      if !found {
        diagnostics := diagnostics + [Diagnostic(e.qualifiedName, NoArgConstructorMissing)];
      }
    }
  }
}
