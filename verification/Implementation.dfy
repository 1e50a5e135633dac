/** Matching types against templates, and their instantiations. */
module Implementation {
  import opened Wrappers

  datatype Type =
    | Void
    | Variable(id: nat)
    | Leaf(kind: nat, address: nat)
    | Array(element: Type, length: nat)
    | Sequence(element: Type, selection: Option<string>)
    | Assoc(key: Type, element: Type, selection: Option<string>)

  type Substitution = map<nat, Type>

  function Subst(sigma: Substitution, t: Type): Type {
    match t
    case Variable(v) => if v in sigma then sigma[v] else t
    case Array(e, n) => Array(Subst(sigma, e), n)
    case Sequence(e, s) => Sequence(Subst(sigma, e), s)
    case Assoc(k, e, s) => Assoc(Subst(sigma, k), Subst(sigma, e), s)
    case _ => t
  }

  /** A type without the selections of its sequences and associative arrays. */
  function Erase(t: Type): Type {
    match t
    case Sequence(e, _) => Sequence(Erase(e), None)
    case Assoc(k, e, _) => Assoc(Erase(k), Erase(e), None)
    case _ => t
  }

  /** The same type but for selections of sequences and associative arrays; within an array nothing differs. */
  ghost predicate SameButSelections(a: Type, b: Type) {
    || a == b
    || (a.Sequence? && b.Sequence? && SameButSelections(a.element, b.element))
    || (a.Assoc? && b.Assoc? && SameButSelections(a.key, b.key) && SameButSelections(a.element, b.element))
  }

  lemma {:induction false} EraseIff(a: Type, b: Type)
    ensures Erase(a) == Erase(b) <==> SameButSelections(a, b)
  {
    if a.Sequence? && b.Sequence? {
      EraseIff(a.element, b.element);
    } else if a.Assoc? && b.Assoc? {
      EraseIff(a.key, b.key);
      EraseIff(a.element, b.element);
    }
  }

  function Variables(t: Type): set<nat> {
    match t
    case Variable(v) => {v}
    case Array(e, _) => Variables(e)
    case Sequence(e, _) => Variables(e)
    case Assoc(k, e, _) => Variables(k) + Variables(e)
    case _ => {}
  }

  /** No variable is inside a type that the matcher does not look into. */
  predicate Exposed(t: Type) {
    match t
    case Array(e, _) => Variables(e) == {}
    case Sequence(e, _) => Exposed(e)
    case Assoc(k, e, _) => Exposed(k) && Exposed(e)
    case _ => true
  }

  /** `sigma` makes the pattern the subject, up to selections. */
  ghost predicate Solves(sigma: Substitution, subject: Type, pattern: Type) {
    Erase(Subst(sigma, pattern)) == Erase(subject)
  }

  ghost predicate Proper(sigma: Substitution) {
    forall v :: v in sigma ==> sigma[v] != Void
  }

  // ---- association lists ----

  type Bindings = seq<(nat, Type)>

  ghost predicate DistinctKeys(b: Bindings) {
    forall i, j :: 0 <= i < j < |b| ==> b[i].0 != b[j].0
  }

  /** Only types without variables, other than void, are bound. */
  ghost predicate Ground(b: Bindings) {
    forall i :: 0 <= i < |b| ==> Variables(b[i].1) == {} && b[i].1 != Void
  }

  /** `sigma` gives every bound variable the type it is bound to, up to selections. */
  ghost predicate Agrees(sigma: Substitution, b: Bindings) {
    forall i :: 0 <= i < |b| ==> b[i].0 in sigma && Erase(sigma[b[i].0]) == Erase(b[i].1)
  }

  ghost function Keys(b: Bindings): set<nat> {
    set i | 0 <= i < |b| :: b[i].0
  }

  /** The bindings as a substitution. */
  ghost function AsSubstitution(b: Bindings): Substitution
    requires DistinctKeys(b)
  {
    map v | v in Keys(b) :: Bound(b, v)
  }

  ghost function Bound(b: Bindings, v: nat): Type
    requires v in Keys(b)
  {
    var i :| 0 <= i < |b| && b[i].0 == v; b[i].1
  }

  lemma AgreesWithItself(b: Bindings)
    requires DistinctKeys(b) && Ground(b)
    ensures Agrees(AsSubstitution(b), b) && Proper(AsSubstitution(b))
  {
    forall i | 0 <= i < |b| ensures b[i].0 in Keys(b) && Bound(b, b[i].0) == b[i].1 {
    }
  }

  lemma {:induction false} SubstGround(sigma: Substitution, t: Type)
    requires Variables(t) == {}
    ensures Subst(sigma, t) == t
  {
    match t
    case Array(e, _) => SubstGround(sigma, e);
    case Sequence(e, _) => SubstGround(sigma, e);
    case Assoc(k, e, _) =>
      SubstGround(sigma, k);
      SubstGround(sigma, e);
    case _ =>
  }

  lemma {:induction false} GroundIsExposed(t: Type)
    requires Variables(t) == {}
    ensures Exposed(t)
  {
    match t
    case Sequence(e, _) => GroundIsExposed(e);
    case Assoc(k, e, _) =>
      GroundIsExposed(k);
      GroundIsExposed(e);
    case _ =>
  }

  lemma OneMore(b: Bindings, v: nat, t: Type)
    ensures Keys(b + [(v, t)]) == Keys(b) + {v}
    ensures forall sigma ::
              Agrees(sigma, b + [(v, t)]) <==> Agrees(sigma, b) && v in sigma && Erase(sigma[v]) == Erase(t)
  {
    var more := b + [(v, t)];
    assert more[|b|] == (v, t) && more[..|b|] == b;
    assert forall i :: 0 <= i < |b| ==> more[i] == b[i];
    forall n ensures n in Keys(more) <==> n in Keys(b) + {v} {
      if n in Keys(b) {
        var i :| 0 <= i < |b| && b[i].0 == n;
        assert more[i].0 == n;
      }
    }
  }

  /** Two types that are neither the same nor built alike are equal under no substitution. */
  lemma Unmatched(subject: Type, pattern: Type)
    requires subject != pattern && !pattern.Variable? && Exposed(pattern)
    requires !(pattern.Sequence? && subject.Sequence?) && !(pattern.Assoc? && subject.Assoc?)
    ensures forall sigma :: !Solves(sigma, subject, pattern)
  {
    forall sigma: Substitution ensures !Solves(sigma, subject, pattern) {
      if pattern.Array? {
        SubstGround(sigma, pattern.element);
      }
    }
  }

  /** The substitutions that solve the pair and agree with `before` are those that agree with `after`. */
  ghost predicate Sound(subject: Type, pattern: Type, before: Bindings, after: Bindings) {
    forall sigma {:trigger Agrees(sigma, after)} ::
      Agrees(sigma, after) ==> Agrees(sigma, before) && Solves(sigma, subject, pattern)
  }

  ghost predicate Complete(subject: Type, pattern: Type, before: Bindings, ok: bool, after: Bindings) {
    forall sigma {:trigger Proper(sigma)} ::
      Proper(sigma) && Agrees(sigma, before) && Solves(sigma, subject, pattern) ==> ok && Agrees(sigma, after)
  }

  /** Keys and elements are matched one after the other, the elements with what the keys have bound. */
  lemma SoundParts(subject: Type, pattern: Type, before: Bindings, middle: Bindings, after: Bindings)
    requires subject.Assoc? && pattern.Assoc?
    requires Sound(subject.key, pattern.key, before, middle) && Sound(subject.element, pattern.element, middle, after)
    ensures Sound(subject, pattern, before, after)
  {
  }

  lemma CompleteParts(subject: Type, pattern: Type, before: Bindings, middle: Bindings, ok: bool, after: Bindings)
    requires subject.Assoc? && pattern.Assoc?
    requires Complete(subject.key, pattern.key, before, true, middle)
    requires Complete(subject.element, pattern.element, middle, ok, after)
    ensures Complete(subject, pattern, before, ok, after)
  {
  }

  class Environment {
    var bindings: Bindings

    ghost predicate Valid()
      reads this
    {
      DistinctKeys(bindings) && Ground(bindings)
    }

    constructor ()
      ensures Valid() && bindings == []
    {
      bindings := [];
    }

    /** The position of a key, or the end of the list. */
    method Find(key: nat) returns (i: nat)
      ensures i <= |bindings| && (i < |bindings| ==> bindings[i].0 == key)
      ensures i == |bindings| <==> key !in Keys(bindings)
    {
      i := 0;
      while i < |bindings| && bindings[i].0 != key
        invariant i <= |bindings| && forall j :: 0 <= j < i ==> bindings[j].0 != key
      {
        i := i + 1;
      }
    }
  }

  /** Whether the pattern can be made the subject; the bindings then hold the most general way to do it. */
  method Match(environment: Environment, toMatch: Type, pattern: Type) returns (ok: bool)
    requires environment.Valid() && Variables(toMatch) == {}
    modifies environment
    ensures environment.Valid() && old(environment.bindings) <= environment.bindings
    ensures ok ==> Exposed(pattern) && Sound(toMatch, pattern, old(environment.bindings), environment.bindings)
    ensures Exposed(pattern) ==> Complete(toMatch, pattern, old(environment.bindings), ok, environment.bindings)
    ensures Keys(environment.bindings) <= Keys(old(environment.bindings)) + Variables(pattern)
    ensures ok ==> Keys(environment.bindings) == Keys(old(environment.bindings)) + Variables(pattern)
    decreases toMatch, pattern.Variable?
  {
    forall sigma: Substitution ensures Subst(sigma, toMatch) == toMatch {
      SubstGround(sigma, toMatch);
    }
    if toMatch == pattern {
      GroundIsExposed(toMatch);
      return true;
    }
    if pattern.Variable? {
      if toMatch.Void? {
        return false;
      }
      var found := environment.Find(pattern.id);
      if found == |environment.bindings| {
        OneMore(environment.bindings, pattern.id, toMatch);
        environment.bindings := environment.bindings + [(pattern.id, toMatch)];
        return true;
      }
      var binding := environment.bindings[found].1;
      forall sigma: Substitution ensures Subst(sigma, binding) == binding {
        SubstGround(sigma, binding);
      }
      GroundIsExposed(binding);
      ok := Match(environment, toMatch, binding);
      return;
    }
    if pattern.Sequence? && toMatch.Sequence? {
      ok := Match(environment, toMatch.element, pattern.element);
    } else if pattern.Assoc? && toMatch.Assoc? {
      ok := Match(environment, toMatch.key, pattern.key);
      if ok {
        ghost var middle := environment.bindings;
        ok := Match(environment, toMatch.element, pattern.element);
        if ok {
          SoundParts(toMatch, pattern, old(environment.bindings), middle, environment.bindings);
        }
        if Exposed(pattern) {
          CompleteParts(toMatch, pattern, old(environment.bindings), middle, ok, environment.bindings);
        }
      }
    } else {
      ok := false;
      if Exposed(pattern) {
        Unmatched(toMatch, pattern);
      }
    }
  }

  /** What the matcher accepts: instances, without void, of a template that hides no variable. */
  ghost predicate Accepts(toMatch: Type, pattern: Type) {
    Exposed(pattern) && exists sigma :: Proper(sigma) && Solves(sigma, toMatch, pattern)
  }

  /** The verdict for every template, and for those that match the most general substitution. */
  method MatchTemplate(toMatch: Type, pattern: Type) returns (ok: bool, bindings: Bindings)
    requires Variables(toMatch) == {}
    ensures ok <==> Accepts(toMatch, pattern)
    ensures DistinctKeys(bindings) && Ground(bindings)
    ensures ok ==> Proper(AsSubstitution(bindings)) && Solves(AsSubstitution(bindings), toMatch, pattern)
    ensures ok ==> Keys(bindings) == Variables(pattern)
    ensures ok ==> forall sigma :: Proper(sigma) ==> (Solves(sigma, toMatch, pattern) <==> Agrees(sigma, bindings))
  {
    var environment := new Environment();
    ok := Match(environment, toMatch, pattern);
    bindings := environment.bindings;
    AgreesWithItself(bindings);
    assert Keys([]) == {};
    assert forall sigma :: Agrees(sigma, []);
  }

  /** A template matches its own ground instances exactly when it hides no variable. */
  method MatchInstance(sigma: Substitution, pattern: Type) returns (ok: bool)
    requires Proper(sigma) && Variables(Subst(sigma, pattern)) == {}
    ensures ok <==> Exposed(pattern)
  {
    var bindings;
    ok, bindings := MatchTemplate(Subst(sigma, pattern), pattern);
    assert Solves(sigma, Subst(sigma, pattern), pattern);
  }

  /** A variable inside an array is hidden: the array of any type is refused, though it is an instance. */
  lemma HiddenVariable(s: Type, length: nat)
    requires Variables(s) == {} && s != Void
    ensures !Accepts(Array(s, length), Array(Variable(0), length))
    ensures Proper(map[0 := s]) && Solves(map[0 := s], Array(s, length), Array(Variable(0), length))
  {
    assert 0 in Variables(Variable(0));
  }

  /** The collections that a template nests along their elements. */
  function Dimensions(t: Type): nat {
    match t
    case Array(e, _) => 1 + Dimensions(e)
    case Sequence(e, _) => 1 + Dimensions(e)
    case Assoc(_, e, _) => 1 + Dimensions(e)
    case _ => 0
  }

  /** The type that lies `n` steps along the elements, if there are as many. */
  function Along(t: Type, n: nat): Option<Type> {
    if n == 0 then Some(t)
    else if t.Array? || t.Sequence? || t.Assoc? then Along(t.element, n - 1)
    else None
  }

  /** The first so many types along the elements are collections, and the next one is none. */
  lemma {:induction false} DimensionsIff(t: Type, n: nat)
    ensures Dimensions(t) == n <==>
              Along(t, n).Some? && !Along(t, n).value.Array? && !Along(t, n).value.Sequence? &&
                  !Along(t, n).value.Assoc?
    decreases n
  {
    if n > 0 && (t.Array? || t.Sequence? || t.Assoc?) {
      DimensionsIff(t.element, n - 1);
    }
  }

  predicate IsCollection(t: Type) {
    t.Array? || t.Sequence? || t.Assoc?
  }

  method NumDimensions(template: Type) returns (n: nat)
    ensures n == Dimensions(template)
  {
    var type_ := template;
    n := 0;
    while IsCollection(type_)
      invariant n + Dimensions(type_) == Dimensions(template)
      decreases type_
    {
      type_ := type_.element;
      n := n + 1;
    }
  }

  /** Whatever an implementation covers, a type that matches it has at least as many dimensions. */
  lemma {:induction false} MatchingIsAsDeep(sigma: Substitution, subject: Type, pattern: Type)
    requires Solves(sigma, subject, pattern)
    ensures Dimensions(subject) >= Dimensions(pattern)
  {
    match pattern
    case Array(e, n) => SubstIsAsDeep(sigma, e);
    case Sequence(e, _) => MatchingIsAsDeep(sigma, subject.element, e);
    case Assoc(_, e, _) => MatchingIsAsDeep(sigma, subject.element, e);
    case _ =>
  }

  lemma {:induction false} SubstIsAsDeep(sigma: Substitution, t: Type)
    ensures Dimensions(Subst(sigma, t)) >= Dimensions(t)
  {
    match t
    case Array(e, _) => SubstIsAsDeep(sigma, e);
    case Sequence(e, _) => SubstIsAsDeep(sigma, e);
    case Assoc(_, e, _) => SubstIsAsDeep(sigma, e);
    case _ =>
  }

  // ---- instantiations ----

  datatype Instance = Instance(name: string, types: seq<Type>)

  function Types(b: Bindings): seq<Type> {
    seq(|b|, i requires 0 <= i < |b| => b[i].1)
  }

  class Instantiations {
    var instances: seq<Instance>

    ghost predicate Valid()
      reads this
    {
      forall i, j :: 0 <= i < j < |instances| ==> instances[i] != instances[j]
    }

    constructor ()
      ensures Valid() && instances == []
    {
      instances := [];
    }

    /** One instance for each name and list of bound types, however often it is asked for. */
    method Instantiate(name: string, bindings: Bindings) returns (inst: nat)
      requires Valid()
      modifies this
      ensures Valid() && old(instances) <= instances && inst < |instances|
      ensures instances[inst] == Instance(name, Types(bindings))
      ensures instances == old(instances) + if Instance(name, Types(bindings)) in old(instances) then []
          else [instances[inst]]
    {
      inst := 0;
      while inst < |instances|
        invariant inst <= |instances| && forall i :: 0 <= i < inst ==> instances[i] != Instance(name, Types(bindings))
      {
        if instances[inst].name == name && instances[inst].types == Types(bindings) {
          return;
        }
        inst := inst + 1;
      }
      instances := instances + [Instance(name, Types(bindings))];
    }
  }
}
