/** The read-only introspection index the look-up dialogs query: the classes
    and methods the language process reported, keyed by name. */
module ScLanguage {
  import opened Wrappers

  /** Where a class or method is defined: a file and a character offset. */
  datatype Location = Location(path: string, position: int)

  datatype Method = Method(name: string, ownerName: string, definition: Location)

  /** A class, its superclass by name (`None` for the root), the methods of
      its metaclass and its own instance methods, each in declared order. */
  datatype Class = Class(
    name: string,
    definition: Location,
    superClass: Option<string>,
    metaMethods: seq<Method>,
    methods: seq<Method>)

  /** The index. `methodMap` is the name-to-methods multimap: the methods
      filed under one name, in the multimap's order. The substring searches
      and the path compaction are the index's own operations, whose bodies
      are not part of this model. */
  datatype Introspection = Introspection(
    available: bool,
    classes: map<string, Class>,
    methodMap: map<string, seq<Method>>,
    findClassPartial: string -> seq<Class>,
    findMethodPartial: string -> seq<Method>,
    compactLibraryPath: string -> string)

  /** Functions from outside the index the dialogs call: Qt's upper-case
      test on a character, a method's signature without argument names, and
      the "Class.method" label of a reference. */
  datatype Externals = Externals(
    isUpper: char -> bool,
    signature: Method -> string,
    makeFullMethodName: (string, string) -> string)

  /** The methods filed under exactly `name`; none when the name is absent. */
  function MethodsNamed(ix: Introspection, name: string): seq<Method>
  {
    if name in ix.methodMap then ix.methodMap[name] else []
  }

  /** Following superclass links from `name` reaches a root within `fuel`
      steps, through classes that are all in the index. */
  predicate ReachesRoot(ix: Introspection, name: string, fuel: nat)
    decreases fuel
  {
    && name in ix.classes
    && match ix.classes[name].superClass
       case None => true
       case Some(s) => fuel > 0 && ReachesRoot(ix, s, fuel - 1)
  }

  predicate NamesMatchKeys(ix: Introspection)
  {
    forall n :: n in ix.classes ==> ix.classes[n].name == n
  }

  /** The index invariants the dialogs rely on: every class is filed under
      its own name, and every superclass chain is finite and stays inside
      the index (a chain without a repeated class has at most as many links
      as there are classes). */
  predicate Valid(ix: Introspection)
  {
    && NamesMatchKeys(ix)
    && forall n :: n in ix.classes ==> ReachesRoot(ix, n, |ix.classes|)
  }

  /** `p` lists the class filed under `name`, then its superclass, and so on
      up to a class without a superclass. */
  predicate IsPathToRoot(ix: Introspection, name: string, p: seq<Class>)
  {
    && |p| > 0
    && name in ix.classes
    && p[0] == ix.classes[name]
    && (forall i :: 0 < i < |p| ==>
          && p[i - 1].superClass == Some(p[i].name)
          && p[i].name in ix.classes
          && ix.classes[p[i].name] == p[i])
    && p[|p| - 1].superClass.None?
  }

  /** The superclass walk, cut off after `fuel` links. */
  function Chain(ix: Introspection, name: string, fuel: nat): seq<Class>
    decreases fuel
  {
    if name !in ix.classes then []
    else
      var c := ix.classes[name];
      match c.superClass
      case None => [c]
      case Some(s) => if fuel == 0 then [c] else [c] + Chain(ix, s, fuel - 1)
  }

  lemma {:induction false} ChainIsPathToRoot(ix: Introspection, name: string, fuel: nat)
    requires NamesMatchKeys(ix)
    requires ReachesRoot(ix, name, fuel)
    ensures IsPathToRoot(ix, name, Chain(ix, name, fuel))
    decreases fuel
  {
    var c := ix.classes[name];
    match c.superClass
    case None =>
    case Some(s) =>
      ChainIsPathToRoot(ix, s, fuel - 1);
      var t := Chain(ix, s, fuel - 1);
      var p := [c] + t;
      assert Chain(ix, name, fuel) == p;
      forall i | 0 < i < |p|
        ensures p[i - 1].superClass == Some(p[i].name)
        ensures p[i].name in ix.classes && ix.classes[p[i].name] == p[i]
      {
        assert p[i] == t[i - 1];
        if i > 1 {
          assert p[i - 1] == t[i - 2];
        }
      }
  }

  /** The first link of a path with more than one class. */
  lemma PathFirstLink(ix: Introspection, name: string, p: seq<Class>)
    requires IsPathToRoot(ix, name, p)
    ensures |p| > 1 ==> p[0].superClass == Some(p[1].name)
  {
  }

  /** There is only one path from a class to the root. */
  lemma {:induction false} PathToRootUnique(ix: Introspection, name: string, p: seq<Class>, q: seq<Class>)
    requires IsPathToRoot(ix, name, p) && IsPathToRoot(ix, name, q)
    ensures p == q
    decreases |p|
  {
    var c := ix.classes[name];
    PathFirstLink(ix, name, p);
    PathFirstLink(ix, name, q);
    match c.superClass
    case None =>
      assert |p| == 1 && |q| == 1;
      assert p == [p[0]] && q == [q[0]];
    case Some(s) =>
      assert |p| > 1 && |q| > 1;
      assert p[0].superClass == Some(p[1].name);
      assert q[0].superClass == Some(q[1].name);
      assert IsPathToRoot(ix, s, p[1..]) by {
        forall i | 0 < i < |p[1..]|
          ensures p[1..][i - 1].superClass == Some(p[1..][i].name)
        {
          assert p[1..][i - 1] == p[i] && p[1..][i] == p[i + 1];
        }
      }
      assert IsPathToRoot(ix, s, q[1..]) by {
        forall i | 0 < i < |q[1..]|
          ensures q[1..][i - 1].superClass == Some(q[1..][i].name)
        {
          assert q[1..][i - 1] == q[i] && q[1..][i] == q[i + 1];
        }
      }
      PathToRootUnique(ix, s, p[1..], q[1..]);
      assert p == [p[0]] + p[1..];
      assert q == [q[0]] + q[1..];
  }

  /** The classes a class look-up walks through: the queried class and its
      ancestors, root last. */
  function SuperChain(ix: Introspection, name: string): (chain: seq<Class>)
    requires Valid(ix) && name in ix.classes
    ensures IsPathToRoot(ix, name, chain)
  {
    ChainIsPathToRoot(ix, name, |ix.classes|);
    Chain(ix, name, |ix.classes|)
  }

  /** The path from a class with a superclass is that class followed by the
      superclass's path. */
  lemma SuperChainStep(ix: Introspection, name: string)
    requires Valid(ix) && name in ix.classes && ix.classes[name].superClass.Some?
    ensures ix.classes[name].superClass.value in ix.classes
    ensures SuperChain(ix, name) == [ix.classes[name]] + SuperChain(ix, ix.classes[name].superClass.value)
  {
    var c := ix.classes[name];
    var s := c.superClass.value;
    assert ReachesRoot(ix, name, |ix.classes|);
    assert ReachesRoot(ix, s, |ix.classes| - 1);
    var q := SuperChain(ix, s);
    var p := [c] + q;
    forall i | 0 < i < |p|
      ensures p[i - 1].superClass == Some(p[i].name)
      ensures p[i].name in ix.classes && ix.classes[p[i].name] == p[i]
    {
      assert p[i] == q[i - 1];
      if i > 1 {
        assert p[i - 1] == q[i - 2];
      }
    }
    assert IsPathToRoot(ix, name, p);
    PathToRootUnique(ix, name, SuperChain(ix, name), p);
  }

}
