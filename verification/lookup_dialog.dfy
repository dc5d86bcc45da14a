/** The query logic of the definition look-up dialog: how a typed symbol is
    resolved against the introspection index into a result model, and what
    accepting a row of that model does. */
module LookupDialog {
  import opened Wrappers
  import opened ScLanguage
  import opened DialogItems

  /** The row for a method: its signature, where it is defined. */
  function MethodRow(ix: Introspection, ext: Externals, m: Method): Row
  {
    Row(ext.signature(m), ix.compactLibraryPath(m.definition.path),
        m.definition.path, m.definition.position, false)
  }

  /** The row for a class: its name, where it is defined. */
  function ClassRow(ix: Introspection, c: Class): Row
  {
    Row(c.name, ix.compactLibraryPath(c.definition.path),
        c.definition.path, c.definition.position, true)
  }

  /** One method row per method, in the given order. */
  function MethodRows(ix: Introspection, ext: Externals, ms: seq<Method>): (r: seq<Row>)
    ensures |r| == |ms|
    ensures forall i :: 0 <= i < |r| ==> r[i] == MethodRow(ix, ext, ms[i])
    ensures ClassEntries(r) == []
    decreases |ms|
  {
    if |ms| == 0 then []
    else
      var t := MethodRows(ix, ext, ms[1..]);
      assert ([MethodRow(ix, ext, ms[0])] + t)[1..] == t;
      [MethodRow(ix, ext, ms[0])] + t
  }

  /** One class row per class, in the given order. */
  function ClassRows(ix: Introspection, cs: seq<Class>): (r: seq<Row>)
    ensures |r| == |cs|
    ensures forall i :: 0 <= i < |r| ==> r[i] == ClassRow(ix, cs[i])
    ensures ClassEntries(r) == r
    decreases |cs|
  {
    if |cs| == 0 then []
    else
      var t := ClassRows(ix, cs[1..]);
      assert ([ClassRow(ix, cs[0])] + t)[1..] == t;
      [ClassRow(ix, cs[0])] + t
  }

  /** The rows one class contributes to a class look-up: the class, then
      its metaclass methods, then its instance methods. */
  function ClassBlock(ix: Introspection, ext: Externals, c: Class): seq<Row>
  {
    [ClassRow(ix, c)] + MethodRows(ix, ext, c.metaMethods) + MethodRows(ix, ext, c.methods)
  }

  /** The blocks of the classes of `chain`, in chain order. */
  function ChainRows(ix: Introspection, ext: Externals, chain: seq<Class>): seq<Row>
    decreases |chain|
  {
    if |chain| == 0 then [] else ClassBlock(ix, ext, chain[0]) + ChainRows(ix, ext, chain[1..])
  }

  /** Rows a chain of classes contributes: one per class and one per method
      of its metaclass and of itself. */
  function ChainRowCount(chain: seq<Class>): nat
    decreases |chain|
  {
    if |chain| == 0 then 0
    else 1 + |chain[0].metaMethods| + |chain[0].methods| + ChainRowCount(chain[1..])
  }

  /** Exact class look-up: `None` for an unknown class; otherwise the blocks
      of the class and of each ancestor up to the root, unsorted. */
  function ModelForClass(ix: Introspection, ext: Externals, className: string): (r: Option<seq<Row>>)
    requires Valid(ix)
    ensures r.None? <==> className !in ix.classes
    ensures r.Some? ==> |r.value| > 0 && r.value[0] == ClassRow(ix, ix.classes[className])
  {
    if className !in ix.classes then None
    else Some(ChainRows(ix, ext, SuperChain(ix, className)))
  }

  /** Exact method look-up: `None` when no method is filed under the name;
      otherwise one row per such method, sorted by signature. */
  function ModelForMethod(ix: Introspection, ext: Externals, methodName: string): (r: Option<seq<Row>>)
    ensures r.None? <==> |MethodsNamed(ix, methodName)| == 0
    ensures r.Some? ==> multiset(r.value) == multiset(MethodRows(ix, ext, MethodsNamed(ix, methodName)))
    ensures r.Some? ==> SortedByName(r.value)
    ensures r.Some? ==> |r.value| == |MethodsNamed(ix, methodName)|
    ensures r.Some? ==> forall i :: 0 <= i < |r.value| ==> !r.value[i].isClass
  {
    var matching := MethodsNamed(ix, methodName);
    if |matching| == 0 then None
    else
      var rows := SortRows(MethodRows(ix, ext, matching));
      NoClassEntries(rows);
      Some(rows)
  }

  /** The substring model built from the methods and classes the two
      substring searches found: `None` when both are empty; otherwise one
      row per method found and one per class found, all sorted together by
      name. */
  function PartialModel(ix: Introspection, ext: Externals, methods: seq<Method>, classes: seq<Class>): (r: Option<seq<Row>>)
    ensures r.None? <==> |classes| == 0 && |methods| == 0
    ensures r.Some? ==>
      multiset(r.value) == multiset(MethodRows(ix, ext, methods)) + multiset(ClassRows(ix, classes))
    ensures r.Some? ==> SortedByName(r.value)
    ensures r.Some? ==> |r.value| == |methods| + |classes|
    ensures r.Some? ==> CountClassRows(r.value) == |classes|
  {
    if |classes| == 0 && |methods| == 0 then None
    else
      var unsorted := MethodRows(ix, ext, methods) + ClassRows(ix, classes);
      ClassEntriesAppend(MethodRows(ix, ext, methods), ClassRows(ix, classes));
      Some(SortRows(unsorted))
  }

  /** Substring look-up: runs both substring searches on the query and
      builds their `PartialModel`. */
  function ModelForPartialQuery(ix: Introspection, ext: Externals, query: string): (r: Option<seq<Row>>)
    ensures r.None? <==> |ix.findClassPartial(query)| == 0 && |ix.findMethodPartial(query)| == 0
    ensures r.Some? ==> SortedByName(r.value)
    ensures r.Some? ==> |r.value| == |ix.findMethodPartial(query)| + |ix.findClassPartial(query)|
    ensures r.Some? ==> CountClassRows(r.value) == |ix.findClassPartial(query)|
  {
    PartialModel(ix, ext, ix.findMethodPartial(query), ix.findClassPartial(query))
  }

  /** The search stages a query can run. */
  datatype Stage = ExactClass | ExactMethod | Partial

  /** What the dialog holds between queries: the query text, the result
      model shown (`None` for no model) and whether that model came from a
      substring search. */
  datatype DialogState = DialogState(query: string, model: Option<seq<Row>>, isPartial: bool)

  /** The dialog after a query, and the stages the query ran in order. */
  datatype QueryRun = QueryRun(state: DialogState, stages: seq<Stage>)

  /** Runs the query in `st.query`: nothing for an empty query (the model is
      cleared) or an index that is not yet available (nothing changes);
      otherwise the exact stage chosen by the first character, and the
      substring stage if that one found nothing. */
  function PerformQuery(ix: Introspection, ext: Externals, st: DialogState): (run: QueryRun)
    requires Valid(ix)
    ensures run.state.query == st.query
    ensures |st.query| == 0 ==>
      run.stages == [] && run.state == st.(model := None)
    ensures |st.query| > 0 && !ix.available ==>
      run.stages == [] && run.state == st
    ensures |st.query| > 0 && ix.available ==>
      && 1 <= |run.stages| <= 2
      && run.stages[0] == (if ext.isUpper(st.query[0]) then ExactClass else ExactMethod)
      && !(ExactClass in run.stages && ExactMethod in run.stages)
      && (|run.stages| == 2 ==> run.stages[1] == Partial)
    ensures run.stages == [ExactClass] ==>
      run.state.model == ModelForClass(ix, ext, st.query) && run.state.model.Some? && !run.state.isPartial
    ensures run.stages == [ExactMethod] ==>
      run.state.model == ModelForMethod(ix, ext, st.query) && run.state.model.Some? && !run.state.isPartial
    ensures Partial in run.stages ==>
      && (ExactClass in run.stages ==> ModelForClass(ix, ext, st.query).None?)
      && (ExactMethod in run.stages ==> ModelForMethod(ix, ext, st.query).None?)
      && run.state.model == ModelForPartialQuery(ix, ext, st.query)
      && (run.state.isPartial <==> run.state.model.Some?)
  {
    var query := st.query;
    if |query| == 0 then
      QueryRun(st.(model := None), [])
    else if !ix.available then
      QueryRun(st, [])
    else
      var exactStage := if ext.isUpper(query[0]) then ExactClass else ExactMethod;
      var exact := if exactStage == ExactClass then ModelForClass(ix, ext, query)
                   else ModelForMethod(ix, ext, query);
      if exact.Some? then
        QueryRun(DialogState(query, exact, false), [exactStage])
      else
        var partial := ModelForPartialQuery(ix, ext, query);
        QueryRun(DialogState(query, partial, partial.Some?), [exactStage, Partial])
  }

  /** The row at position `row` of the shown model, if there is one. */
  function CurrentItem(st: DialogState, row: int): Option<Row>
  {
    if st.model.Some? && 0 <= row < |st.model.value| then Some(st.model.value[row]) else None
  }

  /** What accepting a row leads to: the dialog is rejected, a document is
      opened at a location, or the dialog runs a new query. */
  datatype AcceptOutcome = Rejected | Opened(path: string, position: int) | Requeried(run: QueryRun)

  /** Accepting in the generic dialog: reject without an item, otherwise
      open the item's stored path at its stored position. */
  function GenericAccept(item: Option<Row>): AcceptOutcome
  {
    match item
    case None => Rejected
    case Some(row) => Opened(row.path, row.position)
  }

  /** Accepting the row at position `row` in the look-up dialog. After a
      substring search a class row is not opened: its name becomes the query
      and the query runs again. Every other row behaves as in the generic
      dialog. */
  function OnAccepted(ix: Introspection, ext: Externals, st: DialogState, row: int): (r: AcceptOutcome)
    requires Valid(ix)
    ensures CurrentItem(st, row).None? ==> r == Rejected
    ensures CurrentItem(st, row).Some? && (!st.isPartial || !CurrentItem(st, row).value.isClass) ==>
      r == Opened(CurrentItem(st, row).value.path, CurrentItem(st, row).value.position)
    ensures r.Requeried? <==> st.isPartial && CurrentItem(st, row).Some? && CurrentItem(st, row).value.isClass
    ensures r.Requeried? ==>
      r.run == PerformQuery(ix, ext, st.(query := CurrentItem(st, row).value.name))
  {
    var item := CurrentItem(st, row);
    if !st.isPartial then GenericAccept(item)
    else if item.None? then Rejected
    else if !item.value.isClass then GenericAccept(item)
    else Requeried(PerformQuery(ix, ext, st.(query := item.value.name)))
  }

  // ---------------------------------------------------------------------
  // Properties of the class look-up

  lemma {:induction false} ChainRowsAppendBlock(ix: Introspection, ext: Externals, c: Class, q: seq<Class>)
    ensures ChainRows(ix, ext, [c] + q) == ClassBlock(ix, ext, c) + ChainRows(ix, ext, q)
  {
    assert ([c] + q)[0] == c;
    assert ([c] + q)[1..] == q;
  }

  /** The layout of a class look-up: the class row, the metaclass methods
      and the instance methods of the queried class in declared order, and
      after them exactly the rows a look-up of its superclass would show. */
  lemma ClassModelUnfolds(ix: Introspection, ext: Externals, className: string)
    requires Valid(ix) && className in ix.classes
    ensures var c := ix.classes[className];
      c.superClass.None? ==>
        ModelForClass(ix, ext, className) ==
          Some([ClassRow(ix, c)] + MethodRows(ix, ext, c.metaMethods) + MethodRows(ix, ext, c.methods))
    ensures var c := ix.classes[className];
      c.superClass.Some? ==>
        && c.superClass.value in ix.classes
        && ModelForClass(ix, ext, className) ==
             Some([ClassRow(ix, c)] + MethodRows(ix, ext, c.metaMethods) + MethodRows(ix, ext, c.methods)
                  + ModelForClass(ix, ext, c.superClass.value).value)
  {
    var c := ix.classes[className];
    var p := SuperChain(ix, className);
    PathFirstLink(ix, className, p);
    match c.superClass
    case None =>
      assert p == [c] + [];
      ChainRowsAppendBlock(ix, ext, c, []);
      assert ClassBlock(ix, ext, c) + [] == ClassBlock(ix, ext, c);
    case Some(s) =>
      SuperChainStep(ix, className);
      ChainRowsAppendBlock(ix, ext, c, SuperChain(ix, s));
  }

  lemma {:induction false} ChainRowsLength(ix: Introspection, ext: Externals, chain: seq<Class>)
    ensures |ChainRows(ix, ext, chain)| == ChainRowCount(chain)
    decreases |chain|
  {
    if |chain| > 0 {
      ChainRowsLength(ix, ext, chain[1..]);
    }
  }

  /** A class look-up shows one row per class on the path to the root and
      one per metaclass and instance method of each of those classes. */
  lemma ClassModelRowCount(ix: Introspection, ext: Externals, className: string)
    requires Valid(ix) && className in ix.classes
    ensures |ModelForClass(ix, ext, className).value| == ChainRowCount(SuperChain(ix, className))
  {
    ChainRowsLength(ix, ext, SuperChain(ix, className));
  }

  lemma {:induction false} ChainRowsClassEntries(ix: Introspection, ext: Externals, chain: seq<Class>)
    ensures ClassEntries(ChainRows(ix, ext, chain)) == ClassRows(ix, chain)
    decreases |chain|
  {
    if |chain| > 0 {
      var c := chain[0];
      var meta := MethodRows(ix, ext, c.metaMethods);
      var own := MethodRows(ix, ext, c.methods);
      ChainRowsClassEntries(ix, ext, chain[1..]);
      ClassEntriesAppend([ClassRow(ix, c)], meta);
      ClassEntriesAppend([ClassRow(ix, c)] + meta, own);
      ClassEntriesAppend(ClassBlock(ix, ext, c), ChainRows(ix, ext, chain[1..]));
      assert ClassEntries([ClassRow(ix, c)]) == [ClassRow(ix, c)] by {
        assert [ClassRow(ix, c)][1..] == [];
      }
      var rest := ClassRows(ix, chain[1..]);
      assert ClassRows(ix, chain) == [ClassRow(ix, c)] + rest;
    }
  }

  /** The class rows of a class look-up are exactly the classes on the
      path from the queried class to the root, in that order. */
  lemma ClassModelClassRows(ix: Introspection, ext: Externals, className: string)
    requires Valid(ix) && className in ix.classes
    ensures IsPathToRoot(ix, className, SuperChain(ix, className))
    ensures ClassEntries(ModelForClass(ix, ext, className).value) == ClassRows(ix, SuperChain(ix, className))
  {
    ChainRowsClassEntries(ix, ext, SuperChain(ix, className));
  }

  // ---------------------------------------------------------------------
  // Properties of the query as a whole

  /** Running a query again on the dialog it left behind changes nothing. */
  lemma PerformQueryIdempotent(ix: Introspection, ext: Externals, st: DialogState)
    requires Valid(ix)
    ensures PerformQuery(ix, ext, PerformQuery(ix, ext, st).state).state == PerformQuery(ix, ext, st).state
  {
  }

  /** Every class row of a substring model is the row of one of the
      classes the substring search found: the rows are a permutation of the
      method rows and the class rows, and method rows are never class rows. */
  lemma PartialClassRowFound(ix: Introspection, ext: Externals, methods: seq<Method>, classes: seq<Class>,
                             rows: seq<Row>, x: Row)
    requires multiset(rows) == multiset(MethodRows(ix, ext, methods)) + multiset(ClassRows(ix, classes))
    requires x in rows && x.isClass
    ensures exists j :: 0 <= j < |classes| && x == ClassRow(ix, classes[j])
  {
    var ms := MethodRows(ix, ext, methods);
    var cs := ClassRows(ix, classes);
    assert x in multiset(rows);
    NoClassEntries(ms);
    assert x !in multiset(ms);
    assert x in cs;
    var j :| 0 <= j < |cs| && cs[j] == x;
    assert x == ClassRow(ix, classes[j]);
  }

  /** The substring search for classes only returns classes of the index. */
  ghost predicate PartialClassesIndexed(ix: Introspection)
  {
    forall q: string, j :: 0 <= j < |ix.findClassPartial(q)| ==>
      ix.findClassPartial(q)[j].name in ix.classes
  }

  /** Class names start with an upper-case character. */
  predicate ClassNamesCapitalized(ix: Introspection, ext: Externals)
  {
    forall n :: n in ix.classes ==> |n| > 0 && ext.isUpper(n[0])
  }

  /** Accepting a class row while the dialog is in substring mode, when the
      row names a class of the index with a capitalised name, runs the exact
      class look-up of that class and leaves substring mode. */
  lemma AcceptClassRowRequeries(ix: Introspection, ext: Externals, st: DialogState, row: int)
    requires Valid(ix) && ix.available
    requires st.isPartial && CurrentItem(st, row).Some? && CurrentItem(st, row).value.isClass
    requires var name := CurrentItem(st, row).value.name;
      name in ix.classes && |name| > 0 && ext.isUpper(name[0])
    ensures var name := CurrentItem(st, row).value.name;
      && OnAccepted(ix, ext, st, row).Requeried?
      && OnAccepted(ix, ext, st, row).run.stages == [ExactClass]
      && OnAccepted(ix, ext, st, row).run.state == DialogState(name, ModelForClass(ix, ext, name), false)
      && ModelForClass(ix, ext, name).Some?
  {
  }

  /** Accepting a class row of a substring result runs the exact class
      look-up of that class: its model is shown and the dialog leaves
      substring mode. `shown` is the dialog a substring stage leaves behind
      (the last case of `PerformQuery`). */
  lemma AcceptPartialClassRowLooksUpClass(ix: Introspection, ext: Externals, shown: DialogState, row: int)
    requires Valid(ix) && PartialClassesIndexed(ix) && ClassNamesCapitalized(ix, ext)
    requires ix.available
    requires shown.isPartial && shown.model == ModelForPartialQuery(ix, ext, shown.query)
    requires CurrentItem(shown, row).Some? && CurrentItem(shown, row).value.isClass
    ensures var name := CurrentItem(shown, row).value.name;
      && name in ix.classes
      && OnAccepted(ix, ext, shown, row).Requeried?
      && OnAccepted(ix, ext, shown, row).run.stages == [ExactClass]
      && OnAccepted(ix, ext, shown, row).run.state ==
           DialogState(name, ModelForClass(ix, ext, name), false)
  {
    var x := CurrentItem(shown, row).value;
    var classes := ix.findClassPartial(shown.query);
    PartialClassRowFound(ix, ext, ix.findMethodPartial(shown.query), classes, shown.model.value, x);
    var j :| 0 <= j < |classes| && x == ClassRow(ix, classes[j]);
    assert x.name in ix.classes;
    AcceptClassRowRequeries(ix, ext, shown, row);
  }

}
