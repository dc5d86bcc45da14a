/** The rows of a look-up result model and the sort applied to them.

    A `Row` is what `GenericLookupDialog::makeDialogItem` builds: the
    column-0 item carrying the displayed name together with the target path,
    the character position and the is-class flag in its data roles, and the
    column-1 item carrying the display path. */
module DialogItems {
  import opened TextOrder

  datatype Row = Row(name: string, displayPath: string, path: string, position: int, isClass: bool)

  /** The class rows of `s`, in the order they occur. */
  function ClassEntries(s: seq<Row>): seq<Row>
    decreases |s|
  {
    if |s| == 0 then [] else (if s[0].isClass then [s[0]] else []) + ClassEntries(s[1..])
  }

  /** The number of rows of `s` whose is-class flag is set. */
  function CountClassRows(s: seq<Row>): nat
  {
    |ClassEntries(s)|
  }

  lemma {:induction false} ClassEntriesAppend(a: seq<Row>, b: seq<Row>)
    ensures ClassEntries(a + b) == ClassEntries(a) + ClassEntries(b)
    decreases |a|
  {
    if |a| == 0 {
      assert a + b == b;
    } else {
      var h := if a[0].isClass then [a[0]] else [];
      assert (a + b)[0] == a[0];
      assert (a + b)[1..] == a[1..] + b;
      ClassEntriesAppend(a[1..], b);
      calc {
        ClassEntries(a + b);
        h + ClassEntries(a[1..] + b);
        h + (ClassEntries(a[1..]) + ClassEntries(b));
        (h + ClassEntries(a[1..])) + ClassEntries(b);
      }
    }
  }

  lemma {:induction false} NoClassEntries(s: seq<Row>)
    ensures CountClassRows(s) == 0 <==> forall i :: 0 <= i < |s| ==> !s[i].isClass
    decreases |s|
  {
    if |s| > 0 {
      NoClassEntries(s[1..]);
      assert forall i :: 1 <= i < |s| ==> s[i] == s[1..][i - 1];
    }
  }

  /** Ascending by the column-0 text, which is what `sort(0)` on the model
      establishes. */
  predicate SortedByName(s: seq<Row>)
  {
    forall i, j :: 0 <= i < j < |s| ==> LessEq(s[i].name, s[j].name)
  }

  lemma SortedPrepend(y: Row, t: seq<Row>)
    requires SortedByName(t)
    requires forall k :: 0 <= k < |t| ==> LessEq(y.name, t[k].name)
    ensures SortedByName([y] + t)
  {
    var s := [y] + t;
    forall i, j | 0 <= i < j < |s|
      ensures LessEq(s[i].name, s[j].name)
    {
      assert s[j] == t[j - 1];
      if i > 0 {
        assert s[i] == t[i - 1];
      }
    }
  }

  /** `x` is at or below every row of the sorted sequence `s` whose first
      row it does not exceed. */
  lemma BelowHeadBelowAll(x: Row, s: seq<Row>)
    requires SortedByName(s) && |s| > 0 && LessEq(x.name, s[0].name)
    ensures forall k :: 0 <= k < |s| ==> LessEq(x.name, s[k].name)
  {
    forall k | 0 <= k < |s|
      ensures LessEq(x.name, s[k].name)
    {
      if k > 0 {
        LessEqTransitive(x.name, s[0].name, s[k].name);
      }
    }
  }

  /** The first row of a sorted `s` is at or below `x`, when `x` exceeds it,
      and at or below every row of `t`, whose rows are `x` or rows of `s`. */
  lemma HeadBelowInserted(x: Row, s: seq<Row>, t: seq<Row>)
    requires SortedByName(s) && |s| > 0 && !LessEq(x.name, s[0].name)
    requires forall k :: 0 <= k < |t| ==> t[k] == x || t[k] in s[1..]
    ensures forall k :: 0 <= k < |t| ==> LessEq(s[0].name, t[k].name)
  {
    forall k | 0 <= k < |t|
      ensures LessEq(s[0].name, t[k].name)
    {
      if t[k] == x {
        LessEqTotal(x.name, s[0].name);
      } else {
        var m :| 0 <= m < |s[1..]| && s[1..][m] == t[k];
        assert s[m + 1] == t[k];
      }
    }
  }

  /** What `Insert` promises about its result `r`. */
  predicate InsertedInto(x: Row, s: seq<Row>, r: seq<Row>)
  {
    && SortedByName(r)
    && |r| == |s| + 1
    && multiset(r) == multiset(s) + multiset{x}
    && (forall k :: 0 <= k < |r| ==> r[k] == x || r[k] in s)
    && CountClassRows(r) == CountClassRows(s) + (if x.isClass then 1 else 0)
  }

  lemma InsertInFront(x: Row, s: seq<Row>)
    requires SortedByName(s) && |s| > 0 && LessEq(x.name, s[0].name)
    ensures InsertedInto(x, s, [x] + s)
  {
    BelowHeadBelowAll(x, s);
    SortedPrepend(x, s);
    ClassEntriesAppend([x], s);
    assert [x][1..] == [];
  }

  lemma InsertBehindHead(x: Row, s: seq<Row>, t: seq<Row>)
    requires SortedByName(s) && |s| > 0 && !LessEq(x.name, s[0].name)
    requires InsertedInto(x, s[1..], t)
    ensures InsertedInto(x, s, [s[0]] + t)
  {
    HeadBelowInserted(x, s, t);
    SortedPrepend(s[0], t);
    ClassEntriesAppend([s[0]], t);
    ClassEntriesAppend([s[0]], s[1..]);
    assert s == [s[0]] + s[1..];
    var r := [s[0]] + t;
    forall k | 0 <= k < |r|
      ensures r[k] == x || r[k] in s
    {
      if k > 0 {
        assert r[k] == t[k - 1];
      }
    }
  }

  /** Inserts `x` into the sorted `s` before the first row it does not exceed. */
  function Insert(x: Row, s: seq<Row>): (r: seq<Row>)
    requires SortedByName(s)
    ensures SortedByName(r)
    ensures |r| == |s| + 1
    ensures multiset(r) == multiset(s) + multiset{x}
    ensures forall k :: 0 <= k < |r| ==> r[k] == x || r[k] in s
    ensures CountClassRows(r) == CountClassRows(s) + (if x.isClass then 1 else 0)
    decreases |s|
  {
    if |s| == 0 then
      assert [x][1..] == [];
      [x]
    else if LessEq(x.name, s[0].name) then
      InsertInFront(x, s);
      [x] + s
    else
      var t := Insert(x, s[1..]);
      InsertBehindHead(x, s, t);
      [s[0]] + t
  }

  /** Insertion sort by column-0 text. The contract does not fix the order
      of rows with equal names. */
  function SortRows(rows: seq<Row>): (r: seq<Row>)
    ensures SortedByName(r)
    ensures |r| == |rows|
    ensures multiset(r) == multiset(rows)
    ensures CountClassRows(r) == CountClassRows(rows)
    decreases |rows|
  {
    if |rows| == 0 then
      []
    else
      ClassEntriesAppend([rows[0]], rows[1..]);
      assert rows == [rows[0]] + rows[1..];
      Insert(rows[0], SortRows(rows[1..]))
  }

  /** A row of a sorted sequence has a name at or above its first row's. */
  lemma HeadIsLeast(s: seq<Row>, j: int)
    requires SortedByName(s) && 0 <= j < |s|
    ensures LessEq(s[0].name, s[j].name)
  {
    if j == 0 {
      LessEqReflexive(s[0].name);
    }
  }

  /** Dropping one row keeps a sequence sorted. */
  lemma SortedWithout(s: seq<Row>, j: int)
    requires SortedByName(s) && 0 <= j < |s|
    ensures SortedByName(s[..j] + s[j + 1..])
    ensures multiset(s[..j] + s[j + 1..]) == multiset(s) - multiset{s[j]}
  {
    var t := s[..j] + s[j + 1..];
    forall p, q | 0 <= p < q < |t|
      ensures LessEq(t[p].name, t[q].name)
    {
      var p' := if p < j then p else p + 1;
      var q' := if q < j then q else q + 1;
      assert t[p] == s[p'] && t[q] == s[q'];
    }
    assert s == s[..j] + [s[j]] + s[j + 1..];
  }

  /** When `s` is sorted and its first and `j`-th rows share a name, so do
      all rows between them. */
  lemma SameNameUpTo(s: seq<Row>, j: int)
    requires SortedByName(s) && 0 <= j < |s| && s[j].name == s[0].name
    ensures forall m :: 0 <= m <= j ==> s[m].name == s[0].name
  {
    forall m | 0 < m < j
      ensures s[m].name == s[0].name
    {
      LessEqAntisymmetric(s[m].name, s[j].name);
    }
  }

  /** Two sorted arrangements of the same rows start with the same name,
      and the first row of `a` sits at a position `j` of `b` up to which all
      of `b`'s rows carry that name. */
  lemma SortedHeadsAgree(a: seq<Row>, b: seq<Row>) returns (j: int)
    requires SortedByName(a) && SortedByName(b)
    requires multiset(a) == multiset(b) && |a| > 0
    ensures 0 <= j < |b| && b[j] == a[0]
    ensures forall m :: 0 <= m <= j ==> b[m].name == a[0].name
  {
    assert a[0] in multiset(b);
    j :| 0 <= j < |b| && b[j] == a[0];
    assert b[0] in multiset(a);
    var k :| 0 <= k < |a| && a[k] == b[0];
    HeadIsLeast(b, j);
    HeadIsLeast(a, k);
    LessEqAntisymmetric(a[0].name, b[0].name);
    SameNameUpTo(b, j);
  }

  /** If the rows of `a` after its first agree in name with `b` without its
      `j`-th row, and `b`'s rows up to `j` all carry `a[0]`'s name, then `a`
      and `b` agree in name everywhere. */
  lemma NamesAgreeAroundRemoval(a: seq<Row>, b: seq<Row>, j: int)
    requires |a| == |b| && 0 <= j < |b| && |a| > 0
    requires forall m :: 0 <= m <= j ==> b[m].name == a[0].name
    requires forall i :: 0 <= i < |a| - 1 ==> a[1..][i].name == (b[..j] + b[j + 1..])[i].name
    ensures forall i :: 0 <= i < |a| ==> a[i].name == b[i].name
  {
    var b' := b[..j] + b[j + 1..];
    forall i | 0 < i < |a|
      ensures a[i].name == b[i].name
    {
      assert a[1..][i - 1] == a[i];
      if i <= j {
        assert b'[i - 1] == b[i - 1];
      } else {
        assert b'[i - 1] == b[i];
      }
    }
  }

  /** Sorting fixes the sequence of names: two sorted rearrangements of the
      same rows show the same column-0 texts in the same order. */
  lemma {:induction false} SortedPermutationsAgreeOnNames(a: seq<Row>, b: seq<Row>)
    requires SortedByName(a) && SortedByName(b)
    requires multiset(a) == multiset(b)
    ensures |a| == |b|
    ensures forall i :: 0 <= i < |a| ==> a[i].name == b[i].name
    decreases |a|
  {
    assert |a| == |multiset(a)| == |multiset(b)| == |b|;
    if |a| > 0 {
      var j := SortedHeadsAgree(a, b);
      // Without a[0], b is a sorted arrangement of the rest of a.
      SortedWithout(b, j);
      assert a == [a[0]] + a[1..];
      assert multiset(a[1..]) == multiset(b[..j] + b[j + 1..]);
      SortedPermutationsAgreeOnNames(a[1..], b[..j] + b[j + 1..]);
      NamesAgreeAroundRemoval(a, b, j);
    }
  }

}
