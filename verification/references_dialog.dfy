/** Decoding the language process's answer to a find-references request
    into the rows of the references dialog.

    The answer is a YAML document, already parsed into a node tree:
    a sequence whose element 0 is the queried symbol and whose element 1 is
    a sequence of references, each a sequence
    `[className, methodName, path, charPos]`. */
module ReferencesDialog {
  import opened Wrappers
  import opened ScLanguage
  import opened DialogItems

  /** A parsed YAML node. `Other` stands for any node that is neither a
      scalar nor a sequence (a mapping or a null); the decoder rejects it
      wherever it occurs. */
  datatype Node = Scalar(text: string) | Sequence(items: seq<Node>) | Other

  /** One reference record, its fields as they arrived. */
  datatype Reference = Reference(className: string, methodName: string, path: string, charPos: int)

  // ---------------------------------------------------------------------
  // Scalar conversion to a 32-bit int

  const IntMin: int := -0x8000_0000
  const IntMax: int := 0x7fff_ffff

  predicate IsDigit(ch: char)
  {
    '0' <= ch <= '9'
  }

  predicate AllDigits(s: string)
  {
    forall i :: 0 <= i < |s| ==> IsDigit(s[i])
  }

  /** The value of a string of decimal digits, most significant first. */
  function DigitsValue(s: string): nat
    requires AllDigits(s)
    decreases |s|
  {
    if |s| == 0 then 0
    else DigitsValue(s[..|s| - 1]) * 10 + ((s[|s| - 1] as int) - ('0' as int))
  }

  /** Reads a scalar as an `int`: an optional sign, then one or more decimal
      digits, with a value that fits in 32 bits. */
  function ScalarToInt(text: string): (r: Option<int>)
    ensures r.Some? ==> IntMin <= r.value <= IntMax
  {
    var signed := |text| > 0 && (text[0] == '-' || text[0] == '+');
    var digits := if signed then text[1..] else text;
    if |digits| == 0 || !AllDigits(digits) then None
    else
      var magnitude: int := DigitsValue(digits);
      var v := if signed && text[0] == '-' then -magnitude else magnitude;
      if IntMin <= v <= IntMax then Some(v) else None
  }

  /** The shortest decimal spelling of `n`. */
  function NaturalText(n: nat): (s: string)
    ensures |s| > 0 && AllDigits(s)
    decreases n
  {
    var last := [(('0' as int) + n % 10) as char];
    if n < 10 then last else NaturalText(n / 10) + last
  }

  /** The decimal spelling of `n`, with a leading '-' when negative. */
  function IntText(n: int): string
  {
    if n < 0 then "-" + NaturalText(-n) else NaturalText(n)
  }

  lemma {:induction false} NaturalTextValue(n: nat)
    ensures DigitsValue(NaturalText(n)) == n
    decreases n
  {
    var s := NaturalText(n);
    if n >= 10 {
      NaturalTextValue(n / 10);
      assert s[..|s| - 1] == NaturalText(n / 10);
    }
  }

  /** Reading back the decimal spelling of a 32-bit value gives the value. */
  lemma ScalarToIntReadsIntText(n: int)
    requires IntMin <= n <= IntMax
    ensures ScalarToInt(IntText(n)) == Some(n)
  {
    if n < 0 {
      NaturalTextValue(-n);
      assert IntText(n)[1..] == NaturalText(-n);
    } else {
      NaturalTextValue(n);
      assert IsDigit(NaturalText(n)[0]);
    }
  }

  // ---------------------------------------------------------------------
  // Decoding

  /** Element `i` of a sequence node; nothing for any other node or an
      index past the end. */
  function ElementAt(n: Node, i: nat): Option<Node>
  {
    if n.Sequence? && i < |n.items| then Some(n.items[i]) else None
  }

  /** A node read as a string: only a scalar has one. */
  function AsString(n: Option<Node>): Option<string>
  {
    if n.Some? && n.value.Scalar? then Some(n.value.text) else None
  }

  /** A node read as an int: a scalar whose text converts. */
  function AsInt(n: Option<Node>): Option<int>
  {
    if n.Some? && n.value.Scalar? then ScalarToInt(n.value.text) else None
  }

  /** A reference record: its elements 0 to 3, which must exist and have the
      right kinds; elements after them are ignored. */
  function DecodeReference(n: Node): (r: Option<Reference>)
    ensures r.Some? <==>
      && n.Sequence? && |n.items| >= 4
      && n.items[0].Scalar? && n.items[1].Scalar? && n.items[2].Scalar? && n.items[3].Scalar?
      && ScalarToInt(n.items[3].text).Some?
    ensures r.Some? ==>
      r.value == Reference(n.items[0].text, n.items[1].text, n.items[2].text, ScalarToInt(n.items[3].text).value)
  {
    var className := AsString(ElementAt(n, 0));
    var methodName := AsString(ElementAt(n, 1));
    var path := AsString(ElementAt(n, 2));
    var charPos := AsInt(ElementAt(n, 3));
    if className.Some? && methodName.Some? && path.Some? && charPos.Some? then
      Some(Reference(className.value, methodName.value, path.value, charPos.value))
    else None
  }

  /** All records, in order; a single bad record spoils the lot. */
  function DecodeReferences(records: seq<Node>): (r: Option<seq<Reference>>)
    ensures r.None? <==> exists i :: 0 <= i < |records| && DecodeReference(records[i]).None?
    ensures r.Some? ==> |r.value| == |records|
    ensures r.Some? ==> forall i :: 0 <= i < |records| ==> Some(r.value[i]) == DecodeReference(records[i])
    decreases |records|
  {
    if |records| == 0 then Some([])
    else
      var head := DecodeReference(records[0]);
      var tail := DecodeReferences(records[1..]);
      if head.None? then None
      else if tail.None? then
        var i :| 0 <= i < |records[1..]| && DecodeReference(records[1..][i]).None?;
        assert records[i + 1] == records[1..][i];
        None
      else
        assert forall i :: 1 <= i < |records| ==> records[i] == records[1..][i - 1];
        Some([head.value] + tail.value)
  }

  /** The whole document: a sequence whose element 0 is a scalar (the
      symbol) and whose element 1 is the sequence of records. Any other
      shape, or a single bad record, gives nothing; elements after the
      first two are ignored. */
  function DecodeResponse(doc: Node): (r: Option<seq<Reference>>)
    ensures r.Some? <==>
      && doc.Sequence? && |doc.items| >= 2
      && doc.items[0].Scalar? && doc.items[1].Sequence?
      && DecodeReferences(doc.items[1].items).Some?
    ensures r.Some? ==> |r.value| == |doc.items[1].items|
    ensures r.Some? ==> forall i :: 0 <= i < |r.value| ==>
      Some(r.value[i]) == DecodeReference(doc.items[1].items[i])
  {
    var symbol := AsString(ElementAt(doc, 0));
    var references := ElementAt(doc, 1);
    if symbol.Some? && references.Some? && references.value.Sequence? then
      DecodeReferences(references.value.items)
    else None
  }

  /** The row shown for a reference: its "Class.method" label, its compacted
      path, and the path and position verbatim. */
  function ReferenceRow(ix: Introspection, ext: Externals, ref: Reference): Row
  {
    Row(ext.makeFullMethodName(ref.className, ref.methodName), ix.compactLibraryPath(ref.path),
        ref.path, ref.charPos, false)
  }

  /** The row of each reference, in order. */
  function ReferenceRows(ix: Introspection, ext: Externals, refs: seq<Reference>): seq<Row>
  {
    seq(|refs|, i requires 0 <= i < |refs| => ReferenceRow(ix, ext, refs[i]))
  }

  /** `ReferencesDialog::parse`: no model while the index is not available
      (display paths need it) or when there is no document; otherwise one
      row per record, in payload order, or no model at all if the document
      has the wrong shape anywhere. */
  function Parse(ix: Introspection, ext: Externals, doc: Option<Node>): (r: Option<seq<Row>>)
    ensures !ix.available || doc.None? ==> r.None?
    ensures r.Some? ==>
      && doc.Some? && doc.value.Sequence? && |doc.value.items| >= 2
      && doc.value.items[0].Scalar? && doc.value.items[1].Sequence?
    ensures r.Some? ==>
      var records := doc.value.items[1].items;
      && |r.value| == |records|
      && forall i :: 0 <= i < |records| ==>
           && DecodeReference(records[i]).Some?
           && r.value[i] == ReferenceRow(ix, ext, DecodeReference(records[i]).value)
    ensures ix.available && doc.Some? && doc.value.Sequence? && |doc.value.items| >= 2
            && doc.value.items[0].Scalar? && doc.value.items[1].Sequence? ==>
      (r.None? <==> exists i :: 0 <= i < |doc.value.items[1].items|
                               && DecodeReference(doc.value.items[1].items[i]).None?)
  {
    if !ix.available then None
    else if doc.None? then None
    else
      match DecodeResponse(doc.value)
      case None => None
      case Some(refs) => Some(ReferenceRows(ix, ext, refs))
  }

  // ---------------------------------------------------------------------
  // An encoder for the answer shape the decoder expects, and the round trip

  function EncodeReference(ref: Reference): Node
  {
    Sequence([Scalar(ref.className), Scalar(ref.methodName), Scalar(ref.path), Scalar(IntText(ref.charPos))])
  }

  function EncodeResponse(symbol: string, refs: seq<Reference>): Node
  {
    Sequence([Scalar(symbol), Sequence(seq(|refs|, i requires 0 <= i < |refs| => EncodeReference(refs[i])))])
  }

  predicate PositionsFit(refs: seq<Reference>)
  {
    forall i :: 0 <= i < |refs| ==> IntMin <= refs[i].charPos <= IntMax
  }

  lemma DecodeEncodedReference(ref: Reference)
    requires IntMin <= ref.charPos <= IntMax
    ensures DecodeReference(EncodeReference(ref)) == Some(ref)
  {
    ScalarToIntReadsIntText(ref.charPos);
  }

  /** Decoding an encoded answer gives back its references
      in the same order. */
  lemma DecodeEncodedResponse(symbol: string, refs: seq<Reference>)
    requires PositionsFit(refs)
    ensures DecodeResponse(EncodeResponse(symbol, refs)) == Some(refs)
  {
    var records := EncodeResponse(symbol, refs).items[1].items;
    forall i | 0 <= i < |records|
      ensures DecodeReference(records[i]) == Some(refs[i])
    {
      DecodeEncodedReference(refs[i]);
    }
    var r := DecodeReferences(records);
    assert r.Some?;
    assert r.value == refs;
  }

  /** With the index available, the rows for an encoded answer are the
      rows of its references, one each, in the order they were sent. */
  lemma ParseEncodedResponse(ix: Introspection, ext: Externals, symbol: string, refs: seq<Reference>)
    requires ix.available && PositionsFit(refs)
    ensures Parse(ix, ext, Some(EncodeResponse(symbol, refs))).Some?
    ensures var rows := Parse(ix, ext, Some(EncodeResponse(symbol, refs))).value;
      && |rows| == |refs|
      && forall i :: 0 <= i < |refs| ==>
           rows[i] == Row(ext.makeFullMethodName(refs[i].className, refs[i].methodName),
                          ix.compactLibraryPath(refs[i].path), refs[i].path, refs[i].charPos, false)
  {
    DecodeEncodedResponse(symbol, refs);
  }

  /** A record that is not a sequence of at least four elements rejects the
      whole answer. */
  lemma ShortRecordRejectsResponse(ix: Introspection, ext: Externals, doc: Node, k: nat)
    requires doc.Sequence? && |doc.items| >= 2 && doc.items[1].Sequence?
    requires k < |doc.items[1].items|
    requires !doc.items[1].items[k].Sequence? || |doc.items[1].items[k].items| < 4
    ensures Parse(ix, ext, Some(doc)).None?
  {
    assert DecodeReference(doc.items[1].items[k]).None?;
  }

}
