# Look-up dialog query logic, modelled in Dafny

This project models the query logic of the SuperCollider IDE's look-up
dialogs (`editors/sc-ide/widgets/lookup_dialog.cpp`) without the Qt widgets
around it.

- **Definition look-up** (`LookupDialog`). A typed symbol is resolved against
  the introspection index. Whether the first character is upper-case picks
  exactly one exact stage: a class look-up or a method look-up. If that stage
  finds nothing, a substring ("partial") search runs instead.
  - A class look-up shows the class and each ancestor up to the root. Each
    class contributes its row, then its metaclass methods, then its instance
    methods, all in declared order and not sorted.
  - The method look-up and the substring search sort their rows by column-0
    text.
  - After a substring search, accepting a class row re-runs the query with
    that class name. Accepting any other row opens its location.
- **Reference decoding** (`ReferencesDialog.Parse`). The language process's
  YAML answer to a find-references request, already parsed into a node tree,
  becomes one row per reference record, in payload order. If any part of the
  answer has the wrong shape, there is no model at all.

Layout:

- `wrappers.dfy`: `Option`. `None` is the null model pointer.
- `text_order.dfy`: ordinal lexicographic order on strings (total, transitive,
  antisymmetric).
- `dialog_items.dfy`: `Row`, the two-column item `makeDialogItem` builds. Also
  the sort used for `model->sort(0)`: insertion sort, proved to return a sorted
  permutation.
- `sc_language.dfy`: the index. It has classes keyed by name, the
  name-to-methods multimap, the index invariant `Valid`, and the superclass
  walk.
- `lookup_dialog.dfy`: `modelForClass`, `modelForMethod`,
  `modelForPartialQuery`, `performQuery` with its three `perform*Query`
  helpers folded in, and both `onAccepted` handlers.
- `references_dialog.dfy`: node tree, scalar conversion, record decoding,
  `parse`, and an encoder for the answer shape the decoder expects, used to
  state the round trip.

Modelling choices:

- The dialog's mutable state is the value `DialogState(query, model,
  isPartial)`. `PerformQuery` returns the new state together with the search
  stages it ran, so "no index access" and "the method stage is never tried"
  can be stated as properties of that list.
- Navigation (`Main::documentManager()->open`) is the returned value
  `Opened(path, position)`.
- Bodies that are not part of this model are function-typed parameters:
  - fields of `Introspection`: `findClassPartial`, `findMethodPartial` and
    `compactLibraryPath`;
  - fields of `Externals`: `QChar::isUpper`, `Method::signature` and
    `makeFullMethodName`.
- The superclass walk has a bound: the number of classes. `Valid` states that
  every chain reaches a root within that bound, which means the chains are
  acyclic and stay inside the index. `IsPathToRoot` and `PathToRootUnique`
  describe the chain without mentioning the bound.

Behaviour of the code worth noting:

- A class look-up that fails falls straight through to the substring search.
  The exact method stage is not tried.
- An empty query clears the model before the index is consulted. An unavailable
  index leaves both the model and the partial flag unchanged, because the flag
  is reset only after that check.
- `parse` reads top-level elements 0 and 1 and record elements 0 to 3. Any
  further elements are ignored rather than rejected.
- `parse` reads the symbol at element 0 only to check that it is a scalar. The
  rows do not carry it.

## Model

| member | source | states |
|---|---|---|
| ScLanguage.ChainIsPathToRoot | editors/sc-ide/widgets/lookup_dialog.cpp:231-259 | following superclass links, cut off after the bound, yields a path from the class to a root when the chain is finite |
| ScLanguage.PathToRootUnique | editors/sc-ide/widgets/lookup_dialog.cpp:258 | a class has only one path to the root, so the walk's result does not depend on its bound |
| ScLanguage.SuperChain | editors/sc-ide/widgets/lookup_dialog.cpp:231-259 | on a valid index the walk visits the queried class, then each superclass, and ends at a class without a superclass |
| ScLanguage.SuperChainStep | editors/sc-ide/widgets/lookup_dialog.cpp:258 | the chain of a class with a superclass is that class followed by the superclass's chain |
| LookupDialog.MethodRows | editors/sc-ide/widgets/lookup_dialog.cpp:240-256 | one row per method in the given order, carrying signature, compacted path, path and position, none marked as a class |
| LookupDialog.ClassRows | editors/sc-ide/widgets/lookup_dialog.cpp:322-329 | one row per class in the given order, every one marked as a class |
| LookupDialog.ModelForClass | editors/sc-ide/widgets/lookup_dialog.cpp:220-261 | no model exactly when the class is unknown; otherwise the first row is the queried class's own row |
| LookupDialog.ClassModelUnfolds | editors/sc-ide/widgets/lookup_dialog.cpp:231-259 | the class row, then the metaclass methods, then the instance methods in declared order, followed by exactly the rows a look-up of the superclass shows; no re-sorting |
| LookupDialog.ClassModelRowCount | editors/sc-ide/widgets/lookup_dialog.cpp:231-259 | the row count is the sum over the chain of 1 + metaclass methods + instance methods |
| LookupDialog.ClassModelClassRows | editors/sc-ide/widgets/lookup_dialog.cpp:236-238 | the class rows are, in order, the classes on the path from the queried class to the root |
| LookupDialog.ModelForMethod | editors/sc-ide/widgets/lookup_dialog.cpp:264-291 | no model exactly when no method has the name; otherwise a sorted permutation of one row per matching method, none a class row |
| LookupDialog.PartialModel | editors/sc-ide/widgets/lookup_dialog.cpp:297-333 | from the methods and classes found: no model exactly when both are empty; otherwise a sorted permutation of one row per method and one per class, with as many class rows as classes found |
| LookupDialog.ModelForPartialQuery | editors/sc-ide/widgets/lookup_dialog.cpp:293-333 | the two substring searches on the query: no model exactly when both are empty; otherwise rows sorted by name, one per method and class found, with as many class rows as classes found |
| LookupDialog.PerformQuery | editors/sc-ide/widgets/lookup_dialog.cpp:143-176 | empty query: model cleared, no stage; index unavailable: nothing changes, no stage; otherwise the exact stage chosen by the first character, never both exact stages, and the substring stage exactly when that stage found nothing, with the partial flag set exactly when the substring stage produced a model |
| LookupDialog.PerformQueryIdempotent | editors/sc-ide/widgets/lookup_dialog.cpp:143-176 | re-running the query on the dialog it produced leaves the dialog as it was |
| LookupDialog.OnAccepted | editors/sc-ide/widgets/lookup_dialog.cpp:178-203 | rejects without an item; outside substring mode, or on a non-class row, opens the row's location; re-queries exactly for a class row in substring mode, with the row's text as the new query |
| LookupDialog.PartialClassRowFound | editors/sc-ide/widgets/lookup_dialog.cpp:322-331 | for any rows that are a permutation of the method rows and class rows, every class row is the row of one of the classes found |
| LookupDialog.AcceptClassRowRequeries | editors/sc-ide/widgets/lookup_dialog.cpp:178-202 | in substring mode, accepting a row naming an indexed class with a capitalised name runs only the exact class stage, shows that class's model and leaves substring mode |
| LookupDialog.AcceptPartialClassRowLooksUpClass | editors/sc-ide/widgets/lookup_dialog.cpp:194-202 | in the state a substring stage leaves behind, accepting a class row names an indexed class, runs only the exact class stage for it, shows its class model and leaves substring mode |
| DialogItems.SortRows | editors/sc-ide/widgets/lookup_dialog.cpp:289 | the sorted model is a permutation of its rows, ascending by column-0 text, with the same number of class rows |
| DialogItems.SortedPermutationsAgreeOnNames | editors/sc-ide/widgets/lookup_dialog.cpp:331 | any two sorted arrangements of the same rows show the same names in the same order, so the order does not depend on the sort's stability |
| ReferencesDialog.ScalarToInt | editors/sc-ide/widgets/lookup_dialog.cpp:429 | a converted position always fits in the C++ int range |
| ReferencesDialog.ScalarToIntReadsIntText | editors/sc-ide/widgets/lookup_dialog.cpp:429 | reading back the decimal spelling of any 32-bit value gives that value |
| ReferencesDialog.DecodeReference | editors/sc-ide/widgets/lookup_dialog.cpp:425-429 | a record decodes exactly when it is a sequence whose elements 0 to 2 are scalars and whose element 3 converts to an int, and then its fields are the texts of elements 0 to 2 and the converted element 3 |
| ReferencesDialog.DecodeResponse | editors/sc-ide/widgets/lookup_dialog.cpp:415-424 | a result exactly when the document is a sequence whose element 0 is a scalar and element 1 a sequence of records that all decode; then one reference per record, in order |
| ReferencesDialog.DecodeReferences | editors/sc-ide/widgets/lookup_dialog.cpp:424-435 | all records decode, in order and one for one, or the result is nothing exactly when some record is bad |
| ReferencesDialog.Parse | editors/sc-ide/widgets/lookup_dialog.cpp:395-437 | no model without the index or without a document; a model only for a sequence whose element 0 is a scalar and whose element 1 is a sequence, then one row per record in payload order with label makeFullMethodName(class, method), compacted path, the path text and the converted position, not a class row; no model exactly when some record is bad |
| ReferencesDialog.DecodeEncodedReference | editors/sc-ide/widgets/lookup_dialog.cpp:425-429 | an encoded reference whose position fits in 32 bits decodes to itself |
| ReferencesDialog.DecodeEncodedResponse | editors/sc-ide/widgets/lookup_dialog.cpp:417-435 | decoding an encoded answer whose positions all fit in 32 bits gives its references back in the order sent |
| ReferencesDialog.ParseEncodedResponse | editors/sc-ide/widgets/lookup_dialog.cpp:419-437 | with the index available and every position within 32 bits, an encoded answer yields one row per reference in order, with the label, compacted path, path and position of that reference |
| ReferencesDialog.ShortRecordRejectsResponse | editors/sc-ide/widgets/lookup_dialog.cpp:425-429 | a record that is not a sequence of at least four elements leaves the whole answer without a model |

## Left out

- Widget construction, layout, geometry centring, painting and key event
  filtering (lines 38-74 and 93-115) are UI. So are `focusResults` and
  first-row selection (117-128).
- Status-bar messages (lines 154, 302, 401) are presentation side effects.
- Opening the document (line 89) and the dialog's `accept`/`reject` are
  represented by the returned `AcceptOutcome`. They are not performed.
- `ReferencesDialog::performQuery`, `requestCanceled` and
  `onResposeFromLanguage` (lines 366-393) belong to the asynchronous request
  transport. `SymbolReferenceRequest` is not part of this model.
- YAML text parsing by yaml-cpp (lines 405-413) is not modelled. The decoder
  starts from a parsed node tree. `None` stands for "no YAML document".
- Ill-typed or missing elements are a single "no model" outcome. This covers a
  non-sequence document (the `assert` at line 415), an element past the end, a
  sequence where a scalar is expected, a mapping, and a position that does not
  convert. yaml-cpp would throw for most of these, and nothing in the file
  catches the exception. A scalar at element 1 is also treated as ill-typed.
- ReferencesDialog.ScalarToInt: models yaml-cpp's scalar-to-int conversion as
  an optional sign followed by decimal digits within the 32-bit range. That
  library is not part of this model, and other spellings it may accept are not
  modelled. Nor is the value of a spelling with a leading zero or a base
  prefix claimed to match the library: the model reads "010" as ten, and
  rejects "0x10". The round-trip lemmas are unaffected because `IntText`
  never writes a leading zero or a prefix.
- ReferencesDialog.DecodeReference: a scalar's text stands for the string the
  dialog ends up with. The conversions through `std::string`, `c_str()` and
  `QString` (lines 406, 417, 426-428) are not modelled. They cut a string at
  its first NUL character and re-decode its bytes, so `"A\0B"` reaches the
  dialog as `"A"`, while the model keeps `"A\0B"`.
- The `qWarning` log for a missing YAML document (line 411) is a diagnostic
  side effect. It is not modelled.
- The bodies of `findClass`, `findClassPartial`, `findMethodPartial`,
  `compactLibraryPath`, `Method::signature`, `makeFullMethodName` and
  `QChar::isUpper` are not shown. `findClass` is map lookup. The others are
  uninterpreted parameters.
- Qt's item comparator is replaced by ordinal lexicographic order on
  characters. Sort stability is not assumed: no contract fixes the order of
  rows with equal names.
- Accepting a row when no model is shown (a null model in the source) is
  modelled as a rejection. The source would dereference a null pointer.
- Ownership, memory management and the `QStandardItemModel` objects are not
  modelled. Each query simply produces a fresh value.
