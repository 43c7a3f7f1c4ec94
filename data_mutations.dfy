/** `addErrorsAndRunHooks` of the spreadsheet import: run the table hook and
    the row hook, check every field's validations (`required`, `unique`,
    `regex`, `function`) against the rows, and attach to each row its
    `__index` and its `__errors`. */
module DataMutations {
  import opened Wrappers
  import opened ImportErrors
  import opened Seqs

  /** A cell as the import sees it: `undefined`, `null`, a string or a boolean. */
  datatype Cell = Undefined | Null | Str(text: string) | Bool(flag: bool)

  /** A row's `__errors`: absent, `null`, or the errors of its fields. */
  datatype ErrorsField = Unset | Cleared | Reported(fieldErrors: map<string, ErrorInfo>)

  /** A row: its cells by field key, its `__index` (if the key is there) and its `__errors`. */
  datatype Row = Row(cells: map<string, Cell>, index: Option<string>, errors: ErrorsField)

  datatype Rule =
    | Required
    | Unique(allowEmpty: bool)
    | Regex(pattern: string, flags: Option<string>)
    | Function(isValid: string -> bool)

  datatype Validation = Validation(rule: Rule, errorMessage: Option<string>, level: Option<Level>)

  /** A field: its key and its optional list of validations. */
  datatype Field = Field(key: string, validations: Option<seq<Validation>>)

  /** The table hook: the rows it returns and the `addHookError` calls it makes. */
  type TableHook = seq<Row> -> (seq<Row>, seq<HookError>)

  /** The row hook, given a row and the whole table: the row it returns and
      the `addError` calls it makes. */
  type RowHook = (Row, seq<Row>) -> (Row, seq<FieldError>)

  /** `new RegExp(pattern, flags)`: the matcher, or nothing when it throws. */
  type RegexCompiler = (string, Option<string>) -> Option<string -> bool>

  /** What `addErrorsAndRunHooks` can throw. */
  datatype Thrown = InvalidRegex(pattern: string, flags: Option<string>)

  /** `entry[key]`. */
  function Value(row: Row, key: string): Cell {
    if key in row.cells then row.cells[key] else Undefined
  }

  /** `data.map((entry) => entry[key])`. */
  function Values(rows: seq<Row>, key: string): (r: seq<Cell>)
    ensures |r| == |rows|
    ensures forall j :: 0 <= j < |rows| ==> r[j] == Value(rows[j], key)
  {
    seq(|rows|, j requires 0 <= j < |rows| => Value(rows[j], key))
  }

  /** The falsy cells. */
  predicate Falsy(c: Cell) {
    c.Undefined? || c.Null? || c == Str("") || c == Bool(false)
  }

  /** Whether `unique` takes a value into account: with `allowEmpty`, falsy values are skipped. */
  predicate Counted(allowEmpty: bool, c: Cell) {
    !(allowEmpty && Falsy(c))
  }

  /** The values `unique` has seen at least once. */
  function TakenSet(values: seq<Cell>, allowEmpty: bool): set<Cell> {
    set v | v in values && Counted(allowEmpty, v)
  }

  /** The values `unique` has seen at least twice. */
  function DuplicateSet(values: seq<Cell>, allowEmpty: bool): set<Cell> {
    set v | v in values && Counted(allowEmpty, v) && multiset(values)[v] >= 2
  }

  /** What `required` rejects: `null`, `undefined` and `''`. */
  predicate Missing(c: Cell) {
    c.Null? || c.Undefined? || c == Str("")
  }

  /** `entry[key]?.toString()`. */
  function CellText(c: Cell): Option<string> {
    match c
    case Str(s) => Some(s)
    case Bool(b) => Some(if b then "true" else "false")
    case _ => None
  }

  /** What `regex` and `function` reject: a non-empty string the check refuses. */
  predicate Rejected(c: Cell, accepts: string -> bool) {
    match CellText(c)
    case Some(s) => s != "" && !accepts(s)
    case None => false
  }

  /** The message a rule writes when the validation gives none. */
  function DefaultMessage(rule: Rule): string {
    match rule
    case Required => "Field is required"
    case Unique(_) => "Field must be unique"
    case Regex(pattern, flags) => "Field did not match the regex /" + pattern + "/" + flags.GetOr("undefined") + " "
    case Function(_) => "Field is invalid"
  }

  /** `{ level: validation.level || 'error', message: validation.errorMessage || defaultMessage }`. */
  function RuleInfo(v: Validation, defaultMessage: string): (r: ErrorInfo)
    ensures v.level.None? ==> r.level == Error
    ensures v.level.Some? ==> r.level == v.level.value
    ensures v.errorMessage.Some? && v.errorMessage.value != "" ==> r.message == v.errorMessage.value
    ensures v.errorMessage.None? || v.errorMessage.value == "" ==> r.message == defaultMessage
  {
    ErrorInfo(if v.errorMessage.Some? && v.errorMessage.value != "" then v.errorMessage.value else defaultMessage,
              v.level.GetOr(Error))
  }

  /** Which rows a rule flags, each on its own definition: `required` a
      missing value, `unique` a counted value occurring at least twice,
      `regex` and `function` a non-empty string they refuse. */
  predicate Violates(rows: seq<Row>, key: string, rule: Rule, compile: RegexCompiler, j: int)
    requires 0 <= j < |rows|
  {
    match rule
    case Required => Missing(Value(rows[j], key))
    case Unique(allowEmpty) =>
      Counted(allowEmpty, Value(rows[j], key)) && multiset(Values(rows, key))[Value(rows[j], key)] >= 2
    case Regex(pattern, flags) =>
      compile(pattern, flags).Some? && Rejected(Value(rows[j], key), compile(pattern, flags).value)
    case Function(isValid) => Rejected(Value(rows[j], key), isValid)
  }

  /** `unique` flags a row exactly when its value is counted and some other
      row holds the same value: a value seen once is never flagged. */
  lemma UniqueFlagsRepeats(rows: seq<Row>, key: string, allowEmpty: bool, compile: RegexCompiler, j: int)
    requires 0 <= j < |rows|
    ensures Violates(rows, key, Unique(allowEmpty), compile, j)
        <==> Counted(allowEmpty, Value(rows[j], key))
             && exists i :: 0 <= i < |rows| && i != j && Value(rows[i], key) == Value(rows[j], key)
  {
    var values := Values(rows, key);
    RepeatedElsewhere(values, j);
    if exists i :: 0 <= i < |rows| && i != j && values[i] == values[j] {
      var i :| 0 <= i < |rows| && i != j && values[i] == values[j];
      assert Value(rows[i], key) == Value(rows[j], key);
    }
  }

  /** `regex` and `function` only ever flag a non-empty text: a missing or
      empty value never gets an error from them. */
  lemma TextRulesSkipMissing(rows: seq<Row>, key: string, rule: Rule, compile: RegexCompiler, j: int)
    requires 0 <= j < |rows|
    requires rule.Regex? || rule.Function?
    ensures Violates(rows, key, rule, compile, j) ==> CellText(Value(rows[j], key)).Some? && CellText(Value(rows[j], key)).value != ""
    ensures Missing(Value(rows[j], key)) ==> !Violates(rows, key, rule, compile, j)
  {
  }

  /** The flags of the text rules. */
  function TextFlags(rows: seq<Row>, key: string, accepts: string -> bool): seq<bool> {
    seq(|rows|, j requires 0 <= j < |rows| => Rejected(Value(rows[j], key), accepts))
  }

  /** One validation of the field `key`, applied to the error dictionary. */
  function ValidationApplied(errors: Errors, rows: seq<Row>, key: string, v: Validation, compile: RegexCompiler)
    : (r: Result<Errors, Thrown>)
    ensures r.Failure? <==> BadRegex(v, compile)
    ensures r.Failure? ==> r.error == InvalidRegex(v.rule.pattern, v.rule.flags)
  {
    var info := RuleInfo(v, DefaultMessage(v.rule));
    match v.rule
    case Required =>
      Success(Marked(errors, seq(|rows|, j requires 0 <= j < |rows| => Missing(Value(rows[j], key))), key, info))
    case Unique(allowEmpty) =>
      var values := Values(rows, key);
      var duplicates := DuplicateSet(values, allowEmpty);
      Success(Marked(errors, seq(|rows|, j requires 0 <= j < |rows| => values[j] in duplicates), key, info))
    case Regex(pattern, flags) =>
      (match compile(pattern, flags)
       case None => Failure(InvalidRegex(pattern, flags))
       case Some(matches) => Success(Marked(errors, TextFlags(rows, key, matches), key, info)))
    case Function(isValid) =>
      Success(Marked(errors, TextFlags(rows, key, isValid), key, info))
  }

  /** A validation sets, under its field's key, the error of every row
      that violates it and of no other row; everything else is kept. */
  lemma RuleWrites(errors: Errors, rows: seq<Row>, key: string, v: Validation, compile: RegexCompiler)
    requires ValidationApplied(errors, rows, key, v, compile).Success?
    ensures forall j, k ::
      Lookup(ValidationApplied(errors, rows, key, v, compile).value, j, k)
      == if 0 <= j < |rows| && k == key && Violates(rows, key, v.rule, compile, j)
         then Some(RuleInfo(v, DefaultMessage(v.rule)))
         else Lookup(errors, j, k)
  {
    var info := RuleInfo(v, DefaultMessage(v.rule));
    match v.rule
    case Required =>
      MarkedLookup(errors, seq(|rows|, j requires 0 <= j < |rows| => Missing(Value(rows[j], key))), key, info);
    case Unique(allowEmpty) =>
      var values := Values(rows, key);
      MarkedLookup(errors, seq(|rows|, j requires 0 <= j < |rows| => values[j] in DuplicateSet(values, allowEmpty)), key, info);
    case Regex(pattern, flags) =>
      MarkedLookup(errors, TextFlags(rows, key, compile(pattern, flags).value), key, info);
    case Function(isValid) =>
      MarkedLookup(errors, TextFlags(rows, key, isValid), key, info);
  }

  /** A validation records an error for a row only where it writes one. */
  lemma RuleRows(errors: Errors, rows: seq<Row>, key: string, v: Validation, compile: RegexCompiler)
    requires ValidationApplied(errors, rows, key, v, compile).Success?
    ensures forall j ::
      j in ValidationApplied(errors, rows, key, v, compile).value
      <==> j in errors || (0 <= j < |rows| && Violates(rows, key, v.rule, compile, j))
  {
    var info := RuleInfo(v, DefaultMessage(v.rule));
    match v.rule
    case Required =>
      MarkedLookup(errors, seq(|rows|, j requires 0 <= j < |rows| => Missing(Value(rows[j], key))), key, info);
    case Unique(allowEmpty) =>
      var values := Values(rows, key);
      MarkedLookup(errors, seq(|rows|, j requires 0 <= j < |rows| => values[j] in DuplicateSet(values, allowEmpty)), key, info);
    case Regex(pattern, flags) =>
      MarkedLookup(errors, TextFlags(rows, key, compile(pattern, flags).value), key, info);
    case Function(isValid) =>
      MarkedLookup(errors, TextFlags(rows, key, isValid), key, info);
  }

  /** A field's validations, one after the other; the first regex that does
      not compile throws. */
  function ValidationsApplied(errors: Errors, rows: seq<Row>, key: string, vs: seq<Validation>, compile: RegexCompiler)
    : Result<Errors, Thrown>
  {
    if |vs| == 0 then Success(errors)
    else
      match ValidationsApplied(errors, rows, key, vs[..|vs| - 1], compile)
      case Failure(e) => Failure(e)
      case Success(prev) => ValidationApplied(prev, rows, key, vs[|vs| - 1], compile)
  }

  /** Every field's validations, field after field. */
  function FieldsApplied(errors: Errors, rows: seq<Row>, fields: seq<Field>, compile: RegexCompiler)
    : Result<Errors, Thrown>
  {
    if |fields| == 0 then Success(errors)
    else
      var field := fields[|fields| - 1];
      match FieldsApplied(errors, rows, fields[..|fields| - 1], compile)
      case Failure(e) => Failure(e)
      case Success(prev) => ValidationsApplied(prev, rows, field.key, field.validations.GetOr([]), compile)
  }

  /** One more validation of a field. */
  lemma ValidationsStep(errors: Errors, rows: seq<Row>, key: string, vs: seq<Validation>, i: nat, compile: RegexCompiler)
    requires i < |vs|
    requires ValidationsApplied(errors, rows, key, vs[..i], compile).Success?
    ensures ValidationsApplied(errors, rows, key, vs[..i + 1], compile)
         == ValidationApplied(ValidationsApplied(errors, rows, key, vs[..i], compile).value, rows, key, vs[i], compile)
  {
    assert vs[..i + 1][..i] == vs[..i];
  }

  /** One more field. */
  lemma FieldsStep(errors: Errors, rows: seq<Row>, fields: seq<Field>, i: nat, compile: RegexCompiler)
    requires i < |fields|
    requires FieldsApplied(errors, rows, fields[..i], compile).Success?
    ensures FieldsApplied(errors, rows, fields[..i + 1], compile)
         == ValidationsApplied(FieldsApplied(errors, rows, fields[..i], compile).value, rows,
                               fields[i].key, fields[i].validations.GetOr([]), compile)
  {
    assert fields[..i + 1][..i] == fields[..i];
  }

  /** Once a validation has thrown, the later ones do not run. */
  lemma {:induction false} ValidationsFailurePersists(
    errors: Errors, rows: seq<Row>, key: string, vs: seq<Validation>, n: nat, compile: RegexCompiler)
    requires n <= |vs|
    requires ValidationsApplied(errors, rows, key, vs[..n], compile).Failure?
    ensures ValidationsApplied(errors, rows, key, vs, compile) == ValidationsApplied(errors, rows, key, vs[..n], compile)
    decreases |vs| - n
  {
    if n < |vs| {
      assert vs[..|vs| - 1][..n] == vs[..n];
      ValidationsFailurePersists(errors, rows, key, vs[..|vs| - 1], n, compile);
    } else {
      assert vs[..n] == vs;
    }
  }

  /** Once a field's validation has thrown, the later fields are not checked. */
  lemma {:induction false} FieldsFailurePersists(
    errors: Errors, rows: seq<Row>, fields: seq<Field>, n: nat, compile: RegexCompiler)
    requires n <= |fields|
    requires FieldsApplied(errors, rows, fields[..n], compile).Failure?
    ensures FieldsApplied(errors, rows, fields, compile) == FieldsApplied(errors, rows, fields[..n], compile)
    decreases |fields| - n
  {
    if n < |fields| {
      assert fields[..|fields| - 1][..n] == fields[..n];
      FieldsFailurePersists(errors, rows, fields[..|fields| - 1], n, compile);
    } else {
      assert fields[..n] == fields;
    }
  }

  /** A regex that does not compile. */
  predicate BadRegex(v: Validation, compile: RegexCompiler) {
    v.rule.Regex? && compile(v.rule.pattern, v.rule.flags).None?
  }

  /** A field's validations throw exactly when one of them is a regex that does not compile. */
  lemma {:induction false} ValidationsThrowOnBadRegex(
    errors: Errors, rows: seq<Row>, key: string, vs: seq<Validation>, compile: RegexCompiler)
    ensures ValidationsApplied(errors, rows, key, vs, compile).Failure?
        <==> exists i :: 0 <= i < |vs| && BadRegex(vs[i], compile)
  {
    if |vs| > 0 {
      var init := vs[..|vs| - 1];
      ValidationsThrowOnBadRegex(errors, rows, key, init, compile);
      assert forall i :: 0 <= i < |vs| - 1 ==> init[i] == vs[i];
      if (exists i :: 0 <= i < |vs| && BadRegex(vs[i], compile)) && !BadRegex(vs[|vs| - 1], compile) {
        var i :| 0 <= i < |vs| && BadRegex(vs[i], compile);
        assert BadRegex(init[i], compile);
      }
    }
  }

  /** Validation throws exactly when some field has a regex that does not compile. */
  lemma {:induction false} FieldsThrowOnBadRegex(
    errors: Errors, rows: seq<Row>, fields: seq<Field>, compile: RegexCompiler)
    ensures FieldsApplied(errors, rows, fields, compile).Failure?
        <==> exists i, j :: 0 <= i < |fields| && 0 <= j < |fields[i].validations.GetOr([])|
                          && BadRegex(fields[i].validations.GetOr([])[j], compile)
  {
    if |fields| > 0 {
      var init := fields[..|fields| - 1];
      var last := fields[|fields| - 1];
      FieldsThrowOnBadRegex(errors, rows, init, compile);
      assert forall i :: 0 <= i < |fields| - 1 ==> init[i] == fields[i];
      var prev := FieldsApplied(errors, rows, init, compile);
      if prev.Success? {
        ValidationsThrowOnBadRegex(prev.value, rows, last.key, last.validations.GetOr([]), compile);
      }
    }
  }

  /** A field's validations leave the entries of every other key as they were. */
  lemma {:induction false} ValidationsKeepOtherKeys(
    errors: Errors, rows: seq<Row>, key: string, vs: seq<Validation>, compile: RegexCompiler, other: string)
    requires other != key
    requires ValidationsApplied(errors, rows, key, vs, compile).Success?
    ensures forall j :: Lookup(ValidationsApplied(errors, rows, key, vs, compile).value, j, other) == Lookup(errors, j, other)
  {
    if |vs| > 0 {
      var prev := ValidationsApplied(errors, rows, key, vs[..|vs| - 1], compile);
      ValidationsKeepOtherKeys(errors, rows, key, vs[..|vs| - 1], compile, other);
      RuleWrites(prev.value, rows, key, vs[|vs| - 1], compile);
    }
  }

  /** A key no field declares keeps, for every row, the error the hooks gave it. */
  lemma {:induction false} FieldsKeepUndeclaredKeys(
    errors: Errors, rows: seq<Row>, fields: seq<Field>, compile: RegexCompiler, other: string)
    requires forall i :: 0 <= i < |fields| ==> fields[i].key != other
    requires FieldsApplied(errors, rows, fields, compile).Success?
    ensures forall j :: Lookup(FieldsApplied(errors, rows, fields, compile).value, j, other) == Lookup(errors, j, other)
  {
    if |fields| > 0 {
      var last := fields[|fields| - 1];
      var prev := FieldsApplied(errors, rows, fields[..|fields| - 1], compile);
      FieldsKeepUndeclaredKeys(errors, rows, fields[..|fields| - 1], compile, other);
      ValidationsKeepOtherKeys(prev.value, rows, last.key, last.validations.GetOr([]), compile, other);
    }
  }

  /** The `addHookError` calls the row hook makes over the first `n` rows,
      each tagged with its own row's index. */
  function HookCalls(rows: seq<Row>, n: nat, hook: RowHook): seq<HookError>
    requires n <= |rows|
  {
    if n == 0 then [] else HookCalls(rows, n - 1, hook) + RowCalls(n - 1, hook(rows[n - 1], rows).1)
  }

  /** Every error the row hook reports lands on the index of the row it was
      reported for. */
  lemma {:induction false} RowHookErrorsOwnRow(rows: seq<Row>, n: nat, hook: RowHook)
    requires n <= |rows|
    ensures forall c :: c in HookCalls(rows, n, hook) ==>
      0 <= c.row < n && FieldError(c.key, c.info) in hook(rows[c.row], rows).1
  {
    if n > 0 {
      RowHookErrorsOwnRow(rows, n - 1, hook);
      var last := RowCalls(n - 1, hook(rows[n - 1], rows).1);
      forall c | c in last ensures FieldError(c.key, c.info) in hook(rows[n - 1], rows).1 {
        var j :| 0 <= j < |last| && last[j] == c;
      }
    }
  }

  /** The rows and the errors after the table hook, when there is one. */
  function TableHooked(rows: seq<Row>, errors: Errors, tableHook: Option<TableHook>): (seq<Row>, Errors) {
    match tableHook
    case None => (rows, errors)
    case Some(hook) => (hook(rows).0, WithHookErrors(errors, hook(rows).1))
  }

  /** The rows and the errors after the row hook, when there is one. */
  function RowHooked(rows: seq<Row>, errors: Errors, rowHook: Option<RowHook>): (seq<Row>, Errors) {
    match rowHook
    case None => (rows, errors)
    case Some(hook) =>
      (seq(|rows|, j requires 0 <= j < |rows| => hook(rows[j], rows).0),
       WithHookErrors(errors, HookCalls(rows, |rows|, hook)))
  }

  /** The final `map`: every row gets an `__index` (a new id, `freshId(j)`,
      when it has none) and the errors found for it; a row without errors
      that had some gets `__errors: null`. */
  function FinalRows(rows: seq<Row>, errors: Errors, freshId: nat -> string): (r: seq<Row>)
    ensures |r| == |rows|
    ensures forall j :: 0 <= j < |rows| ==>
      r[j].cells == rows[j].cells && r[j].index.Some? && (rows[j].index.Some? ==> r[j].index == rows[j].index)
    ensures forall j :: 0 <= j < |rows| && rows[j].index.None? ==> r[j].index == Some(freshId(j))
    ensures forall j :: 0 <= j < |rows| ==> (r[j].errors.Reported? <==> j in errors)
    ensures forall j, k :: 0 <= j < |rows| && r[j].errors.Reported? ==>
      (if k in r[j].errors.fieldErrors then Some(r[j].errors.fieldErrors[k]) else None) == Lookup(errors, j, k)
    ensures forall j :: 0 <= j < |rows| && j !in errors && rows[j].errors.Reported? ==> r[j].errors == Cleared
    ensures forall j :: 0 <= j < |rows| && j !in errors && !rows[j].errors.Reported? ==> r[j] == rows[j].(index := r[j].index)
  {
    seq(|rows|, j requires 0 <= j < |rows| =>
      var row := rows[j];
      var indexed := if row.index.Some? then row else row.(index := Some(freshId(j)));
      if j in errors then indexed.(errors := Reported(errors[j]))
      else if row.errors.Reported? then indexed.(errors := Cleared)
      else indexed)
  }

  /** The rows and the errors once both hooks have run, the table hook first. */
  function Hooked(data: seq<Row>, rowHook: Option<RowHook>, tableHook: Option<TableHook>): (seq<Row>, Errors) {
    var (rows, errors) := TableHooked(data, map[], tableHook);
    RowHooked(rows, errors, rowHook)
  }

  /** What `addErrorsAndRunHooks` returns: the annotated rows, or what it throws. */
  function Validated(
    data: seq<Row>, fields: seq<Field>, rowHook: Option<RowHook>, tableHook: Option<TableHook>,
    compile: RegexCompiler, freshId: nat -> string)
    : Result<seq<Row>, Thrown>
  {
    var (rows, hookErrors) := Hooked(data, rowHook, tableHook);
    match FieldsApplied(hookErrors, rows, fields, compile)
    case Failure(e) => Failure(e)
    case Success(errors) => Success(FinalRows(rows, errors, freshId))
  }

  /** An error a hook reports under a key that no field declares reaches
      that row's `__errors` unchanged. */
  lemma HookErrorsReachRows(
    data: seq<Row>, fields: seq<Field>, rowHook: Option<RowHook>, tableHook: Option<TableHook>,
    compile: RegexCompiler, freshId: nat -> string, key: string)
    requires forall i :: 0 <= i < |fields| ==> fields[i].key != key
    requires Validated(data, fields, rowHook, tableHook, compile, freshId).Success?
    ensures
      var (rows, hookErrors) := Hooked(data, rowHook, tableHook);
      var out := Validated(data, fields, rowHook, tableHook, compile, freshId).value;
      |out| == |rows| &&
      forall j :: 0 <= j < |rows| && Lookup(hookErrors, j, key).Some? ==>
        out[j].errors.Reported? && key in out[j].errors.fieldErrors
        && out[j].errors.fieldErrors[key] == Lookup(hookErrors, j, key).value
  {
    var (rows, hookErrors) := Hooked(data, rowHook, tableHook);
    FieldsKeepUndeclaredKeys(hookErrors, rows, fields, compile, key);
    var errors := FieldsApplied(hookErrors, rows, fields, compile).value;
    forall j | 0 <= j < |rows| && Lookup(hookErrors, j, key).Some?
      ensures j in errors && key in errors[j] && errors[j][key] == Lookup(hookErrors, j, key).value
    {
      assert Lookup(errors, j, key) == Lookup(hookErrors, j, key);
    }
  }

  /** A hook's `addHookError` calls, one after the other. */
  method AddHookErrors(errors: Errors, calls: seq<HookError>) returns (e: Errors)
    ensures e == WithHookErrors(errors, calls)
  {
    e := errors;
    for i := 0 to |calls|
      invariant e == WithHookErrors(errors, calls[..i])
    {
      assert calls[..i + 1][..i] == calls[..i];
      e := SetFieldError(e, calls[i].row, calls[i].key, calls[i].info);
    }
    assert calls[..|calls|] == calls;
  }

  /** `data.map((value, index) => rowHook(value, addError for index, data))`. */
  method RunRowHook(rows: seq<Row>, hook: RowHook, errors: Errors) returns (newRows: seq<Row>, e: Errors)
    ensures (newRows, e) == RowHooked(rows, errors, Some(hook))
  {
    newRows := [];
    e := errors;
    for i := 0 to |rows|
      invariant |newRows| == i
      invariant forall j :: 0 <= j < i ==> newRows[j] == hook(rows[j], rows).0
      invariant e == WithHookErrors(errors, HookCalls(rows, i, hook))
    {
      var (row, reported) := hook(rows[i], rows);
      HookErrorsAppend(errors, HookCalls(rows, i, hook), RowCalls(i, reported));
      e := AddHookErrors(e, RowCalls(i, reported));
      newRows := newRows + [row];
    }
    assert newRows == RowHooked(rows, errors, Some(hook)).0;
  }

  /** The two passes of `unique`: collect the values seen once (`taken`)
      and those seen again (`duplicates`). */
  method ScanDuplicates(values: seq<Cell>, allowEmpty: bool) returns (taken: set<Cell>, duplicates: set<Cell>)
    ensures taken == TakenSet(values, allowEmpty)
    ensures duplicates == DuplicateSet(values, allowEmpty)
  {
    taken := {};
    duplicates := {};
    for i := 0 to |values|
      invariant taken == TakenSet(values[..i], allowEmpty)
      invariant duplicates == DuplicateSet(values[..i], allowEmpty)
    {
      var value := values[i];
      assert values[..i + 1] == values[..i] + [value];
      if allowEmpty && Falsy(value) {
        continue;
      }
      if value in taken {
        duplicates := duplicates + {value};
      } else {
        taken := taken + {value};
      }
    }
    assert values[..|values|] == values;
  }

  /** `data.forEach((entry, index) => { if (flagged) errors[index] = { ...errors[index], [key]: info } })`. */
  method MarkRows(errors: Errors, flags: seq<bool>, key: string, info: ErrorInfo) returns (e: Errors)
    ensures e == Marked(errors, flags, key, info)
  {
    e := errors;
    for i := 0 to |flags|
      invariant e == Marked(errors, flags[..i], key, info)
    {
      assert flags[..i + 1][..i] == flags[..i];
      if flags[i] {
        e := SetFieldError(e, i, key, info);
      }
    }
    assert flags[..|flags|] == flags;
  }

  /** One `case` of the `switch (validation.rule)`. */
  method ApplyValidation(errors: Errors, rows: seq<Row>, key: string, v: Validation, compile: RegexCompiler)
    returns (r: Result<Errors, Thrown>)
    ensures r == ValidationApplied(errors, rows, key, v, compile)
  {
    var info := RuleInfo(v, DefaultMessage(v.rule));
    match v.rule
    case Required =>
      var e := MarkRows(errors, seq(|rows|, j requires 0 <= j < |rows| => Missing(Value(rows[j], key))), key, info);
      r := Success(e);
    case Unique(allowEmpty) =>
      var values := Values(rows, key);
      var taken, duplicates := ScanDuplicates(values, allowEmpty);
      var e := MarkRows(errors, seq(|rows|, j requires 0 <= j < |rows| => values[j] in duplicates), key, info);
      r := Success(e);
    case Regex(pattern, flags) =>
      var regex := compile(pattern, flags);
      if regex.None? {
        return Failure(InvalidRegex(pattern, flags));
      }
      var e := MarkRows(errors, TextFlags(rows, key, regex.value), key, info);
      r := Success(e);
    case Function(isValid) =>
      var e := MarkRows(errors, TextFlags(rows, key, isValid), key, info);
      r := Success(e);
  }

  /** `field.validations?.forEach(...)`. */
  method ValidateField(errors: Errors, rows: seq<Row>, field: Field, compile: RegexCompiler)
    returns (r: Result<Errors, Thrown>)
    ensures r == ValidationsApplied(errors, rows, field.key, field.validations.GetOr([]), compile)
  {
    var validations := field.validations.GetOr([]);
    var e := errors;
    for i := 0 to |validations|
      invariant ValidationsApplied(errors, rows, field.key, validations[..i], compile) == Success(e)
    {
      ValidationsStep(errors, rows, field.key, validations, i, compile);
      var next := ApplyValidation(e, rows, field.key, validations[i], compile);
      if next.Failure? {
        ValidationsFailurePersists(errors, rows, field.key, validations, i + 1, compile);
        return next;
      }
      e := next.value;
    }
    assert validations[..|validations|] == validations;
    r := Success(e);
  }

  /** `fields.forEach(...)`. */
  method ValidateFields(errors: Errors, rows: seq<Row>, fields: seq<Field>, compile: RegexCompiler)
    returns (r: Result<Errors, Thrown>)
    ensures r == FieldsApplied(errors, rows, fields, compile)
  {
    var e := errors;
    for i := 0 to |fields|
      invariant FieldsApplied(errors, rows, fields[..i], compile) == Success(e)
    {
      FieldsStep(errors, rows, fields, i, compile);
      var next := ValidateField(e, rows, fields[i], compile);
      if next.Failure? {
        FieldsFailurePersists(errors, rows, fields, i + 1, compile);
        return next;
      }
      e := next.value;
    }
    assert fields[..|fields|] == fields;
    r := Success(e);
  }

  /** `addErrorsAndRunHooks`. */
  method AddErrorsAndRunHooks(
    data: seq<Row>, fields: seq<Field>, rowHook: Option<RowHook>, tableHook: Option<TableHook>,
    compile: RegexCompiler, freshId: nat -> string)
    returns (r: Result<seq<Row>, Thrown>)
    ensures r == Validated(data, fields, rowHook, tableHook, compile, freshId)
  {
    var errors: Errors := map[];
    var rows := data;
    if tableHook.Some? {
      var (hooked, calls) := tableHook.value(rows);
      errors := AddHookErrors(errors, calls);
      rows := hooked;
    }
    if rowHook.Some? {
      rows, errors := RunRowHook(rows, rowHook.value, errors);
    }
    var validated := ValidateFields(errors, rows, fields, compile);
    if validated.Failure? {
      return Failure(validated.error);
    }
    r := Success(FinalRows(rows, validated.value, freshId));
  }
}
