/** The error dictionary of the spreadsheet import's validation step: for
    each row index, the error recorded under each field key. `addHookError`
    and every validation rule write into it with the same merge. */
module ImportErrors {
  import opened Wrappers

  datatype Level = Info | Warning | Error

  /** One field's error: the message shown and its severity. */
  datatype ErrorInfo = ErrorInfo(message: string, level: Level)

  /** Row index to (field key to error). */
  type Errors = map<int, map<string, ErrorInfo>>

  /** A call `addError(key, info)` made by a row hook. */
  datatype FieldError = FieldError(key: string, info: ErrorInfo)

  /** A call `addHookError(row, key, info)`. */
  datatype HookError = HookError(row: int, key: string, info: ErrorInfo)

  /** The error recorded under `key` for row `row`, if any. */
  function Lookup(errors: Errors, row: int, key: string): Option<ErrorInfo> {
    if row in errors && key in errors[row] then Some(errors[row][key]) else None
  }

  /** The merge `errors[row] = { ...errors[row], [key]: info }`: the entry is
      replaced, the row's other fields and the other rows are kept. */
  function SetFieldError(errors: Errors, row: int, key: string, info: ErrorInfo): (r: Errors)
    ensures r.Keys == errors.Keys + {row}
    ensures forall j, k :: Lookup(r, j, k) == if j == row && k == key then Some(info) else Lookup(errors, j, k)
  {
    errors[row := (if row in errors then errors[row] else map[])[key := info]]
  }

  /** The dictionary after the calls `calls`, made one after the other. */
  function WithHookErrors(errors: Errors, calls: seq<HookError>): Errors
  {
    if |calls| == 0 then errors
    else
      var last := calls[|calls| - 1];
      SetFieldError(WithHookErrors(errors, calls[..|calls| - 1]), last.row, last.key, last.info)
  }

  /** The error of the last call among `calls` for that row and key. */
  function LastCall(calls: seq<HookError>, row: int, key: string): (r: Option<ErrorInfo>)
    ensures r.None? <==> forall j :: 0 <= j < |calls| ==> calls[j].row != row || calls[j].key != key
    ensures r.Some? ==> exists j :: LastCallAt(calls, row, key, r.value, j)
  {
    if |calls| == 0 then None
    else
      var last := calls[|calls| - 1];
      if last.row == row && last.key == key then
        assert LastCallAt(calls, row, key, last.info, |calls| - 1);
        Some(last.info)
      else
        var init := calls[..|calls| - 1];
        var r := LastCall(init, row, key);
        assert forall j :: 0 <= j < |init| ==> init[j] == calls[j];
        assert r.Some? ==> exists j :: LastCallAt(calls, row, key, r.value, j) by {
          if r.Some? {
            var j :| LastCallAt(init, row, key, r.value, j);
            assert LastCallAt(calls, row, key, r.value, j);
          }
        }
        r
  }

  /** `calls[j]` records `info` for that row and key, and no later call names them. */
  predicate LastCallAt(calls: seq<HookError>, row: int, key: string, info: ErrorInfo, j: int)
  {
    0 <= j < |calls| && calls[j] == HookError(row, key, info)
    && forall i :: j < i < |calls| ==> calls[i].row != row || calls[i].key != key
  }

  /** After a series of calls, each entry holds the error of the last call
      for it, or what it held before when no call was made for it. */
  lemma {:induction false} HookErrorsLookup(errors: Errors, calls: seq<HookError>)
    ensures forall j, k :: Lookup(WithHookErrors(errors, calls), j, k)
                        == if LastCall(calls, j, k).Some? then LastCall(calls, j, k) else Lookup(errors, j, k)
  {
    if |calls| > 0 {
      HookErrorsLookup(errors, calls[..|calls| - 1]);
    }
  }

  /** Two series of calls, one after the other. */
  lemma {:induction false} HookErrorsAppend(errors: Errors, a: seq<HookError>, b: seq<HookError>)
    ensures WithHookErrors(errors, a + b) == WithHookErrors(WithHookErrors(errors, a), b)
    decreases |b|
  {
    if |b| > 0 {
      assert (a + b)[..|a + b| - 1] == a + b[..|b| - 1];
      HookErrorsAppend(errors, a, b[..|b| - 1]);
    } else {
      assert a + b == a;
    }
  }

  /** The calls a row hook's `addError` makes for the row at `row`. */
  function RowCalls(row: int, reported: seq<FieldError>): (r: seq<HookError>)
    ensures |r| == |reported|
    ensures forall j :: 0 <= j < |r| ==> r[j] == HookError(row, reported[j].key, reported[j].info)
  {
    seq(|reported|, j requires 0 <= j < |reported| => HookError(row, reported[j].key, reported[j].info))
  }

  /** One rule's writes: `info` under `key` for every row whose flag is set,
      in row order. */
  function Marked(errors: Errors, flags: seq<bool>, key: string, info: ErrorInfo): Errors
  {
    if |flags| == 0 then errors
    else
      var prev := Marked(errors, flags[..|flags| - 1], key, info);
      if flags[|flags| - 1] then SetFieldError(prev, |flags| - 1, key, info) else prev
  }

  /** A rule writing `key` replaces the entry of every flagged row under
      `key`, whatever was there (hook errors included), and leaves the
      flagged rows' other fields and all other rows as they were. */
  lemma {:induction false} MarkedLookup(errors: Errors, flags: seq<bool>, key: string, info: ErrorInfo)
    ensures forall j :: j in Marked(errors, flags, key, info) <==> j in errors || (0 <= j < |flags| && flags[j])
    ensures forall j, k :: Lookup(Marked(errors, flags, key, info), j, k)
                        == if 0 <= j < |flags| && flags[j] && k == key then Some(info) else Lookup(errors, j, k)
  {
    if |flags| > 0 {
      MarkedLookup(errors, flags[..|flags| - 1], key, info);
    }
  }
}
