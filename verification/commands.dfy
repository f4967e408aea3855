/**
 * Building console commands from a decoded payload (`_buildCommandObject`
 * and `_buildTraceObject` in src/js/devtools.js): a dispatch on the
 * lower-cased `Type` of the meta object.
 */
module Commands {
  import opened Wrappers
  import opened Text
  import opened Props
  import opened JsValue
  import opened Runs
  import opened Payload

  /** The console methods a command can invoke. */
  datatype Kind = Debug | Log | Info | Warn | Error | Group | GroupCollapsed | GroupEnd | Table {

    /** The `type` field of the command object: the console method's name. */
    function Name(): string {
      match this
      case Debug => "debug"
      case Log => "log"
      case Info => "info"
      case Warn => "warn"
      case Error => "error"
      case Group => "group"
      case GroupCollapsed => "groupCollapsed"
      case GroupEnd => "groupEnd"
      case Table => "table"
    }

    /** The five kinds a level `Type` maps to, each under its own name. */
    predicate IsLevel() {
      Debug? || Log? || Info? || Warn? || Error?
    }
  }

  /** A command object `{type, params}` for the page's console. */
  datatype Command = Command(kind: Kind, params: seq<Value>)

  /** The arm of the `switch` a lower-cased `Type` selects. */
  datatype Branch = Level(kind: Kind) | GroupOpen | GroupClose | TableArm | TraceArm | ExceptionArm | NoArm

  function Classify(headerType: string): Branch {
    if headerType == "debug" then Level(Debug)
    else if headerType == "log" then Level(Log)
    else if headerType == "info" then Level(Info)
    else if headerType == "warn" then Level(Warn)
    else if headerType == "error" then Level(Error)
    else if headerType == "group_start" || headerType == "group" || headerType == "group_collapsed" then GroupOpen
    else if headerType == "groupend" || headerType == "group_end" then GroupClose
    else if headerType == "table" then TableArm
    else if headerType == "trace" then TraceArm
    else if headerType == "exception" then ExceptionArm
    else NoArm
  }

  /** A level arm is taken exactly for the five level names, and the command's type is that name. */
  lemma ClassifyLevels(headerType: string, k: Kind)
    ensures Classify(headerType) == Level(k) <==> k.IsLevel() && k.Name() == headerType
  {
  }

  // ---------------------------------------------------------------------------
  // Layout helpers
  // ---------------------------------------------------------------------------

  /** `"\n", v0, "\n", v1, ...`: each value preceded by a line break. */
  function Interleave(items: seq<Value>): (r: seq<Value>)
    ensures |r| == 2 * |items|
    ensures forall i :: 0 <= i < |items| ==> r[2 * i] == Str("\n") && r[2 * i + 1] == items[i]
  {
    if |items| == 0 then []
    else
      var init := Interleave(items[..|items| - 1]);
      init + [Str("\n"), items[|items| - 1]]
  }

  // ---------------------------------------------------------------------------
  // Stack frames
  // ---------------------------------------------------------------------------

  /** `o.Upper ? o.Upper : o.lower`: the capitalised field when truthy, else the lower-case one. */
  function Pick(o: Value, upper: string, lower: string): Value
    requires !o.Nullish()
  {
    if Truthy(Get(o, upper)) then Get(o, upper) else Get(o, lower)
  }

  /** The keys of an object, in the order they were created. */
  function KeysOf(fields: Members<Value>): seq<string> {
    seq(|fields|, i requires 0 <= i < |fields| => fields[i].0)
  }

  /** The keys of a rebuilt frame, in creation order. */
  function FrameLayout(withParameters: bool): seq<string> {
    ["Class", "Method", "File", "Line"] + (if withParameters then ["Parameters"] else [])
  }

  /** The argument list of a frame: `o.Args ? o.Args : o.args`. */
  function ArgsOf(o: Value): Value
    requires !o.Nullish()
  {
    Pick(o, "Args", "args")
  }

  /**
   * `_buildTraceObject`: `{Class, Method, File, Line}` taken from either
   * spelling of each field, plus `Parameters` when the argument list has a
   * truthy length. Reading a field of a missing frame, or the length of a
   * missing argument list, throws a TypeError.
   */
  function BuildTraceObject(o: Value): (r: Result<Value, Fault>)
    ensures r.Failure? <==> o.Nullish() || ArgsOf(o).Nullish()
    ensures r.Failure? ==> r.error == TypeError
    ensures r.Success? ==> r.value.Obj? && KeysOf(r.value.fields) == FrameLayout(Truthy(Get(ArgsOf(o), "length")))
  {
    if o.Nullish() then Failure(TypeError)
    else
      var parameters := ArgsOf(o);
      if parameters.Nullish() then Failure(TypeError)
      else
        var withParameters := Truthy(Get(parameters, "length"));
        var fields := FrameFields(Pick(o, "Class", "class"), Pick(o, "Function", "function"),
                                  Pick(o, "File", "file"), Pick(o, "Line", "line"), parameters, withParameters);
        FrameFieldsRead(Pick(o, "Class", "class"), Pick(o, "Function", "function"),
                        Pick(o, "File", "file"), Pick(o, "Line", "line"), parameters, withParameters);
        Success(Obj(fields))
  }

  /**
   * What a rebuilt frame holds: each of Class, Method, File and Line reads
   * the capitalised field of the entry when that is truthy and the
   * lower-case one otherwise, and Parameters reads the argument list when
   * its length is truthy and is absent otherwise.
   */
  lemma FrameHoldsPickedFields(o: Value)
    requires BuildTraceObject(o).Success?
    ensures !o.Nullish() && BuildTraceObject(o).value.Obj?
    ensures var frame := BuildTraceObject(o).value;
      && Get(frame, "Class") == (if Truthy(Get(o, "Class")) then Get(o, "Class") else Get(o, "class"))
      && Get(frame, "Method") == (if Truthy(Get(o, "Function")) then Get(o, "Function") else Get(o, "function"))
      && Get(frame, "File") == (if Truthy(Get(o, "File")) then Get(o, "File") else Get(o, "file"))
      && Get(frame, "Line") == (if Truthy(Get(o, "Line")) then Get(o, "Line") else Get(o, "line"))
      && Get(frame, "Parameters") == (if Truthy(Get(ArgsOf(o), "length")) then ArgsOf(o) else Undefined)
  {
    var cls, fn, file, line := Pick(o, "Class", "class"), Pick(o, "Function", "function"), Pick(o, "File", "file"), Pick(o, "Line", "line");
    var parameters := ArgsOf(o);
    var withParameters := Truthy(Get(parameters, "length"));
    FrameFieldsRead(cls, fn, file, line, parameters, withParameters);
    assert BuildTraceObject(o).value == Obj(FrameFields(cls, fn, file, line, parameters, withParameters));
  }

  /** The members of a rebuilt frame, in creation order. */
  function FrameFields(cls: Value, fn: Value, file: Value, line: Value, args: Value, withParameters: bool): Members<Value> {
    [("Class", cls), ("Method", fn), ("File", file), ("Line", line)] + (if withParameters then [("Parameters", args)] else [])
  }

  /** Each member of a rebuilt frame reads back as written, and `Parameters` is absent without arguments. */
  lemma FrameFieldsRead(cls: Value, fn: Value, file: Value, line: Value, args: Value, withParameters: bool)
    ensures var fields := FrameFields(cls, fn, file, line, args, withParameters);
      && KeysOf(fields) == FrameLayout(withParameters)
      && Get(Obj(fields), "Class") == cls && Get(Obj(fields), "Method") == fn
      && Get(Obj(fields), "File") == file && Get(Obj(fields), "Line") == line
      && Get(Obj(fields), "Parameters") == (if withParameters then args else Undefined)
  {
    FrameFieldsLookup(cls, fn, file, line, args, withParameters);
  }

  /** The same reading, stated on the member list. */
  lemma FrameFieldsLookup(cls: Value, fn: Value, file: Value, line: Value, args: Value, withParameters: bool)
    ensures var fields := FrameFields(cls, fn, file, line, args, withParameters);
      && KeysOf(fields) == FrameLayout(withParameters)
      && Lookup(fields, "Class") == Some(cls) && Lookup(fields, "Method") == Some(fn)
      && Lookup(fields, "File") == Some(file) && Lookup(fields, "Line") == Some(line)
      && Lookup(fields, "Parameters") == (if withParameters then Some(args) else None)
  {
    var base := [("Class", cls), ("Method", fn), ("File", file), ("Line", line)];
    assert UniqueKeys(base);
    LookupUnique(base, 0);
    LookupUnique(base, 1);
    LookupUnique(base, 2);
    LookupUnique(base, 3);
    assert !HasKey(base, "Parameters");
    if withParameters {
      assert FrameFields(cls, fn, file, line, args, withParameters) == base + [("Parameters", args)];
      assert (base + [("Parameters", args)])[..4] == base;
    } else {
      assert FrameFields(cls, fn, file, line, args, withParameters) == base;
    }
  }

  /** The frame keys are distinct, so every field of a rebuilt frame reads back as written. */
  lemma FrameLayoutUnique(withParameters: bool)
    ensures forall i, j :: 0 <= i < j < |FrameLayout(withParameters)| ==> FrameLayout(withParameters)[i] != FrameLayout(withParameters)[j]
  {
  }

  /** The five frame fields under the given key spellings, in that order. */
  function FrameSource(keys: seq<string>, cls: Value, fn: Value, file: Value, line: Value, args: Value): Value
    requires |keys| == 5
  {
    Obj([(keys[0], cls), (keys[1], fn), (keys[2], file), (keys[3], line), (keys[4], args)])
  }

  /** Reading one of the five fields of a frame source. */
  lemma FrameSourceGet(keys: seq<string>, vs: seq<Value>, k: nat)
    requires |keys| == 5 && |vs| == 5 && k < 5
    requires forall i, j :: 0 <= i < j < 5 ==> keys[i] != keys[j]
    ensures Get(FrameSource(keys, vs[0], vs[1], vs[2], vs[3], vs[4]), keys[k]) == vs[k]
  {
    var fields := FrameSource(keys, vs[0], vs[1], vs[2], vs[3], vs[4]).fields;
    assert fields == fields[..k + 1] + fields[k + 1..];
    LookupSkip(fields[..k + 1], fields[k + 1..], keys[k]);
    assert fields[..k + 1][k] == (keys[k], vs[k]);
  }

  /** A key outside the five reads `undefined`. */
  lemma FrameSourceMissing(keys: seq<string>, vs: seq<Value>, key: string)
    requires |keys| == 5 && |vs| == 5 && key !in keys
    ensures Get(FrameSource(keys, vs[0], vs[1], vs[2], vs[3], vs[4]), key) == Undefined
  {
    var fields := FrameSource(keys, vs[0], vs[1], vs[2], vs[3], vs[4]).fields;
    forall i | 0 <= i < |fields|
      ensures fields[i].0 != key
    {
      assert fields[i].0 == keys[i];
    }
    assert !HasKey(fields, key);
  }

  const UpperFrameKeys: seq<string> := ["Class", "Function", "File", "Line", "Args"]
  const LowerFrameKeys: seq<string> := ["class", "function", "file", "line", "args"]

  /** No spelling of one frame field is a spelling of another, and the two spellings of a field differ. */
  lemma FrameKeySpellingsDistinct()
    ensures forall i, j :: 0 <= i < 5 && 0 <= j < 5 && i != j ==>
      UpperFrameKeys[i] != UpperFrameKeys[j] && UpperFrameKeys[i] != LowerFrameKeys[j] && LowerFrameKeys[i] != LowerFrameKeys[j]
    ensures forall i :: 0 <= i < 5 ==> UpperFrameKeys[i] != LowerFrameKeys[i]
  {
  }

  /**
   * A frame spelled with any mix of capitalised and lower-case keys, all
   * five values truthy, rebuilds to `{Class, Method, File, Line}` holding
   * exactly those values, plus `Parameters` when the arguments have a
   * truthy length.
   */
  lemma {:induction false} MixedCasingFrame(keys: seq<string>, cls: Value, fn: Value, file: Value, line: Value, args: Value)
    requires |keys| == 5 && forall k :: 0 <= k < 5 ==> keys[k] == UpperFrameKeys[k] || keys[k] == LowerFrameKeys[k]
    requires Truthy(cls) && Truthy(fn) && Truthy(file) && Truthy(line) && Truthy(args)
    ensures BuildTraceObject(FrameSource(keys, cls, fn, file, line, args)) ==
            Success(Obj(FrameFields(cls, fn, file, line, args, Truthy(Get(args, "length")))))
  {
    var vs := [cls, fn, file, line, args];
    var src := FrameSource(keys, cls, fn, file, line, args);
    FrameKeySpellingsDistinct();
    forall k | 0 <= k < 5
      ensures Pick(src, UpperFrameKeys[k], LowerFrameKeys[k]) == vs[k]
    {
      FrameSourceGet(keys, vs, k);
      if keys[k] == LowerFrameKeys[k] {
        FrameSourceMissing(keys, vs, UpperFrameKeys[k]);
      }
    }
    assert UpperFrameKeys[0] == "Class" && LowerFrameKeys[0] == "class";
    assert UpperFrameKeys[1] == "Function" && LowerFrameKeys[1] == "function";
    assert UpperFrameKeys[2] == "File" && LowerFrameKeys[2] == "file";
    assert UpperFrameKeys[3] == "Line" && LowerFrameKeys[3] == "line";
    assert UpperFrameKeys[4] == "Args" && LowerFrameKeys[4] == "args";
  }

  /**
   * A parent frame spelled with capitals and a child frame spelled in lower
   * case, with the same truthy values, rebuild to the same object, which
   * holds those values.
   */
  lemma {:induction false} FrameCasingIrrelevant(cls: Value, fn: Value, file: Value, line: Value, args: Value)
    requires Truthy(cls) && Truthy(fn) && Truthy(file) && Truthy(line) && Truthy(args)
    ensures BuildTraceObject(FrameSource(UpperFrameKeys, cls, fn, file, line, args)) ==
            BuildTraceObject(FrameSource(LowerFrameKeys, cls, fn, file, line, args))
    ensures BuildTraceObject(FrameSource(UpperFrameKeys, cls, fn, file, line, args)) ==
            Success(Obj(FrameFields(cls, fn, file, line, args, Truthy(Get(args, "length")))))
  {
    MixedCasingFrame(UpperFrameKeys, cls, fn, file, line, args);
    MixedCasingFrame(LowerFrameKeys, cls, fn, file, line, args);
  }

  /** Two frames whose five fields pick the same values rebuild to the same object. */
  lemma SamePicksSameFrame(a: Value, b: Value)
    requires !a.Nullish() && !b.Nullish()
    requires Pick(a, "Class", "class") == Pick(b, "Class", "class")
    requires Pick(a, "Function", "function") == Pick(b, "Function", "function")
    requires Pick(a, "File", "file") == Pick(b, "File", "file")
    requires Pick(a, "Line", "line") == Pick(b, "Line", "line")
    requires ArgsOf(a) == ArgsOf(b)
    ensures BuildTraceObject(a) == BuildTraceObject(b)
  {
  }

  /** A frame object with neither `Args` nor `args` throws: the source reads `.length` of `undefined`. */
  lemma FrameWithoutArgsThrows(fields: Members<Value>)
    requires !HasKey(fields, "Args") && !HasKey(fields, "args")
    ensures BuildTraceObject(Obj(fields)) == Failure(TypeError)
  {
  }

  /** Every frame of a list in turn, stopping at the first that throws. */
  function BuildTraceObjects(entries: seq<Value>): (r: Result<seq<Value>, Fault>)
    ensures r.Success? <==> forall i :: 0 <= i < |entries| ==> BuildTraceObject(entries[i]).Success?
    ensures r.Success? ==> |r.value| == |entries|
    ensures r.Success? ==> forall i :: 0 <= i < |entries| ==> r.value[i] == BuildTraceObject(entries[i]).value
    ensures r.Failure? ==> r.error == TypeError
  {
    if |entries| == 0 then Success([])
    else
      match BuildTraceObject(entries[0])
      case Failure(e) => Failure(e)
      case Success(first) =>
        match BuildTraceObjects(entries[1..])
        case Failure(e) =>
          assert exists i :: 0 <= i < |entries[1..]| && BuildTraceObject(entries[1..][i]).Failure?;
          Failure(e)
        case Success(rest) =>
          assert forall i :: 1 <= i < |entries| ==> entries[i] == entries[1..][i - 1];
          Success([first] + rest)
  }

  /** `"\n", frame(t)` for each entry `t` of `message.Trace`. */
  function TraceFrames(message: Value): (r: Result<seq<Value>, Fault>)
    requires !message.Nullish()
    ensures Get(message, "Trace").Nullish() ==> r == Failure(TypeError)
    ensures r.Success? <==>
      && Elements(Get(message, "Trace")).Success?
      && forall i :: 0 <= i < |Elements(Get(message, "Trace")).value| ==> BuildTraceObject(Elements(Get(message, "Trace")).value[i]).Success?
    ensures r.Success? ==> (Elements(Get(message, "Trace")).Success? && |r.value| == 2 * |Elements(Get(message, "Trace")).value|)
    ensures r.Success? ==>
      var entries := Elements(Get(message, "Trace")).value;
      forall i :: 0 <= i < |entries| ==>
        && BuildTraceObject(entries[i]).Success?
        && r.value[2 * i] == Str("\n")
        && r.value[2 * i + 1] == BuildTraceObject(entries[i]).value
  {
    var entries :- Elements(Get(message, "Trace"));
    var frames :- BuildTraceObjects(entries);
    Success(Interleave(frames))
  }

  /** What a trace shows before its frames: the label and the message when truthy, else the caption `Stack Trace`. */
  function TraceLead(labelParams: seq<Value>, said: Value): (r: seq<Value>)
    ensures |r| >= 1 && |r| >= |labelParams|
    ensures labelParams == [] && !Truthy(said) ==> r == [Str("Stack Trace")]
    ensures labelParams != [] || Truthy(said) ==> r[..|labelParams|] == labelParams
    ensures Truthy(said) ==> r == labelParams + [said]
    ensures !Truthy(said) && labelParams != [] ==> r == labelParams
  {
    var head := labelParams + (if Truthy(said) then [said] else []);
    if |head| == 0 then [Str("Stack Trace")] else head
  }

  /**
   * The params of a `trace`: the lead, then the message's own frame and each
   * frame of its `Trace`, each after a line break.
   */
  function TraceParams(labelParams: seq<Value>, message: Value): (r: Result<seq<Value>, Fault>)
    ensures message.Nullish() ==> r == Failure(TypeError)
    ensures r.Success? <==> !message.Nullish() && BuildTraceObject(message).Success? && TraceFrames(message).Success?
    ensures r.Success? ==>
      var n := |TraceLead(labelParams, Get(message, "Message"))|;
      |r.value| == n + 2 + |TraceFrames(message).value| &&
      r.value[..n] == TraceLead(labelParams, Get(message, "Message")) &&
      r.value[n] == Str("\n") && r.value[n + 1] == BuildTraceObject(message).value &&
      r.value[n + 2..] == TraceFrames(message).value
  {
    if message.Nullish() then Failure(TypeError)
    else
      var lead := TraceLead(labelParams, Get(message, "Message"));
      var top :- BuildTraceObject(message);
      var frames :- TraceFrames(message);
      assert (lead + [Str("\n"), top] + frames)[..|lead|] == lead;
      Success(lead + [Str("\n"), top] + frames)
  }

  /** The summary object an exception is shown as: its message, class, file and line. */
  function ExceptionSummary(message: Value): Value
    requires !message.Nullish()
  {
    Obj([("Message", Get(message, "Message")), ("Class", Get(message, "Class")),
         ("File", Get(message, "File")), ("Line", Get(message, "Line"))])
  }

  /** The params of an `exception`: the label if truthy, the fixed captions around the summary, then each frame of `Trace`. */
  function ExceptionParams(labelParams: seq<Value>, message: Value): (r: Result<seq<Value>, Fault>)
    ensures message.Nullish() ==> r == Failure(TypeError)
    ensures r.Success? <==> !message.Nullish() && TraceFrames(message).Success?
    ensures r.Success? ==>
      |r.value| == |labelParams| + 3 + |TraceFrames(message).value| &&
      r.value[..|labelParams| + 3] == labelParams + [Str("Exception:\n"), ExceptionSummary(message), Str("\nStack trace:\n")] &&
      r.value[|labelParams| + 3..] == TraceFrames(message).value
  {
    if message.Nullish() then Failure(TypeError)
    else
      var frames :- TraceFrames(message);
      var head := labelParams + [Str("Exception:\n"), ExceptionSummary(message), Str("\nStack trace:\n")];
      assert (head + frames)[..|head|] == head;
      Success(head + frames)
  }

  // ---------------------------------------------------------------------------
  // Tables
  // ---------------------------------------------------------------------------

  /** The key cell `j` of a row is stored under: `String(columns[j])`. */
  function ColumnKey(columns: Value, j: nat): string
    requires !columns.Nullish()
  {
    ToStr(Get(columns, NatToString(j)))
  }

  /** `row[columns[j]] = cells[j]` for each `j` in turn, starting from `{}`. */
  function RecordFields(columns: Value, cells: seq<Value>): (fields: Members<Value>)
    requires !columns.Nullish()
    ensures UniqueKeys(fields)
  {
    if |cells| == 0 then []
    else
      var n := |cells| - 1;
      Put(RecordFields(columns, cells[..n]), ColumnKey(columns, n), cells[n])
  }

  /** One table row as a record; reading the columns of a missing header row throws once there is a cell. */
  function RowRecord(columns: Value, cells: seq<Value>): (r: Result<Value, Fault>)
    ensures r.Failure? <==> |cells| > 0 && columns.Nullish()
    ensures r.Success? ==> r.value.Obj? && UniqueKeys(r.value.fields)
  {
    if |cells| == 0 then Success(Obj([]))
    else if columns.Nullish() then Failure(TypeError)
    else Success(Obj(RecordFields(columns, cells)))
  }

  /** A data row that builds: it has cells to read, and a missing column row is harmless only when it has none. */
  predicate RowBuilds(columns: Value, row: Value) {
    !row.Nullish() && (columns.Nullish() ==> |Elements(row).value| == 0)
  }

  /** The records of the data rows, in order; the first row that cannot be read throws. */
  function Records(columns: Value, rows: seq<Value>): (r: Result<seq<Value>, Fault>)
    ensures r.Success? <==> forall i :: 0 <= i < |rows| ==> RowBuilds(columns, rows[i])
    ensures r.Failure? ==> r.error == TypeError
    ensures r.Success? ==> |r.value| == |rows|
    ensures r.Success? ==> forall i :: 0 <= i < |rows| ==> r.value[i] == RowRecord(columns, Elements(rows[i]).value).value
  {
    if |rows| == 0 then Success([])
    else if !RowBuilds(columns, rows[0]) then Failure(TypeError)
    else
      var record := RowRecord(columns, Elements(rows[0]).value).value;
      match Records(columns, rows[1..])
      case Failure(e) =>
        assert exists i :: 0 <= i < |rows[1..]| && !RowBuilds(columns, rows[1..][i]);
        Failure(e)
      case Success(rest) =>
        assert forall i :: 1 <= i < |rows| ==> rows[i] == rows[1..][i - 1];
        Success([record] + rest)
  }

  /**
   * The `console.table` arm: the first row (shifted off) names the columns,
   * each remaining row becomes a record. Only an array has `shift`.
   */
  function StructuredTable(message: Value): (r: Result<Value, Fault>)
    ensures !message.Arr? ==> r == Failure(TypeError)
    ensures r.Success? ==> message.Arr? && r.value.Arr? && |r.value.items| == if |message.items| == 0 then 0 else |message.items| - 1
    ensures message.Arr? && |message.items| == 0 ==> r == Success(Arr([]))
  {
    if !message.Arr? then Failure(TypeError)
    else if |message.items| == 0 then Success(Arr([]))
    else
      var records :- Records(message.items[0], message.items[1..]);
      Success(Arr(records))
  }

  /**
   * An array table succeeds exactly when every data row builds, and record
   * `i - 1` is the record of row `i` under the shifted-off column row.
   */
  lemma StructuredTableRows(rows: seq<Value>)
    ensures StructuredTable(Arr(rows)).Success? <==> forall i :: 1 <= i < |rows| ==> RowBuilds(rows[0], rows[i])
    ensures StructuredTable(Arr(rows)).Success? ==>
      forall i :: 1 <= i < |rows| ==> StructuredTable(Arr(rows)).value.items[i - 1] == RowRecord(rows[0], Elements(rows[i]).value).value
  {
    if |rows| > 0 {
      assert forall i :: 1 <= i < |rows| ==> rows[i] == rows[1..][i - 1];
    }
  }

  /** A number has no `length`, so a number row builds and gives the empty record `{}`. */
  lemma NumberRowGivesEmptyRecord(columns: Value, n: int)
    ensures RowBuilds(columns, Num(n))
    ensures RowRecord(columns, Elements(Num(n)).value) == Success(Obj([]))
  {
  }

  /** The members `name_j: cells[j]`, in column order. */
  function Zip(names: seq<string>, cells: seq<Value>): Members<Value>
    requires |names| == |cells|
  {
    seq(|cells|, j requires 0 <= j < |cells| => (names[j], cells[j]))
  }

  predicate Distinct(names: seq<string>) {
    forall i, j :: 0 <= i < j < |names| ==> names[i] != names[j]
  }

  /** The header row of column names, as the payload carries it. */
  function HeaderRow(names: seq<string>): Value {
    Arr(seq(|names|, j requires 0 <= j < |names| => Str(names[j])))
  }

  /** Cell `j` of a row is filed under column name `j`. */
  lemma HeaderRowKey(names: seq<string>, j: nat)
    requires j < |names|
    ensures ColumnKey(HeaderRow(names), j) == names[j]
  {
    GetArrayElement(HeaderRow(names).items, j);
  }

  /** The first `m` cells of a row, read against distinct column names, map each name to its cell in column order. */
  lemma {:induction false} RecordPrefix(names: seq<string>, cells: seq<Value>, m: nat)
    requires Distinct(names) && |cells| == m <= |names|
    ensures RecordFields(HeaderRow(names), cells) == Zip(names[..m], cells)
  {
    if m > 0 {
      var n := m - 1;
      var columns := HeaderRow(names);
      var zipInit := Zip(names[..n], cells[..n]);
      RecordPrefix(names, cells[..n], n);
      HeaderRowKey(names, n);
      assert RecordFields(columns, cells) == Put(zipInit, names[n], cells[n]);
      ZipSnoc(names, cells, m);
      PutFresh(zipInit, names[n], cells[n]);
    }
  }

  /** Zipping one more column appends its pair, under a name the earlier columns do not use. */
  lemma ZipSnoc(names: seq<string>, cells: seq<Value>, m: nat)
    requires Distinct(names) && |cells| == m <= |names| && m > 0
    ensures !HasKey(Zip(names[..m - 1], cells[..m - 1]), names[m - 1])
    ensures Zip(names[..m], cells) == Zip(names[..m - 1], cells[..m - 1]) + [(names[m - 1], cells[m - 1])]
  {
    var n := m - 1;
    var zipInit := Zip(names[..n], cells[..n]);
    forall i | 0 <= i < n
      ensures zipInit[i].0 != names[n]
    {
      assert zipInit[i].0 == names[i];
    }
  }

  /** With distinct column names and a full row, the record maps each column to its cell, in column order. */
  lemma RecordMapsColumns(names: seq<string>, cells: seq<Value>)
    requires Distinct(names) && |cells| == |names|
    ensures RecordFields(HeaderRow(names), cells) == Zip(names, cells)
  {
    RecordPrefix(names, cells, |cells|);
    assert names[..|cells|] == names;
  }

  /** The fallback arm: the rows, header row included, each after a line break, with no caption. */
  function FallbackTable(message: Value): (r: Result<seq<Value>, Fault>)
    ensures r.Failure? <==> message.Nullish()
    ensures message.Arr? ==> r == Success(Interleave(message.items))
  {
    var rows :- Elements(message);
    Success(Interleave(rows))
  }

  // ---------------------------------------------------------------------------
  // The dispatch
  // ---------------------------------------------------------------------------

  /** The `File:Line` suffix of a level command: present only when `File` is truthy. */
  function Location(meta: Value): seq<Value>
    requires !meta.Nullish()
  {
    var file := Get(meta, "File");
    if Truthy(file) then [Str(ToStr(file) + ":" + ToStr(Get(meta, "Line")))] else []
  }

  /** `groupCollapsed` for `group_collapsed`, or when `Collapsed` is truthy and loosely equals `'true'`. */
  function GroupKind(headerType: string, collapsed: Value): Kind {
    if headerType == "group_collapsed" || (Truthy(collapsed) && LooselyEqualsTrue(collapsed)) then GroupCollapsed else Group
  }

  /** One command of kind `k` with the computed params, or the exception computing them raised. */
  function EmitParams(k: Kind, ps: Result<seq<Value>, Fault>): Run<Command> {
    match ps
    case Success(p) => Run([Command(k, p)], None)
    case Failure(e) => Throws(e)
  }

  /** The table command: `console.table` with the records when available, else an `info` with the rows. */
  function TableCommand(message: Value, hasConsoleTable: bool): Run<Command> {
    if hasConsoleTable then
      match StructuredTable(message)
      case Success(t) => Run([Command(Table, [t])], None)
      case Failure(e) => Throws(e)
    else
      EmitParams(Info, FallbackTable(message))
  }

  /** The `info` command that carries a table's truthy label, sent before the table is built. */
  function TableLabel(tag: Value): seq<Command> {
    if Truthy(tag) then [Command(Info, [tag])] else []
  }

  /**
   * The `switch` on the lower-cased type: what each arm sends. Labels go in
   * front of the message except for a table, whose truthy label is sent as
   * an `info` command at once, before the table is built.
   */
  function Dispatch(headerType: string, tag: Value, location: seq<Value>, collapsed: Value, message: Value, hasConsoleTable: bool): (r: Run<Command>)
    ensures |r.sent| <= 2
    ensures Classify(headerType).NoArm? ==> r == Quiet()
    ensures Classify(headerType).Level? ==> r.fault.None? && |r.sent| == 1 && r.sent[0].kind.Name() == headerType
  {
    var labelParams := if headerType != "table" && Truthy(tag) then [tag] else [];
    match Classify(headerType)
    case Level(k) => Run([Command(k, labelParams + [message] + location)], None)
    case GroupOpen => Run([Command(GroupKind(headerType, collapsed), labelParams + [message])], None)
    case GroupClose => Run([Command(GroupEnd, labelParams + [message])], None)
    case TableArm => Then(Run(TableLabel(tag), None), TableCommand(message, hasConsoleTable))
    case TraceArm => EmitParams(Log, TraceParams(labelParams, message))
    case ExceptionArm => EmitParams(Log, ExceptionParams(labelParams, message))
    case NoArm => Quiet()
  }

  /**
   * The commands `_buildCommandObject` sends for one meta object and
   * message. A meta object without a string `Type` throws; an unknown type
   * sends nothing.
   */
  function BuildFromParts(meta: Value, message: Value, hasConsoleTable: bool): (r: Run<Command>)
    ensures meta.Nullish() || !Get(meta, "Type").Str? ==> r == Throws(TypeError)
    ensures |r.sent| <= 2
    ensures !meta.Nullish() && Get(meta, "Type").Str? ==>
      var headerType := Lower(Get(meta, "Type").s);
      && (Classify(headerType).NoArm? ==> r == Quiet())
      && (Classify(headerType).Level? ==> r.fault.None? && |r.sent| == 1 && r.sent[0].kind.Name() == headerType)
  {
    if meta.Nullish() then Throws(TypeError)
    else
      var typeValue := Get(meta, "Type");
      if !typeValue.Str? then Throws(TypeError)
      else Dispatch(Lower(typeValue.s), Get(meta, "Label"), Location(meta), Get(meta, "Collapsed"), message, hasConsoleTable)
  }

  /** A meta object with a string `Type` is dispatched on that type, lower-cased, and on its `Label`, `File`, `Line` and `Collapsed`. */
  lemma DispatchOf(meta: Value, message: Value, hasConsoleTable: bool)
    requires !meta.Nullish() && Get(meta, "Type").Str?
    ensures BuildFromParts(meta, message, hasConsoleTable) ==
      Dispatch(Lower(Get(meta, "Type").s), Get(meta, "Label"), Location(meta), Get(meta, "Collapsed"), message, hasConsoleTable)
  {
  }

  /** `_buildCommandObject` on a reassembled payload: decode it, then dispatch. */
  function BuildCommandObject(value: string, parse: string -> Option<Value>, hasConsoleTable: bool): (r: Run<Command>)
    ensures parse(value).None? ==> r == Throws(SyntaxError)
    ensures ParseHeaderForResponse(value, parse).Failure? ==> r == Throws(ParseHeaderForResponse(value, parse).error)
    ensures ParseHeaderForResponse(value, parse).Success? ==>
      r == BuildFromParts(ParseHeaderForResponse(value, parse).value.meta, ParseHeaderForResponse(value, parse).value.message, hasConsoleTable)
  {
    match ParseHeaderForResponse(value, parse)
    case Failure(e) => Throws(e)
    case Success(p) => BuildFromParts(p.meta, p.message, hasConsoleTable)
  }

  // ---------------------------------------------------------------------------
  // What each arm sends
  // ---------------------------------------------------------------------------

  /** The meta object's `Type`, lower-cased, when it is a string. */
  predicate TypedAs(meta: Value, headerType: string) {
    !meta.Nullish() && Get(meta, "Type").Str? && Lower(Get(meta, "Type").s) == headerType
  }

  /**
   * A level message sends one command of that level: the label first when
   * truthy, then the message, then `File:Line` exactly when `File` is truthy.
   */
  lemma LevelLayout(meta: Value, message: Value, hasConsoleTable: bool, k: Kind)
    requires k.IsLevel() && TypedAs(meta, k.Name())
    ensures
      var r := BuildFromParts(meta, message, hasConsoleTable);
      var tag := Get(meta, "Label");
      var file := Get(meta, "File");
      var skip := if Truthy(tag) then 1 else 0;
      && r.fault.None? && |r.sent| == 1 && r.sent[0].kind == k
      && |r.sent[0].params| == skip + 1 + (if Truthy(file) then 1 else 0)
      && (Truthy(tag) ==> r.sent[0].params[0] == tag)
      && r.sent[0].params[skip] == message
      && (Truthy(file) ==> r.sent[0].params[skip + 1] == Str(ToStr(file) + ":" + ToStr(Get(meta, "Line"))))
  {
    ClassifyLevels(k.Name(), k);
  }

  /**
   * A group opens collapsed exactly when its type is `group_collapsed` or its
   * `Collapsed` member loosely equals `'true'`; the label (when truthy) and
   * the message are its params.
   */
  lemma GroupOpening(meta: Value, message: Value, hasConsoleTable: bool)
    requires TypedAs(meta, "group") || TypedAs(meta, "group_start") || TypedAs(meta, "group_collapsed")
    ensures
      var r := BuildFromParts(meta, message, hasConsoleTable);
      var tag := Get(meta, "Label");
      && r.fault.None? && |r.sent| == 1
      && (r.sent[0].kind == GroupCollapsed <==>
          TypedAs(meta, "group_collapsed") || LooselyEqualsTrue(Get(meta, "Collapsed")))
      && (r.sent[0].kind == Group || r.sent[0].kind == GroupCollapsed)
      && r.sent[0].params == (if Truthy(tag) then [tag] else []) + [message]
  {
    var collapsed := Get(meta, "Collapsed");
    DispatchOf(meta, message, hasConsoleTable);
    GroupArmsSend(Lower(Get(meta, "Type").s), Get(meta, "Label"), Location(meta), collapsed, message, hasConsoleTable);
    assert LooselyEqualsTrue(collapsed) ==> Truthy(collapsed);
  }

  /** `groupend` and `group_end` close a group with the label (when truthy) and the message. */
  lemma GroupClosing(meta: Value, message: Value, hasConsoleTable: bool)
    requires TypedAs(meta, "groupend") || TypedAs(meta, "group_end")
    ensures
      var r := BuildFromParts(meta, message, hasConsoleTable);
      var tag := Get(meta, "Label");
      r == Run([Command(GroupEnd, (if Truthy(tag) then [tag] else []) + [message])], None)
  {
    DispatchOf(meta, message, hasConsoleTable);
    GroupArmsSend(Lower(Get(meta, "Type").s), Get(meta, "Label"), Location(meta), Get(meta, "Collapsed"), message, hasConsoleTable);
  }

  /** The table arm sends the truthy label, then the table command. */
  lemma TableArmSends(tag: Value, location: seq<Value>, collapsed: Value, message: Value, hasConsoleTable: bool)
    ensures Dispatch("table", tag, location, collapsed, message, hasConsoleTable) ==
      Then(Run(TableLabel(tag), None), TableCommand(message, hasConsoleTable))
  {
    assert Classify("table") == TableArm;
  }

  /** The group arms send one command with the truthy label and the message. */
  lemma GroupArmsSend(headerType: string, tag: Value, location: seq<Value>, collapsed: Value, message: Value, hasConsoleTable: bool)
    requires headerType in {"group", "group_start", "group_collapsed", "groupend", "group_end"}
    ensures
      var k := if headerType in {"groupend", "group_end"} then GroupEnd else GroupKind(headerType, collapsed);
      Dispatch(headerType, tag, location, collapsed, message, hasConsoleTable) ==
        Run([Command(k, (if Truthy(tag) then [tag] else []) + [message])], None)
  {
    assert Classify(headerType) == if headerType in {"groupend", "group_end"} then GroupClose else GroupOpen;
  }

  /**
   * A table's truthy label is sent on its own as an `info` command, before
   * the table and even when building the table throws; the table command
   * itself never carries the label.
   */
  lemma TableLabelSentFirst(meta: Value, message: Value, hasConsoleTable: bool)
    requires TypedAs(meta, "table")
    ensures
      var r := BuildFromParts(meta, message, hasConsoleTable);
      var tag := Get(meta, "Label");
      r.sent == TableLabel(tag) + TableCommand(message, hasConsoleTable).sent &&
      r.fault == TableCommand(message, hasConsoleTable).fault &&
      (Truthy(tag) ==> r.sent[0] == Command(Info, [tag]))
  {
    DispatchOf(meta, message, hasConsoleTable);
    TableArmSends(Get(meta, "Label"), Location(meta), Get(meta, "Collapsed"), message, hasConsoleTable);
  }

  /** The table command does not depend on the meta object at all: only on the message. */
  lemma TableIgnoresMeta(meta1: Value, meta2: Value, message: Value, hasConsoleTable: bool)
    requires TypedAs(meta1, "table") && TypedAs(meta2, "table")
    requires !Truthy(Get(meta1, "Label")) && !Truthy(Get(meta2, "Label"))
    ensures BuildFromParts(meta1, message, hasConsoleTable) == BuildFromParts(meta2, message, hasConsoleTable)
  {
    TableLabelSentFirst(meta1, message, hasConsoleTable);
    TableLabelSentFirst(meta2, message, hasConsoleTable);
  }

  /** A row of the table payload: an array of cells. */
  predicate FullRows(names: seq<string>, rows: seq<Value>) {
    forall i :: 0 <= i < |rows| ==> rows[i].Arr? && |rows[i].items| == |names|
  }

  /** The expected records: each row's cells zipped with the column names. */
  function ZippedRows(names: seq<string>, rows: seq<Value>): seq<Value>
    requires FullRows(names, rows)
  {
    seq(|rows|, i requires 0 <= i < |rows| => Obj(Zip(names, rows[i].items)))
  }

  lemma ZippedRowsCons(names: seq<string>, rows: seq<Value>)
    requires FullRows(names, rows) && |rows| > 0
    ensures FullRows(names, rows[1..])
    ensures ZippedRows(names, rows) == [Obj(Zip(names, rows[0].items))] + ZippedRows(names, rows[1..])
  {
    var rest := rows[1..];
    assert forall i :: 0 <= i < |rest| ==> rest[i] == rows[i + 1];
    var expected := ZippedRows(names, rows);
    var built := [Obj(Zip(names, rows[0].items))] + ZippedRows(names, rest);
    forall i | 0 <= i < |rows|
      ensures expected[i] == built[i]
    {
    }
  }

  /** One step of `Records` on a row that is an array. */
  lemma RecordsCons(columns: Value, rows: seq<Value>)
    requires |rows| > 0 && rows[0].Arr? && !columns.Nullish()
    ensures Records(columns, rows[1..]).Success? ==>
      Records(columns, rows) == Success([Obj(RecordFields(columns, rows[0].items))] + Records(columns, rows[1..]).value)
  {
    assert Elements(rows[0]) == Success(rows[0].items);
  }

  /** The records of full rows under distinct column names are the zipped rows. */
  lemma {:induction false} RecordsOfFullRows(names: seq<string>, rows: seq<Value>)
    requires Distinct(names) && FullRows(names, rows)
    ensures Records(HeaderRow(names), rows) == Success(ZippedRows(names, rows))
  {
    if |rows| > 0 {
      ZippedRowsCons(names, rows);
      RecordsOfFullRows(names, rows[1..]);
      RecordMapsColumns(names, rows[0].items);
      RecordsCons(HeaderRow(names), rows);
    } else {
      assert ZippedRows(names, rows) == [];
    }
  }

  /**
   * With `console.table`, a payload whose first row holds distinct column
   * names and whose other rows are full becomes one record per data row,
   * mapping column `j` to cell `j`.
   */
  lemma StructuredTableOfRows(names: seq<string>, rows: seq<Value>)
    requires Distinct(names) && FullRows(names, rows)
    ensures StructuredTable(Arr([HeaderRow(names)] + rows)) == Success(Arr(ZippedRows(names, rows)))
  {
    var items := [HeaderRow(names)] + rows;
    assert items[0] == HeaderRow(names) && items[1..] == rows;
    RecordsOfFullRows(names, rows);
  }

  /** Without `console.table`, a table is one `info` command listing every row, header row included, each after a line break. */
  lemma FallbackTableRows(meta: Value, rows: seq<Value>)
    requires TypedAs(meta, "table") && !Truthy(Get(meta, "Label"))
    ensures
      var r := BuildFromParts(meta, Arr(rows), false);
      && r.fault.None? && |r.sent| == 1 && r.sent[0].kind == Info
      && |r.sent[0].params| == 2 * |rows|
      && forall i :: 0 <= i < |rows| ==> r.sent[0].params[2 * i] == Str("\n") && r.sent[0].params[2 * i + 1] == rows[i]
  {
    DispatchOf(meta, Arr(rows), false);
    TableArmSends(Get(meta, "Label"), Location(meta), Get(meta, "Collapsed"), Arr(rows), false);
    assert TableCommand(Arr(rows), false) == Run([Command(Info, Interleave(rows))], None);
  }

  /** A step that emits at most one command of kind `k`, exactly when it does not throw. */
  lemma EmitParamsShape(k: Kind, ps: Result<seq<Value>, Fault>)
    ensures |EmitParams(k, ps).sent| <= 1
    ensures EmitParams(k, ps).fault.None? <==> |EmitParams(k, ps).sent| == 1
    ensures forall i :: 0 <= i < |EmitParams(k, ps).sent| ==> EmitParams(k, ps).sent[i].kind == k
  {
  }

  /** The trace and exception arms emit through `EmitParams` with kind `log`. */
  lemma TraceArmsEmitLog(headerType: string, tag: Value, location: seq<Value>, collapsed: Value, message: Value, hasConsoleTable: bool)
    requires headerType == "trace" || headerType == "exception"
    ensures
      var labelParams := if Truthy(tag) then [tag] else [];
      Dispatch(headerType, tag, location, collapsed, message, hasConsoleTable) ==
        if headerType == "trace" then EmitParams(Log, TraceParams(labelParams, message))
        else EmitParams(Log, ExceptionParams(labelParams, message))
  {
    assert Classify(headerType) == if headerType == "trace" then TraceArm else ExceptionArm;
  }

  /** Traces and exceptions are shown with `console.log`: whatever they send is a single `log` command. */
  lemma TracesAreLogged(meta: Value, message: Value, hasConsoleTable: bool)
    requires TypedAs(meta, "trace") || TypedAs(meta, "exception")
    ensures
      var r := BuildFromParts(meta, message, hasConsoleTable);
      && |r.sent| <= 1
      && (r.fault.None? <==> |r.sent| == 1)
      && forall i :: 0 <= i < |r.sent| ==> r.sent[i].kind == Log
  {
    var h := Lower(Get(meta, "Type").s);
    var tag := Get(meta, "Label");
    var labelParams := if Truthy(tag) then [tag] else [];
    DispatchOf(meta, message, hasConsoleTable);
    TraceArmsEmitLog(h, tag, Location(meta), Get(meta, "Collapsed"), message, hasConsoleTable);
    EmitParamsShape(Log, TraceParams(labelParams, message));
    EmitParamsShape(Log, ExceptionParams(labelParams, message));
  }

  /** A trace with neither a truthy label nor a truthy message is captioned `Stack Trace`. */
  lemma UncaptionedTrace(meta: Value, message: Value, hasConsoleTable: bool)
    requires TypedAs(meta, "trace") && !Truthy(Get(meta, "Label"))
    requires !message.Nullish() && !Truthy(Get(message, "Message"))
    ensures
      var r := BuildFromParts(meta, message, hasConsoleTable);
      r.fault.None? ==> |r.sent| == 1 && |r.sent[0].params| > 0 && r.sent[0].params[0] == Str("Stack Trace")
  {
    DispatchOf(meta, message, hasConsoleTable);
    TraceArmsEmitLog("trace", Get(meta, "Label"), Location(meta), Get(meta, "Collapsed"), message, hasConsoleTable);
  }

  /** A trace or exception whose `Trace` member is missing throws before anything is sent. */
  lemma MissingTraceThrows(meta: Value, message: Value, hasConsoleTable: bool)
    requires TypedAs(meta, "trace") || TypedAs(meta, "exception")
    requires !message.Nullish() && Get(message, "Trace").Nullish()
    ensures BuildFromParts(meta, message, hasConsoleTable) == Throws(TypeError)
  {
    DispatchOf(meta, message, hasConsoleTable);
    TraceArmsEmitLog(Lower(Get(meta, "Type").s), Get(meta, "Label"), Location(meta), Get(meta, "Collapsed"), message, hasConsoleTable);
  }

  /** The letter case of `Type` does not matter: `LOG`, `Log` and `log` send the same commands. */
  lemma {:induction false} TypeCaseInsensitive(fields: Members<Value>, t: string, message: Value, hasConsoleTable: bool)
    ensures BuildFromParts(Obj(fields + [("Type", Str(t))]), message, hasConsoleTable) ==
            BuildFromParts(Obj(fields + [("Type", Str(Lower(t)))]), message, hasConsoleTable)
  {
    var m1 := Obj(fields + [("Type", Str(t))]);
    var m2 := Obj(fields + [("Type", Str(Lower(t)))]);
    LowerIdempotent(t);
    assert Get(m1, "Type") == Str(t) && Get(m2, "Type") == Str(Lower(t));
    forall key | key != "Type"
      ensures Get(m1, key) == Get(m2, key)
    {
      LookupSkip(fields, [("Type", Str(t))], key);
      LookupSkip(fields, [("Type", Str(Lower(t)))], key);
    }
    DispatchOf(m1, message, hasConsoleTable);
    DispatchOf(m2, message, hasConsoleTable);
    assert Location(m1) == Location(m2);
  }
}
