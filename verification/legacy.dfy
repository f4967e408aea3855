/**
 * The first-generation decoder, js/devtools.js: every `X-Wf-` header is
 * handled on its own, in the order the names first appear in the response,
 * with no reassembly of split messages and no numeric ordering. Header
 * names are matched case-sensitively and kept as sent.
 */
module Legacy {
  import opened Wrappers
  import opened Text
  import opened Props
  import opened JsValue
  import Headers
  import opened Runs
  import opened Commands
  import Reassembly

  const LegacyPrefix: string := "X-Wf-"
  const LegacyProtocolKey: string := "X-Wf-Protocol-1"
  const LegacyMessagePrefix: string := "X-Wf-1-1-1-"

  /** A command object of this decoder: `{type, message, fileAndLine}` or `{type: "table", table}`. */
  datatype Entry =
    | Message(kind: Kind, message: Value, fileAndLine: string)
    | TableRows(table: seq<Value>)

  /** `/^X-Wf-/.test(name)`: the name starts with `X-Wf-`, in exactly that case. */
  predicate IsLegacyName(name: string) {
    StartsWith(name, LegacyPrefix)
  }

  /** Extraction files header `h` under `key`: its name, unchanged, is the key. */
  predicate FiledUnder(h: Headers.RawHeader, key: string) {
    IsLegacyName(h.name) && h.name == key
  }

  /** Header `i` is the last one of `hs` filed under `key`. */
  predicate LastFiledUnder(hs: seq<Headers.RawHeader>, key: string, i: int) {
    && 0 <= i < |hs|
    && FiledUnder(hs[i], key)
    && forall j :: i < j < |hs| ==> !FiledUnder(hs[j], key)
  }

  /**
   * `getWildfireHeaders`: the `X-Wf-` headers keyed by their name as sent,
   * in the order the names first appear; a repeated name takes the later value.
   */
  function LegacyHeaders(hs: seq<Headers.RawHeader>): (wf: Headers.HeaderSet)
    ensures UniqueKeys(wf)
    ensures forall i :: 0 <= i < |wf| ==> IsLegacyName(wf[i].0)
  {
    if |hs| == 0 then []
    else
      var h := hs[|hs| - 1];
      var prev := LegacyHeaders(hs[..|hs| - 1]);
      if IsLegacyName(h.name) then Put(prev, h.name, h.value) else prev
  }

  /** Extracting one more header changes what `key` reads only when that header is filed under it. */
  lemma LegacyHeadersStep(hs: seq<Headers.RawHeader>, key: string)
    requires |hs| > 0
    ensures Lookup(LegacyHeaders(hs), key) ==
      if FiledUnder(hs[|hs| - 1], key) then Some(hs[|hs| - 1].value)
      else Lookup(LegacyHeaders(hs[..|hs| - 1]), key)
  {
  }

  /** A key is missing exactly when no header is filed under it. */
  lemma {:induction false} LegacyHeadersAbsent(hs: seq<Headers.RawHeader>, key: string)
    ensures Lookup(LegacyHeaders(hs), key).None? <==>
      forall i :: 0 <= i < |hs| ==> !FiledUnder(hs[i], key)
  {
    if |hs| > 0 {
      var init := hs[..|hs| - 1];
      LegacyHeadersAbsent(init, key);
      LegacyHeadersStep(hs, key);
      assert forall i :: 0 <= i < |init| ==> init[i] == hs[i];
    }
  }

  /** The last header filed under `key` is what `key` reads. */
  lemma {:induction false} LastFiledIsRead(hs: seq<Headers.RawHeader>, key: string, i: nat)
    requires LastFiledUnder(hs, key, i)
    ensures Lookup(LegacyHeaders(hs), key) == Some(hs[i].value)
  {
    LegacyHeadersStep(hs, key);
    if i < |hs| - 1 {
      var init := hs[..|hs| - 1];
      assert LastFiledUnder(init, key, i) by {
        assert init[i] == hs[i];
        assert forall j :: i < j < |init| ==> init[j] == hs[j];
      }
      LastFiledIsRead(init, key, i);
    }
  }

  /** Whatever `key` reads comes from the last header filed under it. */
  lemma {:induction false} ReadIsLastFiled(hs: seq<Headers.RawHeader>, key: string)
    requires Lookup(LegacyHeaders(hs), key).Some?
    ensures exists i :: LastFiledUnder(hs, key, i) && hs[i].value == Lookup(LegacyHeaders(hs), key).value
  {
    assert |hs| > 0;
    LegacyHeadersStep(hs, key);
    if FiledUnder(hs[|hs| - 1], key) {
      assert LastFiledUnder(hs, key, |hs| - 1);
    } else {
      var init := hs[..|hs| - 1];
      ReadIsLastFiled(init, key);
      var i :| LastFiledUnder(init, key, i) && init[i].value == Lookup(LegacyHeaders(init), key).value;
      LastFiledExtends(hs, key, i);
    }
  }

  /** The last header filed under `key` before the final one stays the last when the final one is filed elsewhere. */
  lemma LastFiledExtends(hs: seq<Headers.RawHeader>, key: string, i: nat)
    requires |hs| > 0 && !FiledUnder(hs[|hs| - 1], key)
    requires LastFiledUnder(hs[..|hs| - 1], key, i)
    ensures LastFiledUnder(hs, key, i) && hs[..|hs| - 1][i] == hs[i]
  {
    var init := hs[..|hs| - 1];
    forall j | i < j < |hs|
      ensures !FiledUnder(hs[j], key)
    {
      if j < |init| {
        assert init[j] == hs[j];
      }
    }
  }

  /**
   * A key holds a value exactly when a header of exactly that name, starting
   * with `X-Wf-`, carries it and no later header has the same name.
   */
  lemma LegacyHeadersLookup(hs: seq<Headers.RawHeader>, key: string, v: string)
    ensures Lookup(LegacyHeaders(hs), key) == Some(v) <==>
      exists i :: LastFiledUnder(hs, key, i) && hs[i].value == v
    ensures Lookup(LegacyHeaders(hs), key).None? <==>
      forall i :: 0 <= i < |hs| ==> !FiledUnder(hs[i], key)
  {
    LegacyHeadersAbsent(hs, key);
    if Lookup(LegacyHeaders(hs), key).Some? {
      ReadIsLastFiled(hs, key);
    }
    if exists i :: LastFiledUnder(hs, key, i) && hs[i].value == v {
      var i :| LastFiledUnder(hs, key, i) && hs[i].value == v;
      LastFiledIsRead(hs, key, i);
    }
  }

  /**
   * Headers whose names do not start with `X-Wf-` in exactly that case (as
   * an HTTP/2 response, whose names are all lower case, delivers them) are
   * not extracted at all.
   */
  lemma {:induction false} CaseSensitiveExtraction(hs: seq<Headers.RawHeader>)
    requires forall i :: 0 <= i < |hs| ==> !IsLegacyName(hs[i].name)
    ensures LegacyHeaders(hs) == []
  {
    if |hs| > 0 {
      CaseSensitiveExtraction(hs[..|hs| - 1]);
    }
  }

  /** With distinct `X-Wf-` names, the extracted object lists every header, in arrival order. */
  lemma {:induction false} DistinctNamesKeepArrivalOrder(hs: seq<Headers.RawHeader>)
    requires forall i :: 0 <= i < |hs| ==> IsLegacyName(hs[i].name)
    requires forall i, j :: 0 <= i < j < |hs| ==> hs[i].name != hs[j].name
    ensures |LegacyHeaders(hs)| == |hs|
    ensures forall i :: 0 <= i < |hs| ==> LegacyHeaders(hs)[i] == (hs[i].name, hs[i].value)
  {
    if |hs| > 0 {
      var init := hs[..|hs| - 1];
      var h := hs[|hs| - 1];
      DistinctNamesKeepArrivalOrder(init);
      var prev := LegacyHeaders(init);
      assert !HasKey(prev, h.name) by {
        forall i | 0 <= i < |prev|
          ensures prev[i].0 != h.name
        {
          assert prev[i].0 == init[i].name == hs[i].name;
        }
      }
      PutFresh(prev, h.name, h.value);
    }
  }

  /** `isProperProtocol`: the `X-Wf-Protocol-1` member equals the JsonStream 0.2 URI. */
  predicate IsProperProtocol(wf: Headers.HeaderSet) {
    Lookup(wf, LegacyProtocolKey) == Some(Headers.ProtocolUri)
  }

  /** The gate opens exactly when the last header named `X-Wf-Protocol-1`, in that case, carries the URI. */
  lemma LegacyProtocolGate(hs: seq<Headers.RawHeader>)
    ensures IsProperProtocol(LegacyHeaders(hs)) <==>
      exists i :: LastFiledUnder(hs, LegacyProtocolKey, i) && hs[i].value == Headers.ProtocolUri
  {
    LegacyHeadersLookup(hs, LegacyProtocolKey, Headers.ProtocolUri);
  }

  // ---------------------------------------------------------------------------
  // One header
  // ---------------------------------------------------------------------------

  /**
   * `value.split('|')[1]`, the text handed to `JSON.parse`. When the value has
   * no `|` that element is `undefined`, which `JSON.parse` reads as the text
   * `"undefined"`.
   */
  function JsonField(value: string): string {
    var parts := Split(value, '|');
    if |parts| > 1 then parts[1] else "undefined"
  }

  /**
   * The second `|`-separated field of a producer's header is its JSON text:
   * the message is read without the counter, and a continuation flag is
   * ignored rather than acted on.
   */
  lemma LegacyReadsEncodedJson(counter: string, json: string, continued: bool)
    requires '|' !in counter && '|' !in json
    ensures JsonField(Reassembly.EncodeFragment(counter, json, continued)) == json
  {
    var flag := if continued then Reassembly.ContinuationFlag else "";
    var tail := json + "|" + flag;
    assert Reassembly.EncodeFragment(counter, json, continued) == counter + ['|'] + tail;
    SplitAfterFree(counter, '|', tail);
    assert tail == json + ['|'] + flag;
    SplitAfterFree(json, '|', flag);
  }

  /** A value without any `|` hands `"undefined"` to `JSON.parse`. */
  lemma NoSeparatorParsesUndefined(value: string)
    requires '|' !in value
    ensures JsonField(value) == "undefined"
  {
    SplitHead(value, '|');
  }

  /** The arm of this decoder's `switch` a lower-cased `Type` selects: four levels and `table`. */
  function LegacyKind(headerType: string): (k: Option<Kind>)
    ensures k.Some? ==> k.value.Name() == headerType
    ensures k.Some? <==> headerType in {"log", "info", "warn", "error", "table"}
  {
    match headerType
    case "log" => Some(Log)
    case "info" => Some(Info)
    case "warn" => Some(Warn)
    case "error" => Some(Error)
    case "table" => Some(Table)
    case _ => None
  }

  /**
   * The command object for one decoded payload: `logArray[0]` is the meta
   * object, its `Type` is lower-cased, a level carries `logArray[1]` and
   * `File:Line`, a table lists `"Table:"` then a line break before each row.
   * Reading through `null`/`undefined` or lower-casing a non-string throws a
   * TypeError; other types make no command.
   */
  function EntryOf(logArray: Value): (r: Result<Option<Entry>, Fault>)
    ensures logArray.Nullish() ==> r == Failure(TypeError)
    ensures !logArray.Nullish() && (Get(logArray, "0").Nullish() || !Get(Get(logArray, "0"), "Type").Str?) ==>
      r == Failure(TypeError)
  {
    if logArray.Nullish() then Failure(TypeError)
    else
      var meta := Get(logArray, "0");
      if meta.Nullish() then Failure(TypeError)
      else
        var typeValue := Get(meta, "Type");
        if !typeValue.Str? then Failure(TypeError)
        else
          var kind := LegacyKind(Lower(typeValue.s));
          if kind.None? then Success(None)
          else if kind.value == Table then
            var rows :- Elements(Get(logArray, "1"));
            Success(Some(TableRows([Str("Table:")] + Interleave(rows))))
          else
            var fileAndLine := ToStr(Get(meta, "File")) + ":" + ToStr(Get(meta, "Line"));
            Success(Some(Message(kind.value, Get(logArray, "1"), fileAndLine)))
  }

  /**
   * `buildCommandObject(name, value)`: only names starting with
   * `X-Wf-1-1-1-` (in that case) are messages; their second field is parsed
   * and turned into a command object. `None` is the `null` it returns.
   */
  function BuildCommandObject(name: string, value: string, parse: string -> Option<Value>): (r: Result<Option<Entry>, Fault>)
    ensures !StartsWith(name, LegacyMessagePrefix) ==> r == Success(None)
    ensures StartsWith(name, LegacyMessagePrefix) && parse(JsonField(value)).None? ==> r == Failure(SyntaxError)
    ensures StartsWith(name, LegacyMessagePrefix) && parse(JsonField(value)).Some? ==> r == EntryOf(parse(JsonField(value)).value)
  {
    if !StartsWith(name, LegacyMessagePrefix) then Success(None)
    else
      match parse(JsonField(value))
      case None => Failure(SyntaxError)
      case Some(logArray) => EntryOf(logArray)
  }

  /**
   * A message typed as one of the four levels (in any letter case) gives one
   * entry of that level holding the second element and `File:Line`, which
   * is written even when the meta object has no `File`.
   */
  lemma LegacyLevel(k: Kind, meta: Value, message: Value)
    requires k in {Log, Info, Warn, Error} && TypedAs(meta, k.Name())
    ensures EntryOf(Arr([meta, message])) ==
      Success(Some(Message(k, message, ToStr(Get(meta, "File")) + ":" + ToStr(Get(meta, "Line")))))
  {
    GetArrayElement([meta, message], 0);
    GetArrayElement([meta, message], 1);
    assert LegacyKind(k.Name()) == Some(k);
  }

  /** A table gives `"Table:"` followed by a line break before each row, rows in order. */
  lemma LegacyTable(meta: Value, rows: seq<Value>)
    requires TypedAs(meta, "table")
    ensures
      var r := EntryOf(Arr([meta, Arr(rows)]));
      && r.Success? && r.value.Some? && r.value.value.TableRows?
      && var table := r.value.value.table;
      && |table| == 1 + 2 * |rows| && table[0] == Str("Table:")
      && forall i :: 0 <= i < |rows| ==> table[1 + 2 * i] == Str("\n") && table[2 + 2 * i] == rows[i]
  {
    GetArrayElement([meta, Arr(rows)], 0);
    GetArrayElement([meta, Arr(rows)], 1);
  }

  /** A table whose rows are `null` or missing throws a TypeError. */
  lemma LegacyTableWithoutRows(meta: Value, rows: Value)
    requires TypedAs(meta, "table") && rows.Nullish()
    ensures EntryOf(Arr([meta, rows])) == Failure(TypeError)
  {
    GetArrayElement([meta, rows], 0);
    GetArrayElement([meta, rows], 1);
  }

  /**
   * Types the newer decoder knows but this one does not (`debug`, groups,
   * traces, exceptions, `dump`) make no command.
   */
  lemma LegacyUnknownType(meta: Value, message: Value)
    requires !meta.Nullish() && Get(meta, "Type").Str?
    requires Lower(Get(meta, "Type").s) !in {"log", "info", "warn", "error", "table"}
    ensures EntryOf(Arr([meta, message])) == Success(None)
  {
    GetArrayElement([meta, message], 0);
  }

  // ---------------------------------------------------------------------------
  // The request listener
  // ---------------------------------------------------------------------------

  /** What one header contributes: its command object when there is one, or the exception. */
  function Announce(r: Result<Option<Entry>, Fault>): (run: Run<Entry>)
    ensures run.fault.None? <==> r.Success?
    ensures run.sent == if r.Success? && r.value.Some? then [r.value.value] else []
  {
    match r
    case Failure(e) => Throws(e)
    case Success(None) => Quiet()
    case Success(Some(entry)) => Run([entry], None)
  }

  /** `for (name in wfHeaders)`: each member in insertion order, stopping at the first exception. */
  function AnnounceAll(wf: Headers.HeaderSet, parse: string -> Option<Value>): Run<Entry> {
    if |wf| == 0 then Quiet()
    else Then(Announce(BuildCommandObject(wf[0].0, wf[0].1, parse)), AnnounceAll(wf[1..], parse))
  }

  /**
   * What the listener sends for one finished request. The keys all start
   * with `X-Wf-`, so none is an array index and `for ... in` visits them in
   * insertion order.
   */
  function Listener(hs: seq<Headers.RawHeader>, parse: string -> Option<Value>): Run<Entry> {
    var wf := LegacyHeaders(hs);
    if IsProperProtocol(wf) then AnnounceAll(wf, parse) else Quiet()
  }

  /** The listener's loop as written, sending each command object as it is built. */
  method OnRequestFinished(hs: seq<Headers.RawHeader>, parse: string -> Option<Value>)
    returns (sent: seq<Entry>, fault: Option<Fault>)
    ensures Run(sent, fault) == Listener(hs, parse)
  {
    sent := [];
    fault := None;
    var wf := LegacyHeaders(hs);
    if !IsProperProtocol(wf) {
      return;
    }
    var i := 0;
    while i < |wf|
      invariant 0 <= i <= |wf|
      invariant Then(Run(sent, None), AnnounceAll(wf[i..], parse)) == AnnounceAll(wf, parse)
    {
      var step := Announce(BuildCommandObject(wf[i].0, wf[i].1, parse));
      AnnounceStep(wf, i, parse, sent);
      sent := sent + step.sent;
      if step.fault.Some? {
        fault := step.fault;
        ThenAfterFault(Run(sent, fault), AnnounceAll(wf[i + 1..], parse));
        return;
      }
      i := i + 1;
    }
    assert wf[i..] == [];
    ThenQuiet(Run(sent, None));
  }

  lemma AnnounceAllStep(wf: Headers.HeaderSet, i: nat, parse: string -> Option<Value>)
    requires i < |wf|
    ensures AnnounceAll(wf[i..], parse) ==
      Then(Announce(BuildCommandObject(wf[i].0, wf[i].1, parse)), AnnounceAll(wf[i + 1..], parse))
  {
    assert wf[i..][1..] == wf[i + 1..];
  }

  /** One turn of the listener's loop: the member's outcome joins what was sent before it. */
  lemma AnnounceStep(wf: Headers.HeaderSet, i: nat, parse: string -> Option<Value>, sent: seq<Entry>)
    requires i < |wf|
    ensures
      var step := Announce(BuildCommandObject(wf[i].0, wf[i].1, parse));
      Then(Run(sent, None), AnnounceAll(wf[i..], parse)) == Then(Run(sent + step.sent, step.fault), AnnounceAll(wf[i + 1..], parse))
  {
    var step := Announce(BuildCommandObject(wf[i].0, wf[i].1, parse));
    AnnounceAllStep(wf, i, parse);
    ThenAssociative(Run(sent, None), step, AnnounceAll(wf[i + 1..], parse));
    assert Then(Run(sent, None), step) == Run(sent + step.sent, step.fault);
  }

  /** The command objects among some per-header outcomes, in order. */
  function Announced(outs: seq<Option<Entry>>): seq<Entry> {
    if |outs| == 0 then []
    else (if outs[0].Some? then [outs[0].value] else []) + Announced(outs[1..])
  }

  /** Members that all build without throwing send exactly their command objects, in member order. */
  lemma {:induction false} AnnounceAllInOrder(wf: Headers.HeaderSet, parse: string -> Option<Value>, outs: seq<Option<Entry>>)
    requires |outs| == |wf|
    requires forall i :: 0 <= i < |wf| ==> BuildCommandObject(wf[i].0, wf[i].1, parse) == Success(outs[i])
    ensures AnnounceAll(wf, parse) == Run(Announced(outs), None)
  {
    if |wf| > 0 {
      AnnounceAllInOrder(wf[1..], parse, outs[1..]);
      var head := if outs[0].Some? then [outs[0].value] else [];
      assert Announce(BuildCommandObject(wf[0].0, wf[0].1, parse)) == Run(head, None);
    }
  }

  /**
   * Messages are announced in the order their headers arrived, not by
   * message number: with distinct names, each header's outcome appears in
   * header order.
   */
  lemma AnnouncedInArrivalOrder(hs: seq<Headers.RawHeader>, parse: string -> Option<Value>, outs: seq<Option<Entry>>)
    requires forall i :: 0 <= i < |hs| ==> IsLegacyName(hs[i].name)
    requires forall i, j :: 0 <= i < j < |hs| ==> hs[i].name != hs[j].name
    requires IsProperProtocol(LegacyHeaders(hs))
    requires |outs| == |hs|
    requires forall i :: 0 <= i < |hs| ==> BuildCommandObject(hs[i].name, hs[i].value, parse) == Success(outs[i])
    ensures Listener(hs, parse) == Run(Announced(outs), None)
  {
    DistinctNamesKeepArrivalOrder(hs);
    AnnounceAllInOrder(LegacyHeaders(hs), parse, outs);
  }

  /** Without a header named exactly `X-Wf-Protocol-1` carrying the URI, nothing is sent. */
  lemma LegacyProtocolRequired(hs: seq<Headers.RawHeader>, parse: string -> Option<Value>)
    requires forall i :: 0 <= i < |hs| ==> !(FiledUnder(hs[i], LegacyProtocolKey) && hs[i].value == Headers.ProtocolUri)
    ensures Listener(hs, parse) == Quiet()
  {
    LegacyProtocolGate(hs);
  }

  /**
   * The first header that throws ends the request: the command objects of
   * the headers before it stay sent, nothing after it is looked at.
   */
  lemma {:induction false} AnnounceAllStopsAtFault(wf: Headers.HeaderSet, parse: string -> Option<Value>, outs: seq<Option<Entry>>, e: Fault)
    requires |outs| < |wf|
    requires forall i :: 0 <= i < |outs| ==> BuildCommandObject(wf[i].0, wf[i].1, parse) == Success(outs[i])
    requires BuildCommandObject(wf[|outs|].0, wf[|outs|].1, parse) == Failure(e)
    ensures AnnounceAll(wf, parse) == Run(Announced(outs), Some(e))
  {
    if |outs| > 0 {
      AnnounceAllStopsAtFault(wf[1..], parse, outs[1..], e);
      var head := if outs[0].Some? then [outs[0].value] else [];
      assert Announce(BuildCommandObject(wf[0].0, wf[0].1, parse)) == Run(head, None);
    } else {
      assert Announced(outs) == [];
    }
  }
}
