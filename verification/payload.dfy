/**
 * Decoding one reassembled payload (`_parseHeaderForResponse` in
 * src/js/devtools.js). A producer writes either a two-element array
 * `[meta, message]`, or a "dump": an object whose one key is the label and
 * whose value is the message.
 */
module Payload {
  import opened Wrappers
  import opened Text
  import opened Props
  import opened JsValue

  /** The meta object (type, label, file, line, ...) and the logged value. */
  datatype Parsed = Parsed(meta: Value, message: Value)

  /** The meta object a dump gets: type `log`, labelled with the key (or `undefined` when there is none). */
  function DumpMeta(tag: Option<string>): Value {
    Obj([("Type", Str("log")), ("Label", if tag.Some? then Str(tag.value) else Undefined)])
  }

  /**
   * `JSON.parse(value)`, then either element 0 and 1 of the result, or, when
   * `logArray[0]` reads `undefined`, the last own key as label and its value
   * as message. `parse` stands for `JSON.parse`; `None` is its SyntaxError.
   * Reading `logArray[0]` on a payload of `null` throws a TypeError.
   */
  function ParseHeaderForResponse(value: string, parse: string -> Option<Value>): (r: Result<Parsed, Fault>)
    ensures parse(value).None? ==> r == Failure(SyntaxError)
    ensures parse(value).Some? && parse(value).value.Nullish() ==> r == Failure(TypeError)
    ensures r.Success? <==> parse(value).Some? && !parse(value).value.Nullish()
    ensures r.Success? && Get(parse(value).value, "0") != Undefined ==> r.value.meta == Get(parse(value).value, "0")
    ensures r.Success? && Get(parse(value).value, "0") == Undefined ==> r.value.meta.Obj? && Get(r.value.meta, "Type") == Str("log")
    ensures r.Success? && Get(parse(value).value, "0") != Undefined ==> r.value.message == Get(parse(value).value, "1")
    ensures r.Success? && Get(parse(value).value, "0") == Undefined ==>
      var tag := LastOwnKey(parse(value).value);
      r.value == Parsed(DumpMeta(tag), Get(parse(value).value, if tag.Some? then tag.value else "undefined"))
  {
    var decoded := parse(value);
    if decoded.None? then Failure(SyntaxError)
    else
      var logArray := decoded.value;
      if logArray.Nullish() then Failure(TypeError)
      else if Get(logArray, "0") == Undefined then
        var tag := LastOwnKey(logArray);
        var message := Get(logArray, if tag.Some? then tag.value else "undefined");
        var fields := DumpMeta(tag).fields;
        assert fields[..|fields| - 1] == [("Type", Str("log"))];
        assert Lookup(fields, "Type") == Lookup([("Type", Str("log"))], "Type");
        Success(Parsed(DumpMeta(tag), message))
      else
        Success(Parsed(Get(logArray, "0"), Get(logArray, "1")))
  }

  /** The array encoding `[meta, message]` decodes to exactly its two elements. */
  lemma ArrayEncoding(value: string, parse: string -> Option<Value>, meta: Value, message: Value)
    requires parse(value) == Some(Arr([meta, message])) && meta != Undefined
    ensures ParseHeaderForResponse(value, parse) == Success(Parsed(meta, message))
  {
    GetArrayElement([meta, message], 0);
    GetArrayElement([meta, message], 1);
  }

  /**
   * The dump encoding `{label: message}` decodes to a `log` meta labelled
   * with the key, and the value under it, unless the key is `"0"`.
   */
  lemma DumpEncoding(value: string, parse: string -> Option<Value>, tag: string, message: Value)
    requires parse(value) == Some(Obj([(tag, message)])) && tag != "0"
    ensures ParseHeaderForResponse(value, parse) == Success(Parsed(DumpMeta(Some(tag)), message))
  {
    LastOwnKeyOfSingleMember(tag, message);
  }

  /**
   * A dump with several named keys is labelled with the LAST of them, and
   * its message is the value under that key.
   */
  lemma DumpOfNamedKeys(value: string, parse: string -> Option<Value>, fields: Members<Value>)
    requires parse(value) == Some(Obj(fields))
    requires |fields| > 0 && UniqueKeys(fields)
    requires forall i :: 0 <= i < |fields| ==> !IsArrayIndexKey(fields[i].0)
    ensures ParseHeaderForResponse(value, parse) ==
      Success(Parsed(DumpMeta(Some(fields[|fields| - 1].0)), fields[|fields| - 1].1))
  {
    CanonicalIndexOfNatToString(0);
    assert NatToString(0) == "0";
    assert IsArrayIndexKey("0");
    assert !HasKey(fields, "0");
    LastOwnKeyOfNamedMembers(fields);
    LookupUnique(fields, |fields| - 1);
  }

  /**
   * A dump labelled `"0"` is read as the array encoding instead: its value
   * becomes the meta object and the message is `undefined`.
   */
  lemma DumpUnderKeyZero(value: string, parse: string -> Option<Value>, message: Value)
    requires parse(value) == Some(Obj([("0", message)])) && message != Undefined
    ensures ParseHeaderForResponse(value, parse) == Success(Parsed(message, Undefined))
  {
  }

  /** An empty array or object, or a scalar, carries no label: meta is `{Type: "log", Label: undefined}` and the message `undefined`. */
  lemma NothingToLabel(value: string, parse: string -> Option<Value>)
    requires parse(value) == Some(Arr([])) || parse(value) == Some(Obj([])) ||
             (parse(value).Some? && (parse(value).value.Num? || parse(value).value.Bool?))
    ensures ParseHeaderForResponse(value, parse) == Success(Parsed(DumpMeta(None), Undefined))
  {
  }
}
