/**
 * The JavaScript values the decoder handles, and the few language rules it
 * depends on: truthiness, property reads, string conversion, the `== 'true'`
 * comparison, array-like iteration and `Object.keys(v).pop()`.
 *
 * Numbers are integers only. Objects are member lists (see `Props`).
 */
module JsValue {
  import opened Wrappers
  import opened Text
  import opened Props

  datatype Value =
    | Undefined
    | Null
    | Bool(b: bool)
    | Num(n: int)
    | Str(s: string)
    | Arr(items: seq<Value>)
    | Obj(fields: Members<Value>)
  {
    /** Reading a property of these throws a TypeError. */
    predicate Nullish() {
      Undefined? || Null?
    }
  }

  /** The exceptions the decoder can raise: a bad `JSON.parse`, or a TypeError. */
  datatype Fault = SyntaxError | TypeError

  /** JavaScript truthiness: `undefined`, `null`, `false`, `0` and `""` are falsy. */
  predicate Truthy(v: Value) {
    match v
    case Undefined => false
    case Null => false
    case Bool(b) => b
    case Num(n) => n != 0
    case Str(s) => s != ""
    case Arr(_) => true
    case Obj(_) => true
  }

  /** Largest index an array element can have: 2^32 - 2. */
  const MaxArrayIndex: nat := 4294967294

  /** A key that arrays treat as an element index, which objects enumerate first and in numeric order. */
  predicate IsArrayIndexKey(key: string) {
    var i := CanonicalIndex(key);
    i.Some? && i.value <= MaxArrayIndex
  }

  /** `v[key]` on a value that is neither `null` nor `undefined`. */
  function Get(v: Value, key: string): Value
    requires !v.Nullish()
  {
    match v
    case Arr(items) =>
      if key == "length" then Num(|items|)
      else
        var i := CanonicalIndex(key);
        if i.Some? && i.value < |items| then items[i.value] else Undefined
    case Str(s) =>
      if key == "length" then Num(|s|)
      else
        var i := CanonicalIndex(key);
        if i.Some? && i.value < |s| then Str([s[i.value]]) else Undefined
    case Obj(fields) => Lookup(fields, key).GetOr(Undefined)
    case _ => Undefined
  }

  /** Element `i` of an array is what `a[String(i)]` reads. */
  lemma GetArrayElement(items: seq<Value>, i: nat)
    requires i < |items|
    ensures Get(Arr(items), NatToString(i)) == items[i]
  {
    CanonicalIndexOfNatToString(i);
  }

  /**
   * How many times `for (i = 0; i < len; i++)` runs when `len` is the value
   * read from a `length` property.
   */
  function LoopCount(len: Value): nat {
    match len
    case Num(n) => if n < 0 then 0 else n
    case Bool(b) => if b then 1 else 0
    case _ => 0
  }

  /**
   * The values `for (i = 0; i < v.length; i++) { ... v[i] ... }` visits:
   * a TypeError on `null`/`undefined`, otherwise `v[0]`, `v[1]`, ... while
   * `i < v.length`.
   */
  function Elements(v: Value): (r: Result<seq<Value>, Fault>)
    ensures r.Failure? <==> v.Nullish()
    ensures r.Failure? ==> r.error == TypeError
    ensures v.Arr? ==> r == Success(v.items)
    ensures v.Str? ==> r.Success? && |r.value| == |v.s|
    ensures r.Success? ==> |r.value| == LoopCount(Get(v, "length"))
    ensures r.Success? ==> forall i :: 0 <= i < |r.value| ==> r.value[i] == Get(v, NatToString(i))
  {
    if v.Nullish() then Failure(TypeError)
    else
      var n := LoopCount(Get(v, "length"));
      var r := seq(n, i requires 0 <= i < n => Get(v, NatToString(i)));
      if v.Arr? then
        assert n == |v.items|;
        forall i | 0 <= i < n
          ensures r[i] == v.items[i]
        {
          GetArrayElement(v.items, i);
        }
        assert r == v.items;
        Success(r)
      else
        Success(r)
  }

  /**
   * `String(v)`, as used by `+` with a string operand and by property keys:
   * arrays join their elements with commas (`null`/`undefined` elements as
   * empty text) and every object prints as `[object Object]`.
   */
  function ToStr(v: Value): string
    decreases v
  {
    match v
    case Undefined => "undefined"
    case Null => "null"
    case Bool(b) => if b then "true" else "false"
    case Num(n) => IntToString(n)
    case Str(s) => s
    case Arr(items) =>
      Join(seq(|items|, i requires 0 <= i < |items| => if items[i].Nullish() then "" else ToStr(items[i])), ',')
    case Obj(_) => "[object Object]"
  }

  /**
   * `v == 'true'` with loose equality: a string compares by content, an array
   * by its joined text; numbers and booleans compare numerically with
   * `Number('true')`, which is NaN, so never; objects print as
   * `[object Object]`; `null` and `undefined` equal only each other.
   */
  predicate LooselyEqualsTrue(v: Value) {
    match v
    case Str(s) => s == "true"
    case Arr(_) => ToStr(v) == "true"
    case _ => false
  }

  /** Among the keys of `fields`, the non-index key created last, if any. */
  function LastCreatedNamedKey(fields: Members<Value>): (r: Option<string>)
    ensures r.Some? ==> HasKey(fields, r.value) && !IsArrayIndexKey(r.value)
  {
    if |fields| == 0 then None
    else
      var init := fields[..|fields| - 1];
      var k := fields[|fields| - 1].0;
      if !IsArrayIndexKey(k) && !HasKey(init, k) then Some(k)
      else
        var r := LastCreatedNamedKey(init);
        if r.Some? then
          var i :| 0 <= i < |init| && init[i].0 == r.value;
          assert fields[i].0 == r.value;
          r
        else r
  }

  /** The largest array-index key of `fields`, as a number, if any. */
  function LargestIndexKey(fields: Members<Value>): (r: Option<nat>)
    ensures r.Some? ==> HasKey(fields, NatToString(r.value))
    ensures forall i :: 0 <= i < |fields| && IsArrayIndexKey(fields[i].0) ==>
      r.Some? && CanonicalIndex(fields[i].0).value <= r.value
  {
    if |fields| == 0 then None
    else
      var init := fields[..|fields| - 1];
      var k := fields[|fields| - 1].0;
      var r := LargestIndexKey(init);
      assert forall i :: 0 <= i < |init| ==> init[i] == fields[i];
      if IsArrayIndexKey(k) && (r.None? || r.value < CanonicalIndex(k).value) then
        Some(CanonicalIndex(k).value)
      else
        assert r.Some? ==> HasKey(fields, NatToString(r.value)) by {
          if r.Some? {
            var i :| 0 <= i < |init| && init[i].0 == NatToString(r.value);
            assert fields[i].0 == NatToString(r.value);
          }
        }
        r
  }

  /**
   * `Object.keys(v).pop()`: the last own key in enumeration order. Array
   * and string indices come first in ascending order, then named keys in
   * creation order, so the last key is the newest named key when there is
   * one, and otherwise the largest index.
   */
  function LastOwnKey(v: Value): Option<string>
    requires !v.Nullish()
  {
    match v
    case Arr(items) => if |items| == 0 then None else Some(NatToString(|items| - 1))
    case Str(s) => if |s| == 0 then None else Some(NatToString(|s| - 1))
    case Obj(fields) =>
      var named := LastCreatedNamedKey(fields);
      if named.Some? then named
      else
        var index := LargestIndexKey(fields);
        if index.Some? then Some(NatToString(index.value)) else None
    case _ => None
  }

  /**
   * An object whose keys are all named (none is an array index) and distinct
   * enumerates them in creation order, so its last key is that of its last
   * member.
   */
  lemma LastOwnKeyOfNamedMembers(fields: Members<Value>)
    requires |fields| > 0 && UniqueKeys(fields)
    requires forall i :: 0 <= i < |fields| ==> !IsArrayIndexKey(fields[i].0)
    ensures LastOwnKey(Obj(fields)) == Some(fields[|fields| - 1].0)
  {
    var init := fields[..|fields| - 1];
    assert forall i :: 0 <= i < |init| ==> init[i].0 == fields[i].0;
    assert !HasKey(init, fields[|fields| - 1].0);
  }

  /** An object with a single member enumerates exactly that member's key. */
  lemma LastOwnKeyOfSingleMember(key: string, value: Value)
    ensures LastOwnKey(Obj([(key, value)])) == Some(key)
  {
    var fields := [(key, value)];
    assert fields[..0] == [];
    if IsArrayIndexKey(key) {
      var index := LargestIndexKey(fields);
      assert index.Some? && index.value == CanonicalIndex(key).value;
    }
  }
}
