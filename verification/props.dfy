/**
 * A JavaScript object's own string-keyed members, as an ordered member list.
 *
 * The list keeps members in the order their keys were first created; reading
 * a key finds its LAST entry, which is also how `JSON.parse` treats a repeated
 * key. Objects the decoder builds itself go through `Put`, which assigns in
 * place (`o[k] = v`) and so never repeats a key.
 */
module Props {
  import opened Wrappers

  type Members<T> = seq<(string, T)>

  /** `key in o`: some entry carries the key. */
  predicate HasKey<T(==)>(fields: Members<T>, key: string) {
    exists i :: 0 <= i < |fields| && fields[i].0 == key
  }

  predicate UniqueKeys<T(==)>(fields: Members<T>) {
    forall i, j :: 0 <= i < j < |fields| ==> fields[i].0 != fields[j].0
  }

  /** `o[key]`: the value of the last entry with that key. */
  function Lookup<T(==)>(fields: Members<T>, key: string): (r: Option<T>)
    ensures r.Some? <==> HasKey(fields, key)
    ensures r.Some? ==> exists i :: 0 <= i < |fields| && fields[i] == (key, r.value)
  {
    if |fields| == 0 then None
    else if fields[|fields| - 1].0 == key then Some(fields[|fields| - 1].1)
    else
      var r := Lookup(fields[..|fields| - 1], key);
      assert HasKey(fields, key) ==> HasKey(fields[..|fields| - 1], key) by {
        if HasKey(fields, key) {
          var i :| 0 <= i < |fields| && fields[i].0 == key;
          assert fields[..|fields| - 1][i].0 == key;
        }
      }
      if r.Some? then
        var i :| 0 <= i < |fields| - 1 && fields[..|fields| - 1][i] == (key, r.value);
        assert fields[i] == (key, r.value);
        r
      else r
  }

  /** With unique keys, every entry is what its key reads. */
  lemma {:induction false} LookupUnique<T>(fields: Members<T>, j: nat)
    requires UniqueKeys(fields) && j < |fields|
    ensures Lookup(fields, fields[j].0) == Some(fields[j].1)
  {
    if j < |fields| - 1 {
      LookupUnique(fields[..|fields| - 1], j);
    }
  }

  /** Every entry whose key is `key` gets `value`; all else is kept, in order. */
  function Replace<T(==)>(fields: Members<T>, key: string, value: T): (r: Members<T>)
    ensures |r| == |fields|
    ensures forall i :: 0 <= i < |r| ==> r[i].0 == fields[i].0
    ensures forall k :: Lookup(r, k) == if k == key && HasKey(fields, k) then Some(value) else Lookup(fields, k)
  {
    if |fields| == 0 then []
    else
      var init := Replace(fields[..|fields| - 1], key, value);
      var last := fields[|fields| - 1];
      var r := init + [if last.0 == key then (key, value) else last];
      assert r[..|r| - 1] == init;
      r
  }

  /**
   * `o[key] = value`: overwrites the member in place when the key exists,
   * otherwise adds it after all existing members.
   */
  function Put<T(==)>(fields: Members<T>, key: string, value: T): (r: Members<T>)
    ensures Lookup(r, key) == Some(value)
    ensures forall k :: k != key ==> Lookup(r, k) == Lookup(fields, k)
    ensures HasKey(fields, key) ==> |r| == |fields|
    ensures !HasKey(fields, key) ==> |r| == |fields| + 1 && r[|fields|] == (key, value)
    ensures forall i :: 0 <= i < |fields| ==> r[i].0 == fields[i].0
    ensures UniqueKeys(fields) ==> UniqueKeys(r)
  {
    if HasKey(fields, key) then Replace(fields, key, value)
    else
      var r := fields + [(key, value)];
      assert r[..|r| - 1] == fields;
      r
  }

  /** Entries appended under other keys do not change what a key reads. */
  lemma {:induction false} LookupSkip<T>(fields: Members<T>, tail: Members<T>, key: string)
    requires forall i :: 0 <= i < |tail| ==> tail[i].0 != key
    ensures Lookup(fields + tail, key) == Lookup(fields, key)
  {
    if |tail| > 0 {
      var init := tail[..|tail| - 1];
      assert (fields + tail)[..|fields + tail| - 1] == fields + init;
      assert (fields + tail)[|fields + tail| - 1] == tail[|tail| - 1];
      LookupSkip(fields, init, key);
    } else {
      assert fields + tail == fields;
    }
  }

  /** `Put` of a new key appends it. */
  lemma PutFresh<T>(fields: Members<T>, key: string, value: T)
    requires !HasKey(fields, key)
    ensures Put(fields, key, value) == fields + [(key, value)]
  {
  }
}
