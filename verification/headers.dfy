/**
 * Header extraction, the protocol gate, the truncation test and the numeric
 * ordering of message headers (`_getWildfireHeaders`, `_isProperProtocol`,
 * `_isTruncatedResponse` and `_getSortedMessageHeaders` in src/js/devtools.js).
 */
module Headers {
  import opened Wrappers
  import opened Text
  import opened Props

  /** One response header, as the browser's network log reports it. */
  datatype RawHeader = RawHeader(name: string, value: string)

  /** The Wildfire headers of one response: a plain object keyed by lower-cased name. */
  type HeaderSet = Members<string>

  const WildfirePrefix: string := "x-wf-"
  const ProtocolKey: string := "x-wf-protocol-1"
  const ProtocolUri: string := "http://meta.wildfirehq.org/Protocol/JsonStream/0.2"
  const TruncatedKey: string := "x-wf-notify-truncated"
  const MessagePrefix: string := "x-wf-1-1-1-"

  /** Highest message number whose slot `n - 1` is still an array index: 2^32 - 1. */
  const MaxMessageNumber: nat := 4294967295

  /** `/^X-Wf-/i.test(name)`: the name starts with `X-Wf-` in any letter case. */
  predicate IsWildfireName(name: string) {
    StartsWith(Lower(name), WildfirePrefix)
  }

  /** Extraction files header `h` under `key`. */
  predicate StoresUnder(h: RawHeader, key: string) {
    IsWildfireName(h.name) && Lower(h.name) == key
  }

  /** Header `i` is the last one of `hs` filed under `key`. */
  predicate LastStoredUnder(hs: seq<RawHeader>, key: string, i: int) {
    && 0 <= i < |hs|
    && StoresUnder(hs[i], key)
    && forall j :: i < j < |hs| ==> !StoresUnder(hs[j], key)
  }

  /**
   * The Wildfire headers of a response, keyed by lower-cased name, in the
   * order the names first appear; a repeated name keeps its first position
   * and takes the later value.
   */
  function WildfireHeaders(hs: seq<RawHeader>): (wf: HeaderSet)
    ensures UniqueKeys(wf)
    ensures forall i :: 0 <= i < |wf| ==> StartsWith(wf[i].0, WildfirePrefix)
  {
    if |hs| == 0 then []
    else
      var h := hs[|hs| - 1];
      var prev := WildfireHeaders(hs[..|hs| - 1]);
      if IsWildfireName(h.name) then Put(prev, Lower(h.name), h.value) else prev
  }

  /** Extracting one more header changes what `key` reads only when that header is filed under it. */
  lemma WildfireHeadersStep(hs: seq<RawHeader>, key: string)
    requires |hs| > 0
    ensures Lookup(WildfireHeaders(hs), key) ==
      if StoresUnder(hs[|hs| - 1], key) then Some(hs[|hs| - 1].value)
      else Lookup(WildfireHeaders(hs[..|hs| - 1]), key)
  {
  }

  /** A key is missing exactly when no header is filed under it. */
  lemma {:induction false} WildfireHeadersAbsent(hs: seq<RawHeader>, key: string)
    ensures Lookup(WildfireHeaders(hs), key).None? <==>
      forall i :: 0 <= i < |hs| ==> !StoresUnder(hs[i], key)
  {
    if |hs| > 0 {
      var init := hs[..|hs| - 1];
      WildfireHeadersAbsent(init, key);
      WildfireHeadersStep(hs, key);
      assert forall i :: 0 <= i < |init| ==> init[i] == hs[i];
    }
  }

  /** The last header filed under `key` is what `key` reads. */
  lemma {:induction false} LastStoredIsRead(hs: seq<RawHeader>, key: string, i: nat)
    requires LastStoredUnder(hs, key, i)
    ensures Lookup(WildfireHeaders(hs), key) == Some(hs[i].value)
  {
    WildfireHeadersStep(hs, key);
    if i < |hs| - 1 {
      var init := hs[..|hs| - 1];
      assert LastStoredUnder(init, key, i) by {
        assert init[i] == hs[i];
        assert forall j :: i < j < |init| ==> init[j] == hs[j];
      }
      LastStoredIsRead(init, key, i);
    }
  }

  /** Whatever `key` reads comes from the last header filed under it. */
  lemma {:induction false} ReadIsLastStored(hs: seq<RawHeader>, key: string)
    requires Lookup(WildfireHeaders(hs), key).Some?
    ensures exists i :: LastStoredUnder(hs, key, i) && hs[i].value == Lookup(WildfireHeaders(hs), key).value
  {
    assert |hs| > 0;
    WildfireHeadersStep(hs, key);
    if StoresUnder(hs[|hs| - 1], key) {
      assert LastStoredUnder(hs, key, |hs| - 1);
    } else {
      var init := hs[..|hs| - 1];
      ReadIsLastStored(init, key);
      var i :| LastStoredUnder(init, key, i) && init[i].value == Lookup(WildfireHeaders(init), key).value;
      LastStoredExtends(hs, key, i);
    }
  }

  /** The last header filed under `key` before the final one stays the last when the final one is filed elsewhere. */
  lemma LastStoredExtends(hs: seq<RawHeader>, key: string, i: nat)
    requires |hs| > 0 && !StoresUnder(hs[|hs| - 1], key)
    requires LastStoredUnder(hs[..|hs| - 1], key, i)
    ensures LastStoredUnder(hs, key, i) && hs[..|hs| - 1][i] == hs[i]
  {
    var init := hs[..|hs| - 1];
    forall j | i < j < |hs|
      ensures !StoresUnder(hs[j], key)
    {
      if j < |init| {
        assert init[j] == hs[j];
      }
    }
  }

  /**
   * A key holds a value exactly when a header with that name (in any case)
   * and the Wildfire prefix carries it and no later header has the same name.
   */
  lemma WildfireHeadersLookup(hs: seq<RawHeader>, key: string, v: string)
    ensures Lookup(WildfireHeaders(hs), key) == Some(v) <==>
      exists i :: LastStoredUnder(hs, key, i) && hs[i].value == v
    ensures Lookup(WildfireHeaders(hs), key).None? <==>
      forall i :: 0 <= i < |hs| ==> !StoresUnder(hs[i], key)
  {
    WildfireHeadersAbsent(hs, key);
    if Lookup(WildfireHeaders(hs), key).Some? {
      ReadIsLastStored(hs, key);
    }
    if exists i :: LastStoredUnder(hs, key, i) && hs[i].value == v {
      var i :| LastStoredUnder(hs, key, i) && hs[i].value == v;
      LastStoredIsRead(hs, key, i);
    }
  }

  /** `_isProperProtocol`: the protocol header holds exactly the JsonStream 0.2 URI. */
  predicate IsProperProtocol(wf: HeaderSet) {
    Lookup(wf, ProtocolKey) == Some(ProtocolUri)
  }

  /** `_isTruncatedResponse`: a truncation header is present, whatever its value. */
  predicate IsTruncatedResponse(wf: HeaderSet) {
    Lookup(wf, TruncatedKey).Some?
  }

  /** The protocol gate opens exactly when the last protocol header of the response carries the URI. */
  lemma ProtocolGateOnRawHeaders(hs: seq<RawHeader>)
    ensures IsProperProtocol(WildfireHeaders(hs)) <==>
      exists i :: LastStoredUnder(hs, ProtocolKey, i) && hs[i].value == ProtocolUri
  {
    WildfireHeadersLookup(hs, ProtocolKey, ProtocolUri);
  }

  // ---------------------------------------------------------------------------
  // Numeric ordering
  // ---------------------------------------------------------------------------

  /** The header name of message number `n`. */
  function MessageKey(n: nat): string {
    MessagePrefix + NatToString(n)
  }

  /**
   * The array slot `parseInt(key.replace('x-wf-1-1-1-', '')) - 1` that a
   * message key writes, when that is an array index; keys whose number is
   * NaN, below 1 or beyond 2^32 - 1 become named properties and are never
   * visited.
   */
  function MessageIndex(key: string): Option<nat> {
    if !StartsWith(key, MessagePrefix) then None
    else
      var n := ParseInt(key[|MessagePrefix|..]);
      if n.Some? && 1 <= n.value <= MaxMessageNumber then Some(n.value - 1) else None
  }

  /** The header of message `n` lands in slot `n - 1`. */
  lemma MessageIndexOfMessageKey(n: nat)
    requires 1 <= n <= MaxMessageNumber
    ensures MessageIndex(MessageKey(n)) == Some(n - 1)
  {
    var key := MessageKey(n);
    assert key[..|MessagePrefix|] == MessagePrefix;
    assert key[|MessagePrefix|..] == NatToString(n);
    ParseIntOfNatToString(n);
  }

  /** A JavaScript array with holes: `None` marks a slot never assigned. */
  type Sparse = seq<Option<string>>

  /** `a[i] = v` on a JavaScript array: grows the array with holes when `i` is past its end. */
  function SetSlot(a: Sparse, i: nat, v: string): (r: Sparse)
    ensures |r| == if i < |a| then |a| else i + 1
    ensures r[i] == Some(v)
    ensures forall j :: 0 <= j < |r| && j != i ==> r[j] == if j < |a| then a[j] else None
  {
    if i < |a| then a[i := Some(v)] else a + seq(i - |a|, _ => None) + [Some(v)]
  }

  /**
   * `_getSortedMessageHeaders`: walks the keys in object order and stores the
   * value of `x-wf-1-1-1-<n>` at slot `n - 1`.
   */
  function SortedMessageHeaders(wf: HeaderSet): (r: Sparse)
    ensures |r| == 0 || r[|r| - 1].Some?
  {
    if |wf| == 0 then []
    else
      var a := SortedMessageHeaders(wf[..|wf| - 1]);
      var i := MessageIndex(wf[|wf| - 1].0);
      if i.Some? then SetSlot(a, i.value, wf[|wf| - 1].1) else a
  }

  /** Entry `j` is the last entry of `wf` whose key writes slot `i`. */
  predicate LastWriterOf(wf: HeaderSet, i: nat, j: int) {
    && 0 <= j < |wf|
    && MessageIndex(wf[j].0) == Some(i)
    && forall k :: j < k < |wf| ==> MessageIndex(wf[k].0) != Some(i)
  }

  /** Slot `i` of a sparse array, `None` past its end as well as in a hole. */
  function SlotAt(a: Sparse, i: nat): Option<string> {
    if i < |a| then a[i] else None
  }

  /** Storing one more key changes slot `i` only when that key writes it. */
  lemma SortedMessageHeadersStep(wf: HeaderSet, i: nat)
    requires |wf| > 0
    ensures SlotAt(SortedMessageHeaders(wf), i) ==
      if MessageIndex(wf[|wf| - 1].0) == Some(i) then Some(wf[|wf| - 1].1)
      else SlotAt(SortedMessageHeaders(wf[..|wf| - 1]), i)
  {
  }

  /** Slot `i` is filled exactly when some key writes it. */
  lemma {:induction false} SortedMessageHeadersFilled(wf: HeaderSet, i: nat)
    ensures (i < |SortedMessageHeaders(wf)| && SortedMessageHeaders(wf)[i].Some?) <==>
      exists j :: 0 <= j < |wf| && MessageIndex(wf[j].0) == Some(i)
  {
    if |wf| > 0 {
      var init := wf[..|wf| - 1];
      SortedMessageHeadersFilled(init, i);
      SortedMessageHeadersStep(wf, i);
      assert forall j :: 0 <= j < |init| ==> init[j] == wf[j];
    }
  }

  /** The last key that writes slot `i` leaves its value there. */
  lemma {:induction false} LastWriterIsStored(wf: HeaderSet, i: nat, j: nat)
    requires LastWriterOf(wf, i, j)
    ensures SlotAt(SortedMessageHeaders(wf), i) == Some(wf[j].1)
  {
    SortedMessageHeadersStep(wf, i);
    if j < |wf| - 1 {
      var init := wf[..|wf| - 1];
      assert LastWriterOf(init, i, j) by {
        assert init[j] == wf[j];
        assert forall k :: j < k < |init| ==> init[k] == wf[k];
      }
      LastWriterIsStored(init, i, j);
    }
  }

  /** A filled slot holds the value of the last key that writes it. */
  lemma {:induction false} StoredIsLastWriter(wf: HeaderSet, i: nat)
    requires SlotAt(SortedMessageHeaders(wf), i).Some?
    ensures exists j :: LastWriterOf(wf, i, j) && wf[j].1 == SlotAt(SortedMessageHeaders(wf), i).value
  {
    SortedMessageHeadersStep(wf, i);
    if MessageIndex(wf[|wf| - 1].0) == Some(i) {
      assert LastWriterOf(wf, i, |wf| - 1);
    } else {
      var init := wf[..|wf| - 1];
      StoredIsLastWriter(init, i);
      var j :| LastWriterOf(init, i, j) && init[j].1 == SlotAt(SortedMessageHeaders(init), i).value;
      assert init[j] == wf[j];
      forall k | j < k < |wf|
        ensures MessageIndex(wf[k].0) != Some(i)
      {
        if k < |init| {
          assert init[k] == wf[k];
        }
      }
      assert LastWriterOf(wf, i, j);
    }
  }

  /** A filled slot `i` holds the value of the last key that writes it. */
  lemma SortedMessageHeadersSlots(wf: HeaderSet, i: nat, v: string)
    ensures (i < |SortedMessageHeaders(wf)| && SortedMessageHeaders(wf)[i] == Some(v)) <==>
      exists j :: LastWriterOf(wf, i, j) && wf[j].1 == v
  {
    if SlotAt(SortedMessageHeaders(wf), i).Some? {
      StoredIsLastWriter(wf, i);
    }
    if exists j :: LastWriterOf(wf, i, j) && wf[j].1 == v {
      var j :| LastWriterOf(wf, i, j) && wf[j].1 == v;
      LastWriterIsStored(wf, i, j);
    }
  }

  lemma MessageKeysAreWildfire(name: string)
    requires MessageIndex(Lower(name)).Some?
    ensures IsWildfireName(name)
  {
    assert Lower(name)[..|WildfirePrefix|] == Lower(name)[..|MessagePrefix|][..|WildfirePrefix|];
  }

  /** Every message header numbered `n + 1` carries `values[n]`, and no number exceeds `|values|`. */
  predicate CarriesNumbered(hs: seq<RawHeader>, values: seq<string>) {
    forall i :: 0 <= i < |hs| && MessageIndex(Lower(hs[i].name)).Some? ==>
      MessageIndex(Lower(hs[i].name)).value < |values| &&
      hs[i].value == values[MessageIndex(Lower(hs[i].name)).value]
  }

  /** Every number from 1 to `|values|` has a message header. */
  predicate NoGaps(hs: seq<RawHeader>, values: seq<string>) {
    forall n :: 0 <= n < |values| ==>
      exists i :: 0 <= i < |hs| && MessageIndex(Lower(hs[i].name)) == Some(n)
  }

  lemma FilledSlotHoldsNumberedValue(hs: seq<RawHeader>, values: seq<string>, k: nat)
    requires CarriesNumbered(hs, values)
    requires k < |SortedMessageHeaders(WildfireHeaders(hs))|
    requires SortedMessageHeaders(WildfireHeaders(hs))[k].Some?
    ensures k < |values| && SortedMessageHeaders(WildfireHeaders(hs))[k] == Some(values[k])
  {
    var wf := WildfireHeaders(hs);
    var v := SortedMessageHeaders(wf)[k].value;
    SortedMessageHeadersSlots(wf, k, v);
    var j :| LastWriterOf(wf, k, j) && wf[j].1 == v;
    LookupUnique(wf, j);
    WildfireHeadersLookup(hs, wf[j].0, v);
    var i :| LastStoredUnder(hs, wf[j].0, i) && hs[i].value == v;
    assert MessageIndex(Lower(hs[i].name)) == Some(k);
  }

  lemma NumberedSlotIsFilled(hs: seq<RawHeader>, values: seq<string>, n: nat)
    requires NoGaps(hs, values) && n < |values|
    ensures n < |SortedMessageHeaders(WildfireHeaders(hs))|
    ensures SortedMessageHeaders(WildfireHeaders(hs))[n].Some?
  {
    var wf := WildfireHeaders(hs);
    var i :| 0 <= i < |hs| && MessageIndex(Lower(hs[i].name)) == Some(n);
    var key := Lower(hs[i].name);
    MessageKeysAreWildfire(hs[i].name);
    assert StoresUnder(hs[i], key);
    WildfireHeadersLookup(hs, key, hs[i].value);
    var j :| 0 <= j < |wf| && wf[j].0 == key;
    SortedMessageHeadersFilled(wf, n);
  }

  /**
   * Whatever order the headers arrive in, when the message headers are
   * numbered 1..N with no gap, the sorted array lists the N values in
   * ascending number: message 10 follows message 9, not message 1.
   */
  lemma MessagesInIndexOrder(hs: seq<RawHeader>, values: seq<string>)
    requires CarriesNumbered(hs, values)
    requires NoGaps(hs, values)
    ensures SortedMessageHeaders(WildfireHeaders(hs)) ==
      seq(|values|, n requires 0 <= n < |values| => Some(values[n]))
  {
    var r := SortedMessageHeaders(WildfireHeaders(hs));
    var expected := seq(|values|, n requires 0 <= n < |values| => Some(values[n]));
    if |r| > 0 {
      FilledSlotHoldsNumberedValue(hs, values, |r| - 1);
    }
    if |values| > 0 {
      NumberedSlotIsFilled(hs, values, |values| - 1);
    }
    assert |r| == |expected|;
    forall n | 0 <= n < |values|
      ensures r[n] == expected[n]
    {
      NumberedSlotIsFilled(hs, values, n);
      FilledSlotHoldsNumberedValue(hs, values, n);
    }
    assert r == expected;
  }
}
