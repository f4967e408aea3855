/**
 * `processHeaders` in src/js/devtools.js: the whole decoder for one
 * response. Extract the Wildfire headers, check the protocol, order the
 * message headers, reassemble and build each payload, then add the
 * truncation notice.
 */
module Decoder {
  import opened Wrappers
  import opened Text
  import opened Props
  import opened JsValue
  import opened Headers
  import opened Runs
  import opened Reassembly
  import opened Commands

  const TruncationText: string := "FirePHP has truncated headers for Chrome.  Truncated bytes: "

  /** The `info` command announcing that the producer dropped headers; `bytes` is the header's value. */
  function TruncationNotice(bytes: string): Command {
    Command(Info, [Str(TruncationText + bytes)])
  }

  /** The command builder the loop hands each completed payload to. */
  function Builder(parse: string -> Option<Value>, hasConsoleTable: bool): string -> Run<Command> {
    value => BuildCommandObject(value, parse, hasConsoleTable)
  }

  /** The truncation notice, when the response carries the truncation header. */
  function Notice(wf: HeaderSet): Run<Command> {
    match Lookup(wf, TruncatedKey)
    case Some(bytes) => Run([TruncationNotice(bytes)], None)
    case None => Quiet()
  }

  /**
   * What one response makes the decoder send, and whether it stops on an
   * exception. `parse` stands for `JSON.parse` and `hasConsoleTable` for the
   * presence of `console.table`.
   */
  function Decode(hs: seq<RawHeader>, parse: string -> Option<Value>, hasConsoleTable: bool): Run<Command> {
    var wf := WildfireHeaders(hs);
    if !IsProperProtocol(wf) then Quiet()
    else Then(Drain(ReadSlots(SortedMessageHeaders(wf)), 0, "", Builder(parse, hasConsoleTable)), Notice(wf))
  }

  /**
   * `processHeaders` as written: extract the Wildfire headers, check the
   * protocol, run the message loop over the sorted headers, then send the
   * truncation notice if the response carries one.
   */
  method ProcessHeaders(hs: seq<RawHeader>, parse: string -> Option<Value>, hasConsoleTable: bool)
    returns (sent: seq<Command>, fault: Option<Fault>)
    ensures Run(sent, fault) == Decode(hs, parse, hasConsoleTable)
  {
    sent := [];
    fault := None;
    var wf := WildfireHeaders(hs);
    if !IsProperProtocol(wf) {
      return;
    }
    var build := Builder(parse, hasConsoleTable);
    sent, fault := MessageLoop(ReadSlots(SortedMessageHeaders(wf)), build);
    if fault.Some? {
      ThenAfterFault(Run(sent, fault), Notice(wf));
      return;
    }
    ThenQuiet(Run(sent, None));
    if IsTruncatedResponse(wf) {
      sent := sent + [TruncationNotice(Lookup(wf, TruncatedKey).value)];
    } else {
      ThenQuiet(Run(sent, None));
    }
  }

  // ---------------------------------------------------------------------------
  // Properties of a whole response
  // ---------------------------------------------------------------------------

  /**
   * Unless the last protocol header of the response (name in any case)
   * carries exactly the JsonStream 0.2 URI, nothing at all is sent, not even
   * the truncation notice.
   */
  lemma {:induction false} ProtocolGate(hs: seq<RawHeader>, parse: string -> Option<Value>, hasConsoleTable: bool)
    requires !exists i :: LastStoredUnder(hs, ProtocolKey, i) && hs[i].value == ProtocolUri
    ensures Decode(hs, parse, hasConsoleTable) == Quiet()
  {
    ProtocolGateOnRawHeaders(hs);
  }

  /**
   * When the message processing ends normally, the truncation notice is sent
   * once, after every message command, quoting the last truncation header;
   * without that header nothing follows the messages.
   */
  lemma {:induction false} TruncationNoticeLast(hs: seq<RawHeader>, parse: string -> Option<Value>, hasConsoleTable: bool, i: nat)
    requires IsProperProtocol(WildfireHeaders(hs))
    requires Drain(ReadSlots(SortedMessageHeaders(WildfireHeaders(hs))), 0, "", Builder(parse, hasConsoleTable)).fault.None?
    requires LastStoredUnder(hs, TruncatedKey, i)
    ensures Decode(hs, parse, hasConsoleTable).sent ==
      Drain(ReadSlots(SortedMessageHeaders(WildfireHeaders(hs))), 0, "", Builder(parse, hasConsoleTable)).sent +
      [TruncationNotice(hs[i].value)]
    ensures Decode(hs, parse, hasConsoleTable).fault.None?
  {
    WildfireHeadersLookup(hs, TruncatedKey, hs[i].value);
  }

  /** Without a truncation header the messages are all that is sent. */
  lemma {:induction false} NoTruncationNoNotice(hs: seq<RawHeader>, parse: string -> Option<Value>, hasConsoleTable: bool)
    requires IsProperProtocol(WildfireHeaders(hs))
    requires forall i :: 0 <= i < |hs| ==> !StoresUnder(hs[i], TruncatedKey)
    ensures Decode(hs, parse, hasConsoleTable) ==
      Drain(ReadSlots(SortedMessageHeaders(WildfireHeaders(hs))), 0, "", Builder(parse, hasConsoleTable))
  {
    WildfireHeadersLookup(hs, TruncatedKey, "");
    var body := Drain(ReadSlots(SortedMessageHeaders(WildfireHeaders(hs))), 0, "", Builder(parse, hasConsoleTable));
    assert body.sent + [] == body.sent;
  }

  /** Message headers `x-wf-1-1-1-1` .. `x-wf-1-1-1-N` carrying `values`, in any order, with nothing missing. */
  predicate NumberedMessages(hs: seq<RawHeader>, values: seq<string>) {
    CarriesNumbered(hs, values) && NoGaps(hs, values)
  }

  /** The fragments of a complete run of numbered message headers, in number order. */
  function FragmentsOfValues(values: seq<string>): seq<Fragment> {
    seq(|values|, n requires 0 <= n < |values| => ParseFragment(values[n]))
  }

  /** The sorted array holds every value, so it has no hole and reads as the values' fragments. */
  lemma {:induction false} SlotsOfNumberedMessages(hs: seq<RawHeader>, values: seq<string>)
    requires NumberedMessages(hs, values)
    ensures Present(ReadSlots(SortedMessageHeaders(WildfireHeaders(hs))))
    ensures Values(ReadSlots(SortedMessageHeaders(WildfireHeaders(hs)))) == FragmentsOfValues(values)
  {
    MessagesInIndexOrder(hs, values);
    var frags := ReadSlots(SortedMessageHeaders(WildfireHeaders(hs)));
    assert |frags| == |values|;
    forall n | 0 <= n < |values|
      ensures frags[n] == Some(ParseFragment(values[n]))
    {
    }
    assert Values(frags) == FragmentsOfValues(values);
  }

  /**
   * For a complete run of numbered message headers, the commands are those
   * of the reference reading: every completed payload, in number order,
   * built in turn until one throws; then the truncation notice, if any.
   */
  lemma {:induction false} NumberedMessagesDecode(hs: seq<RawHeader>, values: seq<string>, parse: string -> Option<Value>, hasConsoleTable: bool)
    requires IsProperProtocol(WildfireHeaders(hs))
    requires NumberedMessages(hs, values)
    ensures Decode(hs, parse, hasConsoleTable) ==
      Then(BuildAll(Payloads(FragmentsOfValues(values), ""), Builder(parse, hasConsoleTable)), Notice(WildfireHeaders(hs)))
  {
    SlotsOfNumberedMessages(hs, values);
    var frags := ReadSlots(SortedMessageHeaders(WildfireHeaders(hs)));
    DrainBuildsPayloads(frags, 0, "", Builder(parse, hasConsoleTable));
    assert Values(frags)[0..] == Values(frags);
  }

  /**
   * A single-header message per number, none continued and none containing
   * a pipe: each header's JSON is built on its own, in number order, and
   * when no build throws everything is sent.
   */
  lemma {:induction false} OneHeaderPerMessage(hs: seq<RawHeader>, counters: seq<string>, jsons: seq<string>,
                                               parse: string -> Option<Value>, hasConsoleTable: bool)
    requires IsProperProtocol(WildfireHeaders(hs))
    requires |counters| == |jsons|
    requires forall n :: 0 <= n < |jsons| ==> AllDigits(counters[n]) && '|' !in jsons[n]
    requires NumberedMessages(hs, seq(|jsons|, n requires 0 <= n < |jsons| => EncodeFragment(counters[n], jsons[n], false)))
    requires forall n :: 0 <= n < |jsons| ==> Builder(parse, hasConsoleTable)(jsons[n]).fault.None?
    requires forall i :: 0 <= i < |hs| ==> !StoresUnder(hs[i], TruncatedKey)
    ensures Decode(hs, parse, hasConsoleTable) == Run(SentByAll(jsons, Builder(parse, hasConsoleTable)), None)
  {
    var values := seq(|jsons|, n requires 0 <= n < |jsons| => EncodeFragment(counters[n], jsons[n], false));
    var fs := FragmentsOfValues(values);
    var build := Builder(parse, hasConsoleTable);
    forall n | 0 <= n < |jsons|
      ensures fs[n] == Fragment(jsons[n], false)
    {
      FragmentRoundTrip(counters[n], jsons[n], false);
    }
    SinglesArePayloads(fs);
    assert Payloads(fs, "") == jsons;
    NumberedMessagesDecode(hs, values, parse, hasConsoleTable);
    BuildAllWithoutFault(jsons, build);
    WildfireHeadersLookup(hs, TruncatedKey, "");
    var sentAll := SentByAll(jsons, build);
    assert sentAll + [] == sentAll;
  }

  /**
   * The first payload whose build throws ends the call: the commands of the
   * payloads before it and whatever it sent itself are all that is sent, and
   * no truncation notice follows. A payload `JSON.parse` rejects is one such.
   */
  lemma {:induction false} FaultEndsTheResponse(hs: seq<RawHeader>, values: seq<string>, parse: string -> Option<Value>, hasConsoleTable: bool, k: nat)
    requires IsProperProtocol(WildfireHeaders(hs))
    requires NumberedMessages(hs, values)
    requires k < |Payloads(FragmentsOfValues(values), "")|
    requires Builder(parse, hasConsoleTable)(Payloads(FragmentsOfValues(values), "")[k]).fault.Some?
    requires forall i :: 0 <= i < k ==> Builder(parse, hasConsoleTable)(Payloads(FragmentsOfValues(values), "")[i]).fault.None?
    ensures
      var payloads := Payloads(FragmentsOfValues(values), "");
      var build := Builder(parse, hasConsoleTable);
      Decode(hs, parse, hasConsoleTable) == Run(SentByAll(payloads[..k], build) + build(payloads[k]).sent, build(payloads[k]).fault)
  {
    NumberedMessagesDecode(hs, values, parse, hasConsoleTable);
    BuildAllStopsAtFault(Payloads(FragmentsOfValues(values), ""), Builder(parse, hasConsoleTable), k);
  }

  /** A payload that is not valid JSON throws a SyntaxError; with the lemma above, the rest of the response is lost. */
  lemma {:induction false} MalformedPayloadThrows(value: string, parse: string -> Option<Value>, hasConsoleTable: bool)
    requires parse(value).None?
    ensures Builder(parse, hasConsoleTable)(value) == Throws(SyntaxError)
  {
  }

  /** A payload of unknown type sends nothing and does not stop the loop: the next payloads are built as if it were absent. */
  lemma {:induction false} UnknownTypeIsSkipped(payload: string, rest: seq<string>, build: string -> Run<Command>)
    requires build(payload) == Quiet()
    ensures BuildAll([payload] + rest, build) == BuildAll(rest, build)
  {
    BuildAllCons(payload, rest, build);
    assert [] + BuildAll(rest, build).sent == BuildAll(rest, build).sent;
  }

  /**
   * A missing message number below the highest one leaves a hole in the
   * sorted array: the payloads completed before it are built, then the call
   * throws a TypeError, so nothing after the hole and no truncation notice
   * is sent.
   */
  lemma {:induction false} GapThrows(hs: seq<RawHeader>, parse: string -> Option<Value>, hasConsoleTable: bool, hole: nat)
    requires IsProperProtocol(WildfireHeaders(hs))
    requires hole < |SortedMessageHeaders(WildfireHeaders(hs))|
    requires SortedMessageHeaders(WildfireHeaders(hs))[hole].None?
    requires Present(ReadSlots(SortedMessageHeaders(WildfireHeaders(hs)))[..hole])
    ensures
      var frags := ReadSlots(SortedMessageHeaders(WildfireHeaders(hs)));
      var run := BuildAll(Payloads(Values(frags[..hole]), ""), Builder(parse, hasConsoleTable));
      Decode(hs, parse, hasConsoleTable) == Then(run, Throws(TypeError)) &&
      Decode(hs, parse, hasConsoleTable).sent == run.sent &&
      Decode(hs, parse, hasConsoleTable).fault.Some?
  {
    var frags := ReadSlots(SortedMessageHeaders(WildfireHeaders(hs)));
    var build := Builder(parse, hasConsoleTable);
    DrainStopsAtHole(frags, hole, 0, "", build);
    assert Values(frags[..hole])[0..] == Values(frags[..hole]);
    var run := BuildAll(Payloads(Values(frags[..hole]), ""), build);
    assert run.sent + [] == run.sent;
  }
}
