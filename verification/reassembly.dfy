/**
 * Reassembly of message headers into payloads: the loop of `processHeaders`
 * in src/js/devtools.js. Each header value loses its leading `<digits>|`
 * counter and is split on `|`; the first piece is appended to a buffer, and
 * unless the second piece is the continuation flag `\` the buffer is handed
 * to the command builder and emptied.
 */
module Reassembly {
  import opened Wrappers
  import opened Text
  import opened JsValue
  import opened Runs

  /** The piece of payload one header carries, and whether the payload goes on in the next header. */
  datatype Fragment = Fragment(json: string, continued: bool)

  const ContinuationFlag: string := "\\"

  /** `raw.replace(/^\d*\|/, '')`: drops the leading counter and its pipe, when the text before the first pipe is all digits. */
  function StripCounter(raw: string): string {
    if '|' in raw && AllDigits(raw[..IndexOf(raw, '|')]) then raw[IndexOf(raw, '|') + 1..] else raw
  }

  /** A value that starts with `<digits>|` loses exactly that prefix. */
  lemma StripCounterOfCounter(counter: string, rest: string)
    requires AllDigits(counter)
    ensures StripCounter(counter + "|" + rest) == rest
  {
    var raw := counter + "|" + rest;
    assert '|' !in counter;
    IndexOfAfterFree(counter, '|', rest);
    assert raw[..|counter|] == counter;
  }

  /** A value that does not start with digits and a pipe passes unchanged. */
  lemma StripCounterWithoutCounter(raw: string)
    requires forall counter :: AllDigits(counter) ==> !StartsWith(raw, counter + "|")
    ensures StripCounter(raw) == raw
  {
    if '|' in raw {
      var p := IndexOf(raw, '|');
      if AllDigits(raw[..p]) {
        assert false;
      }
    }
  }

  /** `split('|')` on the stripped value: piece 0 is the payload text, piece 1 the flag. */
  function ParseFragment(raw: string): (f: Fragment)
    ensures var s := StripCounter(raw);
      '|' !in f.json && StartsWith(s, f.json) && (|f.json| == |s| || s[|f.json|] == '|')
    ensures var s := StripCounter(raw);
      f.continued <==> StartsWith(s, f.json + "|" + ContinuationFlag) && (|f.json| + 2 == |s| || s[|f.json| + 2] == '|')
  {
    var stripped := StripCounter(raw);
    var parts := Split(stripped, '|');
    FragmentPieces(stripped);
    if |parts| > 1 then
      Fragment(parts[0], parts[1] == ContinuationFlag)
    else
      Fragment(parts[0], false)
  }

  /**
   * The text of a fragment runs from the start of the stripped value to its
   * first pipe (or its end), and the flag is set exactly when a pipe, the
   * `\` and then a pipe or the end follow.
   */
  lemma FragmentPieces(s: string)
    ensures var parts := Split(s, '|');
      && '|' !in parts[0] && StartsWith(s, parts[0]) && (|parts[0]| == |s| || s[|parts[0]|] == '|')
      && ((|parts| > 1 && parts[1] == ContinuationFlag) <==>
          StartsWith(s, parts[0] + "|" + ContinuationFlag) && (|parts[0]| + 2 == |s| || s[|parts[0]| + 2] == '|'))
  {
    var parts := Split(s, '|');
    FirstPieceIs(s, '|', parts[0]);
    if |parts| > 1 {
      FlagAfterFirstPipe(s);
    } else {
      assert parts == [parts[0]];
    }
  }

  /** With a second piece, it is the flag exactly when `\` follows the first pipe and then a pipe or the end. */
  lemma FlagAfterFirstPipe(s: string)
    requires |Split(s, '|')| > 1
    ensures var parts := Split(s, '|');
      parts[1] == ContinuationFlag <==>
        StartsWith(s, parts[0] + "|" + ContinuationFlag) && (|parts[0]| + 2 == |s| || s[|parts[0]| + 2] == '|')
  {
    var parts := Split(s, '|');
    var p := |parts[0]|;
    SecondPiece(s, '|');
    FirstPieceIs(s, '|', parts[0]);
    var rest := s[p + 1..];
    FirstPieceIs(rest, '|', ContinuationFlag);
    assert s[..p] == parts[0];
    if StartsWith(rest, ContinuationFlag) {
      assert s[..p + 2] == parts[0] + "|" + ContinuationFlag;
    }
    if StartsWith(s, parts[0] + "|" + ContinuationFlag) {
      assert rest[..1] == s[p + 1..p + 2];
    }
  }

  /** The wire form a producer writes for one piece: counter, pipe, text, pipe, optional flag. */
  function EncodeFragment(counter: string, json: string, continued: bool): string {
    counter + "|" + json + "|" + (if continued then ContinuationFlag else "")
  }

  /** A header `<digits>|tail` reads as the first `|`-piece of `tail`, continued when the second piece is the flag. */
  lemma FragmentOfCounted(counter: string, tail: string)
    requires AllDigits(counter)
    ensures
      var parts := Split(tail, '|');
      ParseFragment(counter + "|" + tail) == Fragment(parts[0], |parts| > 1 && parts[1] == ContinuationFlag)
  {
    StripCounterOfCounter(counter, tail);
  }

  /** Decoding a producer's header gives back the text and flag it encoded, when the text has no pipe. */
  lemma FragmentRoundTrip(counter: string, json: string, continued: bool)
    requires AllDigits(counter) && '|' !in json
    ensures ParseFragment(EncodeFragment(counter, json, continued)) == Fragment(json, continued)
  {
    var flag := if continued then ContinuationFlag else "";
    var tail := json + "|" + flag;
    assert EncodeFragment(counter, json, continued) == counter + "|" + tail;
    FragmentOfCounted(counter, tail);
    assert tail == json + ['|'] + flag;
    SplitAfterFree(json, '|', flag);
    assert '|' !in flag;
    SplitHead(flag, '|');
  }

  /**
   * A payload text that itself contains a pipe is cut at that pipe: only the
   * text before it reaches the buffer (the `|` inside a logged regular
   * expression, for one).
   */
  lemma PipeInPayloadIsCut(counter: string, json: string)
    requires AllDigits(counter) && '|' in json
    ensures ParseFragment(EncodeFragment(counter, json, false)).json == json[..IndexOf(json, '|')]
    ensures ParseFragment(EncodeFragment(counter, json, false)).json != json
  {
    PipedTextIsCut(counter, json);
    assert |json[..IndexOf(json, '|')]| < |json|;
  }

  lemma PipedTextIsCut(counter: string, json: string)
    requires AllDigits(counter) && '|' in json
    ensures ParseFragment(EncodeFragment(counter, json, false)).json == json[..IndexOf(json, '|')]
  {
    var tail := json + "|";
    assert EncodeFragment(counter, json, false) == counter + "|" + tail by {
      assert counter + "|" + json + "|" + "" == counter + "|" + (json + "|");
    }
    FragmentOfCounted(counter, tail);
    FirstPieceOfPiped(json);
  }

  lemma FirstPieceOfPiped(json: string)
    requires '|' in json
    ensures Split(json + "|", '|')[0] == json[..IndexOf(json, '|')]
  {
    var tail := json + "|";
    SplitHead(tail, '|');
    IndexOfInPrefix(json, "|", '|');
    var p := IndexOf(json, '|');
    assert tail[..p] == json[..p];
  }

  // ---------------------------------------------------------------------------
  // The reference reading: which payloads a fragment sequence makes
  // ---------------------------------------------------------------------------

  function Concat(ss: seq<string>): string {
    if |ss| == 0 then "" else ss[0] + Concat(ss[1..])
  }

  function ConcatJson(fs: seq<Fragment>): string {
    if |fs| == 0 then "" else fs[0].json + ConcatJson(fs[1..])
  }

  predicate AllContinued(fs: seq<Fragment>) {
    forall i :: 0 <= i < |fs| ==> fs[i].continued
  }

  /** How many fragments end a payload. */
  function FinalCount(fs: seq<Fragment>): nat {
    if |fs| == 0 then 0 else (if fs[0].continued then 0 else 1) + FinalCount(fs[1..])
  }

  /** The complete payloads, in order, given the text already buffered. */
  function Payloads(fs: seq<Fragment>, buffer: string): seq<string> {
    if |fs| == 0 then []
    else if fs[0].continued then Payloads(fs[1..], buffer + fs[0].json)
    else [buffer + fs[0].json] + Payloads(fs[1..], "")
  }

  /** The text left in the buffer after the last complete payload. */
  function Pending(fs: seq<Fragment>, buffer: string): string {
    if |fs| == 0 then buffer
    else if fs[0].continued then Pending(fs[1..], buffer + fs[0].json)
    else Pending(fs[1..], "")
  }

  /** One payload per fragment that does not carry the continuation flag. */
  lemma {:induction false} PayloadCount(fs: seq<Fragment>, buffer: string)
    ensures |Payloads(fs, buffer)| == FinalCount(fs)
  {
    if |fs| > 0 {
      if fs[0].continued {
        PayloadCount(fs[1..], buffer + fs[0].json);
      } else {
        PayloadCount(fs[1..], "");
      }
    }
  }

  lemma ConcatCons(head: string, rest: seq<string>)
    ensures Concat([head] + rest) == head + Concat(rest)
  {
    assert ([head] + rest)[1..] == rest;
  }

  /** Nothing is lost or reordered: the payloads and the leftover spell out all the text, in header order. */
  lemma {:induction false} PayloadsKeepAllText(fs: seq<Fragment>, buffer: string)
    ensures Concat(Payloads(fs, buffer)) + Pending(fs, buffer) == buffer + ConcatJson(fs)
  {
    if |fs| > 0 {
      var f := fs[0];
      assert ConcatJson(fs) == f.json + ConcatJson(fs[1..]);
      if f.continued {
        PayloadsKeepAllText(fs[1..], buffer + f.json);
        assert Payloads(fs, buffer) == Payloads(fs[1..], buffer + f.json);
        assert Pending(fs, buffer) == Pending(fs[1..], buffer + f.json);
        JoinAssociative(buffer, f.json, ConcatJson(fs[1..]));
      } else {
        PayloadsKeepAllText(fs[1..], "");
        assert Payloads(fs, buffer) == [buffer + f.json] + Payloads(fs[1..], "");
        assert Pending(fs, buffer) == Pending(fs[1..], "");
        ClosedPayloadText(buffer + f.json, Payloads(fs[1..], ""), Pending(fs[1..], ""), ConcatJson(fs[1..]));
        JoinAssociative(buffer, f.json, ConcatJson(fs[1..]));
      }
    }
  }

  lemma JoinAssociative(a: string, b: string, c: string)
    ensures (a + b) + c == a + (b + c)
  {
  }

  /** A completed payload in front of the rest keeps its text in front of the rest's text. */
  lemma ClosedPayloadText(head: string, rest: seq<string>, pending: string, restText: string)
    requires Concat(rest) + pending == restText
    ensures Concat([head] + rest) + pending == head + restText
  {
    ConcatCons(head, rest);
    JoinAssociative(head, Concat(rest), pending);
  }

  /** A run of continued fragments makes no payload; its text waits in the buffer. */
  lemma {:induction false} ContinuedMakeNoPayload(fs: seq<Fragment>, buffer: string)
    requires AllContinued(fs)
    ensures Payloads(fs, buffer) == []
    ensures Pending(fs, buffer) == buffer + ConcatJson(fs)
  {
    if |fs| > 0 {
      ContinuedMakeNoPayload(fs[1..], buffer + fs[0].json);
      assert buffer + fs[0].json + ConcatJson(fs[1..]) == buffer + (fs[0].json + ConcatJson(fs[1..]));
    }
  }

  /** Reading two stretches of fragments in turn is reading them one after the other with the buffer carried over. */
  lemma {:induction false} PayloadsOfAppend(a: seq<Fragment>, b: seq<Fragment>, buffer: string)
    ensures Payloads(a + b, buffer) == Payloads(a, buffer) + Payloads(b, Pending(a, buffer))
    ensures Pending(a + b, buffer) == Pending(b, Pending(a, buffer))
  {
    if |a| == 0 {
      assert a + b == b;
    } else {
      assert (a + b)[0] == a[0] && (a + b)[1..] == a[1..] + b;
      if a[0].continued {
        PayloadsOfAppend(a[1..], b, buffer + a[0].json);
      } else {
        PayloadsOfAppend(a[1..], b, "");
      }
    }
  }

  /**
   * A chain of continued fragments closed by a final one makes exactly one
   * payload: the buffered text followed by all of the chain's text.
   */
  lemma ChainMakesOnePayload(chain: seq<Fragment>, last: Fragment, rest: seq<Fragment>, buffer: string)
    requires AllContinued(chain) && !last.continued
    ensures Payloads(chain + [last] + rest, buffer) ==
      [buffer + ConcatJson(chain) + last.json] + Payloads(rest, "")
  {
    ContinuedMakeNoPayload(chain, buffer);
    PayloadsOfAppend(chain, [last] + rest, buffer);
    assert chain + [last] + rest == chain + ([last] + rest);
    assert ([last] + rest)[1..] == rest;
  }

  /** A trailing chain of continued fragments adds no payload. */
  lemma TrailingChainIsDropped(fs: seq<Fragment>, chain: seq<Fragment>, buffer: string)
    requires AllContinued(chain)
    ensures Payloads(fs + chain, buffer) == Payloads(fs, buffer)
  {
    PayloadsOfAppend(fs, chain, buffer);
    ContinuedMakeNoPayload(chain, Pending(fs, buffer));
  }

  /** Without continuation flags every fragment is a payload of its own. */
  lemma {:induction false} SinglesArePayloads(fs: seq<Fragment>)
    requires forall i :: 0 <= i < |fs| ==> !fs[i].continued
    ensures Payloads(fs, "") == seq(|fs|, i requires 0 <= i < |fs| => fs[i].json)
  {
    if |fs| > 0 {
      SinglesArePayloads(fs[1..]);
      var tailJson := seq(|fs| - 1, i requires 0 <= i < |fs| - 1 => fs[1..][i].json);
      assert Payloads(fs, "") == ["" + fs[0].json] + tailJson;
      assert "" + fs[0].json == fs[0].json;
    }
  }

  // ---------------------------------------------------------------------------
  // The loop as the source runs it
  // ---------------------------------------------------------------------------

  /**
   * Each slot of the sorted header array as the loop reads it: a hole stays a
   * hole, a header value becomes its fragment.
   */
  function ReadSlots(slots: seq<Option<string>>): seq<Option<Fragment>> {
    seq(|slots|, i requires 0 <= i < |slots| => if slots[i].Some? then Some(ParseFragment(slots[i].value)) else None)
  }

  predicate Present(frags: seq<Option<Fragment>>) {
    forall i :: 0 <= i < |frags| ==> frags[i].Some?
  }

  function Values(frags: seq<Option<Fragment>>): (fs: seq<Fragment>)
    requires Present(frags)
    ensures |fs| == |frags| && forall i :: 0 <= i < |fs| ==> frags[i] == Some(fs[i])
  {
    seq(|frags|, i requires 0 <= i < |frags| => frags[i].value)
  }

  /**
   * The loop from slot `i` with `buffer` already collected: a hole reads
   * `undefined` and `undefined.replace` throws a TypeError; `build` is
   * invoked on each completed payload and the loop stops if it throws.
   */
  function Drain<C>(frags: seq<Option<Fragment>>, i: nat, buffer: string, build: string -> Run<C>): Run<C>
    requires i <= |frags|
    decreases |frags| - i
  {
    if i == |frags| then Quiet()
    else if frags[i].None? then Throws(TypeError)
    else
      var f := frags[i].value;
      if f.continued then Drain(frags, i + 1, buffer + f.json, build)
      else Then(build(buffer + f.json), Drain(frags, i + 1, "", build))
  }

  /** `build` on each payload in turn, stopping at the first that throws. */
  function BuildAll<C>(payloads: seq<string>, build: string -> Run<C>): Run<C> {
    if |payloads| == 0 then Quiet() else Then(build(payloads[0]), BuildAll(payloads[1..], build))
  }

  lemma BuildAllCons<C>(head: string, rest: seq<string>, build: string -> Run<C>)
    ensures BuildAll([head] + rest, build) == Then(build(head), BuildAll(rest, build))
  {
    assert ([head] + rest)[1..] == rest;
  }

  /** The fragment read from a filled slot: the first `|`-piece of the stripped value, and whether the second is the flag. */
  lemma ReadSlot(slots: seq<Option<string>>, i: nat)
    requires i < |slots| && slots[i].Some?
    ensures
      var parts := Split(StripCounter(slots[i].value), '|');
      ReadSlots(slots)[i] == Some(Fragment(parts[0], |parts| > 1 && parts[1] == ContinuationFlag))
  {
  }

  /** One step of the loop: a continued fragment grows the buffer, a final one builds it. */
  lemma DrainStep<C>(frags: seq<Option<Fragment>>, i: nat, buffer: string, build: string -> Run<C>)
    requires i < |frags| && frags[i].Some?
    ensures frags[i].value.continued ==>
      Drain(frags, i, buffer, build) == Drain(frags, i + 1, buffer + frags[i].value.json, build)
    ensures !frags[i].value.continued ==>
      Drain(frags, i, buffer, build) == Then(build(buffer + frags[i].value.json), Drain(frags, i + 1, "", build))
  {
  }

  /** A final fragment: its payload is built and what it sends joins what was sent before. */
  lemma DrainFinal<C>(frags: seq<Option<Fragment>>, i: nat, buffer: string, build: string -> Run<C>, sent: seq<C>)
    requires i < |frags| && frags[i].Some? && !frags[i].value.continued
    ensures
      var run := build(buffer + frags[i].value.json);
      Then(Run(sent, None), Drain(frags, i, buffer, build)) == Then(Run(sent + run.sent, run.fault), Drain(frags, i + 1, "", build))
  {
    var run := build(buffer + frags[i].value.json);
    DrainStep(frags, i, buffer, build);
    ThenAssociative(Run(sent, None), run, Drain(frags, i + 1, "", build));
    assert Then(Run(sent, None), run) == Run(sent + run.sent, run.fault);
  }

  /** A hole: the loop throws with what was sent before it. */
  lemma DrainHole<C>(frags: seq<Option<Fragment>>, i: nat, buffer: string, build: string -> Run<C>, sent: seq<C>)
    requires i < |frags| && frags[i].None?
    ensures Then(Run(sent, None), Drain(frags, i, buffer, build)) == Run(sent, Some(TypeError))
  {
    assert sent + [] == sent;
  }

  /**
   * The message loop of `processHeaders` as written, over the slots as
   * `ReadSlots` reads them: each fragment's text joins the buffer; unless it
   * is continued, the buffer is handed to `build` and emptied. A hole, or a
   * build that throws, ends the loop.
   */
  method MessageLoop<C>(frags: seq<Option<Fragment>>, build: string -> Run<C>) returns (sent: seq<C>, fault: Option<Fault>)
    ensures Run(sent, fault) == Drain(frags, 0, "", build)
  {
    sent := [];
    fault := None;
    var headerValue := "";
    var i := 0;
    while i < |frags|
      invariant 0 <= i <= |frags|
      invariant Then(Run(sent, None), Drain(frags, i, headerValue, build)) == Drain(frags, 0, "", build)
    {
      if frags[i].None? {
        fault := Some(TypeError);
        DrainHole(frags, i, headerValue, build, sent);
        return;
      }
      var f := frags[i].value;
      if f.continued {
        DrainStep(frags, i, headerValue, build);
        headerValue := headerValue + f.json;
        i := i + 1;
        continue;
      }
      DrainFinal(frags, i, headerValue, build, sent);
      headerValue := headerValue + f.json;
      var run := build(headerValue);
      sent := sent + run.sent;
      if run.fault.Some? {
        fault := run.fault;
        ThenAfterFault(Run(sent, fault), Drain(frags, i + 1, "", build));
        return;
      }
      headerValue := "";
      i := i + 1;
    }
    ThenQuiet(Run(sent, None));
  }

  /** One step of the reference reading on a suffix. */
  lemma PayloadsStep(fs: seq<Fragment>, i: nat, buffer: string)
    requires i < |fs|
    ensures fs[i].continued ==> Payloads(fs[i..], buffer) == Payloads(fs[i + 1..], buffer + fs[i].json)
    ensures !fs[i].continued ==> Payloads(fs[i..], buffer) == [buffer + fs[i].json] + Payloads(fs[i + 1..], "")
  {
    assert fs[i..][0] == fs[i] && fs[i..][1..] == fs[i + 1..];
  }

  /** With no hole, the loop builds exactly the reference payloads, in order. */
  lemma {:induction false} DrainBuildsPayloads<C>(frags: seq<Option<Fragment>>, i: nat, buffer: string, build: string -> Run<C>)
    requires Present(frags) && i <= |frags|
    ensures Drain(frags, i, buffer, build) == BuildAll(Payloads(Values(frags)[i..], buffer), build)
    decreases |frags| - i
  {
    var fs := Values(frags);
    if i == |frags| {
      assert fs[i..] == [];
    } else {
      var f := fs[i];
      PayloadsStep(fs, i, buffer);
      if f.continued {
        DrainBuildsPayloads(frags, i + 1, buffer + f.json, build);
      } else {
        DrainBuildsPayloads(frags, i + 1, "", build);
        BuildAllCons(buffer + f.json, Payloads(fs[i + 1..], ""), build);
      }
    }
  }

  /**
   * With a hole at slot `hole`, the payloads completed before it are built and
   * then the loop throws a TypeError; nothing after the hole is read.
   */
  lemma {:induction false} DrainStopsAtHole<C>(frags: seq<Option<Fragment>>, hole: nat, i: nat, buffer: string, build: string -> Run<C>)
    requires hole < |frags| && frags[hole].None? && Present(frags[..hole]) && i <= hole
    ensures Drain(frags, i, buffer, build) ==
      Then(BuildAll(Payloads(Values(frags[..hole])[i..], buffer), build), Throws(TypeError))
    decreases hole - i
  {
    var fs := Values(frags[..hole]);
    if i == hole {
      assert fs[i..] == [];
    } else {
      assert frags[i] == frags[..hole][i];
      var f := fs[i];
      PayloadsStep(fs, i, buffer);
      if f.continued {
        DrainStopsAtHole(frags, hole, i + 1, buffer + f.json, build);
      } else {
        DrainStopsAtHole(frags, hole, i + 1, "", build);
        var rest := Payloads(fs[i + 1..], "");
        BuildAllCons(buffer + f.json, rest, build);
        ThenAssociative(build(buffer + f.json), BuildAll(rest, build), Throws<C>(TypeError));
      }
    }
  }

  /** Flattening what each build sent. */
  function SentByAll<C>(payloads: seq<string>, build: string -> Run<C>): seq<C> {
    if |payloads| == 0 then [] else build(payloads[0]).sent + SentByAll(payloads[1..], build)
  }

  /** When no build throws, everything each build sends is sent, in payload order, and the loop returns normally. */
  lemma {:induction false} BuildAllWithoutFault<C>(payloads: seq<string>, build: string -> Run<C>)
    requires forall i :: 0 <= i < |payloads| ==> build(payloads[i]).fault.None?
    ensures BuildAll(payloads, build) == Run(SentByAll(payloads, build), None)
  {
    if |payloads| > 0 {
      BuildAllWithoutFault(payloads[1..], build);
    }
  }

  /** When build `k` is the first to throw, exactly the earlier builds' commands and its own partial output are sent. */
  lemma {:induction false} BuildAllStopsAtFault<C>(payloads: seq<string>, build: string -> Run<C>, k: nat)
    requires k < |payloads| && build(payloads[k]).fault.Some?
    requires forall i :: 0 <= i < k ==> build(payloads[i]).fault.None?
    ensures BuildAll(payloads, build) ==
      Run(SentByAll(payloads[..k], build) + build(payloads[k]).sent, build(payloads[k]).fault)
  {
    if k == 0 {
      assert payloads[..0] == [];
    } else {
      var first := build(payloads[0]);
      var last := build(payloads[k]);
      forall i | 0 <= i < k - 1
        ensures build(payloads[1..][i]).fault.None?
      {
        assert payloads[1..][i] == payloads[i + 1];
      }
      assert payloads[1..][k - 1] == payloads[k];
      BuildAllStopsAtFault(payloads[1..], build, k - 1);
      SentByAllFront(payloads, build, k);
      ThenPrepend(first, SentByAll(payloads[1..][..k - 1], build), last.sent, last.fault);
    }
  }

  lemma SentByAllFront<C>(payloads: seq<string>, build: string -> Run<C>, k: nat)
    requires 0 < k < |payloads|
    ensures SentByAll(payloads[..k], build) == build(payloads[0]).sent + SentByAll(payloads[1..][..k - 1], build)
  {
    assert payloads[..k][1..] == payloads[1..][..k - 1];
    assert payloads[..k][0] == payloads[0];
  }

  /** A quiet run in front of a run adds its commands in front. */
  lemma ThenPrepend<C>(a: Run<C>, xs: seq<C>, ys: seq<C>, f: Option<Fault>)
    requires a.fault.None?
    ensures Then(a, Run(xs + ys, f)) == Run(a.sent + xs + ys, f)
  {
    assert a.sent + (xs + ys) == a.sent + xs + ys;
  }
}
