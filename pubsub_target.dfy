/** The NLog target: its configuration, the lazily parsed attribute dictionary,
    the two payload builders and SendBatch's completion policy. */
module PubSub {
  import opened Common
  import opened Strings
  import opened Attributes
  import opened Batching

  /** NLog's LogEventInfo, as far as the layout needs it. */
  datatype LogEvent = LogEvent(loggerName: string, level: nat, message: string)

  /** AsyncLogEventInfo: an event and its continuation. The continuation is not a
      value here: SendBatch returns, per event and in order, the argument it is called with. */
  datatype AsyncLogEventInfo = AsyncLogEventInfo(logEvent: LogEvent)

  /** List<PubsubMessage>: a mutable list, shared by reference. */
  class RequestList {
    var messages: seq<PubsubMessage>

    constructor ()
      ensures messages == []
    {
      messages := [];
    }

    method Add(message: PubsubMessage)
      modifies this
      ensures messages == old(messages) + [message]
    {
      messages := messages + [message];
    }
  }

  /** The contents of the request lists, at the time of reading. */
  function Snapshot(lists: seq<RequestList>): (r: seq<seq<PubsubMessage>>)
    reads set j | 0 <= j < |lists| :: lists[j]
    ensures |r| == |lists|
    ensures forall j :: 0 <= j < |lists| ==> r[j] == lists[j].messages
  {
    seq(|lists|, j reads set j | 0 <= j < |lists| :: lists[j] requires 0 <= j < |lists| => lists[j].messages)
  }

  class PubSubTarget {
    var name: string
    var maxBytesPerRequest: int
    var maxMessagesPerRequest: int
    var concatMessages: Option<bool>
    /** The attribute string "key1:value1;key2:value2", or null. */
    var atributes: Option<string>
    /** The parsed attribute dictionary, or null until it is first built. */
    var atributesD: Option<map<string, string>>

    /** Layout.Render */
    const render: LogEvent -> string
    /** ByteString.CopyFromUtf8 */
    const encode: string -> Bytes
    /** Environment.NewLine, as StringBuilder.AppendLine writes it */
    const newLine: string

    constructor (render: LogEvent -> string, encode: string -> Bytes, newLine: string)
      ensures name == "PubSubTarget"
      ensures maxBytesPerRequest == 1048576 && maxMessagesPerRequest == 1000
      ensures concatMessages == None && atributes == None && atributesD == None
      ensures this.render == render && this.encode == encode && this.newLine == newLine
    {
      this.render, this.encode, this.newLine := render, encode, newLine;
      name := "PubSubTarget";
      maxBytesPerRequest, maxMessagesPerRequest := 1048576, 1000;
      concatMessages, atributes, atributesD := None, None, None;
    }

    /** The UTF-8 payload of each event's rendering. */
    function Payloads(events: seq<AsyncLogEventInfo>): seq<Bytes> {
      seq(|events|, i requires 0 <= i < |events| => encode(render(events[i].logEvent)))
    }

    /** The rendering of each event. */
    function Texts(events: seq<AsyncLogEventInfo>): seq<string> {
      seq(|events|, i requires 0 <= i < |events| => render(events[i].logEvent))
    }

    /** The dictionary and the exception after the attribute step of SendBatch, from
        the dictionary before it: the string is parsed only when it is non-empty and
        no dictionary exists yet. The dictionary is assigned before the loop, so on an
        exception the entries added so far stay cached. */
    ghost function AttributeStep(dict: Option<map<string, string>>): (r: (Option<map<string, string>>, Option<Exception>))
      reads this
      ensures dict.Some? ==> r == (dict, None)
      ensures r.0.None? <==> dict.None? && IsNullOrEmpty(atributes)
      ensures r.1.Some? ==> dict.None? && r.0.Some?
      ensures dict.None? && !IsNullOrEmpty(atributes) ==>
        (r.1.None? <==> Parsable(Split(atributes.value, ';'), map[]))
    {
      if !IsNullOrEmpty(atributes) && dict.None? then
        ParseSucceedsIff(Split(atributes.value, ';'), map[]);
        var p := ParseSegments(Split(atributes.value, ';'), map[]);
        (Some(p.dict), p.error)
      else (dict, None)
    }

    /** Lines 70-80 of SendBatch. */
    method ParseAtributes() returns (error: Option<Exception>)
      modifies this`atributesD
      ensures (atributesD, error) == AttributeStep(old(atributesD))
    {
      error := None;
      if !IsNullOrEmpty(atributes) && atributesD.None? {
        atributesD := Some(map[]);
        var ats := Split(atributes.value, ';');
        var i := 0;
        while i < |ats|
          invariant 0 <= i <= |ats|
          invariant atributesD.Some?
          invariant ParseSegments(ats[i..], atributesD.value) == ParseSegments(ats, map[])
        {
          var kv := Split(ats[i], ':');
          assert ats[i..][1..] == ats[i + 1..];
          if |kv| < 2 {
            error := Some(IndexOutOfRange);
            return;
          }
          if kv[0] in atributesD.value {
            error := Some(DuplicateKey(kv[0]));
            return;
          }
          atributesD := Some(atributesD.value[kv[0] := kv[1]]);
          i := i + 1;
        }
      }
    }

    /** Per-record mode (lines 136-181), over this target's limit and dictionary. As
        written, pRequest is never replaced after a seal: the result is (number of
        seals + 1) references to ONE list, which holds every accepted message, or no
        reference when nothing was accepted. */
    method FormPayload(events: seq<AsyncLogEventInfo>) returns (r: Result<seq<RequestList>, Exception>)
      ensures var payloads := Payloads(events);
        var accepted := Accepted(payloads, maxBytesPerRequest);
        && (r.Err? <==> atributesD.None? && accepted != [])
        && (r.Err? ==> r.error == NullReference)
        && (r.Ok? ==>
              && |r.value| == (if accepted == [] then 0 else Count(payloads, maxBytesPerRequest).seals + 1)
              && (forall j :: 0 <= j < |r.value| ==> r.value[j] == r.value[0])
              && (r.value != [] ==> atributesD.Some? && r.value[0].messages == Messages(accepted, atributesD.value)))
    {
      r := BuildRequests(Payloads(events), maxBytesPerRequest, atributesD);
    }

    /** Concatenation mode (lines 183-236), over this target's count limit, line
        terminator and dictionary. */
    method FormPayloadConcat(events: seq<AsyncLogEventInfo>) returns (r: Result<seq<RequestList>, Exception>)
      ensures var payloads := ConcatPayloads(Texts(events), maxMessagesPerRequest, newLine);
        && (r.Err? <==> atributesD.None? && events != [])
        && (r.Err? ==> r.error == NullReference)
        && (r.Ok? ==>
              && |r.value| == |payloads|
              && (forall j, l :: 0 <= j < l < |r.value| ==> r.value[j] != r.value[l])
              && (r.value != [] ==>
                    && atributesD.Some?
                    && forall j :: 0 <= j < |r.value| ==>
                         r.value[j].messages == [PubsubMessage(encode(payloads[j]), atributesD.value)]))
    {
      r := BuildConcatRequests(Texts(events), maxMessagesPerRequest, newLine, encode, atributesD);
    }

    /** The contents of the requests SendBatch publishes, or the exception building them
        raises, given the attribute dictionary in force. */
    ghost function Requests(events: seq<AsyncLogEventInfo>, dict: Option<map<string, string>>)
      : (r: Result<seq<seq<PubsubMessage>>, Exception>)
      reads this
      ensures r.Err? ==> r.error == NullReference && dict.None?
      ensures r.Ok? ==> forall j, m :: 0 <= j < |r.value| && 0 <= m < |r.value[j]| ==>
        dict.Some? && r.value[j][m].attributes == dict.value
      ensures r.Ok? && concatMessages == Some(true) ==> forall j :: 0 <= j < |r.value| ==> |r.value[j]| == 1
      ensures r.Ok? && concatMessages != Some(true) ==> forall j :: 0 <= j < |r.value| ==>
        |r.value[j]| == |Accepted(Payloads(events), maxBytesPerRequest)|
    {
      if concatMessages == Some(true) then
        var payloads := ConcatPayloads(Texts(events), maxMessagesPerRequest, newLine);
        if events == [] then Ok([])
        else if dict.None? then Err(NullReference)
        else Ok(seq(|payloads|, j requires 0 <= j < |payloads| => [PubsubMessage(encode(payloads[j]), dict.value)]))
      else
        var payloads := Payloads(events);
        var accepted := Accepted(payloads, maxBytesPerRequest);
        if accepted == [] then Ok([])
        else if dict.None? then Err(NullReference)
        else
          var all := Messages(accepted, dict.value);
          Ok(seq(Count(payloads, maxBytesPerRequest).seals + 1, _ => all))
    }

    /** The exception every continuation receives, or None for success. */
    ghost function Outcome(events: seq<AsyncLogEventInfo>, dict: Option<map<string, string>>,
                           dispatch: seq<seq<PubsubMessage>> -> Option<Exception>): (r: Option<Exception>)
      reads this
      ensures IsNullOrEmpty(atributes) && dict.None?
        && (if concatMessages == Some(true) then events != [] else Accepted(Payloads(events), maxBytesPerRequest) != [])
        ==> r == Some(NullReference)
    {
      var (dict', parseError) := AttributeStep(dict);
      if parseError.Some? then parseError
      else match Requests(events, dict')
        case Err(e) => Some(e)
        case Ok(requests) => dispatch(requests)
    }

    /** With the per-record limit at 25 bytes and three events encoded to 10 bytes each,
        the requests published are two copies of one request holding all three
        messages, 30 bytes in all. */
    lemma AsWrittenRequests(events: seq<AsyncLogEventInfo>, p: Bytes, dict: map<string, string>)
      requires concatMessages != Some(true) && maxBytesPerRequest == 25
      requires |p| == 10 && Payloads(events) == [p, p, p]
      ensures var all := Messages([p, p, p], dict);
        Requests(events, Some(dict)) == Ok([all, all]) && |all| == 3
    {
      AsWrittenExceedsLimit(p);
      var all := Messages([p, p, p], dict);
      assert seq(2, _ => all) == [all, all];
    }

    /** Reading a missing dictionary as empty, building the requests never fails, and
        every message then carries no attribute. */
    lemma EmptyAttributesIntended(events: seq<AsyncLogEventInfo>, dict: Option<map<string, string>>)
      ensures var r := Requests(events, Some(if dict.Some? then dict.value else map[]));
        && r.Ok?
        && (dict.None? ==> forall j, m :: 0 <= j < |r.value| && 0 <= m < |r.value[j]| ==>
              r.value[j][m].attributes == map[])
    {
    }

    /** The outcome as evidently intended: the same steps as Outcome, but a missing
        dictionary is read as an empty one when the messages are built. */
    ghost function IntendedOutcome(events: seq<AsyncLogEventInfo>, dict: Option<map<string, string>>,
                                   dispatch: seq<seq<PubsubMessage>> -> Option<Exception>): Option<Exception>
      reads this
    {
      var (dict', parseError) := AttributeStep(dict);
      if parseError.Some? then parseError
      else match Requests(events, Some(if dict'.Some? then dict'.value else map[]))
        case Err(e) => Some(e)
        case Ok(requests) => dispatch(requests)
    }

    /** Under the intended reading, building the requests never fails: once the attribute
        step raises nothing (always so without an attribute string), the outcome is what
        publishing throws, and a publisher that never fails gives success. */
    lemma IntendedOutcomeSucceeds(events: seq<AsyncLogEventInfo>, dict: Option<map<string, string>>,
                                  dispatch: seq<seq<PubsubMessage>> -> Option<Exception>)
      ensures IsNullOrEmpty(atributes) ==> AttributeStep(dict).1.None?
      ensures AttributeStep(dict).1.None? && (forall q :: dispatch(q).None?) ==>
        IntendedOutcome(events, dict, dispatch).None?
    {
      var (dict', parseError) := AttributeStep(dict);
      EmptyAttributesIntended(events, dict');
    }

    /** SendBatch: build the attribute dictionary if needed, build the requests in the
        configured mode, hand them to `dispatch` (the resource lookup, PublishAsync on
        each request and the await of them all), then call every continuation with null,
        or, if anything threw, every continuation with that exception. */
    method SendBatch(events: seq<AsyncLogEventInfo>, dispatch: seq<seq<PubsubMessage>> -> Option<Exception>)
      returns (continuations: seq<Option<Exception>>)
      modifies this`atributesD
      ensures atributesD == AttributeStep(old(atributesD)).0
      ensures |continuations| == |events|
      ensures forall i :: 0 <= i < |events| ==> continuations[i] == Outcome(events, old(atributesD), dispatch)
    {
      ghost var before := atributesD;
      var outcome: Option<Exception>;
      var error := ParseAtributes();
      if error.Some? {
        outcome := error;
      } else {
        var requests: Result<seq<RequestList>, Exception>;
        if concatMessages == Some(true) {
          requests := FormPayloadConcat(events);
          ghost var payloads := ConcatPayloads(Texts(events), maxMessagesPerRequest, newLine);
          if events == [] {
            assert payloads == [];
          } else if requests.Ok? {
            ConcatNonEmpty(Texts(events), maxMessagesPerRequest, newLine);
            ghost var dict, enc := atributesD.value, encode;
            assert Snapshot(requests.value) ==
              seq(|payloads|, j requires 0 <= j < |payloads| => [PubsubMessage(enc(payloads[j]), dict)]);
          }
        } else {
          requests := FormPayload(events);
          if requests.Ok? && requests.value != [] {
            ghost var all := Messages(Accepted(Payloads(events), maxBytesPerRequest), atributesD.value);
            assert Snapshot(requests.value) == seq(|requests.value|, _ => all);
          }
        }
        if requests.Err? {
          outcome := Some(requests.error);
        } else {
          outcome := dispatch(Snapshot(requests.value));
        }
      }
      assert outcome == Outcome(events, before, dispatch);
      continuations := [];
      var i := 0;
      while i < |events|
        invariant 0 <= i <= |events|
        invariant |continuations| == i
        invariant forall j :: 0 <= j < i ==> continuations[j] == outcome
      {
        continuations := continuations + [outcome];
        i := i + 1;
      }
    }
  }

  /** A new message with the given data and every entry of the attribute dictionary
      (lines 159-163); the foreach over a null dictionary throws. */
  method NewMessage(data: Bytes, atributesD: Option<map<string, string>>) returns (r: Result<PubsubMessage, Exception>)
    ensures atributesD.None? ==> r == Err(NullReference)
    ensures atributesD.Some? ==> r == Ok(PubsubMessage(data, atributesD.value))
  {
    if atributesD.None? {
      return Err(NullReference);
    }
    var dict := atributesD.value;
    var attributes: map<string, string> := map[];
    var pending := dict.Keys;
    while pending != {}
      invariant pending <= dict.Keys
      invariant attributes.Keys == dict.Keys - pending
      invariant forall k :: k in attributes ==> attributes[k] == dict[k]
      decreases pending
    {
      var k :| k in pending;
      attributes := attributes[k := dict[k]];
      pending := pending - {k};
    }
    assert attributes == dict;
    r := Ok(PubsubMessage(data, attributes));
  }

  /** The body of the per-record mode over the encoded records: a record at or over
      the limit is skipped; a record under the limit first seals pRequest when it
      would push the running total over the limit, then joins pRequest; a non-empty
      pRequest is sealed at the end. Sealing appends a reference to the same
      pRequest, which is never replaced. */
  method BuildRequests(payloads: seq<Bytes>, maxBytes: int, atributesD: Option<map<string, string>>)
    returns (r: Result<seq<RequestList>, Exception>)
    ensures var accepted := Accepted(payloads, maxBytes);
      && (r.Err? <==> atributesD.None? && accepted != [])
      && (r.Err? ==> r.error == NullReference)
      && (r.Ok? ==>
            && |r.value| == (if accepted == [] then 0 else Count(payloads, maxBytes).seals + 1)
            && (forall j :: 0 <= j < |r.value| ==> r.value[j] == r.value[0])
            && (r.value != [] ==> atributesD.Some? && r.value[0].messages == Messages(accepted, atributesD.value)))
  {
    ghost var acc: seq<Bytes> := [];
    ghost var counter := Counter(0, 0);
    ghost var dict := if atributesD.Some? then atributesD.value else map[];
    var pRequestList: seq<RequestList> := [];
    var pRequest := new RequestList();
    var totalBytes := 0;
    var i := 0;
    while i < |payloads|
      invariant 0 <= i <= |payloads|
      invariant acc == Accepted(payloads[..i], maxBytes)
      invariant counter == Count(payloads[..i], maxBytes)
      invariant counter == Counter(totalBytes, |pRequestList|)
      invariant forall j :: 0 <= j < |pRequestList| ==> pRequestList[j] == pRequest
      invariant atributesD.None? ==> acc == []
      invariant pRequest.messages == Messages(acc, dict)
    {
      var bytes := payloads[i];
      CountStep(payloads, i, maxBytes);
      counter := Step(counter, bytes, maxBytes);
      if |bytes| < maxBytes {
        if |bytes| + totalBytes > maxBytes {
          pRequestList := pRequestList + [pRequest];
          totalBytes := 0;
        }
        var error := AddMessage(pRequest, bytes, atributesD, acc, dict);
        if error.Some? {
          AcceptedIff(payloads, maxBytes, bytes);
          return Err(error.value);
        }
        totalBytes := totalBytes + |bytes|;
        acc := acc + [bytes];
      }
      i := i + 1;
    }
    assert payloads[..|payloads|] == payloads;
    IntendedCount(payloads, maxBytes);
    if |pRequest.messages| > 0 {
      pRequestList := pRequestList + [pRequest];
    }
    assert forall j :: 0 <= j < |pRequestList| ==> pRequestList[j] == pRequest;
    r := Ok(pRequestList);
  }

  /** A message with the payload and the attributes is added to pRequest, which then
      holds the messages of one more accepted payload; a null dictionary throws
      before anything changes. */
  method AddMessage(pRequest: RequestList, bytes: Bytes, atributesD: Option<map<string, string>>,
                    ghost acc: seq<Bytes>, ghost dict: map<string, string>)
    returns (error: Option<Exception>)
    requires pRequest.messages == Messages(acc, dict)
    requires atributesD.Some? ==> atributesD.value == dict
    modifies pRequest
    ensures atributesD.None? ==> error == Some(NullReference) && pRequest.messages == old(pRequest.messages)
    ensures atributesD.Some? ==> error == None && pRequest.messages == Messages(acc + [bytes], dict)
  {
    var message := NewMessage(bytes, atributesD);
    if message.Err? {
      return Some(message.error);
    }
    pRequest.Add(message.value);
    error := None;
  }

  /** The body of the concatenation mode over the rendered records: each record is
      appended as a line to the buffer; before a record, a count above maxMessages
      seals the buffer as the one message of a new request; after the loop a
      non-empty buffer is sealed the same way. */
  method BuildConcatRequests(texts: seq<string>, maxMessages: int, newLine: string,
                             encode: string -> Bytes, atributesD: Option<map<string, string>>)
    returns (r: Result<seq<RequestList>, Exception>)
    ensures var payloads := ConcatPayloads(texts, maxMessages, newLine);
      && (r.Err? <==> atributesD.None? && texts != [])
      && (r.Err? ==> r.error == NullReference)
      && (r.Ok? ==>
            && |r.value| == |payloads|
            && (forall j, l :: 0 <= j < l < |r.value| ==> r.value[j] != r.value[l])
            && (r.value != [] ==>
                  && atributesD.Some?
                  && forall j :: 0 <= j < |r.value| ==>
                       r.value[j].messages == [PubsubMessage(encode(payloads[j]), atributesD.value)]))
  {
    ghost var sealed: seq<string> := [];
    var pRequestList: seq<RequestList> := [];
    var pRequest := new RequestList();
    var count := 0;
    var sb := "";
    var i := 0;
    while i < |texts|
      invariant 0 <= i <= |texts|
      invariant ConcatFold(texts[i..], sealed, sb, count, maxMessages, newLine)
        == ConcatFold(texts, [], "", 0, maxMessages, newLine)
      invariant i > 0 ==> count > 0
      invariant fresh(pRequest) && pRequest.messages == [] && pRequest !in pRequestList
      invariant atributesD.None? ==> sealed == [] && pRequestList == []
      invariant atributesD.Some? ==> SealedAs(pRequestList, sealed, encode, atributesD.value)
    {
      ConcatFoldStep(texts, i, sealed, sb, count, maxMessages, newLine);
      if count > maxMessages {
        var sealing := Seal(pRequestList, pRequest, encode(sb), atributesD, sealed, encode, sb);
        if sealing.Err? {
          return Err(sealing.error);
        }
        pRequestList := sealing.value;
        pRequest := new RequestList();
        sealed := sealed + [sb];
        sb := "";
        count := 0;
      }
      sb := sb + texts[i] + newLine;
      count := count + 1;
      i := i + 1;
    }
    if count > 0 {
      var sealing := Seal(pRequestList, pRequest, encode(sb), atributesD, sealed, encode, sb);
      if sealing.Err? {
        return Err(sealing.error);
      }
      pRequestList := sealing.value;
      sealed := sealed + [sb];
    }
    r := Ok(pRequestList);
  }

  /** The sealed requests are distinct lists, request j holding the one message whose
      data is the encoding of the j-th sealed buffer. */
  ghost predicate SealedAs(lists: seq<RequestList>, sealed: seq<string>, encode: string -> Bytes,
                           dict: map<string, string>)
    reads set j | 0 <= j < |lists| :: lists[j]
  {
    && |lists| == |sealed|
    && (forall j, l :: 0 <= j < l < |lists| ==> lists[j] != lists[l])
    && (forall j :: 0 <= j < |lists| ==> lists[j].messages == [PubsubMessage(encode(sealed[j]), dict)])
  }

  /** Sealing a buffer: a message with its data and the attributes goes into the empty
      pRequest, which then joins the requests; the requests sealed before are not
      touched. A null dictionary throws before anything changes. */
  method Seal(pRequestList: seq<RequestList>, pRequest: RequestList, data: Bytes,
              atributesD: Option<map<string, string>>,
              ghost sealed: seq<string>, ghost encode: string -> Bytes, ghost sb: string)
    returns (r: Result<seq<RequestList>, Exception>)
    requires pRequest.messages == [] && pRequest !in pRequestList && data == encode(sb)
    requires atributesD.Some? ==> SealedAs(pRequestList, sealed, encode, atributesD.value)
    modifies pRequest
    ensures atributesD.None? ==> r == Err(NullReference)
    ensures atributesD.Some? ==>
      r == Ok(pRequestList + [pRequest]) && SealedAs(r.value, sealed + [sb], encode, atributesD.value)
  {
    var message := NewMessage(data, atributesD);
    if message.Err? {
      return Err(message.error);
    }
    pRequest.Add(message.value);
    r := Ok(pRequestList + [pRequest]);
    assert forall j :: 0 <= j < |pRequestList| ==> r.value[j] == pRequestList[j];
  }
}
