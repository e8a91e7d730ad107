/** What the two payload builders of the target compute, stated on values:
    the per-record mode over the UTF-8 payloads of the events, the
    concatenation mode over their rendered texts. */
module Batching {
  import opened Common

  /** A Pub/Sub message: its data and its attributes. */
  datatype PubsubMessage = PubsubMessage(data: Bytes, attributes: map<string, string>)

  /** One message per payload, in order, each carrying the whole attribute dictionary. */
  function Messages(payloads: seq<Bytes>, attributes: map<string, string>): (ms: seq<PubsubMessage>)
  {
    seq(|payloads|, i requires 0 <= i < |payloads| => PubsubMessage(payloads[i], attributes))
  }

  /** The concatenation of a sequence of sequences. */
  function Flatten<T>(xss: seq<seq<T>>): seq<T>
    decreases |xss|
  {
    if xss == [] then [] else xss[0] + Flatten(xss[1..])
  }

  lemma {:induction false} FlattenAppend<T>(xss: seq<seq<T>>, xs: seq<T>)
    ensures Flatten(xss + [xs]) == Flatten(xss) + xs
    decreases |xss|
  {
    if xss != [] {
      assert (xss + [xs])[1..] == xss[1..] + [xs];
      FlattenAppend(xss[1..], xs);
    }
  }

  // ---------------------------------------------------------------------------
  // Per-record mode

  /** The payloads that FormPayload keeps: those strictly shorter than the limit, in order. */
  function Accepted(payloads: seq<Bytes>, maxBytes: int): (r: seq<Bytes>)
    ensures forall i :: 0 <= i < |r| ==> |r[i]| < maxBytes
    decreases |payloads|
  {
    if payloads == [] then []
    else
      var n := |payloads| - 1;
      Accepted(payloads[..n], maxBytes) + (if |payloads[n]| < maxBytes then [payloads[n]] else [])
  }

  /** The payloads that FormPayload only traces: those at or over the limit. */
  function Rejected(payloads: seq<Bytes>, maxBytes: int): (r: seq<Bytes>)
    ensures forall i :: 0 <= i < |r| ==> |r[i]| >= maxBytes
    decreases |payloads|
  {
    if payloads == [] then []
    else
      var n := |payloads| - 1;
      Rejected(payloads[..n], maxBytes) + (if |payloads[n]| < maxBytes then [] else [payloads[n]])
  }

  /** Nothing is lost or duplicated: every payload is either accepted or rejected, once. */
  lemma AcceptedAndRejected(payloads: seq<Bytes>, maxBytes: int)
    ensures multiset(Accepted(payloads, maxBytes)) + multiset(Rejected(payloads, maxBytes)) == multiset(payloads)
    ensures |Accepted(payloads, maxBytes)| + |Rejected(payloads, maxBytes)| == |payloads|
  {
    PartitionMultiset(payloads, maxBytes);
    var a, r := Accepted(payloads, maxBytes), Rejected(payloads, maxBytes);
    assert |multiset(a) + multiset(r)| == |multiset(payloads)|;
  }

  lemma {:induction false} PartitionMultiset(payloads: seq<Bytes>, maxBytes: int)
    ensures multiset(Accepted(payloads, maxBytes)) + multiset(Rejected(payloads, maxBytes)) == multiset(payloads)
    decreases |payloads|
  {
    if payloads != [] {
      var n := |payloads| - 1;
      var prefix, d := payloads[..n], payloads[n];
      PartitionMultiset(prefix, maxBytes);
      assert payloads == prefix + [d];
      assert multiset(payloads) == multiset(prefix) + multiset{d};
      if |d| < maxBytes {
        assert Accepted(payloads, maxBytes) == Accepted(prefix, maxBytes) + [d];
        assert Rejected(payloads, maxBytes) == Rejected(prefix, maxBytes) + [];
      } else {
        assert Accepted(payloads, maxBytes) == Accepted(prefix, maxBytes) + [];
        assert Rejected(payloads, maxBytes) == Rejected(prefix, maxBytes) + [d];
      }
    }
  }

  /** A payload is accepted exactly when it occurs in the input and is shorter than the limit;
      in particular one whose length equals the limit is rejected. */
  lemma {:induction false} AcceptedIff(payloads: seq<Bytes>, maxBytes: int, d: Bytes)
    ensures d in Accepted(payloads, maxBytes) <==> d in payloads && |d| < maxBytes
    decreases |payloads|
  {
    if payloads != [] {
      var n := |payloads| - 1;
      AcceptedIff(payloads[..n], maxBytes, d);
      assert payloads == payloads[..n] + [payloads[n]];
    }
  }

  /** The loop state of FormPayload: totalBytes, and how many times pRequest was sealed. */
  datatype Counter = Counter(totalBytes: int, seals: nat)

  /** One iteration: a payload under the limit seals first when it would push the
      total over the limit (resetting it to 0), then adds its length. */
  function Step(c: Counter, payload: Bytes, maxBytes: int): (r: Counter)
    ensures c.seals <= r.seals <= c.seals + 1
    ensures r.seals == c.seals + 1 ==> r.totalBytes == |payload|
    ensures 0 <= c.totalBytes <= maxBytes ==> 0 <= r.totalBytes <= maxBytes
  {
    if |payload| < maxBytes then
      if |payload| + c.totalBytes > maxBytes then Counter(|payload|, c.seals + 1)
      else Counter(c.totalBytes + |payload|, c.seals)
    else c
  }

  /** The counter after the loop has run over `payloads`. */
  function Count(payloads: seq<Bytes>, maxBytes: int): (c: Counter)
    ensures Accepted(payloads, maxBytes) == [] ==> c == Counter(0, 0)
    ensures Accepted(payloads, maxBytes) != [] ==> c.seals < |Accepted(payloads, maxBytes)|
    decreases |payloads|
  {
    if payloads == [] then Counter(0, 0)
    else Step(Count(payloads[..|payloads| - 1], maxBytes), payloads[|payloads| - 1], maxBytes)
  }

  /** One more iteration of FormPayload's loop, on the counter and on the accepted payloads. */
  lemma CountStep(payloads: seq<Bytes>, i: nat, maxBytes: int)
    requires i < |payloads|
    ensures Count(payloads[..i + 1], maxBytes) == Step(Count(payloads[..i], maxBytes), payloads[i], maxBytes)
    ensures Accepted(payloads[..i + 1], maxBytes) ==
      Accepted(payloads[..i], maxBytes) + (if |payloads[i]| < maxBytes then [payloads[i]] else [])
  {
    assert payloads[..i + 1][..i] == payloads[..i];
  }

  /** The sum of the lengths of the payloads of one request. */
  function TotalBytes(batch: seq<Bytes>): int
    decreases |batch|
  {
    if batch == [] then 0 else TotalBytes(batch[..|batch| - 1]) + |batch[|batch| - 1]|
  }

  /** The partition the counter describes, and the one the builder evidently means to
      return: a new request is opened at every seal, so each request holds the
      accepted payloads between two seals. */
  function Intended(payloads: seq<Bytes>, maxBytes: int): (r: seq<seq<Bytes>>)
    ensures r == [] <==> Accepted(payloads, maxBytes) == []
    ensures forall i :: 0 <= i < |r| ==> r[i] != []
    decreases |payloads|
  {
    if payloads == [] then []
    else
      var n := |payloads| - 1;
      var d := payloads[n];
      var batches := Intended(payloads[..n], maxBytes);
      if |d| >= maxBytes then batches
      else if |d| + Count(payloads[..n], maxBytes).totalBytes > maxBytes then batches + [[d]]
      else if batches == [] then [[d]]
      else batches[..|batches| - 1] + [batches[|batches| - 1] + [d]]
  }

  /** One iteration of the counter and of the intended partition, unfolded. */
  lemma IntendedStep(payloads: seq<Bytes>, maxBytes: int)
    requires payloads != []
    ensures var n := |payloads| - 1;
      var d, bs, c := payloads[n], Intended(payloads[..n], maxBytes), Count(payloads[..n], maxBytes);
      && Count(payloads, maxBytes) == Step(c, d, maxBytes)
      && Accepted(payloads, maxBytes) == Accepted(payloads[..n], maxBytes) + (if |d| < maxBytes then [d] else [])
      && Intended(payloads, maxBytes) ==
           if |d| >= maxBytes then bs
           else if |d| + c.totalBytes > maxBytes then bs + [[d]]
           else if bs == [] then [[d]]
           else bs[..|bs| - 1] + [bs[|bs| - 1] + [d]]
  {
  }

  /** The counter and the intended partition agree: one request per seal plus the open
      one, and the open request's size is totalBytes. */
  lemma {:induction false} IntendedCount(payloads: seq<Bytes>, maxBytes: int)
    ensures var bs, c := Intended(payloads, maxBytes), Count(payloads, maxBytes);
      && (bs == [] <==> Accepted(payloads, maxBytes) == [])
      && (bs == [] ==> c == Counter(0, 0))
      && (bs != [] ==> |bs| == c.seals + 1 && TotalBytes(bs[|bs| - 1]) == c.totalBytes)
    decreases |payloads|
  {
    if payloads != [] {
      var n := |payloads| - 1;
      var d, prefix := payloads[n], payloads[..n];
      IntendedCount(prefix, maxBytes);
      IntendedStep(payloads, maxBytes);
      var bs := Intended(prefix, maxBytes);
      if |d| < maxBytes {
        assert TotalBytes([d]) == |d| by { assert [d][..0] == []; }
        if bs != [] {
          var last := bs[|bs| - 1] + [d];
          assert last[..|last| - 1] == bs[|bs| - 1];
        }
      }
    }
  }

  /** The intended requests, in order, are exactly the accepted payloads. */
  lemma {:induction false} IntendedFlatten(payloads: seq<Bytes>, maxBytes: int)
    ensures Flatten(Intended(payloads, maxBytes)) == Accepted(payloads, maxBytes)
    decreases |payloads|
  {
    if payloads != [] {
      var n := |payloads| - 1;
      var d, prefix := payloads[n], payloads[..n];
      IntendedFlatten(prefix, maxBytes);
      IntendedStep(payloads, maxBytes);
      var bs := Intended(prefix, maxBytes);
      var c := Count(prefix, maxBytes);
      if |d| < maxBytes {
        if |d| + c.totalBytes > maxBytes {
          FlattenAppend(bs, [d]);
        } else if bs == [] {
          assert Flatten([[d]]) == [d];
        } else {
          var m := |bs| - 1;
          FlattenExtendLast(bs[..m], bs[m], d);
          assert bs[..m] + [bs[m]] == bs;
        }
      }
    }
  }

  /** Appending to the last inner sequence appends to the concatenation. */
  lemma FlattenExtendLast<T>(init: seq<seq<T>>, last: seq<T>, x: T)
    ensures Flatten(init + [last + [x]]) == Flatten(init + [last]) + [x]
  {
    FlattenAppend(init, last);
    FlattenAppend(init, last + [x]);
    assert Flatten(init) + (last + [x]) == Flatten(init) + last + [x];
  }

  /** Every intended request is non-empty and within the limit. */
  lemma IntendedBounded(payloads: seq<Bytes>, maxBytes: int)
    ensures var bs := Intended(payloads, maxBytes);
      forall i :: 0 <= i < |bs| ==> bs[i] != [] && TotalBytes(bs[i]) <= maxBytes
  {
    IntendedWithin(payloads, maxBytes);
  }

  /** Every request of `bs` is within the limit. */
  ghost predicate AllWithin(bs: seq<seq<Bytes>>, maxBytes: int) {
    forall i :: 0 <= i < |bs| ==> TotalBytes(bs[i]) <= maxBytes
  }

  lemma {:induction false} IntendedWithin(payloads: seq<Bytes>, maxBytes: int)
    ensures AllWithin(Intended(payloads, maxBytes), maxBytes)
    decreases |payloads|
  {
    if payloads != [] {
      var n := |payloads| - 1;
      var d, prefix := payloads[n], payloads[..n];
      IntendedWithin(prefix, maxBytes);
      IntendedCount(prefix, maxBytes);
      IntendedStep(payloads, maxBytes);
      var bs := Intended(prefix, maxBytes);
      var c := Count(prefix, maxBytes);
      if |d| < maxBytes {
        TotalBytesAppend([], d);
        if |d| + c.totalBytes > maxBytes {
          WithinAppend(bs, [d], maxBytes);
        } else if bs == [] {
          WithinAppend([], [d], maxBytes);
        } else {
          var m := |bs| - 1;
          TotalBytesAppend(bs[m], d);
          WithinReplaceLast(bs, bs[m] + [d], maxBytes);
        }
      }
    }
  }

  lemma WithinAppend(bs: seq<seq<Bytes>>, b: seq<Bytes>, maxBytes: int)
    requires AllWithin(bs, maxBytes) && TotalBytes(b) <= maxBytes
    ensures AllWithin(bs + [b], maxBytes)
  {
    assert forall i :: 0 <= i < |bs| ==> (bs + [b])[i] == bs[i];
  }

  lemma WithinReplaceLast(bs: seq<seq<Bytes>>, b: seq<Bytes>, maxBytes: int)
    requires bs != [] && AllWithin(bs, maxBytes) && TotalBytes(b) <= maxBytes
    ensures AllWithin(bs[..|bs| - 1] + [b], maxBytes)
  {
    var m := |bs| - 1;
    assert forall i :: 0 <= i < m ==> (bs[..m] + [b])[i] == bs[i];
  }

  lemma TotalBytesAppend(batch: seq<Bytes>, d: Bytes)
    ensures TotalBytes(batch + [d]) == TotalBytes(batch) + |d|
  {
    assert (batch + [d])[..|batch|] == batch;
  }

  /** totalBytes never goes negative, and it stays within a non-negative limit after
      every iteration. */
  lemma CounterWithinLimit(payloads: seq<Bytes>, maxBytes: int)
    ensures 0 <= Count(payloads, maxBytes).totalBytes
    ensures maxBytes >= 0 ==> Count(payloads, maxBytes).totalBytes <= maxBytes
  {
    IntendedCount(payloads, maxBytes);
    IntendedBounded(payloads, maxBytes);
    var bs := Intended(payloads, maxBytes);
    if bs != [] {
      PositiveTotal(bs[|bs| - 1]);
    }
  }

  lemma {:induction false} PositiveTotal(batch: seq<Bytes>)
    ensures TotalBytes(batch) >= 0
    decreases |batch|
  {
    if batch != [] { PositiveTotal(batch[..|batch| - 1]); }
  }

  /** The evidently intended result: requests that are non-empty, each within the
      limit, and whose concatenation in order is exactly the accepted payloads. */
  lemma IntendedWithinLimit(payloads: seq<Bytes>, maxBytes: int)
    ensures var bs := Intended(payloads, maxBytes);
      && Flatten(bs) == Accepted(payloads, maxBytes)
      && forall i :: 0 <= i < |bs| ==> bs[i] != [] && TotalBytes(bs[i]) <= maxBytes
  {
    IntendedFlatten(payloads, maxBytes);
    IntendedBounded(payloads, maxBytes);
  }

  /** Three 10-byte payloads against a 25-byte limit: the counter seals once, so as
      written FormPayload returns two references to one request holding all three
      payloads (30 bytes, over the limit), where [[r1, r2], [r3]] is meant. */
  lemma AsWrittenExceedsLimit(r: Bytes)
    requires |r| == 10
    ensures var payloads := [r, r, r];
      && Accepted(payloads, 25) == payloads
      && Count(payloads, 25) == Counter(10, 1)
      && TotalBytes(Accepted(payloads, 25)) == 30 > 25
      && Intended(payloads, 25) == [[r, r], [r]]
  {
    ScenarioTwo(r);
    var p2, p3 := [r, r], [r, r, r];
    assert p3[..2] == p2;
    IntendedStep(p3, 25);
    assert TotalBytes(p3) == TotalBytes(p2) + 10;
  }

  lemma ScenarioTwo(r: Bytes)
    requires |r| == 10
    ensures Count([r, r], 25) == Counter(20, 0) && Accepted([r, r], 25) == [r, r]
    ensures Intended([r, r], 25) == [[r, r]] && TotalBytes([r, r]) == 20
  {
    var p1, p2 := [r], [r, r];
    assert p2[..1] == p1 && p1[..0] == [];
    IntendedStep(p1, 25);
    assert Intended(p1, 25) == [p1];
    IntendedStep(p2, 25);
    assert p1 + [r] == p2;
    assert [p1][..0] + [p1 + [r]] == [p2];
    assert TotalBytes(p1) == 10;
  }

  // ---------------------------------------------------------------------------
  // Concatenation mode

  /** StringBuilder.AppendLine applied to each text in turn. */
  function Lines(texts: seq<string>, newLine: string): string
    decreases |texts|
  {
    if texts == [] then "" else texts[0] + newLine + Lines(texts[1..], newLine)
  }

  lemma {:induction false} LinesAppend(texts: seq<string>, t: string, newLine: string)
    ensures Lines(texts + [t], newLine) == Lines(texts, newLine) + t + newLine
    decreases |texts|
  {
    if texts != [] {
      assert (texts + [t])[1..] == texts[1..] + [t];
      LinesAppend(texts[1..], t, newLine);
    } else {
      assert [t][1..] == [];
    }
  }

  /** The loop of FormPayloadConcat from some point on: the texts still to come, the
      payloads already sealed, the StringBuilder's contents and the record count. At each
      text the buffer is sealed first when count > maxMessages; after the loop a non-empty
      count seals the last buffer. The result is the payload text of every message. */
  function ConcatFold(rest: seq<string>, sealed: seq<string>, sb: string, count: int,
                      maxMessages: int, newLine: string): (r: seq<string>)
    ensures |r| >= |sealed| && r[..|sealed|] == sealed
    decreases |rest|
  {
    if rest == [] then sealed + (if count > 0 then [sb] else [])
    else if count > maxMessages then ConcatFold(rest[1..], sealed + [sb], rest[0] + newLine, 1, maxMessages, newLine)
    else ConcatFold(rest[1..], sealed, sb + rest[0] + newLine, count + 1, maxMessages, newLine)
  }

  /** One more iteration of FormPayloadConcat's loop. */
  lemma ConcatFoldStep(texts: seq<string>, i: nat, sealed: seq<string>, sb: string, count: int,
                       maxMessages: int, newLine: string)
    requires i < |texts|
    ensures ConcatFold(texts[i..], sealed, sb, count, maxMessages, newLine) ==
      if count > maxMessages then ConcatFold(texts[i + 1..], sealed + [sb], "" + texts[i] + newLine, 1, maxMessages, newLine)
      else ConcatFold(texts[i + 1..], sealed, sb + texts[i] + newLine, count + 1, maxMessages, newLine)
  {
    assert texts[i..][1..] == texts[i + 1..];
    assert "" + texts[i] + newLine == texts[i] + newLine;
  }

  /** The payload texts of the messages FormPayloadConcat builds. */
  function ConcatPayloads(texts: seq<string>, maxMessages: int, newLine: string): seq<string> {
    ConcatFold(texts, [], "", 0, maxMessages, newLine)
  }

  lemma {:induction false} ConcatFoldGrows(rest: seq<string>, sealed: seq<string>, sb: string, count: int,
                                           maxMessages: int, newLine: string)
    requires count >= 0
    ensures |ConcatFold(rest, sealed, sb, count, maxMessages, newLine)| >= |sealed|
    ensures rest != [] || count > 0 ==> |ConcatFold(rest, sealed, sb, count, maxMessages, newLine)| > |sealed|
    decreases |rest|
  {
    if rest != [] {
      if count > maxMessages {
        ConcatFoldGrows(rest[1..], sealed + [sb], rest[0] + newLine, 1, maxMessages, newLine);
      } else {
        ConcatFoldGrows(rest[1..], sealed, sb + rest[0] + newLine, count + 1, maxMessages, newLine);
      }
    }
  }

  /** Some record means some message. */
  lemma ConcatNonEmpty(texts: seq<string>, maxMessages: int, newLine: string)
    requires texts != []
    ensures ConcatPayloads(texts, maxMessages, newLine) != []
  {
    ConcatFoldGrows(texts, [], "", 0, maxMessages, newLine);
  }

  /** Consecutive pieces of `s` of length k, the last one possibly shorter. */
  function Chunks<T>(s: seq<T>, k: nat): seq<seq<T>>
    requires k >= 1
    decreases |s|
  {
    if s == [] then [] else if |s| <= k then [s] else [s[..k]] + Chunks(s[k..], k)
  }

  /** The payload text of each chunk. */
  function LinesOf(chunks: seq<seq<string>>, newLine: string): (r: seq<string>)
    ensures |r| == |chunks|
    decreases |chunks|
  {
    if chunks == [] then [] else [Lines(chunks[0], newLine)] + LinesOf(chunks[1..], newLine)
  }

  /** Chunks are non-empty, at most k long, all but the last exactly k long, and they
      concatenate back to the input. There are ceil(|s| / k) of them. */
  lemma ChunksShape<T>(s: seq<T>, k: nat)
    requires k >= 1
    ensures var cs := Chunks(s, k);
      && Flatten(cs) == s
      && |cs| == (|s| + k - 1) / k
      && (forall i :: 0 <= i < |cs| ==> 1 <= |cs[i]| <= k)
      && (forall i :: 0 <= i < |cs| - 1 ==> |cs[i]| == k)
  {
    ChunksFlatten(s, k);
    ChunksCount(s, k);
    ChunksSizes(s, k);
  }

  /** One more chunk taken off the front of a sequence longer than k. */
  lemma ChunksUnfold<T>(s: seq<T>, k: nat)
    requires k >= 1 && |s| > k
    ensures Chunks(s, k) == [s[..k]] + Chunks(s[k..], k)
  {
  }

  lemma {:induction false} ChunksFlatten<T>(s: seq<T>, k: nat)
    requires k >= 1
    ensures Flatten(Chunks(s, k)) == s
    decreases |s|
  {
    if |s| > k {
      ChunksUnfold(s, k);
      var rest := Chunks(s[k..], k);
      ChunksFlatten(s[k..], k);
      assert ([s[..k]] + rest)[1..] == rest;
      assert s[..k] + s[k..] == s;
    } else if s != [] {
      assert Flatten([s]) == s + Flatten([]);
    }
  }

  lemma {:induction false} ChunksCount<T>(s: seq<T>, k: nat)
    requires k >= 1
    ensures |Chunks(s, k)| == (|s| + k - 1) / k
    decreases |s|
  {
    if |s| > k {
      ChunksUnfold(s, k);
      ChunksCount(s[k..], k);
      DivStep(|s| - k, k);
    } else if s != [] {
      DivUnique(|s| + k - 1, k, 1, |s| - 1);
    } else {
      DivUnique(k - 1, k, 0, k - 1);
    }
  }

  lemma {:induction false} ChunksSizes<T>(s: seq<T>, k: nat)
    requires k >= 1
    ensures var cs := Chunks(s, k);
      && (forall i :: 0 <= i < |cs| ==> 1 <= |cs[i]| <= k)
      && (forall i :: 0 <= i < |cs| - 1 ==> |cs[i]| == k)
    decreases |s|
  {
    if |s| > k {
      ChunksUnfold(s, k);
      var rest := Chunks(s[k..], k);
      ChunksSizes(s[k..], k);
      assert forall i :: 1 <= i < |rest| + 1 ==> ([s[..k]] + rest)[i] == rest[i - 1];
    }
  }

  lemma DivStep(a: nat, k: nat)
    requires k >= 1
    ensures (a + k + k - 1) / k == (a + k - 1) / k + 1
  {
    var x := a + k - 1;
    var q, r := x / k, x % k;
    assert x == q * k + r && 0 <= r < k;
    assert (q + 1) * k == q * k + k;
    DivUnique(x + k, k, q + 1, r);
  }

  lemma DivUnique(x: int, k: int, q: int, r: int)
    requires k > 0 && 0 <= r < k && x == q * k + r
    ensures x / k == q
  {
    var q', r' := x / k, x % k;
    assert x == q' * k + r' && 0 <= r' < k;
    if q' < q {
      assert (q' + 1) * k == q' * k + k;
      MulMonotone(q' + 1, q, k);
    } else if q < q' {
      assert (q + 1) * k == q * k + k;
      MulMonotone(q + 1, q', k);
    }
  }

  lemma MulMonotone(a: int, b: int, k: int)
    requires a <= b && k >= 0
    ensures a * k <= b * k
  {
    var d := b - a;
    assert b * k == a * k + d * k;
    assert d * k >= 0;
  }

  /** The fold seals a buffer exactly at every (maxMessages + 1)-th text: from a buffer
      holding `pending`, the rest of the payloads are the texts of the chunks of
      pending + rest. */
  lemma {:induction false} ConcatFoldChunks(rest: seq<string>, sealed: seq<string>, pending: seq<string>,
                                            maxMessages: int, newLine: string)
    requires maxMessages >= 0 && |pending| <= maxMessages + 1
    ensures ConcatFold(rest, sealed, Lines(pending, newLine), |pending|, maxMessages, newLine)
      == sealed + LinesOf(Chunks(pending + rest, maxMessages + 1), newLine)
    decreases |rest|
  {
    var k := maxMessages + 1;
    if rest == [] {
      assert pending + rest == pending;
    } else if |pending| > maxMessages {
      var s := pending + rest;
      assert s[..k] == pending && s[k..] == rest;
      assert Lines([rest[0]], newLine) == rest[0] + newLine;
      ConcatFoldChunks(rest[1..], sealed + [Lines(pending, newLine)], [rest[0]], maxMessages, newLine);
      assert [rest[0]] + rest[1..] == rest;
      assert LinesOf(Chunks(s, k), newLine)[1..] == LinesOf(Chunks(rest, k), newLine);
    } else {
      LinesAppend(pending, rest[0], newLine);
      ConcatFoldChunks(rest[1..], sealed, pending + [rest[0]], maxMessages, newLine);
      assert pending + [rest[0]] + rest[1..] == pending + rest;
    }
  }

  /** For a non-negative limit, the messages are the texts of the chunks of
      maxMessages + 1 records. */
  lemma ConcatIsChunks(texts: seq<string>, maxMessages: int, newLine: string)
    requires maxMessages >= 0
    ensures ConcatPayloads(texts, maxMessages, newLine) == LinesOf(Chunks(texts, maxMessages + 1), newLine)
  {
    ConcatFoldChunks(texts, [], [], maxMessages, newLine);
    assert [] + texts == texts;
  }

  /** For a non-negative limit there are ceil(n / (maxMessages + 1)) messages, none for no
      events, each folding between one and maxMessages + 1 records, all but the last exactly
      maxMessages + 1. */
  lemma ConcatCount(texts: seq<string>, maxMessages: int, newLine: string)
    requires maxMessages >= 0
    ensures |ConcatPayloads(texts, maxMessages, newLine)| == (|texts| + maxMessages) / (maxMessages + 1)
    ensures |texts| == 0 ==> ConcatPayloads(texts, maxMessages, newLine) == []
  {
    ConcatIsChunks(texts, maxMessages, newLine);
    ChunksShape(texts, maxMessages + 1);
  }

  lemma {:induction false} LinesOfFlatten(chunks: seq<seq<string>>, newLine: string)
    ensures Flatten(LinesOf(chunks, newLine)) == Lines(Flatten(chunks), newLine)
    decreases |chunks|
  {
    if chunks != [] {
      LinesOfFlatten(chunks[1..], newLine);
      LinesConcat(chunks[0], Flatten(chunks[1..]), newLine);
    }
  }

  lemma {:induction false} LinesConcat(a: seq<string>, b: seq<string>, newLine: string)
    ensures Lines(a + b, newLine) == Lines(a, newLine) + Lines(b, newLine)
    decreases |a|
  {
    if a != [] {
      assert (a + b)[1..] == a[1..] + b;
      LinesConcat(a[1..], b, newLine);
    } else {
      assert a + b == b;
    }
  }

  /** Whatever the limit, the message payloads joined in order are each record followed
      by a new line, in input order, with nothing lost or duplicated. */
  lemma ConcatPreservesLines(texts: seq<string>, maxMessages: int, newLine: string)
    ensures Flatten(ConcatPayloads(texts, maxMessages, newLine)) == Lines(texts, newLine)
  {
    if maxMessages >= 0 {
      ConcatIsChunks(texts, maxMessages, newLine);
      ChunksShape(texts, maxMessages + 1);
      LinesOfFlatten(Chunks(texts, maxMessages + 1), newLine);
    } else if texts != [] {
      ConcatNegativeLimit(texts, maxMessages, newLine);
      ChunksShape(texts, 1);
      LinesOfFlatten(Chunks(texts, 1), newLine);
      var tail := LinesOf(Chunks(texts, 1), newLine);
      assert ([""] + tail)[1..] == tail;
    }
  }

  /** With a negative limit the check count > maxMessages already holds before the
      first record, so an empty message comes first and every record then gets a
      message of its own. */
  lemma ConcatNegativeLimit(texts: seq<string>, maxMessages: int, newLine: string)
    requires maxMessages < 0 && texts != []
    ensures ConcatPayloads(texts, maxMessages, newLine) == [""] + LinesOf(Chunks(texts, 1), newLine)
  {
    var first := texts[0] + newLine;
    assert [] + [""] == [""] && [""] + [] == [""] && "" + texts[0] + newLine == first;
    assert ConcatPayloads(texts, maxMessages, newLine) == ConcatFold(texts[1..], [""], first, 1, maxMessages, newLine);
    assert ConcatPayloads(texts, 0, newLine) == ConcatFold(texts[1..], [], first, 1, 0, newLine);
    ConcatFoldSameAsZero(texts[1..], [""], first, 1, maxMessages, newLine);
    ConcatFoldSealedPrefix(texts[1..], "", [], first, 1, 0, newLine);
    ConcatIsChunks(texts, 0, newLine);
  }

  lemma {:induction false} ConcatFoldSameAsZero(rest: seq<string>, sealed: seq<string>, sb: string, count: int,
                                                maxMessages: int, newLine: string)
    requires maxMessages < 0 && count >= 1
    ensures ConcatFold(rest, sealed, sb, count, maxMessages, newLine) == ConcatFold(rest, sealed, sb, count, 0, newLine)
    decreases |rest|
  {
    if rest != [] {
      ConcatFoldSameAsZero(rest[1..], sealed + [sb], rest[0] + newLine, 1, maxMessages, newLine);
    }
  }

  lemma {:induction false} ConcatFoldSealedPrefix(rest: seq<string>, x: string, sealed: seq<string>, sb: string,
                                                  count: int, maxMessages: int, newLine: string)
    ensures ConcatFold(rest, [x] + sealed, sb, count, maxMessages, newLine)
      == [x] + ConcatFold(rest, sealed, sb, count, maxMessages, newLine)
    decreases |rest|
  {
    if rest != [] {
      if count > maxMessages {
        assert [x] + sealed + [sb] == [x] + (sealed + [sb]);
        ConcatFoldSealedPrefix(rest[1..], x, sealed + [sb], rest[0] + newLine, 1, maxMessages, newLine);
      } else {
        ConcatFoldSealedPrefix(rest[1..], x, sealed, sb + rest[0] + newLine, count + 1, maxMessages, newLine);
      }
    }
  }
}
