/** The attribute string of the target, "key1:value1;key2:value2", and the
    dictionary SendBatch builds from it: split on ';', split each segment on ':',
    and Add kv[0] -> kv[1] in segment order. */
module Attributes {
  import opened Common
  import opened Strings

  /** The dictionary built so far and the exception that stopped the loop, if any. */
  datatype ParseOutcome = ParseOutcome(dict: map<string, string>, error: Option<Exception>)

  /** kv[0]: the text before the first ':' (the whole segment when it has none). */
  function Key(segment: string): string {
    Split(segment, ':')[0]
  }

  /** kv[1]: the text between the first and the second ':'. */
  function Value(segment: string): string
    requires ':' in segment
  {
    SplitHasSeveralParts(segment, ':');
    Split(segment, ':')[1]
  }

  /** The exception one segment raises when it is added to `dict`: kv[1] fails
      first when there is no ':', then Add fails on a key already present. */
  function SegmentFault(segment: string, dict: map<string, string>): Option<Exception> {
    if ':' !in segment then Some(IndexOutOfRange)
    else if Key(segment) in dict then Some(DuplicateKey(Key(segment)))
    else None
  }

  /** The foreach over the segments, starting from `dict`. The dictionary only grows. */
  function ParseSegments(segments: seq<string>, dict: map<string, string>): (r: ParseOutcome)
    ensures dict.Keys <= r.dict.Keys
    ensures forall k :: k in dict ==> k in r.dict && r.dict[k] == dict[k]
    decreases |segments|
  {
    if segments == [] then ParseOutcome(dict, None)
    else
      var kv := Split(segments[0], ':');
      if |kv| < 2 then ParseOutcome(dict, Some(IndexOutOfRange))
      else if kv[0] in dict then ParseOutcome(dict, Some(DuplicateKey(kv[0])))
      else ParseSegments(segments[1..], dict[kv[0] := kv[1]])
  }

  /** Every segment has a ':' and the keys are new and pairwise distinct. */
  ghost predicate Parsable(segments: seq<string>, dict: map<string, string>) {
    && (forall i :: 0 <= i < |segments| ==> ':' in segments[i])
    && (forall i :: 0 <= i < |segments| ==> Key(segments[i]) !in dict)
    && (forall i, j :: 0 <= i < j < |segments| ==> Key(segments[i]) != Key(segments[j]))
  }

  /** One step of the loop, in terms of Key, Value and SegmentFault. */
  lemma ParseStep(segments: seq<string>, dict: map<string, string>)
    requires segments != []
    ensures SegmentFault(segments[0], dict).Some? ==>
      ParseSegments(segments, dict) == ParseOutcome(dict, SegmentFault(segments[0], dict))
    ensures SegmentFault(segments[0], dict).None? ==>
      ParseSegments(segments, dict) ==
        ParseSegments(segments[1..], dict[Key(segments[0]) := Value(segments[0])])
  {
    SplitHasSeveralParts(segments[0], ':');
  }

  /** The loop finishes without an exception exactly when the segments are parsable. */
  lemma {:induction false} ParseSucceedsIff(segments: seq<string>, dict: map<string, string>)
    ensures ParseSegments(segments, dict).error.None? <==> Parsable(segments, dict)
    decreases |segments|
  {
    if segments != [] {
      var s, rest := segments[0], segments[1..];
      ParseStep(segments, dict);
      if SegmentFault(s, dict).None? {
        var dict' := dict[Key(s) := Value(s)];
        ParseSucceedsIff(rest, dict');
        if Parsable(rest, dict') {
          forall i, j | 0 <= i < j < |segments|
            ensures Key(segments[i]) != Key(segments[j])
          {
            if i > 0 {
              assert Key(segments[i]) == Key(rest[i - 1]) && Key(segments[j]) == Key(rest[j - 1]);
            } else {
              assert Key(rest[j - 1]) !in dict';
            }
          }
          forall i | 0 <= i < |segments| ensures Key(segments[i]) !in dict {
            if i > 0 { assert Key(rest[i - 1]) !in dict'; }
          }
          assert forall i :: 0 < i < |segments| ==> segments[i] == rest[i - 1];
        }
        if Parsable(segments, dict) {
          assert forall i :: 0 <= i < |rest| ==> rest[i] == segments[i + 1];
          forall i | 0 <= i < |rest| ensures Key(rest[i]) !in dict' {
            assert Key(segments[0]) != Key(segments[i + 1]);
          }
        }
      } else {
        assert !Parsable(segments, dict) by {
          if ':' in s { assert Key(segments[0]) in dict; }
        }
      }
    }
  }

  /** The parsable segments after the first, against the dictionary the first one extends. */
  lemma ParsableRest(segments: seq<string>, dict: map<string, string>)
    requires segments != [] && Parsable(segments, dict)
    ensures SegmentFault(segments[0], dict).None?
    ensures Parsable(segments[1..], dict[Key(segments[0]) := Value(segments[0])])
  {
    var rest, dict' := segments[1..], dict[Key(segments[0]) := Value(segments[0])];
    assert forall i :: 0 <= i < |rest| ==> rest[i] == segments[i + 1];
    forall i | 0 <= i < |rest| ensures Key(rest[i]) !in dict' {
      assert Key(segments[0]) != Key(segments[i + 1]);
    }
  }

  /** The keys of a successful parse: the old ones and each segment's kv[0]. */
  lemma {:induction false} ParsedKeys(segments: seq<string>, dict: map<string, string>)
    requires Parsable(segments, dict)
    ensures ParseSegments(segments, dict).dict.Keys ==
      dict.Keys + (set i | 0 <= i < |segments| :: Key(segments[i]))
    decreases |segments|
  {
    if segments != [] {
      var s, rest := segments[0], segments[1..];
      ParseStep(segments, dict);
      ParsableRest(segments, dict);
      ParsedKeys(rest, dict[Key(s) := Value(s)]);
      KeysSplit(segments);
    }
  }

  /** The keys of the segments: the first one's and those of the rest. */
  lemma KeysSplit(segments: seq<string>)
    requires segments != []
    ensures (set i | 0 <= i < |segments| :: Key(segments[i])) ==
      {Key(segments[0])} + (set i | 0 <= i < |segments[1..]| :: Key(segments[1..][i]))
  {
    var rest := segments[1..];
    var later := set i | 0 <= i < |rest| :: Key(rest[i]);
    var all := set i | 0 <= i < |segments| :: Key(segments[i]);
    forall k | k in all ensures k in {Key(segments[0])} + later {
      var i :| 0 <= i < |segments| && k == Key(segments[i]);
      if i > 0 { assert k == Key(rest[i - 1]); }
    }
    forall k | k in later ensures k in all {
      var i :| 0 <= i < |rest| && k == Key(rest[i]);
      assert k == Key(segments[i + 1]);
    }
  }

  /** A successful parse maps each segment's kv[0] to its kv[1]. */
  lemma {:induction false} ParsedValues(segments: seq<string>, dict: map<string, string>)
    requires Parsable(segments, dict)
    ensures forall i :: 0 <= i < |segments| ==>
      var r := ParseSegments(segments, dict);
      Key(segments[i]) in r.dict && r.dict[Key(segments[i])] == Value(segments[i])
    decreases |segments|
  {
    if segments != [] {
      var s, rest := segments[0], segments[1..];
      ParseStep(segments, dict);
      ParsableRest(segments, dict);
      ParsedValues(rest, dict[Key(s) := Value(s)]);
      assert forall i :: 0 < i < |segments| ==> segments[i] == rest[i - 1];
    }
  }

  /** A failed parse stops at its first faulty segment: the dictionary left behind
      is the one the segments before it built, and the exception is that segment's. */
  lemma {:induction false} ParseStopsAtFault(segments: seq<string>, dict: map<string, string>)
    ensures var r := ParseSegments(segments, dict);
      r.error.Some? ==>
        exists j :: 0 <= j < |segments|
          && ParseSegments(segments[..j], dict) == ParseOutcome(r.dict, None)
          && r.error == SegmentFault(segments[j], r.dict)
    decreases |segments|
  {
    var r := ParseSegments(segments, dict);
    if segments != [] && r.error.Some? {
      ParseStep(segments, dict);
      var s, rest := segments[0], segments[1..];
      if SegmentFault(s, dict).Some? {
        assert segments[..0] == [];
      } else {
        var dict' := dict[Key(s) := Value(s)];
        ParseStopsAtFault(rest, dict');
        var j :| 0 <= j < |rest|
          && ParseSegments(rest[..j], dict') == ParseOutcome(r.dict, None)
          && r.error == SegmentFault(rest[j], r.dict);
        assert segments[..j + 1][1..] == rest[..j];
        ParseStep(segments[..j + 1], dict);
        assert segments[j + 1] == rest[j];
      }
    }
  }

  /** A segment with more than one ':' contributes its first two parts only. */
  lemma ParseIgnoresExtraParts(k: string, v: string, extra: string)
    requires ':' !in k && ':' !in v
    ensures ParseSegments([k + ":" + v + ":" + extra], map[]) == ParseOutcome(map[k := v], None)
  {
    var segment := k + ":" + v + ":" + extra;
    assert segment == k + [':'] + (v + [':'] + extra);
    SplitFirstPart(k, ':', v + [':'] + extra);
    SplitFirstPart(v, ':', extra);
    assert Split(segment, ':') == [k, v] + Split(extra, ':');
  }

  // The inverse of the parser: writing a list of pairs as an attribute string.

  /** The segment "key:value" of one pair. */
  function Segment(pair: (string, string)): string {
    pair.0 + ":" + pair.1
  }

  /** The attribute string of a non-empty list of pairs. */
  function Format(pairs: seq<(string, string)>): string
    requires |pairs| >= 1
  {
    Join(seq(|pairs|, i requires 0 <= i < |pairs| => Segment(pairs[i])), ';')
  }

  /** The dictionary `dict` extended with the pairs, added in order. */
  function AddAll(pairs: seq<(string, string)>, dict: map<string, string>): map<string, string>
    decreases |pairs|
  {
    if pairs == [] then dict else AddAll(pairs[1..], dict[pairs[0].0 := pairs[0].1])
  }

  /** A pair whose key and value hold neither separator. */
  predicate PlainPair(pair: (string, string)) {
    ':' !in pair.0 && ';' !in pair.0 && ':' !in pair.1 && ';' !in pair.1
  }

  lemma SegmentParts(pair: (string, string))
    requires PlainPair(pair)
    ensures ':' in Segment(pair) && ';' !in Segment(pair)
    ensures Key(Segment(pair)) == pair.0 && Value(Segment(pair)) == pair.1
  {
    SplitJoin([pair.0, pair.1], ':');
    assert Join([pair.0, pair.1], ':') == Segment(pair);
  }

  lemma {:induction false} ParseSegmentsOfPairs(pairs: seq<(string, string)>, dict: map<string, string>)
    requires forall i :: 0 <= i < |pairs| ==> PlainPair(pairs[i]) && pairs[i].0 !in dict
    requires forall i, j :: 0 <= i < j < |pairs| ==> pairs[i].0 != pairs[j].0
    ensures ParseSegments(seq(|pairs|, i requires 0 <= i < |pairs| => Segment(pairs[i])), dict)
      == ParseOutcome(AddAll(pairs, dict), None)
    decreases |pairs|
  {
    var segments := seq(|pairs|, i requires 0 <= i < |pairs| => Segment(pairs[i]));
    if pairs != [] {
      SegmentParts(pairs[0]);
      ParseStep(segments, dict);
      var dict' := dict[pairs[0].0 := pairs[0].1];
      ParseSegmentsOfPairs(pairs[1..], dict');
      assert segments[1..] == seq(|pairs[1..]|, i requires 0 <= i < |pairs[1..]| => Segment(pairs[1..][i]));
    }
  }

  /** Round trip: parsing the formatted string of plain pairs with distinct keys
      gives the dictionary of those pairs, with no exception. */
  lemma ParseFormat(pairs: seq<(string, string)>)
    requires |pairs| >= 1
    requires forall i :: 0 <= i < |pairs| ==> PlainPair(pairs[i])
    requires forall i, j :: 0 <= i < j < |pairs| ==> pairs[i].0 != pairs[j].0
    ensures ParseSegments(Split(Format(pairs), ';'), map[]) == ParseOutcome(AddAll(pairs, map[]), None)
  {
    var segments := seq(|pairs|, i requires 0 <= i < |pairs| => Segment(pairs[i]));
    forall i | 0 <= i < |segments| ensures ';' !in segments[i] {
      SegmentParts(pairs[i]);
    }
    SplitJoin(segments, ';');
    ParseSegmentsOfPairs(pairs, map[]);
  }
}
