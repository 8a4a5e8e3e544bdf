/**
 The OTLP span import: one pass that drops malformed and repeated spans, then sorts.

 The reference is `Fresh`: the first valid span of every identity, in input order. `ImportSpans` is the loop;
 `FreshExactly`, `ImportTwice` and `ConfusableExactly` say what the loop's result means.
 */
module Import {
  import opened Prelude
  import Decimal
  import FileOrder

  datatype Field = Missing | Str(text: string) | Num(value: int) | Other

  /** What the attributes contribute: carried along, never inspected by the loop. */
  datatype Details = Details(rest: string, warnings: set<string>)

  /** `details` is None when the attribute mapping refuses the span. */
  datatype RawSpan = NotAnObject | RawSpan(traceId: Field, spanId: Field, start: Field, end: Field,
    details: Option<Details>)

  datatype Observation = Observation(id: Bytes, start: nat, duration: nat, details: Details)

  datatype Report = Report(observations: seq<Observation>, duplicates: nat, rejected: nat, outOfOrder: bool,
    partial: bool, warnings: set<string>)

  const Nul: char := '\0'

  // ---------------------------------------------------------------- one span

  predicate Decimals(s: string) { s != [] && forall i :: 0 <= i < |s| ==> '0' <= s[i] <= '9' }

  function DecimalValue(s: string): nat
    requires forall i :: 0 <= i < |s| ==> '0' <= s[i] <= '9'
  {
    if s == [] then 0 else 10 * DecimalValue(s[..|s| - 1]) + (s[|s| - 1] as nat - '0' as nat)
  }

  const MaxUnsigned := 0xFFFF_FFFF_FFFF_FFFF

  /** _bounded_int with minimum 0. */
  function BoundedInt(f: Field): (r: Option<nat>)
    ensures r.Some? ==> r.value <= MaxUnsigned
  {
    match f
    case Str(s) => if Decimals(s) && DecimalValue(s) <= MaxUnsigned then Some(DecimalValue(s)) else None
    case Num(n) => if 0 <= n <= MaxUnsigned then Some(n) else None
    case _ => None
  }

  /** The bytes under the digest: the parts joined by NUL. */
  function Payload(traceId: string, spanId: string, start: nat): string {
    "otlp-span" + [Nul] + traceId + [Nul] + spanId + [Nul] + Decimal.Text(start)
  }

  function Normalize(hash: string -> Bytes, span: RawSpan): (r: Option<Observation>) {
    if span.NotAnObject? || !span.traceId.Str? || !span.spanId.Str? || span.traceId.text == "" || span.spanId.text == ""
      then None
    else
      var start, end := BoundedInt(span.start), BoundedInt(span.end);
      if start.None? || end.None? || end.value < start.value || span.details.None? then None
      else
        var id := hash(Payload(span.traceId.text, span.spanId.text, start.value));
        Some(Observation(id, start.value, (end.value - start.value) / 1000, span.details.value))
  }

  /** Nothing but digits, with leading zeros or without. */
  lemma {:induction false} DecimalsAreText(s: string) returns (zeros: nat)
    requires Decimals(s)
    ensures s == Zeros(zeros) + Decimal.Text(DecimalValue(s))
  {
    var front, last := s[..|s| - 1], s[|s| - 1] as nat - '0' as nat;
    assert s == front + [s[|s| - 1]] && s[|s| - 1] == Decimal.Digit(last);
    var n := DecimalValue(front);
    assert DecimalValue(s) == 10 * n + last;
    zeros := 0;
    if front == [] {
      assert n == 0 && Decimal.Text(last) == [Decimal.Digit(last)] == s;
      assert Zeros(0) + s == s;
    } else {
      var k := DecimalsAreText(front);
      zeros := if n == 0 then k + 1 else k;
      hide DecimalValue;
      OneMoreDigit(k, n, last);
    }
  }

  lemma OneMoreDigit(k: nat, n: nat, last: nat)
    requires last < 10
    ensures Zeros(k) + Decimal.Text(n) + [Decimal.Digit(last)]
         == Zeros(if n == 0 then k + 1 else k) + Decimal.Text(10 * n + last)
  {
    if n == 0 {
      assert Decimal.Text(0) == [Decimal.Digit(0)] == "0" && Zeros(k) + "0" == Zeros(k + 1);
    } else {
      assert (10 * n + last) / 10 == n && (10 * n + last) % 10 == last;
    }
  }

  function Zeros(n: nat): (z: string)
    ensures |z| == n && forall i :: 0 <= i < n ==> z[i] == '0'
  {
    seq(n, _ => '0')
  }

  lemma {:induction false} TextIsDecimals(n: nat)
    ensures Decimals(Decimal.Text(n)) && DecimalValue(Decimal.Text(n)) == n
  {
    var s := Decimal.Text(n);
    if n < 10 {
      assert s == [Decimal.Digit(n)] && s[..0] == [] && DecimalValue(s[..0]) == 0;
    } else {
      TextIsDecimals(n / 10);
      assert s == Decimal.Text(n / 10) + [Decimal.Digit(n % 10)] && s[..|s| - 1] == Decimal.Text(n / 10);
    }
  }

  lemma {:induction false} ZerosAddNothing(zeros: nat, s: string)
    requires Decimals(s)
    ensures Decimals(Zeros(zeros) + s) && DecimalValue(Zeros(zeros) + s) == DecimalValue(s)
  {
    var t := Zeros(zeros) + s;
    if |s| == 1 {
      assert t[..|t| - 1] == Zeros(zeros) && s[..0] == [];
      OnlyZeros(zeros);
    } else {
      assert t[..|t| - 1] == Zeros(zeros) + s[..|s| - 1];
      ZerosAddNothing(zeros, s[..|s| - 1]);
    }
  }

  lemma {:induction false} OnlyZeros(n: nat)
    ensures DecimalValue(Zeros(n)) == 0
  {
    if n > 0 {
      assert Zeros(n)[..n - 1] == Zeros(n - 1);
      OnlyZeros(n - 1);
    }
  }

  /** A field is a time exactly if it is a number of 64 bits, or its decimal text, zeros in front included. */
  lemma BoundedIntExactly(f: Field, n: nat)
    ensures BoundedInt(f) == Some(n)
       <==> n <= 0xFFFF_FFFF_FFFF_FFFF && (f == Num(n) || exists zeros: nat :: f == Str(Zeros(zeros) + Decimal.Text(n)))
  {
    if f.Str? {
      if Decimals(f.text) {
        var zeros := DecimalsAreText(f.text);
      }
      if zeros: nat :| f == Str(Zeros(zeros) + Decimal.Text(n)) {
        TextIsDecimals(n);
        ZerosAddNothing(zeros, Decimal.Text(n));
      }
    }
  }

  /**
   A span is accepted exactly if both identifiers are non-empty strings, both times are numbers of 64 bits and in order,
   and its attributes are accepted; the observation starts with it and lasts its whole microseconds.
   */
  lemma NormalizeExactly(hash: string -> Bytes, span: RawSpan)
    ensures Normalize(hash, span).Some?
       <==> && span.RawSpan? && span.details.Some?
            && span.traceId.Str? && |span.traceId.text| > 0 && span.spanId.Str? && |span.spanId.text| > 0
            && exists start, end ::
                 BoundedInt(span.start) == Some(start) && BoundedInt(span.end) == Some(end) && start <= end
    ensures Normalize(hash, span).Some? ==>
      var o, start, end := Normalize(hash, span).value, BoundedInt(span.start).value, BoundedInt(span.end).value;
      && o.start == start && 1000 * o.duration <= end - start < 1000 * o.duration + 1000
      && o.details == span.details.value
      && o.id == hash("otlp-span" + [Nul] + span.traceId.text + [Nul] + span.spanId.text + [Nul] + Decimal.Text(start))
  {
    if Normalize(hash, span).Some? {
      var start, end := BoundedInt(span.start).value, BoundedInt(span.end).value;
      assert BoundedInt(span.start) == Some(start) && BoundedInt(span.end) == Some(end) && start <= end;
    }
  }

  // ---------------------------------------------------------------- the reference

  /** Some valid span of the list has this identity. */
  predicate Occurs(hash: string -> Bytes, spans: seq<RawSpan>, id: Bytes) {
    exists i :: 0 <= i < |spans| && Normalize(hash, spans[i]).Some? && Normalize(hash, spans[i]).value.id == id
  }

  /** The first valid span of every identity, in input order. */
  function Fresh(hash: string -> Bytes, spans: seq<RawSpan>): seq<Observation> {
    if spans == [] then []
    else
      var n := |spans| - 1;
      var o := Normalize(hash, spans[n]);
      if o.None? || Occurs(hash, spans[..n], o.value.id) then Fresh(hash, spans[..n])
        else Fresh(hash, spans[..n]) + [o.value]
  }

  function Malformed(hash: string -> Bytes, spans: seq<RawSpan>): nat {
    if spans == [] then 0
    else
      var n := |spans| - 1;
      Malformed(hash, spans[..n]) + if Normalize(hash, spans[n]).None? then 1 else 0
  }

  function Warned(obs: seq<Observation>): set<string> {
    if obs == [] then {} else Warned(obs[..|obs| - 1]) + obs[|obs| - 1].details.warnings
  }

  predicate InOrder(obs: seq<Observation>) { forall i, j :: 0 <= i <= j < |obs| ==> obs[i].start <= obs[j].start }

  ghost predicate DistinctIds(obs: seq<Observation>) { forall i, j :: 0 <= i < j < |obs| ==> obs[i].id != obs[j].id }

  predicate Before(a: Observation, b: Observation) {
    a.start < b.start || (a.start == b.start && FileOrder.Less(a.id, b.id))
  }

  ghost predicate StrictlySorted(obs: seq<Observation>) { forall i, j :: 0 <= i < j < |obs| ==> Before(obs[i], obs[j]) }

  /** The order of the report: by start, and by identity where starts are equal. */
  lemma SortedByStart(obs: seq<Observation>)
    requires StrictlySorted(obs)
    ensures forall i, j :: 0 <= i < j < |obs| ==> obs[i].start <= obs[j].start
    ensures forall i, j :: 0 <= i < j < |obs| && obs[i].start == obs[j].start ==>
      FileOrder.FirstDifference(obs[i].id, obs[j].id)
  {
    forall i, j | 0 <= i < j < |obs| && obs[i].start == obs[j].start
      ensures FileOrder.FirstDifference(obs[i].id, obs[j].id)
    {
      FileOrder.LessExactly(obs[i].id, obs[j].id);
    }
  }

  // ---------------------------------------------------------------- sorting

  function Insert(o: Observation, obs: seq<Observation>): seq<Observation> {
    if obs == [] || Before(o, obs[0]) then [o] + obs else [obs[0]] + Insert(o, obs[1..])
  }

  function SortObservations(obs: seq<Observation>): seq<Observation> {
    if obs == [] then [] else Insert(obs[|obs| - 1], SortObservations(obs[..|obs| - 1]))
  }

  lemma {:induction false} InsertContents(o: Observation, obs: seq<Observation>)
    ensures multiset(Insert(o, obs)) == multiset(obs) + multiset{o}
  {
    if obs != [] && !Before(o, obs[0]) {
      InsertContents(o, obs[1..]);
      assert obs == [obs[0]] + obs[1..];
    }
  }

  lemma {:induction false} InsertSorted(o: Observation, obs: seq<Observation>)
    requires StrictlySorted(obs) && forall i :: 0 <= i < |obs| ==> obs[i].id != o.id
    ensures StrictlySorted(Insert(o, obs))
  {
    if obs == [] {
    } else if Before(o, obs[0]) {
      forall j | 0 < j < |obs| ensures Before(o, obs[j]) {
        BeforeTransitive(o, obs[0], obs[j]);
      }
    } else {
      FileOrder.LessTotal(o.id, obs[0].id);
      var rest := Insert(o, obs[1..]);
      InsertSorted(o, obs[1..]);
      InsertContents(o, obs[1..]);
      forall j | 0 <= j < |rest| ensures Before(obs[0], rest[j]) {
        assert rest[j] in multiset(rest);
        assert rest[j] == o || rest[j] in obs[1..];
      }
    }
  }

  lemma BeforeTransitive(a: Observation, b: Observation, c: Observation)
    requires Before(a, b) && Before(b, c)
    ensures Before(a, c)
  {
    if a.start == b.start == c.start {
      FileOrder.LessTransitive(a.id, b.id, c.id);
    }
  }

  lemma {:induction false} SortMeets(obs: seq<Observation>)
    requires DistinctIds(obs)
    ensures multiset(SortObservations(obs)) == multiset(obs) && StrictlySorted(SortObservations(obs))
  {
    hide Insert, Before;
    if obs != [] {
      var n := |obs| - 1;
      var front := SortObservations(obs[..n]);
      SortMeets(obs[..n]);
      InsertContents(obs[n], front);
      assert obs == obs[..n] + [obs[n]];
      forall i | 0 <= i < |front| ensures front[i].id != obs[n].id {
        assert front[i] in multiset(obs[..n]);
      }
      InsertSorted(obs[n], front);
    }
  }

  // ---------------------------------------------------------------- what Fresh keeps

  lemma OccursSnoc(hash: string -> Bytes, spans: seq<RawSpan>, span: RawSpan, id: Bytes)
    ensures Occurs(hash, spans + [span], id)
       <==> Occurs(hash, spans, id) || (Normalize(hash, span).Some? && Normalize(hash, span).value.id == id)
  {
    var more := spans + [span];
    if i :| 0 <= i < |more| && Normalize(hash, more[i]).Some? && Normalize(hash, more[i]).value.id == id {
      assert i < |spans| ==> more[i] == spans[i];
    }
    if i :| 0 <= i < |spans| && Normalize(hash, spans[i]).Some? && Normalize(hash, spans[i]).value.id == id {
      assert more[i] == spans[i];
    }
    assert more[|spans|] == span;
  }

  /** Every identity of a valid span is kept exactly once, and it is the first span bearing it that is kept. */
  lemma {:induction false} FreshExactly(hash: string -> Bytes, spans: seq<RawSpan>)
    ensures DistinctIds(Fresh(hash, spans))
    ensures forall id :: Occurs(hash, spans, id) <==> HasId(Fresh(hash, spans), id)
    ensures forall o :: o in Fresh(hash, spans) ==> exists i :: 0 <= i < |spans| && FirstAt(hash, spans, i, o)
  {
    if spans != [] {
      hide Normalize, Occurs, HasId;
      var n := |spans| - 1;
      var front, last := spans[..n], spans[n];
      FreshExactly(hash, front);
      assert spans == front + [last];
      var f, all := Fresh(hash, front), Fresh(hash, spans);
      if f != all {
        IdsApart(f, all[|f|]);
      }
      forall id ensures Occurs(hash, spans, id) <==> HasId(all, id) {
        OccursSnoc(hash, front, last, id);
        if f != all {
          HasIdSnoc(f, all[|f|], id);
        }
      }
      forall o | o in all ensures exists i :: 0 <= i < |spans| && FirstAt(hash, spans, i, o) {
        if o in f {
          var i :| 0 <= i < n && FirstAt(hash, front, i, o);
          assert front[..i] == spans[..i];
          assert FirstAt(hash, spans, i, o);
        } else {
          assert FirstAt(hash, spans, n, o);
        }
      }
    }
  }

  ghost predicate HasId(obs: seq<Observation>, id: Bytes) { exists k :: 0 <= k < |obs| && obs[k].id == id }

  lemma HasIdSnoc(obs: seq<Observation>, o: Observation, id: Bytes)
    ensures HasId(obs + [o], id) <==> HasId(obs, id) || o.id == id
  {
    var more := obs + [o];
    assert forall k :: 0 <= k < |obs| ==> more[k] == obs[k];
    assert more[|obs|] == o;
  }

  lemma IdsApart(obs: seq<Observation>, o: Observation)
    requires DistinctIds(obs) && !HasId(obs, o.id)
    ensures DistinctIds(obs + [o])
  {
  }

  lemma {:induction false} FreshCounts(hash: string -> Bytes, spans: seq<RawSpan>)
    ensures spans != [] && Fresh(hash, spans) == [] ==> Malformed(hash, spans) == |spans|
    ensures |Fresh(hash, spans)| + Malformed(hash, spans) <= |spans|
  {
    hide Normalize;
    if |spans| > 0 {
      FreshCounts(hash, spans[..|spans| - 1]);
      if Fresh(hash, spans) == [] && Normalize(hash, spans[|spans| - 1]).Some? {
        FreshExactly(hash, spans[..|spans| - 1]);
      }
    }
  }

  ghost predicate FirstAt(hash: string -> Bytes, spans: seq<RawSpan>, i: nat, o: Observation)
    requires i < |spans|
  {
    Normalize(hash, spans[i]) == Some(o) && !Occurs(hash, spans[..i], o.id)
  }

  // ---------------------------------------------------------------- the loop

  method ImportSpans(hash: string -> Bytes, spans: seq<RawSpan>, maxSpans: nat, partialSuccess: bool)
    returns (r: Result<Report, string>)
    ensures |spans| > maxSpans ==> r == Err("backpressure_limit_exceeded")
    ensures |spans| <= maxSpans ==> (r.Err? <==> spans != [] && Malformed(hash, spans) == |spans|)
    ensures |spans| <= maxSpans && r.Err? ==> r == Err("all_spans_rejected")
    ensures r.Ok? ==> Reports(hash, spans, partialSuccess, r.value)
  {
    hide Normalize, Warned, SortObservations, Fresh, Malformed, Occurs, InOrder, Tally, StrictlySorted, Labels, Reports;
    if |spans| > maxSpans {
      return Err("backpressure_limit_exceeded");
    }
    var accepted: seq<Observation>, seen: set<Bytes>, warnings: set<string> := [], {}, {};
    var duplicates, rejected, outOfOrder := 0, 0, false;
    var previousStart: int := -1;
    TallyStart(hash, spans);
    for k := 0 to |spans|
      invariant Tally(hash, spans[..k], accepted, seen, duplicates, rejected)
      invariant warnings == Warned(accepted)
      invariant previousStart == if accepted == [] then -1 else accepted[|accepted| - 1].start
      invariant outOfOrder <==> !InOrder(accepted)
    {
      TallyStep(hash, spans, k, accepted, seen, duplicates, rejected);
      var normalized := Normalize(hash, spans[k]);
      if normalized.None? {
        rejected := rejected + 1;
        continue;
      }
      var observation := normalized.value;
      if observation.id in seen {
        duplicates := duplicates + 1;
        continue;
      }
      seen := seen + {observation.id};
      OrderSnoc(accepted, observation);
      WarnedSnoc(accepted, observation);
      if observation.start < previousStart {
        outOfOrder := true;
      }
      previousStart := observation.start;
      accepted := accepted + [observation];
      warnings := warnings + observation.details.warnings;
    }
    assert spans[..|spans|] == spans;
    TallyEnd(hash, spans, accepted, seen, duplicates, rejected, partialSuccess);
    if spans != [] && accepted == [] && rejected > 0 {
      return Err("all_spans_rejected");
    }
    ghost var mapped := warnings;
    var partial := rejected > 0 || partialSuccess;
    if rejected > 0 { warnings := warnings + {"malformed_spans_rejected"}; }
    if duplicates > 0 { warnings := warnings + {"duplicate_spans_dropped"}; }
    if outOfOrder { warnings := warnings + {"input_out_of_order"}; }
    if partialSuccess { warnings := warnings + {"upstream_partial_success"}; }
    LabelsAdd(mapped, rejected, duplicates, outOfOrder, partialSuccess);
    r := Ok(Report(SortObservations(accepted), duplicates, rejected, outOfOrder, partial, warnings));
  }

  lemma TallyStart(hash: string -> Bytes, spans: seq<RawSpan>)
    ensures Tally(hash, spans[..0], [], {}, 0, 0) && Warned([]) == {} && InOrder([])
  {
  }

  lemma TallyEnd(hash: string -> Bytes, spans: seq<RawSpan>, accepted: seq<Observation>, seen: set<Bytes>,
      duplicates: nat, rejected: nat, partialSuccess: bool)
    requires Tally(hash, spans, accepted, seen, duplicates, rejected)
    ensures (spans != [] && accepted == [] && rejected > 0) <==> (spans != [] && Malformed(hash, spans) == |spans|)
    ensures var outOfOrder := !InOrder(accepted);
            Reports(hash, spans, partialSuccess, Report(SortObservations(accepted), duplicates, rejected, outOfOrder,
              rejected > 0 || partialSuccess,
                Warned(accepted) + Labels(rejected, duplicates, outOfOrder, partialSuccess)))
  {
    hide SortObservations, Warned, Labels, StrictlySorted, Occurs, InOrder;
    FreshExactly(hash, spans);
    FreshCounts(hash, spans);
    SortMeets(accepted);
    assert |SortObservations(accepted)| == |multiset(SortObservations(accepted))| == |multiset(accepted)| == |accepted|;
  }

  lemma LabelsAdd(mapped: set<string>, rejected: nat, duplicates: nat, outOfOrder: bool, partialSuccess: bool)
    ensures var one := if rejected > 0 then mapped + {"malformed_spans_rejected"} else mapped;
            var two := if duplicates > 0 then one + {"duplicate_spans_dropped"} else one;
            var three := if outOfOrder then two + {"input_out_of_order"} else two;
            var four := if partialSuccess then three + {"upstream_partial_success"} else three;
            four == mapped + Labels(rejected, duplicates, outOfOrder, partialSuccess)
  {
  }

  /** What a report says about the spans it was made from. */
  ghost predicate Reports(hash: string -> Bytes, spans: seq<RawSpan>, partialSuccess: bool, r: Report) {
    var kept := Fresh(hash, spans);
    && |r.observations| + r.duplicates + r.rejected == |spans|
    && r.rejected == Malformed(hash, spans)
    && multiset(r.observations) == multiset(kept) && StrictlySorted(r.observations)
    && (r.outOfOrder <==> !InOrder(kept))
    && (r.partial <==> r.rejected > 0 || partialSuccess)
    && r.warnings == Warned(kept) + Labels(r.rejected, r.duplicates, r.outOfOrder, partialSuccess)
  }

  function Labels(rejected: nat, duplicates: nat, outOfOrder: bool, partialSuccess: bool): set<string> {
    (if rejected > 0 then {"malformed_spans_rejected"} else {})
      + (if duplicates > 0 then {"duplicate_spans_dropped"} else {})
    + (if outOfOrder then {"input_out_of_order"} else {})
      + (if partialSuccess then {"upstream_partial_success"} else {})
  }

  /** The counters and sets of the loop, after the spans `done`. */
  ghost predicate Tally(hash: string -> Bytes, done: seq<RawSpan>, accepted: seq<Observation>, seen: set<Bytes>,
      duplicates: nat, rejected: nat) {
    && accepted == Fresh(hash, done) && rejected == Malformed(hash, done)
    && |accepted| + duplicates + rejected == |done|
    && forall id :: id in seen <==> Occurs(hash, done, id)
  }

  lemma TallyStep(hash: string -> Bytes, spans: seq<RawSpan>, k: nat, accepted: seq<Observation>, seen: set<Bytes>,
      duplicates: nat, rejected: nat)
    requires k < |spans| && Tally(hash, spans[..k], accepted, seen, duplicates, rejected)
    ensures var o, done := Normalize(hash, spans[k]), spans[..k + 1];
            if o.None? then Tally(hash, done, accepted, seen, duplicates, rejected + 1)
            else if o.value.id in seen then Tally(hash, done, accepted, seen, duplicates + 1, rejected)
            else Tally(hash, done, accepted + [o.value], seen + {o.value.id}, duplicates, rejected)
  {
    hide Normalize, Occurs;
    assert spans[..k + 1] == spans[..k] + [spans[k]];
    assert spans[..k + 1][..k] == spans[..k];
    forall id ensures Occurs(hash, spans[..k + 1], id)
                 <==> Occurs(hash, spans[..k], id)
                      || (Normalize(hash, spans[k]).Some? && Normalize(hash, spans[k]).value.id == id) {
      OccursSnoc(hash, spans[..k], spans[k], id);
    }
  }

  lemma OrderSnoc(obs: seq<Observation>, o: Observation)
    ensures InOrder(obs + [o]) <==> InOrder(obs) && (obs == [] || obs[|obs| - 1].start <= o.start)
  {
    var more := obs + [o];
    if InOrder(more) {
      assert forall i :: 0 <= i < |obs| ==> more[i] == obs[i];
      assert obs != [] ==> more[|obs| - 1].start <= more[|obs|].start;
    }
  }

  lemma WarnedSnoc(obs: seq<Observation>, o: Observation)
    ensures Warned(obs + [o]) == Warned(obs) + o.details.warnings && Warned([]) == {}
  {
    assert (obs + [o])[..|obs|] == obs;
  }

  // ---------------------------------------------------------------- twice over

  lemma {:induction false} RepeatsAddNothing(hash: string -> Bytes, a: seq<RawSpan>, b: seq<RawSpan>)
    requires forall i :: 0 <= i < |b| && Normalize(hash, b[i]).Some? ==> Occurs(hash, a, Normalize(hash, b[i]).value.id)
    ensures Fresh(hash, a + b) == Fresh(hash, a)
  {
    hide Normalize, Occurs;
    if b == [] {
      assert a + b == a;
    } else {
      var n := |b| - 1;
      RepeatsAddNothing(hash, a, b[..n]);
      assert (a + b)[..|a| + n] == a + b[..n];
      var o := Normalize(hash, b[n]);
      if o.Some? {
        OccursLonger(hash, a, b[..n], o.value.id);
      }
    }
  }

  lemma {:induction false} MalformedConcat(hash: string -> Bytes, a: seq<RawSpan>, b: seq<RawSpan>)
    ensures Malformed(hash, a + b) == Malformed(hash, a) + Malformed(hash, b)
  {
    hide Normalize;
    if b == [] {
      assert a + b == a;
    } else {
      assert (a + b)[..|a + b| - 1] == a + b[..|b| - 1];
      MalformedConcat(hash, a, b[..|b| - 1]);
    }
  }

  lemma OccursLonger(hash: string -> Bytes, a: seq<RawSpan>, b: seq<RawSpan>, id: Bytes)
    requires Occurs(hash, a, id)
    ensures Occurs(hash, a + b, id)
  {
    var i :| 0 <= i < |a| && Normalize(hash, a[i]).Some? && Normalize(hash, a[i]).value.id == id;
    assert (a + b)[i] == a[i];
  }

  /** A strictly sorted arrangement of given observations is unique. */
  lemma {:induction false} SortedUnique(a: seq<Observation>, b: seq<Observation>)
    requires StrictlySorted(a) && StrictlySorted(b) && multiset(a) == multiset(b)
    ensures a == b
  {
    assert |a| == |multiset(a)| == |multiset(b)| == |b|;
    if a != [] {
      FirstSame(a, b);
      assert a == [a[0]] + a[1..] && b == [b[0]] + b[1..];
      assert multiset(a[1..]) == multiset(a) - multiset{a[0]} == multiset(b) - multiset{b[0]} == multiset(b[1..]);
      SortedUnique(a[1..], b[1..]);
    }
  }

  lemma FirstSame(a: seq<Observation>, b: seq<Observation>)
    requires a != [] && b != [] && StrictlySorted(a) && StrictlySorted(b) && multiset(a) == multiset(b)
    ensures a[0] == b[0]
  {
    assert a[0] in multiset(b) && b[0] in multiset(a);
    var i :| 0 <= i < |b| && b[i] == a[0];
    var j :| 0 <= j < |a| && a[j] == b[0];
    if i > 0 && j > 0 {
      BeforeTransitive(a[0], a[j], b[i]);
      FileOrder.LessTotal(a[0].id, a[0].id);
    }
  }

  /** Importing the span list twice over gives the same observations and the same flag; only the counters grow. */
  lemma ImportTwice(hash: string -> Bytes, spans: seq<RawSpan>, partialSuccess: bool, once: Report, twice: Report)
    requires Reports(hash, spans, partialSuccess, once) && Reports(hash, spans + spans, partialSuccess, twice)
    ensures twice.observations == once.observations && twice.outOfOrder == once.outOfOrder
    ensures twice.rejected == 2 * once.rejected && twice.duplicates == 2 * once.duplicates + |once.observations|
    ensures twice.partial == once.partial
  {
    hide StrictlySorted, Fresh, Malformed, Warned;
    RepeatsAddNothing(hash, spans, spans);
    MalformedConcat(hash, spans, spans);
    SortedUnique(once.observations, twice.observations);
  }

  // ---------------------------------------------------------------- identities

  ghost predicate Injective(hash: string -> Bytes) { forall a, b :: hash(a) == hash(b) ==> a == b }

  function Identity(hash: string -> Bytes, traceId: string, spanId: string, start: nat): Bytes {
    hash(Payload(traceId, spanId, start))
  }

  /** What follows the last NUL starts no later than what follows any other. */
  lemma NulNotAfter(a: string, s: string, b: string, t: string)
    requires a + [Nul] + s == b + [Nul] + t && Nul !in s
    ensures |b| <= |a|
  {
    var whole := a + [Nul] + s;
    assert (b + [Nul] + t)[|b|] == Nul;
    assert forall i :: |a| < i < |whole| ==> whole[i] == s[i - |a| - 1];
  }

  lemma LastNul(a: string, m: nat, b: string, n: nat)
    requires a + [Nul] + Decimal.Text(m) == b + [Nul] + Decimal.Text(n)
    ensures a == b && m == n
  {
    Decimal.TextNonempty(m);
    Decimal.TextNonempty(n);
    var s, t := Decimal.Text(m), Decimal.Text(n);
    NulNotAfter(a, s, b, t);
    NulNotAfter(b, t, a, s);
    var whole := a + [Nul] + s;
    assert whole == b + [Nul] + t;
    assert a == whole[..|a|] && b == whole[..|b|];
    assert s == whole[|a| + 1..] && t == whole[|b| + 1..];
    Decimal.TextInjective(m, n);
  }

  /** Two spans share an identity exactly if they start together and their joined ids coincide. */
  lemma IdentityExactly(hash: string -> Bytes, t1: string, s1: string, n1: nat, t2: string, s2: string, n2: nat)
    requires Injective(hash)
    ensures Identity(hash, t1, s1, n1) == Identity(hash, t2, s2, n2) <==> n1 == n2 && t1 + [Nul] + s1 == t2 + [Nul] + s2
  {
    var p1, p2 := Payload(t1, s1, n1), Payload(t2, s2, n2);
    var j1, j2 := t1 + [Nul] + s1, t2 + [Nul] + s2;
    assert p1 == ("otlp-span" + [Nul]) + (j1 + [Nul] + Decimal.Text(n1));
    assert p2 == ("otlp-span" + [Nul]) + (j2 + [Nul] + Decimal.Text(n2));
    if p1 == p2 {
      assert p1[10..] == j1 + [Nul] + Decimal.Text(n1) && p2[10..] == j2 + [Nul] + Decimal.Text(n2);
      LastNul(j1, n1, j2, n2);
    }
  }

  /** Another span, with ids the importer accepts, has the same identity. */
  ghost predicate Confusable(hash: string -> Bytes, traceId: string, spanId: string, start: nat) {
    exists t: string, s: string, n: nat ::
      t != "" && s != "" && (t, s, n) != (traceId, spanId, start)
        && Identity(hash, t, s, n) == Identity(hash, traceId, spanId, start)
  }

  /** A span can be mistaken for another exactly if a NUL stands inside its ids where they could be cut instead. */
  lemma ConfusableExactly(hash: string -> Bytes, traceId: string, spanId: string, start: nat)
    requires Injective(hash) && traceId != "" && spanId != ""
    ensures Confusable(hash, traceId, spanId, start) <==> Nul in traceId[1..] || Nul in spanId[..|spanId| - 1]
  {
    hide Identity, Injective;
    var joined := traceId + [Nul] + spanId;
    if Confusable(hash, traceId, spanId, start) {
      var t: string, s: string, n: nat :| t != "" && s != "" && (t, s, n) != (traceId, spanId, start)
        && Identity(hash, t, s, n) == Identity(hash, traceId, spanId, start);
      IdentityExactly(hash, t, s, n, traceId, spanId, start);
      assert joined[|t|] == (t + [Nul] + s)[|t|] == Nul;
      assert t == joined[..|t|] && s == joined[|t| + 1..];
      assert traceId == joined[..|traceId|] && spanId == joined[|traceId| + 1..];
      if |t| < |traceId| {
        assert traceId[1..][|t| - 1] == Nul;
      } else if |t| > |traceId| {
        assert spanId[..|spanId| - 1][|t| - |traceId| - 1] == Nul;
      }
    }
    if Nul in traceId[1..] || Nul in spanId[..|spanId| - 1] {
      var k := CutPoint(traceId, spanId);
      var t, s := joined[..k], joined[k + 1..];
      assert joined == t + [Nul] + s;
      IdentityExactly(hash, t, s, start, traceId, spanId, start);
      assert |t| == k && |s| == |joined| - k - 1;
      assert t != "" && s != "" && t != traceId;
      assert (t, s, start) != (traceId, spanId, start);
      assert Identity(hash, t, s, start) == Identity(hash, traceId, spanId, start);
    }
  }

  lemma CutPoint(traceId: string, spanId: string) returns (k: nat)
    requires traceId != "" && spanId != "" && (Nul in traceId[1..] || Nul in spanId[..|spanId| - 1])
    ensures var joined := traceId + [Nul] + spanId;
            0 < k < |joined| - 1 && k != |traceId| && joined[k] == Nul
  {
    if Nul in traceId[1..] {
      var i :| 0 <= i < |traceId[1..]| && traceId[1..][i] == Nul;
      k := i + 1;
    } else {
      var i :| 0 <= i < |spanId| - 1 && spanId[..|spanId| - 1][i] == Nul;
      k := |traceId| + 1 + i;
    }
  }

  /** Two different spans, neither malformed, of which the second is dropped as a duplicate of the first. */
  lemma DistinctSpansDropped(hash: string -> Bytes)
    ensures var first := RawSpan(Str("a" + [Nul] + "b"), Str("c"), Num(0), Num(0), Some(Details("first", {})));
            var second := RawSpan(Str("a"), Str("b" + [Nul] + "c"), Num(0), Num(0), Some(Details("second", {})));
            && Normalize(hash, second).Some?
            && Fresh(hash, [first, second]) == [Normalize(hash, first).value]
            && Malformed(hash, [first, second]) == 0
  {
    var first := RawSpan(Str("a" + [Nul] + "b"), Str("c"), Num(0), Num(0), Some(Details("first", {})));
    var second := RawSpan(Str("a"), Str("b" + [Nul] + "c"), Num(0), Num(0), Some(Details("second", {})));
    assert Payload("a" + [Nul] + "b", "c", 0) == Payload("a", "b" + [Nul] + "c", 0);
    assert [first, second][..1] == [first] && [first][..0] == [];
    var o := Normalize(hash, first).value;
    assert Normalize(hash, first) == Some(o) && Normalize(hash, second).value.id == o.id;
    assert !Occurs(hash, [], o.id);
    assert Fresh(hash, []) == [] && Malformed(hash, []) == 0;
    assert Fresh(hash, [first]) == [o] && Malformed(hash, [first]) == 0;
    assert Normalize(hash, [first][0]).Some?;
    assert Occurs(hash, [first], o.id);
  }
}
