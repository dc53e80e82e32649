/**
 * RECURRENCE-ID overrides: what reconciling them at the end of a feed does to the
 * output list, and why dropping the irrelevant ones early changes nothing.
 */
module Overrides {
  import opened Zones
  import opened CalendarEvents

  /** The base occurrence an override replaces: same uid, original start. */
  predicate Replaces(ov: Event, e: Event) {
    !e.isOverride && e.uid == ov.uid && e.start == ov.recurrenceId
  }

  /** The list without the first base occurrence the override replaces. */
  function RemoveFirst(out: seq<Event>, ov: Event): (r: seq<Event>)
    ensures |r| <= |out|
    ensures |r| == |out| ==> r == out
  {
    if out == [] then []
    else if Replaces(ov, out[0]) then out[1..]
    else [out[0]] + RemoveFirst(out[1..], ov)
  }

  lemma {:induction false} RemoveFirstAt(out: seq<Event>, ov: Event, i: nat)
    requires i <= |out| && forall k :: 0 <= k < i ==> !Replaces(ov, out[k])
    requires i < |out| ==> Replaces(ov, out[i])
    ensures RemoveFirst(out, ov) == if i < |out| then out[..i] + out[i + 1..] else out
  {
    hide Replaces;
    if 0 < i {
      RemoveFirstAt(out[1..], ov, i - 1);
      assert i < |out| ==> out[..i] + out[i + 1..] == [out[0]] + (out[1..][..i - 1] + out[1..][i..]);
    }
  }

  predicate Live(w: Window, ov: Event) {
    !ov.status.Cancelled? && Overlaps(w, ov.start, ov.end)
  }

  /** One override: its base occurrence goes, and it comes last itself if live and in room. */
  function ApplyOverride(w: Window, sink: Sink, ov: Event): Sink {
    var out := RemoveFirst(sink.out, ov);
    if !Live(w, ov) then Sink(out, sink.truncated)
    else if |out| < w.maxEvents then Sink(out + [ov], sink.truncated)
    else Sink(out, true)
  }

  function ApplyOverrides(w: Window, sink: Sink, ovs: seq<Event>): Sink
    decreases |ovs|
  {
    if ovs == [] then sink
    else ApplyOverrides(w, ApplyOverride(w, sink, ovs[0]), ovs[1..])
  }

  // ----- What reconciliation leaves -----

  predicate Subsequence<T(==)>(a: seq<T>, b: seq<T>) {
    a == [] || (b != [] && ((a[0] == b[0] && Subsequence(a[1..], b[1..])) || Subsequence(a, b[1..])))
  }

  function RemoveAll(out: seq<Event>, ovs: seq<Event>): seq<Event>
    decreases |ovs|
  {
    if ovs == [] then out else RemoveAll(RemoveFirst(out, ovs[0]), ovs[1..])
  }

  function LiveOnes(w: Window, ovs: seq<Event>): seq<Event> {
    if ovs == [] then []
    else (if Live(w, ovs[0]) then [ovs[0]] else []) + LiveOnes(w, ovs[1..])
  }

  predicate AreOverrides(ovs: seq<Event>) {
    forall i :: 0 <= i < |ovs| ==> ovs[i].isOverride
  }

  lemma {:induction false} RemoveFirstAppended(out: seq<Event>, kept: seq<Event>, ov: Event)
    requires AreOverrides(kept)
    ensures RemoveFirst(out + kept, ov) == RemoveFirst(out, ov) + kept
    decreases |out| + |kept|
  {
    if out != [] {
      assert (out + kept)[0] == out[0] && (out + kept)[1..] == out[1..] + kept;
      if !Replaces(ov, out[0]) {
        RemoveFirstAppended(out[1..], kept, ov);
      }
    } else if kept != [] {
      assert out + kept == kept;
      RemoveFirstAppended([], kept[1..], ov);
      assert [] + kept[1..] == kept[1..];
    }
  }

  lemma OneApplied(w: Window, out: seq<Event>, kept: seq<Event>, truncated: bool, ov: Event)
    requires AreOverrides(kept)
    ensures var out' := RemoveFirst(out, ov);
            ApplyOverride(w, Sink(out + kept, truncated), ov) ==
            if Live(w, ov) && |out' + kept| < w.maxEvents then Sink(out' + (kept + [ov]), truncated)
            else Sink(out' + kept, truncated || Live(w, ov))
  {
    hide Live, RemoveFirst;
    RemoveFirstAppended(out, kept, ov);
    assert RemoveFirst(out, ov) + kept + [ov] == RemoveFirst(out, ov) + (kept + [ov]);
  }

  lemma SubsequenceHead<T>(x: T, a: seq<T>, b: seq<T>)
    requires Subsequence(a, b)
    ensures Subsequence([x] + a, [x] + b) && Subsequence(a, [x] + b)
  {
    assert ([x] + a)[1..] == a && ([x] + b)[1..] == b;
  }

  /**
   * Reconciliation removes base occurrences, appends live overrides in order, and reports
   * truncation exactly when capacity dropped one of them.
   */
  lemma {:induction false} Reconciled(w: Window, out: seq<Event>, kept: seq<Event>, truncated: bool, ovs: seq<Event>)
    returns (added: seq<Event>)
    requires AreOverrides(kept) && AreOverrides(ovs)
    ensures ApplyOverrides(w, Sink(out + kept, truncated), ovs).out == RemoveAll(out, ovs) + kept + added
    ensures Subsequence(added, LiveOnes(w, ovs))
    ensures |added| <= |LiveOnes(w, ovs)|
    ensures ApplyOverrides(w, Sink(out + kept, truncated), ovs).truncated
            <==> truncated || |added| < |LiveOnes(w, ovs)|
    decreases |ovs|
  {
    if ovs == [] {
      added := [];
      SubsequenceRefl(added);
      assert RemoveAll(out, ovs) + kept + added == out + kept;
    } else {
      hide Live, RemoveFirst, ApplyOverride, Subsequence;
      var ov, rest := ovs[0], ovs[1..];
      OneApplied(w, out, kept, truncated, ov);
      var out' := RemoveFirst(out, ov);
      if Live(w, ov) && |out' + kept| < w.maxEvents {
        var added' := Reconciled(w, out', kept + [ov], truncated, rest);
        added := [ov] + added';
        assert RemoveAll(out', rest) + (kept + [ov]) + added' == RemoveAll(out', rest) + kept + added;
        SubsequenceHead(ov, added', LiveOnes(w, rest));
      } else {
        added := Reconciled(w, out', kept, truncated || Live(w, ov), rest);
        SubsequenceHead(ov, added, LiveOnes(w, rest));
        assert [] + LiveOnes(w, rest) == LiveOnes(w, rest);
      }
    }
  }

  function CountBase(out: seq<Event>, uid: string, start: int): nat {
    if out == [] then 0
    else (if !out[0].isOverride && out[0].uid == uid && out[0].start == start then 1 else 0)
         + CountBase(out[1..], uid, start)
  }

  function CountOverrides(ovs: seq<Event>, uid: string, start: int): nat {
    if ovs == [] then 0
    else (if ovs[0].uid == uid && ovs[0].recurrenceId == start then 1 else 0)
         + CountOverrides(ovs[1..], uid, start)
  }

  function Less(a: nat, b: nat): nat {
    if a < b then 0 else a - b
  }

  lemma {:induction false} RemoveFirstCount(out: seq<Event>, ov: Event, uid: string, start: int)
    ensures CountBase(RemoveFirst(out, ov), uid, start)
         == Less(CountBase(out, uid, start), if ov.uid == uid && ov.recurrenceId == start then 1 else 0)
    ensures Subsequence(RemoveFirst(out, ov), out)
  {
    if out != [] {
      if Replaces(ov, out[0]) {
        SubsequenceRefl(out[1..]);
        SubsequenceDrop(out[1..], out);
      } else {
        RemoveFirstCount(out[1..], ov, uid, start);
        var r := RemoveFirst(out, ov);
        assert r[1..] == RemoveFirst(out[1..], ov);
      }
    }
  }

  lemma {:induction false} SubsequenceRefl<T>(a: seq<T>)
    ensures Subsequence(a, a)
  {
    if a != [] {
      SubsequenceRefl(a[1..]);
    }
  }

  lemma SubsequenceDrop<T>(a: seq<T>, b: seq<T>)
    requires b != [] && Subsequence(a, b[1..])
    ensures Subsequence(a, b)
  {
  }

  lemma {:induction false} SubsequenceTrans<T>(a: seq<T>, b: seq<T>, c: seq<T>)
    requires Subsequence(a, b) && Subsequence(b, c)
    ensures Subsequence(a, c)
    decreases |b| + |c|
  {
    if a != [] {
      if b[0] == c[0] && Subsequence(b[1..], c[1..]) {
        if a[0] == b[0] && Subsequence(a[1..], b[1..]) {
          SubsequenceTrans(a[1..], b[1..], c[1..]);
        } else {
          SubsequenceTrans(a, b[1..], c[1..]);
        }
      } else {
        SubsequenceTrans(a, b, c[1..]);
      }
    }
  }

  /** One base occurrence goes per matching override; all the others stay, in order. */
  lemma {:induction false} RemoveAllCounts(out: seq<Event>, ovs: seq<Event>, uid: string, start: int)
    ensures CountBase(RemoveAll(out, ovs), uid, start)
         == Less(CountBase(out, uid, start), CountOverrides(ovs, uid, start))
    ensures Subsequence(RemoveAll(out, ovs), out)
    decreases |ovs|
  {
    if ovs == [] {
      SubsequenceRefl(out);
    } else {
      var out' := RemoveFirst(out, ovs[0]);
      RemoveFirstCount(out, ovs[0], uid, start);
      RemoveAllCounts(out', ovs[1..], uid, start);
      SubsequenceTrans(RemoveAll(out, ovs), out', out);
    }
  }

  // ----- Dropping overrides early -----

  /** The parser's test at the end of an override: it shows up itself, or its base may. */
  predicate Relevant(w: Window, ov: Event) {
    var selfRelevant := ov.end > w.start && ov.start < w.end;
    var baseRelevant := ov.recurrenceId > w.start - DAY && ov.recurrenceId < w.end + DAY;
    selfRelevant || baseRelevant
  }

  function KeepRelevant(w: Window, ovs: seq<Event>): seq<Event> {
    if ovs == [] then []
    else (if Relevant(w, ovs[0]) then [ovs[0]] else []) + KeepRelevant(w, ovs[1..])
  }

  /** Every base occurrence starts less than a day outside the window. */
  predicate BasesNear(w: Window, out: seq<Event>) {
    forall i :: 0 <= i < |out| && !out[i].isOverride ==> w.start - DAY < out[i].start < w.end + DAY
  }

  lemma {:induction false} IrrelevantMatchesNothing(w: Window, out: seq<Event>, ov: Event)
    requires BasesNear(w, out) && !Relevant(w, ov)
    ensures RemoveFirst(out, ov) == out
  {
    if out != [] {
      assert BasesNear(w, out[1..]);
      IrrelevantMatchesNothing(w, out[1..], ov);
    }
  }

  lemma {:induction false} RemoveFirstKeepsNear(w: Window, out: seq<Event>, ov: Event)
    requires BasesNear(w, out)
    ensures BasesNear(w, RemoveFirst(out, ov))
  {
    if out != [] {
      assert BasesNear(w, out[1..]);
      RemoveFirstKeepsNear(w, out[1..], ov);
    }
  }

  lemma ApplyKeepsNear(w: Window, sink: Sink, ov: Event)
    requires BasesNear(w, sink.out) && ov.isOverride
    ensures BasesNear(w, ApplyOverride(w, sink, ov).out)
  {
    RemoveFirstKeepsNear(w, sink.out, ov);
    hide RemoveFirst, Live;
  }

  lemma {:induction false} PruningHarmless(w: Window, sink: Sink, ovs: seq<Event>)
    requires BasesNear(w, sink.out) && AreOverrides(ovs)
    ensures ApplyOverrides(w, sink, KeepRelevant(w, ovs)) == ApplyOverrides(w, sink, ovs)
    decreases |ovs|
  {
    if ovs != [] {
      var ov, rest := ovs[0], ovs[1..];
      var next := ApplyOverride(w, sink, ov);
      ApplyKeepsNear(w, sink, ov);
      PruningHarmless(w, next, rest);
      if Relevant(w, ov) {
        assert KeepRelevant(w, ovs)[1..] == KeepRelevant(w, rest);
      } else {
        IrrelevantMatchesNothing(w, sink.out, ov);
        assert next == sink;
        assert KeepRelevant(w, ovs) == KeepRelevant(w, rest);
      }
    }
  }

  /** Dropping irrelevant overrides never shows, whatever overrides the feed holds. */
  ghost predicate PruningInvisible(w: Window, sink: Sink) {
    forall ovs: seq<Event> :: AreOverrides(ovs) ==>
      ApplyOverrides(w, sink, KeepRelevant(w, ovs)) == ApplyOverrides(w, sink, ovs)
  }

  lemma {:induction false} RemoveFirstRemoves(out: seq<Event>, ov: Event, i: nat)
    requires i < |out| && Replaces(ov, out[i])
    ensures |RemoveFirst(out, ov)| == |out| - 1
  {
    if !Replaces(ov, out[0]) {
      RemoveFirstRemoves(out[1..], ov, i - 1);
    }
  }

  // A cancelled instance of a base occurrence that starts too far outside is dropped wrongly.
  lemma FarBaseSurvives(w: Window, sink: Sink, i: nat)
    requires i < |sink.out| && !sink.out[i].isOverride
    requires !(w.start - DAY < sink.out[i].start < w.end + DAY)
    ensures !PruningInvisible(w, sink)
  {
    var b := sink.out[i];
    var ov := Event(b.uid, "", w.end, w.end, false, Cancelled, 0, true, b.start);
    RemoveFirstRemoves(sink.out, ov, i);
    assert !Relevant(w, ov);
    assert KeepRelevant(w, [ov]) == [];
    assert AreOverrides([ov]);
    assert ApplyOverrides(w, sink, KeepRelevant(w, [ov])) == sink;
    assert ApplyOverrides(w, sink, [ov]) == ApplyOverride(w, sink, ov) by {
      assert [ov][1..] == [];
    }
    assert ApplyOverrides(w, sink, KeepRelevant(w, [ov])) != ApplyOverrides(w, sink, [ov]);
  }

  /** The early test is exact if and only if no base occurrence starts a day or more outside the window. */
  lemma PruningExact(w: Window, sink: Sink)
    ensures PruningInvisible(w, sink) <==> BasesNear(w, sink.out)
  {
    if BasesNear(w, sink.out) {
      forall ovs: seq<Event> | AreOverrides(ovs)
        ensures ApplyOverrides(w, sink, KeepRelevant(w, ovs)) == ApplyOverrides(w, sink, ovs)
      {
        PruningHarmless(w, sink, ovs);
      }
    } else {
      var i :| 0 <= i < |sink.out| && !sink.out[i].isOverride && !(w.start - DAY < sink.out[i].start < w.end + DAY);
      FarBaseSurvives(w, sink, i);
    }
  }
}
