/** Which earlier generates are remembered: over every history, the last few distinct
    ones that landed, in the order they last landed. */
module HistoryLaws {
  import opened Options
  import opened Markers
  import opened ThreeWay
  import opened FileHandler
  import opened Protocol

  // --- One generate more ---------------------------------------------------------------

  /** f stands somewhere in front of g. */
  ghost predicate Before(fps: seq<Fingerprint>, f: Fingerprint, g: Fingerprint) {
    exists i, j :: 0 <= i < j < |fps| && fps[i] == f && fps[j] == g
  }

  lemma BeforeSnoc(fps: seq<Fingerprint>, last: Fingerprint, f: Fingerprint, g: Fingerprint)
    ensures Before(fps + [last], f, g) <==> Before(fps, f, g) || (f in fps && g == last)
  {
    var all := fps + [last];
    if Before(fps, f, g) {
      var i, j :| 0 <= i < j < |fps| && fps[i] == f && fps[j] == g;
      assert all[i] == f && all[j] == g;
    }
    if f in fps && g == last {
      var i :| 0 <= i < |fps| && fps[i] == f;
      assert all[i] == f && all[|fps|] == g;
    }
    if Before(all, f, g) {
      var i, j :| 0 <= i < j < |all| && all[i] == f && all[j] == g;
      assert fps[i] == f;
      assert j < |fps| ==> fps[j] == g;
    }
  }

  lemma {:induction false} WithoutKeepsOrder(fps: seq<Fingerprint>, fp: Fingerprint, f: Fingerprint, g: Fingerprint)
    ensures Before(Without(fps, fp), f, g) <==> Before(fps, f, g) && f != fp && g != fp
  {
    if fps != [] {
      var init, last := fps[..|fps| - 1], fps[|fps| - 1];
      assert fps == init + [last];
      WithoutKeepsOrder(init, fp, f, g);
      WithoutHolds(init, fp);
      BeforeSnoc(init, last, f, g);
      BeforeSnoc(Without(init, fp), last, f, g);
    }
  }

  lemma BeforeByPlace(fps: seq<Fingerprint>, i: nat, j: nat)
    requires Distinct(fps) && i < |fps| && j < |fps|
    ensures Before(fps, fps[i], fps[j]) <==> i < j
  {
  }

  lemma DistinctTail(fps: seq<Fingerprint>, n: nat)
    requires Distinct(fps) && n <= |fps|
    ensures Distinct(fps[n..])
  {
  }

  lemma BeforeInTail(fps: seq<Fingerprint>, n: nat, f: Fingerprint, g: Fingerprint)
    requires Distinct(fps) && n <= |fps| && g in fps[n..]
    ensures f in fps[n..] ==> (Before(fps[n..], f, g) <==> Before(fps, f, g))
    ensures f in fps && f !in fps[n..] ==> Before(fps, f, g)
  {
    var tail := fps[n..];
    DistinctTail(fps, n);
    hide Distinct, Before;
    var j :| 0 <= j < |tail| && tail[j] == g;
    assert fps[n + j] == g;
    if f in tail {
      var i :| 0 <= i < |tail| && tail[i] == f;
      assert fps[n + i] == f;
      BeforeByPlace(tail, i, j);
      BeforeByPlace(fps, n + i, n + j);
    } else if f in fps {
      assert fps == fps[..n] + tail;
      var h :| 0 <= h < n && fps[h] == f;
      BeforeByPlace(fps, h, n + j);
    }
  }

  /** The newest stands last; all others that are kept stay in their order. One that is
      forgotten was older than everything that is kept, and it is forgotten only because
      seven others are kept beside the newest. */
  lemma OldestIsForgotten(fps: seq<Fingerprint>, fp: Fingerprint)
    requires Distinct(fps)
    ensures var kept := Remember(fps, fp);
            && kept[|kept| - 1] == fp
            && (forall f, g | f in kept && g in kept && f != fp && g != fp :: Before(kept, f, g) <==> Before(fps, f, g))
            && (forall f | f in fps && f !in kept ::
                  |kept| == 8 && forall g | g in kept && g != fp :: Before(fps, f, g))
  {
    WithoutHolds(fps, fp);
    var rest := Without(fps, fp);
    var kept := Remember(fps, fp);
    RememberHolds(fps, fp);
    hide Without, Distinct;
    var n := if |rest| + 1 > FINGERPRINT_HISTORY then |rest| + 1 - FINGERPRINT_HISTORY else 0;
    assert kept == rest[n..] + [fp];
    hide Remember;
    assert forall f | f != fp :: f in kept <==> f in rest[n..];
    forall f, g | f in fps && g in kept && f != fp && g != fp
      ensures f in kept ==> (Before(kept, f, g) <==> Before(fps, f, g))
      ensures f !in kept ==> Before(fps, f, g)
    {
      BeforeSnoc(rest[n..], fp, f, g);
      BeforeInTail(rest, n, f, g);
      WithoutKeepsOrder(fps, fp, f, g);
    }
    hide Before;
    assert rest[0..] == rest;
  }

  // --- Any number of generates ---------------------------------------------------------------

  /** The history after generates that landed one after the other. */
  function Recent(landed: seq<Fingerprint>): seq<Fingerprint> {
    if landed == [] then []
    else Remember(Recent(landed[..|landed| - 1]), landed[|landed| - 1])
  }

  /** The different fingerprints from some generate on. */
  function Elems(fps: seq<Fingerprint>): set<Fingerprint> {
    set f | f in fps
  }

  /** One generate landed with fp, and since then, it included, no more than eight
      different ones. */
  ghost predicate AmongLast(landed: seq<Fingerprint>, fp: Fingerprint) {
    exists i :: 0 <= i < |landed| && landed[i] == fp && |Elems(landed[i..])| <= 8
  }

  /** What the history holds from its k-th entry on is what landed since that entry last
      landed. */
  ghost predicate Since(kept: seq<Fingerprint>, landed: seq<Fingerprint>, k: nat)
    requires k < |kept|
  {
    && (exists i :: 0 <= i < |landed| && landed[i] == kept[k] && Elems(landed[i..]) == Elems(kept[k..]))
    && (forall i :: 0 <= i < |landed| && landed[i] == kept[k] ==> Elems(kept[k..]) <= Elems(landed[i..]))
  }

  /** What is not in the history landed too long ago. */
  ghost predicate Gone(landed: seq<Fingerprint>, fp: Fingerprint) {
    forall i :: 0 <= i < |landed| && landed[i] == fp ==> |Elems(landed[i..])| > FINGERPRINT_HISTORY
  }

  ghost predicate Holds(kept: seq<Fingerprint>, landed: seq<Fingerprint>) {
    && Distinct(kept)
    && |kept| <= FINGERPRINT_HISTORY
    && (forall k | 0 <= k < |kept| :: Since(kept, landed, k))
    && (forall fp :: fp in kept || Gone(landed, fp))
  }

  lemma ElemsGrow(a: seq<Fingerprint>, b: seq<Fingerprint>)
    ensures Elems(a + b) == Elems(a) + Elems(b)
  {
  }

  lemma TailGrows(landed: seq<Fingerprint>, x: Fingerprint, i: nat)
    requires i < |landed|
    ensures (landed + [x])[i] == landed[i] && Elems((landed + [x])[i..]) == Elems(landed[i..]) + {x}
  {
    assert (landed + [x])[i..] == landed[i..] + [x];
    ElemsGrow(landed[i..], [x]);
  }

  /** The newest entry has just landed. */
  lemma NewestSince(kept: seq<Fingerprint>, landed: seq<Fingerprint>, x: Fingerprint)
    requires kept != [] && kept[|kept| - 1] == x
    ensures Since(kept, landed + [x], |kept| - 1)
  {
    var more := landed + [x];
    assert kept[|kept| - 1..] == [x] && more[|landed|..] == [x];
    assert more[|landed|] == x;
    forall i | 0 <= i < |more| && more[i] == x
      ensures Elems([x]) <= Elems(more[i..])
    {
      assert more[i..][0] == x;
    }
  }

  /** Another entry is still followed by what landed since, the newest now among it. */
  lemma OlderSince(was: seq<Fingerprint>, k: nat, kept: seq<Fingerprint>, m: nat, landed: seq<Fingerprint>, x: Fingerprint)
    requires k < |was| && m < |kept| && was[k] == kept[m] && was[k] != x && Since(was, landed, k)
    requires Elems(kept[m..]) == Elems(was[k..]) + {x}
    ensures Since(kept, landed + [x], m)
  {
    var more := landed + [x];
    var i :| 0 <= i < |landed| && landed[i] == was[k] && Elems(landed[i..]) == Elems(was[k..]);
    TailGrows(landed, x, i);
    forall j | 0 <= j < |more| && more[j] == kept[m]
      ensures Elems(kept[m..]) <= Elems(more[j..])
    {
      assert j < |landed|;
      TailGrows(landed, x, j);
    }
  }

  lemma StillGone(landed: seq<Fingerprint>, x: Fingerprint, fp: Fingerprint)
    requires Gone(landed, fp) && fp != x
    ensures Gone(landed + [x], fp)
  {
    forall i | 0 <= i < |landed + [x]| && (landed + [x])[i] == fp
      ensures |Elems((landed + [x])[i..])| > FINGERPRINT_HISTORY
    {
      TailGrows(landed, x, i);
      Larger(Elems(landed[i..]), Elems(landed[i..]) + {x});
    }
  }

  lemma Larger<T>(a: set<T>, b: set<T>)
    requires a <= b
    ensures |a| <= |b|
  {
    assert b == a + (b - a);
  }

  lemma {:induction false} DistinctCount(fps: seq<Fingerprint>)
    requires Distinct(fps)
    ensures |Elems(fps)| == |fps|
  {
    if fps != [] {
      var init, last := fps[..|fps| - 1], fps[|fps| - 1];
      DistinctCount(init);
      assert fps == init + [last];
      ElemsGrow(init, [last]);
      assert last !in init;
      assert Elems([last]) == {last};
    } else {
      assert Elems(fps) == {};
    }
  }

  /** The oldest entry of a full history is gone once another generate lands. */
  lemma OldestGoes(was: seq<Fingerprint>, landed: seq<Fingerprint>, x: Fingerprint)
    requires Distinct(was) && |was| == FINGERPRINT_HISTORY && x !in was && Since(was, landed, 0)
    ensures Gone(landed + [x], was[0])
  {
    DistinctCount(was);
    assert was[0..] == was;
    forall i | 0 <= i < |landed + [x]| && (landed + [x])[i] == was[0]
      ensures |Elems((landed + [x])[i..])| > FINGERPRINT_HISTORY
    {
      assert i < |landed|;
      TailGrows(landed, x, i);
      assert |Elems(was) + {x}| == FINGERPRINT_HISTORY + 1;
      Larger(Elems(was) + {x}, Elems(landed[i..]) + {x});
    }
  }

  /** Where an entry goes that stays. */
  lemma {:induction false} WithoutPlaces(fps: seq<Fingerprint>, fp: Fingerprint, m: nat) returns (k: nat)
    requires m < |Without(fps, fp)|
    ensures k < |fps| && fps[k] == Without(fps, fp)[m] != fp
    ensures Elems(Without(fps, fp)[m..]) == Elems(fps[k..]) - {fp}
  {
    var init, last := fps[..|fps| - 1], fps[|fps| - 1];
    assert fps == init + [last];
    var rest, all := Without(init, fp), Without(fps, fp);
    if m < |rest| {
      k := WithoutPlaces(init, fp, m);
      assert fps[k..] == init[k..] + [last];
      ElemsGrow(init[k..], [last]);
      if last != fp {
        assert all[m..] == rest[m..] + [last];
        ElemsGrow(rest[m..], [last]);
      }
    } else {
      k := |init|;
      assert all == rest + [last];
      assert all[m..] == [last] && fps[k..] == [last];
    }
  }

  lemma KeptPlaces(was: seq<Fingerprint>, x: Fingerprint, m: nat) returns (k: nat)
    requires m < |Remember(was, x)| - 1
    ensures k < |was| && was[k] == Remember(was, x)[m] != x
    ensures Elems(Remember(was, x)[m..]) == Elems(was[k..]) + {x}
  {
    var rest, kept := Without(was, x), Remember(was, x);
    hide Without;
    var n := |rest| + 1 - |kept|;
    assert kept == rest[n..] + [x];
    k := WithoutPlaces(was, x, n + m);
    assert kept[m..] == rest[n + m..] + [x];
    ElemsGrow(rest[n + m..], [x]);
  }

  lemma {:induction false} WithoutLength(fps: seq<Fingerprint>, fp: Fingerprint)
    ensures |Without(fps, fp)| <= |fps|
    ensures |Without(fps, fp)| == |fps| ==> Without(fps, fp) == fps && fp !in fps
  {
    if fps != [] {
      WithoutLength(fps[..|fps| - 1], fp);
      assert fps == fps[..|fps| - 1] + [fps[|fps| - 1]];
    }
  }

  /** What a generate that lands pushes out has landed too long ago. */
  lemma PushedOut(was: seq<Fingerprint>, landed: seq<Fingerprint>, x: Fingerprint, fp: Fingerprint)
    requires Holds(was, landed) && fp !in Remember(was, x)
    ensures Gone(landed + [x], fp)
  {
    RememberHolds(was, x);
    WithoutLength(was, x);
    if fp in was {
      assert |Without(was, x)| == |was| == FINGERPRINT_HISTORY;
      assert was[0] == fp by {
        assert Remember(was, x) == was[1..] + [x];
        assert was == [was[0]] + was[1..];
      }
      OldestGoes(was, landed, x);
    } else {
      assert fp != x;
      StillGone(landed, x, fp);
    }
  }

  lemma HoldsStep(was: seq<Fingerprint>, landed: seq<Fingerprint>, x: Fingerprint)
    requires Holds(was, landed)
    ensures Holds(Remember(was, x), landed + [x])
  {
    RememberHolds(was, x);
    var kept := Remember(was, x);
    hide Remember, Without, Distinct, Since, Gone;
    forall m | 0 <= m < |kept|
      ensures Since(kept, landed + [x], m)
    {
      if m == |kept| - 1 {
        NewestSince(kept, landed, x);
      } else {
        var k := KeptPlaces(was, x, m);
        OlderSince(was, k, kept, m, landed, x);
      }
    }
    forall fp | fp !in kept
      ensures Gone(landed + [x], fp)
    {
      PushedOut(was, landed, x, fp);
    }
  }

  lemma {:induction false} RecentHolds(landed: seq<Fingerprint>)
    ensures Holds(Recent(landed), landed)
  {
    if landed != [] {
      var before, x := landed[..|landed| - 1], landed[|landed| - 1];
      RecentHolds(before);
      hide Holds, Remember;
      HoldsStep(Recent(before), before, x);
      assert before + [x] == landed;
    }
  }

  /** However many generates land, remembered are exactly the last few distinct ones. */
  lemma LastDistinctAreRemembered(landed: seq<Fingerprint>, fp: Fingerprint)
    ensures fp in Recent(landed) <==> AmongLast(landed, fp)
  {
    RecentHolds(landed);
    hide Recent;
    var kept := Recent(landed);
    if fp in kept {
      var k :| 0 <= k < |kept| && kept[k] == fp;
      assert Since(kept, landed, k);
      assert Distinct(kept[k..]);
      DistinctCount(kept[k..]);
    } else {
      assert Gone(landed, fp);
    }
  }

  // --- Whole histories --------------------------------------------------------------------------

  /** The generates of a path that landed, as far back as merging saves recorded them
      without a gap: what the log was read with, and what it will be written with. */
  datatype Chain = Chain(read: seq<Fingerprint>, written: Option<seq<Fingerprint>>)

  /** A run records what its last save makes of what it read. One that does not merge, or
      a run that saves nothing, breaks the chain. */
  ghost function ChainStep(fingerprint: string -> Fingerprint, chain: Chain, st: State, e: Event): Chain {
    match e
    case Edit(_) => chain
    case EndRun => Chain(chain.written.GetOr([]), None)
    case Save(content, modes, _) =>
      chain.(written := Some(
        if !modes.merge then []
        else if Lands(fingerprint, st, e) then chain.read + [fingerprint(content)]
        else chain.read))
  }

  ghost function ChainOf(fingerprint: string -> Fingerprint, events: seq<Event>): Chain {
    if events == [] then Chain([], None)
    else
      var before, e := events[..|events| - 1], events[|events| - 1];
      ChainStep(fingerprint, ChainOf(fingerprint, before), History(fingerprint, before), e)
  }

  /** What a state remembers is what its chain comes to. */
  ghost predicate Remembering(st: State, chain: Chain) {
    && st.prior == Recent(chain.read)
    && (st.entry.Some? <==> chain.written.Some?)
    && (chain.written.Some? ==> st.entry.value == Recent(chain.written.value))
  }

  lemma RecentSnoc(landed: seq<Fingerprint>, fp: Fingerprint)
    ensures Recent(landed + [fp]) == Remember(Recent(landed), fp)
    ensures Recent([]) == []
  {
    assert (landed + [fp])[..|landed|] == landed;
  }

  lemma ChainStepRemembers(fingerprint: string -> Fingerprint, chain: Chain, st: State, e: Event)
    requires Remembering(st, chain)
    ensures Remembering(Step(fingerprint, st, e), ChainStep(fingerprint, chain, st, e))
  {
    hide FateOf, Remember, Recent, Landed, Protected;
    if e.Save? {
      RecentSnoc(chain.read, fingerprint(e.content));
    } else {
      RecentSnoc([], "");
    }
  }

  /** Over every history, what is remembered is what the chain comes to. */
  lemma {:induction false} HistoryIsRecent(fingerprint: string -> Fingerprint, events: seq<Event>)
    ensures Remembering(History(fingerprint, events), ChainOf(fingerprint, events))
  {
    if events == [] {
      RecentSnoc([], "");
    } else {
      hide Step, ChainStep, Remembering;
      var before, e := events[..|events| - 1], events[|events| - 1];
      HistoryIsRecent(fingerprint, before);
      ChainStepRemembers(fingerprint, ChainOf(fingerprint, before), History(fingerprint, before), e);
    }
  }

  /** Over every history, a file is taken for an earlier generate put back exactly when
      it is not the baseline and is among the last few distinct generates of its chain. */
  lemma EarlierExactly(fingerprint: string -> Fingerprint, events: seq<Event>, existing: string)
    ensures var st := History(fingerprint, events);
            IsEarlier(fingerprint, existing, st.baseline, st.prior)
            <==> st.baseline != Some(existing) && AmongLast(ChainOf(fingerprint, events).read, fingerprint(existing))
  {
    HistoryIsRecent(fingerprint, events);
    hide History, ChainOf, AmongLast, Recent;
    LastDistinctAreRemembered(ChainOf(fingerprint, events).read, fingerprint(existing));
  }

  /** So, over every history: for an unprotected file under merge, every generate keeps
      what the user changed since the last one that landed, exactly when the file is that
      one or is not among the last few distinct generates of its chain. */
  lemma EditsKeptExactly(fingerprint: string -> Fingerprint, events: seq<Event>, modes: Modes, control: Control)
    requires AllRecorded(events) && Recorded(control) && modes.merge && !modes.diff
    requires var st := History(fingerprint, events); st.file.Some? && !Protected(st.file.value)
    requires LastLanded(fingerprint, events).Some?
    ensures var st := History(fingerprint, events);
            var last, existing := LastLanded(fingerprint, events).value, st.file.value;
            (forall content: string, i: nat | content != existing && i < |PiecesOf(content, last, existing)| ::
               KeepsEdits(Saved(fingerprint, true, st, content, modes, control).file, content, last, existing,
                          LabelsOf(SpecFor(control, "merge"), "merge"), i))
            <==> existing == last || !AmongLast(ChainOf(fingerprint, events).read, fingerprint(existing))
  {
    BaselineIsLastLanded(fingerprint, events);
    var existing := History(fingerprint, events).file.value;
    EditsKeptUnlessEarlier(fingerprint, events, modes, control);
    EarlierExactly(fingerprint, events, existing);
    hide *;
  }
}
