/** The satellite handover decision of scratch/ntn-tn-integrated-analysis.cc: four policies act
    on the state of each terminal, once a second, on a table of visible satellites.

    Signal quality, elevation and time-to-exit are arbitrary reals; the sine that decides
    about handovers at low elevation is an arbitrary outcome. */
module Handover {

  datatype Policy = TteAware | Location | A3 | TimeBased

  /** One row of the table of visible satellites. */
  datatype SatMeas = SatMeas(id: nat, sinr: real, elev: real, tte: real)

  /** "No satellite": the largest 32-bit number, which no satellite has. */
  const NO_SAT := 0xFFFF_FFFF

  /** Cells are 16-bit numbers; 0 means that no cell is selected. */
  const CELLS := 0x1_0000

  datatype UeState = UeState(
    servingSat: nat, servingSinr: real, servingElev: real,
    lastHoTime: int, lastSrcSat: nat,
    hoCount: nat, hoFails: nat, pingPongs: nat)

  const FRESH_UE := UeState(NO_SAT, -100.0, 0.0, -1000, NO_SAT, 0, 0, 0)

  /** What a terminal sees at one evaluation. */
  datatype Input = Input(visible: seq<SatMeas>, lucky: bool)

  /** The size of the constellation: satellites are numbered from 0. */
  const NUM_SATS := 66

  /** The table of visible satellites at one evaluation. */
  ghost predicate Table(visible: seq<SatMeas>) {
    Rows(visible) && forall m | m in visible :: m.id < NUM_SATS
  }

  /** Sorted by signal quality, best first, in any order where it is equal; one row a satellite. */
  ghost predicate Rows(visible: seq<SatMeas>) {
    (forall i, j | 0 <= i < j < |visible| :: visible[i].sinr >= visible[j].sinr && visible[i].id != visible[j].id)
    && forall m | m in visible :: m.id < NO_SAT
  }

  // ---------- Specification of one evaluation ----------

  predicate Admitted(m: SatMeas) { m.sinr >= -5.0 && m.tte >= 20.0 }

  function CellOf(id: nat): nat { (id + 1) % CELLS }

  /** The first row of a satellite. */
  function Find(visible: seq<SatMeas>, id: nat): (i: nat)
    ensures i <= |visible|
    ensures i < |visible| ==> visible[i].id == id
    ensures forall j | 0 <= j < i :: visible[j].id != id
  {
    if visible == [] || visible[0].id == id then 0 else 1 + Find(visible[1..], id)
  }

  function Refreshed(visible: seq<SatMeas>, ue: UeState): UeState
    requires visible != []
  {
    var ue' := if ue.servingSat == NO_SAT
      then ue.(servingSat := visible[0].id, servingSinr := visible[0].sinr, servingElev := visible[0].elev)
      else ue;
    var i := Find(visible, ue'.servingSat);
    if i < |visible| then ue'.(servingSinr := visible[i].sinr, servingElev := visible[i].elev) else ue'
  }

  /** The admitted candidate found so far; cell 0 before there is one. */
  datatype Best = Best(tte: real, sinr: real, cell: nat)

  function BestOf(visible: seq<SatMeas>, serving: nat): Best {
    if visible == [] then Best(0.0, -100.0, 0)
    else
      var best := BestOf(visible[..|visible| - 1], serving);
      var m := visible[|visible| - 1];
      if m.id != serving && Admitted(m) && m.tte > best.tte then Best(m.tte, m.sinr, CellOf(m.id)) else best
  }

  /** The first row that satisfies a condition. */
  function First(visible: seq<SatMeas>, wanted: SatMeas -> bool): (i: nat)
    ensures i <= |visible|
    ensures i < |visible| ==> wanted(visible[i])
    ensures forall j | 0 <= j < i :: !wanted(visible[j])
  {
    if visible == [] || wanted(visible[0]) then 0 else 1 + First(visible[1..], wanted)
  }

  function GoodNeighbour(serving: nat): SatMeas -> bool { (m: SatMeas) => m.id != serving && m.sinr >= -5.0 }

  function StrongerNeighbour(serving: nat, sinr: real): SatMeas -> bool {
    (m: SatMeas) => m.id != serving && m.sinr > sinr + 3.0
  }

  predicate Lost(ue: UeState) { ue.servingSinr < -30.0 }

  predicate Triggered(visible: seq<SatMeas>, ue: UeState)
    requires visible != []
  {
    ue.servingSinr < -5.0 || Lost(ue)
    || (visible[0].id != ue.servingSat && visible[0].sinr > ue.servingSinr + 3.0)
  }

  function Min(x: real, y: real): real { if y < x then y else x }

  predicate Blocked(policy: Policy, t: int, ue: UeState, best: Best) {
    policy.TteAware? && t as real < ue.lastHoTime as real + Min(best.tte * 0.5, 15.0)
  }

  /** What the policy selects: cell 0 for nothing. */
  datatype Selection = Selection(cell: nat, sat: nat, sinr: real)

  const NOTHING := Selection(0, NO_SAT, -100.0)

  function Choose(visible: seq<SatMeas>, i: nat): Selection
    requires i <= |visible|
  {
    if i == |visible| then NOTHING else Selection(CellOf(visible[i].id), visible[i].id, visible[i].sinr)
  }

  function Select(policy: Policy, t: int, visible: seq<SatMeas>, ue: UeState): Selection
    requires visible != []
  {
    var best := BestOf(visible, ue.servingSat);
    if !Triggered(visible, ue) || Blocked(policy, t, ue, best) then NOTHING
    else match policy
      case TteAware =>
        if best.cell != 0 then Selection(best.cell, best.cell - 1, best.sinr)
        else if Lost(ue) then Choose(visible, 0)
        else NOTHING
      case Location => Choose(visible, First(visible, GoodNeighbour(ue.servingSat)))
      case A3 => Choose(visible, First(visible, StrongerNeighbour(ue.servingSat, ue.servingSinr)))
      case TimeBased => if t - ue.lastHoTime > 45 then Choose(visible, 0) else NOTHING
  }

  /** What becomes of a terminal in one evaluation. */
  datatype Outcome = Outcome(ue: UeState, attempted: bool, success: bool, pingPong: bool, target: nat, fallback: bool)

  predicate Succeeds(sinr: real, elev: real, lucky: bool) {
    sinr >= -8.0 && (elev >= 12.0 || lucky)
  }

  function ElevationOf(visible: seq<SatMeas>, id: nat): real {
    var i := Find(visible, id);
    if i < |visible| then visible[i].elev else 0.0
  }

  function Execute(t: int, i: Input, ue: UeState, s: Selection, fallback: bool): Outcome {
    if s.cell == 0 || s.sat == NO_SAT then Outcome(ue, false, false, false, NO_SAT, false)
    else
      var pp := s.sat == ue.lastSrcSat && t - ue.lastHoTime < 10;
      var elev := ElevationOf(i.visible, s.sat);
      var ok := Succeeds(s.sinr, elev, i.lucky);
      var counted := ue.(hoCount := ue.hoCount + 1,
                         hoFails := ue.hoFails + if ok then 0 else 1,
                         pingPongs := ue.pingPongs + if pp then 1 else 0);
      var after := if !ok then counted
        else counted.(lastSrcSat := ue.servingSat, servingSat := s.sat, servingSinr := s.sinr,
                      servingElev := elev, lastHoTime := t);
      Outcome(after, true, ok, pp, s.sat, fallback)
  }

  /** The fallback: the time-to-exit policy has no candidate and the serving satellite is lost. */
  predicate IsFallback(policy: Policy, visible: seq<SatMeas>, ue: UeState) {
    policy.TteAware? && BestOf(visible, ue.servingSat).cell == 0
  }

  function Step(policy: Policy, t: int, i: Input, ue: UeState): Outcome {
    if i.visible == [] then Outcome(ue, false, false, false, NO_SAT, false)
    else
      var r := Refreshed(i.visible, ue);
      Execute(t, i, r, Select(policy, t, i.visible, r), IsFallback(policy, i.visible, r))
  }

  // ---------- Selection ----------

  lemma {:induction false} FirstIsBest(visible: seq<SatMeas>, wanted: SatMeas -> bool)
    requires Rows(visible)
    ensures var i := First(visible, wanted);
      i < |visible| ==> forall m | m in visible && wanted(m) :: m.sinr <= visible[i].sinr
  {
    var i := First(visible, wanted);
    if i < |visible| {
      forall m | m in visible && wanted(m) ensures m.sinr <= visible[i].sinr {
        var j :| 0 <= j < |visible| && visible[j] == m;
        assert j >= i;
      }
    }
  }

  /** An admitted candidate that no other one beats, in time-to-exit or, where that is equal,
      in signal quality. */
  ghost predicate BestCandidate(visible: seq<SatMeas>, serving: nat, b: SatMeas) {
    b in visible && b.id != serving && Admitted(b)
    && forall m | m in visible && m.id != serving && Admitted(m) ::
         m.tte < b.tte || (m.tte == b.tte && m.sinr <= b.sinr)
  }

  ghost predicate HasCandidate(visible: seq<SatMeas>, serving: nat) {
    exists m :: m in visible && m.id != serving && Admitted(m)
  }

  /** What the scan has found: a best candidate, or none. */
  ghost predicate Scanned(visible: seq<SatMeas>, serving: nat, b: SatMeas, best: Best) {
    (HasCandidate(visible, serving) ==> BestCandidate(visible, serving, b) && best == Best(b.tte, b.sinr, CellOf(b.id)))
    && (!HasCandidate(visible, serving) ==> best == Best(0.0, -100.0, 0))
  }

  lemma {:induction false} BestOfIsBest(visible: seq<SatMeas>, serving: nat) returns (b: SatMeas)
    requires Rows(visible)
    ensures HasCandidate(visible, serving) ==>
      BestCandidate(visible, serving, b) && BestOf(visible, serving) == Best(b.tte, b.sinr, CellOf(b.id))
    ensures !HasCandidate(visible, serving) ==> BestOf(visible, serving) == Best(0.0, -100.0, 0)
  {
    if visible == [] {
      b := SatMeas(0, 0.0, 0.0, 0.0);
    } else {
      var front, last := visible[..|visible| - 1], visible[|visible| - 1];
      assert visible == front + [last];
      assert Rows(front);
      b := BestOfIsBest(front, serving);
      b := OneMoreRow(front, last, serving, b, BestOf(front, serving));
    }
  }

  lemma OneMoreRow(front: seq<SatMeas>, last: SatMeas, serving: nat, b: SatMeas, best: Best) returns (b': SatMeas)
    requires Rows(front + [last]) && Scanned(front, serving, b, best)
    ensures Scanned(front + [last], serving, b',
      if last.id != serving && Admitted(last) && last.tte > best.tte then Best(last.tte, last.sinr, CellOf(last.id))
      else best)
  {
    var visible := front + [last];
    assert forall m :: m in visible <==> m in front || m == last;
    LastIsWeakest(front, last);
    b' := if last.id != serving && Admitted(last) && last.tte > best.tte then last else b;
    if HasCandidate(front, serving) {
      assert b in visible;
    } else if last.id != serving && Admitted(last) {
      assert last in visible;
    }
  }

  lemma LastIsWeakest(front: seq<SatMeas>, last: SatMeas)
    requires Rows(front + [last])
    ensures forall m | m in front :: m.sinr >= last.sinr
  {
    var visible := front + [last];
    forall m | m in front ensures m.sinr >= last.sinr {
      var j :| 0 <= j < |front| && front[j] == m;
      assert visible[j] == m && visible[|front|] == last;
    }
  }

  /** There is a reason for a handover: the serving satellite is poor, or some other one is
      more than 3 dB stronger. */
  ghost predicate Wanted(visible: seq<SatMeas>, r: UeState) {
    r.servingSinr < -5.0 || exists m :: m in visible && m.id != r.servingSat && m.sinr > r.servingSinr + 3.0
  }

  /** Looking at the strongest satellite only is enough. */
  lemma TriggeredExactlyIfWanted(visible: seq<SatMeas>, ue: UeState)
    requires Rows(visible) && visible != []
    ensures Triggered(visible, Refreshed(visible, ue)) <==> Wanted(visible, Refreshed(visible, ue))
  {
    var r := Refreshed(visible, ue);
    assert visible[0] in visible;
    RefreshedIsCurrent(visible, ue);
    if m :| m in visible && m.id != r.servingSat && m.sinr > r.servingSinr + 3.0 {
      assert m.sinr <= visible[0].sinr;
    }
  }

  /** The time-to-exit policy attempts a handover to a best candidate whenever there is a reason
      and the hysteresis window of that candidate is over; without a candidate it falls back to
      the strongest satellite, and only if the serving one is below -30 dB. */
  lemma TteAwareSelectsTheBest(t: int, i: Input, ue: UeState) returns (b: SatMeas)
    requires Table(i.visible) && i.visible != []
    ensures var r := Refreshed(i.visible, ue);
      var o := Step(TteAware, t, i, ue);
      if exists m :: m in i.visible && m.id != r.servingSat && m.sinr >= -5.0 && m.tte >= 20.0 then
        b in i.visible && b.id != r.servingSat && b.sinr >= -5.0 && b.tte >= 20.0
        && (forall m | m in i.visible && m.id != r.servingSat && m.sinr >= -5.0 && m.tte >= 20.0 ::
              m.tte < b.tte || (m.tte == b.tte && m.sinr <= b.sinr))
        && (o.attempted <==>
              (Wanted(i.visible, r)
               && t as real - ue.lastHoTime as real >= if b.tte < 30.0 then b.tte / 2.0 else 15.0))
        && (o.attempted ==> o.target == b.id && !o.fallback)
      else
        (o.attempted <==> r.servingSinr < -30.0 && t >= ue.lastHoTime)
        && (o.attempted ==> o.target == i.visible[0].id && o.fallback)
  {
    var r := Refreshed(i.visible, ue);
    b := TteAwareStep(t, i, ue);
    TriggeredExactlyIfWanted(i.visible, ue);
    CandidatesByThresholds(i.visible, r.servingSat, b);
  }

  lemma TteAwareStep(t: int, i: Input, ue: UeState) returns (b: SatMeas)
    requires Table(i.visible) && i.visible != []
    ensures var r := Refreshed(i.visible, ue);
      var o := Step(TteAware, t, i, ue);
      if HasCandidate(i.visible, r.servingSat) then
        BestCandidate(i.visible, r.servingSat, b) && b.tte >= 20.0
        && (o.attempted <==> Triggered(i.visible, r) && t as real >= ue.lastHoTime as real + Min(b.tte * 0.5, 15.0))
        && (o.attempted ==> o.target == b.id && !o.fallback)
      else
        (o.attempted <==> Lost(r) && t >= ue.lastHoTime)
        && (o.attempted ==> o.target == i.visible[0].id && o.fallback)
  {
    var r := Refreshed(i.visible, ue);
    b := BestOfIsBest(i.visible, r.servingSat);
    assert i.visible[0] in i.visible;
    CellsAreNotZero(i.visible);
  }

  lemma CandidatesByThresholds(visible: seq<SatMeas>, serving: nat, b: SatMeas)
    ensures HasCandidate(visible, serving)
       <==> exists m :: m in visible && m.id != serving && m.sinr >= -5.0 && m.tte >= 20.0
    ensures BestCandidate(visible, serving, b) <==>
      b in visible && b.id != serving && b.sinr >= -5.0 && b.tte >= 20.0
      && forall m | m in visible && m.id != serving && m.sinr >= -5.0 && m.tte >= 20.0 ::
           m.tte < b.tte || (m.tte == b.tte && m.sinr <= b.sinr)
  {
  }

  /** The time-based policy attempts a handover to the strongest satellite, which may be the
      serving one, exactly when there is a reason and the last success is more than 45 s ago. */
  lemma TimeSelectsTheStrongest(t: int, i: Input, ue: UeState) returns (b: SatMeas)
    requires Table(i.visible) && i.visible != []
    ensures b in i.visible && forall m | m in i.visible :: m.sinr <= b.sinr
    ensures var r := Refreshed(i.visible, ue);
      var o := Step(TimeBased, t, i, ue);
      (o.attempted <==> Wanted(i.visible, r) && t - ue.lastHoTime > 45)
      && (o.attempted ==> o.target == b.id && (o.success <==> b.sinr >= -8.0 && (b.elev >= 12.0 || i.lucky)))
  {
    b := i.visible[0];
    assert b in i.visible;
    CellsAreNotZero(i.visible);
    TriggeredExactlyIfWanted(i.visible, ue);
    RowIsFound(i.visible, b);
  }

  /** The numbers of a table fit into cells. */
  lemma CellsAreNotZero(visible: seq<SatMeas>)
    requires Table(visible)
    ensures forall m | m in visible :: CellOf(m.id) == m.id + 1
  {
  }

  /** A visible satellite of a kind that none of that kind beats in signal quality. */
  ghost predicate Strongest(visible: seq<SatMeas>, wanted: SatMeas -> bool, b: SatMeas) {
    b in visible && wanted(b) && forall m | m in visible && wanted(m) :: m.sinr <= b.sinr
  }

  ghost predicate HasAny(visible: seq<SatMeas>, wanted: SatMeas -> bool) {
    exists m :: m in visible && wanted(m)
  }

  lemma FirstIsStrongest(visible: seq<SatMeas>, wanted: SatMeas -> bool) returns (b: SatMeas)
    requires Table(visible) && visible != []
    ensures var s := Choose(visible, First(visible, wanted));
      if HasAny(visible, wanted) then Strongest(visible, wanted, b) && s == Selection(b.id + 1, b.id, b.sinr)
      else s == NOTHING
  {
    FirstIsBest(visible, wanted);
    FirstFinds(visible, wanted);
    CellsAreNotZero(visible);
    var i := First(visible, wanted);
    b := visible[if i < |visible| then i else 0];
  }

  /** The A3 policy attempts a handover exactly when some neighbour is more than 3 dB stronger
      than the serving satellite is measured now, and it does so to the strongest one. */
  lemma A3SelectsTheStrongest(t: int, i: Input, ue: UeState) returns (b: SatMeas)
    requires Table(i.visible) && i.visible != []
    ensures var r := Refreshed(i.visible, ue);
      var o := Step(A3, t, i, ue);
      (o.attempted <==> exists m :: m in i.visible && m.id != r.servingSat && m.sinr > r.servingSinr + 3.0)
      && (o.attempted ==>
            b in i.visible && b.id != r.servingSat && b.sinr > r.servingSinr + 3.0 && o.target == b.id
            && forall m | m in i.visible && m.id != r.servingSat :: m.sinr <= b.sinr)
  {
    var r := Refreshed(i.visible, ue);
    var stronger := StrongerNeighbour(r.servingSat, r.servingSinr);
    b := FirstIsStrongest(i.visible, stronger);
    if HasAny(i.visible, stronger) {
      StrongerTriggers(i.visible, ue, b);
    }
    StrongestNeighbour(i.visible, r.servingSat, r.servingSinr, b);
  }

  lemma StrongestNeighbour(visible: seq<SatMeas>, serving: nat, sinr: real, b: SatMeas)
    ensures var stronger := StrongerNeighbour(serving, sinr);
      (HasAny(visible, stronger) <==> exists m :: m in visible && m.id != serving && m.sinr > sinr + 3.0)
      && (Strongest(visible, stronger, b) ==>
            b in visible && b.id != serving && b.sinr > sinr + 3.0
            && forall m | m in visible && m.id != serving :: m.sinr <= b.sinr)
  {
    var stronger := StrongerNeighbour(serving, sinr);
    if m :| m in visible && m.id != serving && m.sinr > sinr + 3.0 {
      assert stronger(m);
    }
    if Strongest(visible, stronger, b) {
      forall m | m in visible && m.id != serving ensures m.sinr <= b.sinr {
        assert m.sinr > sinr + 3.0 ==> stronger(m);
      }
    }
  }

  /** A stronger neighbour is a reason for a handover: the strongest satellite of all is not
      the serving one, whose values have just been refreshed. */
  lemma StrongerTriggers(visible: seq<SatMeas>, ue: UeState, b: SatMeas)
    requires Rows(visible) && b in visible
    requires StrongerNeighbour(Refreshed(visible, ue).servingSat, Refreshed(visible, ue).servingSinr)(b)
    ensures Triggered(visible, Refreshed(visible, ue))
  {
    RefreshedIsCurrent(visible, ue);
    assert visible[0] in visible;
  }

  /** The location policy does so when there is a reason and some neighbour has at least -5 dB. */
  lemma LocationSelectsTheStrongest(t: int, i: Input, ue: UeState) returns (b: SatMeas)
    requires Table(i.visible) && i.visible != []
    ensures var r := Refreshed(i.visible, ue);
      var o := Step(Location, t, i, ue);
      (o.attempted <==> Wanted(i.visible, r) && exists m :: m in i.visible && m.id != r.servingSat && m.sinr >= -5.0)
      && (o.attempted ==>
            b in i.visible && b.id != r.servingSat && b.sinr >= -5.0 && o.target == b.id
            && forall m | m in i.visible && m.id != r.servingSat :: m.sinr <= b.sinr)
  {
    var r := Refreshed(i.visible, ue);
    var good := GoodNeighbour(r.servingSat);
    b := FirstIsStrongest(i.visible, good);
    TriggeredExactlyIfWanted(i.visible, ue);
    assert HasAny(i.visible, good) <==> exists m :: m in i.visible && m.id != r.servingSat && m.sinr >= -5.0;
  }

  /** The serving satellite at the beginning of an evaluation: the strongest one for a terminal
      that has none, otherwise the one of before; with its current values if it is visible and
      the last known ones if not. */
  lemma ServingAtTheBeginning(visible: seq<SatMeas>, ue: UeState) returns (b: SatMeas)
    requires Rows(visible) && visible != []
    ensures var r := Refreshed(visible, ue);
      b in visible && (forall m | m in visible :: m.sinr <= b.sinr)
      && r.servingSat == (if ue.servingSat == NO_SAT then b.id else ue.servingSat)
      && (forall m | m in visible && m.id == r.servingSat :: r.servingSinr == m.sinr && r.servingElev == m.elev)
      && ((forall m | m in visible :: m.id != r.servingSat) ==> r == ue)
      && r.lastHoTime == ue.lastHoTime && r.lastSrcSat == ue.lastSrcSat
      && r.hoCount == ue.hoCount && r.hoFails == ue.hoFails && r.pingPongs == ue.pingPongs
  {
    b := visible[0];
    assert b in visible;
    RefreshedIsCurrent(visible, ue);
  }

  lemma FirstFinds(visible: seq<SatMeas>, wanted: SatMeas -> bool)
    ensures First(visible, wanted) < |visible| <==> exists m :: m in visible && wanted(m)
    ensures First(visible, wanted) < |visible| ==> visible[First(visible, wanted)] in visible
  {
    if m :| m in visible && wanted(m) {
      var j :| 0 <= j < |visible| && visible[j] == m;
    }
  }

  // ---------- The cache of the serving satellite ----------

  ghost predicate Current(visible: seq<SatMeas>, ue: UeState) {
    forall m | m in visible && m.id == ue.servingSat :: ue.servingSinr == m.sinr && ue.servingElev == m.elev
  }

  lemma RowIsFound(visible: seq<SatMeas>, m: SatMeas)
    requires Rows(visible) && m in visible
    ensures Find(visible, m.id) < |visible| && visible[Find(visible, m.id)] == m
  {
    var j :| 0 <= j < |visible| && visible[j] == m;
    assert Find(visible, m.id) == j;
  }

  /** After every evaluation, of every policy and from every state, the stored values of the
      serving satellite are its current ones if it is visible. */
  lemma ServingCacheIsCurrent(policy: Policy, t: int, i: Input, ue: UeState)
    requires Table(i.visible)
    ensures Current(i.visible, Step(policy, t, i, ue).ue)
  {
    if i.visible != [] {
      var b := ServingCacheInAnyConstellation(policy, t, i, ue);
    }
  }

  lemma OneRow(visible: seq<SatMeas>, m: SatMeas)
    requires Rows(visible) && m in visible
    ensures forall m' | m' in visible && m'.id == m.id :: m' == m
  {
    forall m' | m' in visible && m'.id == m.id ensures m' == m {
      RowIsFound(visible, m);
      RowIsFound(visible, m');
    }
  }

  lemma ExecutionStores(t: int, i: Input, r: UeState, s: Selection, fallback: bool)
    requires Rows(i.visible) && Current(i.visible, r)
    ensures Current(i.visible, Execute(t, i, r, s, fallback).ue) <==> !WrongRow(i, s)
  {
    forall m | m in i.visible && m.id == s.sat ensures ElevationOf(i.visible, s.sat) == m.elev {
      RowIsFound(i.visible, m);
    }
  }

  lemma RefreshedIsCurrent(visible: seq<SatMeas>, ue: UeState)
    requires Rows(visible) && visible != []
    ensures Current(visible, Refreshed(visible, ue))
  {
    forall m | m in visible && m.id == Refreshed(visible, ue).servingSat
      ensures Refreshed(visible, ue).servingSinr == m.sinr && Refreshed(visible, ue).servingElev == m.elev
    {
      RowIsFound(visible, m);
    }
  }

  lemma TteSelectionIsARow(t: int, visible: seq<SatMeas>, r: UeState) returns (m: SatMeas)
    requires Rows(visible) && visible != []
    requires HasCandidate(visible, r.servingSat) ==>
      exists b :: BestCandidate(visible, r.servingSat, b) && b.id < CELLS - 1
        && BestOf(visible, r.servingSat) == Best(b.tte, b.sinr, CellOf(b.id))
    ensures var s := Select(TteAware, t, visible, r);
      s.cell != 0 ==> m in visible && s.sat == m.id && s.sinr == m.sinr
  {
    m := visible[0];
    if HasCandidate(visible, r.servingSat) {
      m :| BestCandidate(visible, r.servingSat, m) && m.id < CELLS - 1
        && BestOf(visible, r.servingSat) == Best(m.tte, m.sinr, CellOf(m.id));
      SelectionOfBest(t, visible, r, m);
    } else {
      var b := BestOfIsBest(visible, r.servingSat);
      SelectionWithoutCandidate(t, visible, r);
    }
  }

  lemma SelectionOfBest(t: int, visible: seq<SatMeas>, r: UeState, b: SatMeas)
    requires visible != [] && b.id < CELLS - 1 && BestOf(visible, r.servingSat) == Best(b.tte, b.sinr, CellOf(b.id))
    ensures Select(TteAware, t, visible, r) in {NOTHING, Selection(b.id + 1, b.id, b.sinr)}
  {
  }

  lemma SelectionWithoutCandidate(t: int, visible: seq<SatMeas>, r: UeState)
    requires visible != [] && BestOf(visible, r.servingSat).cell == 0
    ensures Select(TteAware, t, visible, r) in {NOTHING, Selection(CellOf(visible[0].id), visible[0].id, visible[0].sinr)}
  {
  }

  /** A selection names a visible satellite and its signal quality, unless the best candidate
      of the time-to-exit policy has a number that is too large. */
  lemma SelectionIsARow(policy: Policy, t: int, visible: seq<SatMeas>, r: UeState) returns (m: SatMeas)
    requires Rows(visible) && visible != []
    requires policy.TteAware? && HasCandidate(visible, r.servingSat) ==>
      exists b :: BestCandidate(visible, r.servingSat, b) && b.id < CELLS - 1
        && BestOf(visible, r.servingSat) == Best(b.tte, b.sinr, CellOf(b.id))
    ensures var s := Select(policy, t, visible, r);
      s.cell != 0 ==> m in visible && s.sat == m.id && s.sinr == m.sinr
  {
    m := visible[0];
    match policy {
      case TteAware => m := TteSelectionIsARow(t, visible, r);
      case Location =>
        var i := First(visible, GoodNeighbour(r.servingSat));
        if i < |visible| { m := visible[i]; }
      case A3 =>
        var i := First(visible, StrongerNeighbour(r.servingSat, r.servingSinr));
        if i < |visible| { m := visible[i]; }
      case TimeBased =>
    }
  }

  // ---------- Constellations with more satellites than cells ----------

  /** The time-to-exit policy reaches its best candidate exactly when the number of that
      satellite fits into a 16-bit cell number with one to spare. */
  lemma BestIsReachedExactlyInCells(t: int, i: Input, ue: UeState) returns (b: SatMeas)
    requires Rows(i.visible) && i.visible != []
    requires var r := Refreshed(i.visible, ue);
      HasCandidate(i.visible, r.servingSat) && Triggered(i.visible, r)
      && !Blocked(TteAware, t, r, BestOf(i.visible, r.servingSat))
    ensures var r := Refreshed(i.visible, ue);
      BestCandidate(i.visible, r.servingSat, b)
      && var o := Step(TteAware, t, i, ue);
         (o.attempted && o.target == b.id) <==> b.id < CELLS - 1
  {
    var r := Refreshed(i.visible, ue);
    b := BestOfIsBest(i.visible, r.servingSat);
    TargetOfTteAware(t, i, ue, b);
  }

  lemma TargetOfTteAware(t: int, i: Input, ue: UeState, b: SatMeas)
    requires i.visible != []
    requires var r := Refreshed(i.visible, ue);
      Triggered(i.visible, r) && !Blocked(TteAware, t, r, BestOf(i.visible, r.servingSat))
      && BestOf(i.visible, r.servingSat) == Best(b.tte, b.sinr, CellOf(b.id))
    ensures var o := Step(TteAware, t, i, ue);
      (o.attempted && o.target == b.id) <==> b.id < CELLS - 1
  {
    var s := Select(TteAware, t, i.visible, Refreshed(i.visible, ue));
    if b.id < CELLS - 1 {
      assert CellOf(b.id) == b.id + 1;
    } else {
      assert CellOf(b.id) < b.id + 1;
      assert s.sat == b.id ==> s.cell == 0;
    }
  }

  /** A successful handover of the time-to-exit policy stores the signal quality of its best
      candidate under the number of another visible satellite. */
  predicate Misdirected(i: Input, b: SatMeas) {
    var cell := CellOf(b.id);
    b.id >= CELLS - 1 && cell != 0
    && Succeeds(b.sinr, ElevationOf(i.visible, cell - 1), i.lucky)
    && exists m | m in i.visible :: m.id == cell - 1 && m.sinr != b.sinr
  }

  /** The stored values are current exactly when no handover to a best candidate `b` is
      misdirected. */
  lemma ServingCacheInAnyConstellation(policy: Policy, t: int, i: Input, ue: UeState) returns (b: SatMeas)
    requires Rows(i.visible) && i.visible != []
    ensures var r := Refreshed(i.visible, ue);
      (HasCandidate(i.visible, r.servingSat) ==> BestCandidate(i.visible, r.servingSat, b))
      && (Current(i.visible, Step(policy, t, i, ue).ue)
          <==> !(policy.TteAware? && HasCandidate(i.visible, r.servingSat) && Triggered(i.visible, r)
                 && !Blocked(policy, t, r, BestOf(i.visible, r.servingSat)) && Misdirected(i, b)))
  {
    var r := Refreshed(i.visible, ue);
    RefreshedIsCurrent(i.visible, ue);
    b := BestOfIsBest(i.visible, r.servingSat);
    ExecutionStores(t, i, r, Select(policy, t, i.visible, r), IsFallback(policy, i.visible, r));
    WrongRowOnlyIfMisdirected(policy, t, i, r, b);
  }

  /** An execution succeeds with the signal quality of another satellite than it hands over to. */
  ghost predicate WrongRow(i: Input, s: Selection) {
    s.cell != 0 && s.sat != NO_SAT && Succeeds(s.sinr, ElevationOf(i.visible, s.sat), i.lucky)
    && exists m | m in i.visible :: m.id == s.sat && m.sinr != s.sinr
  }

  lemma WrongRowOnlyIfMisdirected(policy: Policy, t: int, i: Input, r: UeState, b: SatMeas)
    requires Rows(i.visible) && i.visible != []
    requires HasCandidate(i.visible, r.servingSat) ==>
      BestCandidate(i.visible, r.servingSat, b) && BestOf(i.visible, r.servingSat) == Best(b.tte, b.sinr, CellOf(b.id))
    ensures WrongRow(i, Select(policy, t, i.visible, r))
       <==> policy.TteAware? && HasCandidate(i.visible, r.servingSat) && Triggered(i.visible, r)
            && !Blocked(policy, t, r, BestOf(i.visible, r.servingSat)) && Misdirected(i, b)
  {
    if !policy.TteAware? || !HasCandidate(i.visible, r.servingSat) || b.id < CELLS - 1 {
      var m := SelectionIsARow(policy, t, i.visible, r);
      if Select(policy, t, i.visible, r).cell != 0 { OneRow(i.visible, m); }
    } else {
      LargeNumber(t, i, r, b);
    }
  }

  lemma LargeNumber(t: int, i: Input, r: UeState, b: SatMeas)
    requires Rows(i.visible) && i.visible != []
    requires b.id >= CELLS - 1 && BestOf(i.visible, r.servingSat) == Best(b.tte, b.sinr, CellOf(b.id))
    ensures WrongRow(i, Select(TteAware, t, i.visible, r))
       <==> Triggered(i.visible, r) && !Blocked(TteAware, t, r, BestOf(i.visible, r.servingSat)) && Misdirected(i, b)
  {
    OneRow(i.visible, i.visible[0]);
    assert CellOf(b.id) - 1 < NO_SAT;
  }

  /** Misdirection is possible: the cell of satellite 65536 is that of satellite 0, which then
      serves with the signal quality of the other. */
  lemma LargeNumbersBreakTheCache()
    ensures var far, near := SatMeas(65536, 10.0, 40.0, 53.0), SatMeas(0, 5.0, 40.0, 49.0);
      var i := Input([far, near], true);
      var ue := FRESH_UE.(servingSat := 7, servingSinr := -10.0);
      Rows(i.visible) && !Current(i.visible, Step(TteAware, 0, i, ue).ue)
  {
    var far, near := SatMeas(65536, 10.0, 40.0, 53.0), SatMeas(0, 5.0, 40.0, 49.0);
    var i := Input([far, near], true);
    var ue := FRESH_UE.(servingSat := 7, servingSinr := -10.0);
    assert [far, near][..1] == [far] && [far][..0] == [];
    assert BestOf([far], 7) == Best(53.0, 10.0, 1);
    assert BestOf([far, near], 7) == Best(53.0, 10.0, 1);
    assert [far, near][1..] == [near] && [near][1..] == [];
    assert Find([near], 0) == 0 && Find([far, near], 0) == 1;
    assert Find([near], 7) == 1 && Find([far, near], 7) == 2;
    var o := Step(TteAware, 0, i, ue);
    assert o.ue.servingSat == 0 && o.ue.servingSinr == 10.0;
    assert near in i.visible;
  }

  // ---------- Ping-pongs and rates over whole runs ----------

  /** A handover of the time-to-exit policy to an admitted candidate comes at least ten
      seconds after the previous successful one, so it is no ping-pong. */
  lemma AdmittedHandoversAreSpaced(t: int, i: Input, ue: UeState)
    requires Rows(i.visible)
    ensures var o := Step(TteAware, t, i, ue);
      o.attempted && !o.fallback ==> t - ue.lastHoTime >= 10 && !o.pingPong
  {
    if i.visible != [] {
      var r := Refreshed(i.visible, ue);
      var b := BestOfIsBest(i.visible, r.servingSat);
    }
  }

  lemma TimeHandoversAreSpaced(t: int, i: Input, ue: UeState)
    ensures var o := Step(TimeBased, t, i, ue);
      o.attempted ==> t - ue.lastHoTime >= 46 && !o.pingPong
  {
  }

  /** The counters of a terminal move with its outcome. */
  lemma StepCounters(policy: Policy, t: int, i: Input, ue: UeState)
    ensures var o := Step(policy, t, i, ue);
      o.ue.hoCount == ue.hoCount + (if o.attempted then 1 else 0)
      && o.ue.hoFails == ue.hoFails + (if o.attempted && !o.success then 1 else 0)
      && o.ue.pingPongs == ue.pingPongs + (if o.attempted && o.pingPong then 1 else 0)
  {
  }

  /** A failed attempt moves nothing but the counters. */
  lemma FailureOnlyCounts(policy: Policy, t: int, i: Input, ue: UeState)
    requires i.visible != []
    ensures var o := Step(policy, t, i, ue);
      var r := Refreshed(i.visible, ue);
      o.attempted && !o.success ==>
        o.ue == r.(hoCount := ue.hoCount + 1, hoFails := ue.hoFails + 1,
                   pingPongs := ue.pingPongs + if o.pingPong then 1 else 0)
  {
  }

  /** What an attempt comes to.  It succeeds at a signal of at least -8 dB and, below 12 degrees of
      elevation, with luck; a success makes the target serve, remembers where the terminal comes
      from and starts the clock. */
  lemma WhatAnAttemptComesTo(policy: Policy, t: int, i: Input, ue: UeState) returns (b: SatMeas)
    requires Table(i.visible) && Step(policy, t, i, ue).attempted
    ensures var o := Step(policy, t, i, ue);
      b in i.visible && b.id == o.target
      && (o.success <==> b.sinr >= -8.0 && (b.elev >= 12.0 || i.lucky))
      && (o.pingPong <==> b.id == ue.lastSrcSat && t - ue.lastHoTime < 10)
      && o.ue.servingSat == (if o.success then b.id else Refreshed(i.visible, ue).servingSat)
      && o.ue.lastSrcSat == (if o.success then Refreshed(i.visible, ue).servingSat else ue.lastSrcSat)
      && o.ue.lastHoTime == if o.success then t else ue.lastHoTime
  {
    var r := Refreshed(i.visible, ue);
    if policy.TteAware? && HasCandidate(i.visible, r.servingSat) {
      var c := BestOfIsBest(i.visible, r.servingSat);
    }
    b := SelectionIsARow(policy, t, i.visible, r);
    RowIsFound(i.visible, b);
  }

  /** One terminal over the evaluations at seconds 0, 1, 2, ... */
  function Run(policy: Policy, inputs: seq<Input>): UeState
    decreases |inputs|, 1
  {
    if inputs == [] then FRESH_UE else Last(policy, inputs).ue
  }

  function Last(policy: Policy, inputs: seq<Input>): Outcome
    requires inputs != []
    decreases |inputs|, 0
  {
    Step(policy, |inputs| - 1, inputs[|inputs| - 1], Run(policy, inputs[..|inputs| - 1]))
  }

  /** How many evaluations of a run have an outcome of some kind. */
  function Count(policy: Policy, inputs: seq<Input>, kind: Outcome -> bool): nat {
    if inputs == [] then 0
    else Count(policy, inputs[..|inputs| - 1], kind) + if kind(Last(policy, inputs)) then 1 else 0
  }

  predicate Successful(o: Outcome) { o.attempted && o.success }
  predicate SuccessfulAdmitted(o: Outcome) { o.attempted && o.success && !o.fallback }
  predicate FellBack(o: Outcome) { o.attempted && o.fallback }

  lemma {:induction false} ClockInThePast(policy: Policy, inputs: seq<Input>)
    ensures Run(policy, inputs).lastHoTime < |inputs|
  {
    if inputs != [] { ClockInThePast(policy, inputs[..|inputs| - 1]); }
  }

  lemma {:induction false} TimeSpacing(inputs: seq<Input>)
    ensures var n := Count(TimeBased, inputs, Successful);
      (n > 0 ==> 46 * (n - 1) <= Run(TimeBased, inputs).lastHoTime) && Run(TimeBased, inputs).pingPongs == 0
  {
    if inputs != [] {
      var front := inputs[..|inputs| - 1];
      TimeSpacing(front);
      TimeHandoversAreSpaced(|inputs| - 1, inputs[|inputs| - 1], Run(TimeBased, front));
    }
  }

  /** The time-based policy: at most one success every 46 seconds and never a ping-pong. */
  lemma TimeBasedRate(inputs: seq<Input>)
    ensures inputs != [] ==> Count(TimeBased, inputs, Successful) <= 1 + (|inputs| - 1) / 46
    ensures Run(TimeBased, inputs).pingPongs == 0
  {
    TimeSpacing(inputs);
    ClockInThePast(TimeBased, inputs);
  }

  lemma {:induction false} TteSpacing(inputs: seq<Input>)
    requires forall i | i in inputs :: Rows(i.visible)
    ensures var n := Count(TteAware, inputs, SuccessfulAdmitted);
      n > 0 ==> 10 * (n - 1) <= Run(TteAware, inputs).lastHoTime
    ensures Run(TteAware, inputs).pingPongs <= Count(TteAware, inputs, FellBack)
  {
    if inputs != [] {
      var front := inputs[..|inputs| - 1];
      TteSpacing(front);
      AdmittedHandoversAreSpaced(|inputs| - 1, inputs[|inputs| - 1], Run(TteAware, front));
      ClockInThePast(TteAware, front);
    }
  }

  /** The time-to-exit policy: at most one success on an admitted candidate every ten
      seconds, and no more ping-pongs than fallbacks. */
  lemma TteAwareRate(inputs: seq<Input>)
    requires forall i | i in inputs :: Rows(i.visible)
    ensures inputs != [] ==> Count(TteAware, inputs, SuccessfulAdmitted) <= 1 + (|inputs| - 1) / 10
    ensures Run(TteAware, inputs).pingPongs <= Count(TteAware, inputs, FellBack)
  {
    TteSpacing(inputs);
    ClockInThePast(TteAware, inputs);
  }

  // ---------- Ping-pongs between successes ----------

  function OutcomeAt(policy: Policy, inputs: seq<Input>, k: nat): Outcome
    requires k < |inputs|
  {
    Last(policy, inputs[..k + 1])
  }

  /** The satellite that serves at the beginning of an evaluation of a run. */
  function ServingAt(policy: Policy, inputs: seq<Input>, k: nat): nat
    requires k < |inputs| && inputs[k].visible != []
  {
    Refreshed(inputs[k].visible, Run(policy, inputs[..k])).servingSat
  }

  ghost predicate Tables(inputs: seq<Input>) {
    forall i | i in inputs :: Table(i.visible)
  }

  /** There was no success in the evaluations from one to before another. */
  ghost predicate Quiet(policy: Policy, inputs: seq<Input>, k: nat, n: nat)
    requires n <= |inputs|
  {
    forall j | k <= j < n :: !Successful(OutcomeAt(policy, inputs, j))
  }

  lemma OutcomeIsAStep(policy: Policy, inputs: seq<Input>, k: nat)
    requires k < |inputs|
    ensures OutcomeAt(policy, inputs, k) == Step(policy, k, inputs[k], Run(policy, inputs[..k]))
    ensures Run(policy, inputs[..k + 1]) == OutcomeAt(policy, inputs, k).ue
  {
    assert inputs[..k + 1][..k] == inputs[..k];
  }

  /** An evaluation without a success leaves the memory of the last one alone. */
  lemma OnlySuccessesAreRemembered(policy: Policy, t: int, i: Input, ue: UeState)
    requires Table(i.visible) && !Successful(Step(policy, t, i, ue))
    ensures var u := Step(policy, t, i, ue).ue; u.lastHoTime == ue.lastHoTime && u.lastSrcSat == ue.lastSrcSat
  {
  }

  lemma {:induction false} RememberedSince(policy: Policy, inputs: seq<Input>, k: nat, n: nat)
    requires Tables(inputs) && k <= n <= |inputs| && Quiet(policy, inputs, k, n)
    ensures var before, now := Run(policy, inputs[..k]), Run(policy, inputs[..n]);
      now.lastHoTime == before.lastHoTime && now.lastSrcSat == before.lastSrcSat
    decreases n
  {
    if k < n {
      RememberedSince(policy, inputs, k, n - 1);
      OutcomeIsAStep(policy, inputs, n - 1);
      assert !Successful(OutcomeAt(policy, inputs, n - 1)) && inputs[n - 1] in inputs;
      OnlySuccessesAreRemembered(policy, n - 1, inputs[n - 1], Run(policy, inputs[..n - 1]));
    }
  }

  /** Over a whole run: an attempt after a last success counts as a ping-pong exactly if it goes
      back, within less than ten seconds, to the satellite that success came from. */
  lemma PingPongsExactly(policy: Policy, inputs: seq<Input>, k: nat, n: nat)
    requires Tables(inputs) && k < n < |inputs|
    requires Successful(OutcomeAt(policy, inputs, k)) && Quiet(policy, inputs, k + 1, n)
    requires OutcomeAt(policy, inputs, n).attempted
    ensures inputs[k].visible != []
    ensures OutcomeAt(policy, inputs, n).pingPong
       <==> OutcomeAt(policy, inputs, n).target == ServingAt(policy, inputs, k) && n - k < 10
  {
    OutcomeIsAStep(policy, inputs, k);
    OutcomeIsAStep(policy, inputs, n);
    assert inputs[k] in inputs && inputs[n] in inputs;
    var first := WhatAnAttemptComesTo(policy, k, inputs[k], Run(policy, inputs[..k]));
    RememberedSince(policy, inputs, k + 1, n);
    var b := WhatAnAttemptComesTo(policy, n, inputs[n], Run(policy, inputs[..n]));
  }

  /** Before the first success there is none. */
  lemma NoPingPongBeforeASuccess(policy: Policy, inputs: seq<Input>, n: nat)
    requires Tables(inputs) && n < |inputs| && Quiet(policy, inputs, 0, n)
    requires OutcomeAt(policy, inputs, n).attempted
    ensures !OutcomeAt(policy, inputs, n).pingPong
  {
    OutcomeIsAStep(policy, inputs, n);
    RememberedSince(policy, inputs, 0, n);
    assert inputs[n] in inputs;
    var b := WhatAnAttemptComesTo(policy, n, inputs[n], Run(policy, inputs[..n]));
  }

  // ---------- All terminals ----------

  function Total(ues: seq<UeState>, field: UeState -> nat): nat {
    if ues == [] then 0 else field(ues[0]) + Total(ues[1..], field)
  }

  function HoCount(u: UeState): nat { u.hoCount }
  function HoFails(u: UeState): nat { u.hoFails }
  function PingPongs(u: UeState): nat { u.pingPongs }

  lemma {:induction false} TotalReplaced(ues: seq<UeState>, u: nat, x: UeState, field: UeState -> nat)
    requires u < |ues|
    ensures Total(ues[u := x], field) == Total(ues, field) - field(ues[u]) + field(x)
  {
    if u == 0 {
      assert ues[u := x][1..] == ues[1..];
    } else {
      assert ues[u := x][1..] == ues[1..][u - 1 := x];
      TotalReplaced(ues[1..], u - 1, x, field);
    }
  }

  lemma {:induction false} TotalFresh(n: nat, field: UeState -> nat)
    requires field(FRESH_UE) == 0
    ensures Total(seq(n, _ => FRESH_UE), field) == 0
  {
    if n > 0 {
      assert seq(n, _ => FRESH_UE)[1..] == seq(n - 1, _ => FRESH_UE);
      TotalFresh(n - 1, field);
    }
  }

  class NtnEvaluator {
    const policy: Policy
    var ues: seq<UeState>
    var hoCount: nat
    var hoSuccess: nat
    var hoFail: nat
    var pp: nat

    /** The ledger: global and per-terminal counters agree. */
    ghost predicate Valid()
      reads this
    {
      && hoCount == hoSuccess + hoFail
      && hoCount == Total(ues, HoCount) && hoFail == Total(ues, HoFails) && pp == Total(ues, PingPongs)
    }

    constructor (policy: Policy, n: nat)
      ensures this.policy == policy && ues == seq(n, _ => FRESH_UE) && Valid()
      ensures hoCount == 0
    {
      this.policy := policy;
      ues := seq(n, _ => FRESH_UE);
      hoCount, hoSuccess, hoFail, pp := 0, 0, 0, 0;
      TotalFresh(n, HoCount);
      TotalFresh(n, HoFails);
      TotalFresh(n, PingPongs);
    }

    /** One terminal at one evaluation. */
    method EvaluateUe(u: nat, t: int, i: Input)
      requires u < |ues| && Valid()
      modifies this
      ensures Valid() && ues == old(ues)[u := Step(policy, t, i, old(ues)[u]).ue]
      ensures var o := Step(policy, t, i, old(ues)[u]);
        hoCount == old(hoCount) + (if o.attempted then 1 else 0)
        && hoSuccess == old(hoSuccess) + (if o.attempted && o.success then 1 else 0)
        && pp == old(pp) + (if o.attempted && o.pingPong then 1 else 0)
    {
      if i.visible == [] {
        return;
      }
      ghost var o := Step(policy, t, i, ues[u]);
      var nue := RefreshServing(i.visible, ues[u]);
      var best := ScanCandidates(i.visible, nue.servingSat);
      var s := Decide(t, i.visible, nue, best);
      if s.cell != 0 && s.sat != NO_SAT {
        nue := ExecuteHandover(t, i, nue, s, IsFallback(policy, i.visible, nue));
      }
      assert nue == o.ue;
      StepCounters(policy, t, i, ues[u]);
      TotalReplaced(ues, u, nue, HoCount);
      TotalReplaced(ues, u, nue, HoFails);
      TotalReplaced(ues, u, nue, PingPongs);
      ues := ues[u := nue];
    }

    method ExecuteHandover(t: int, i: Input, before: UeState, s: Selection, ghost fallback: bool) returns (nue: UeState)
      requires s.cell != 0 && s.sat != NO_SAT
      modifies `hoCount, `hoSuccess, `hoFail, `pp
      ensures var o := Execute(t, i, before, s, fallback);
        nue == o.ue && hoCount == old(hoCount) + 1
        && hoSuccess == old(hoSuccess) + (if o.success then 1 else 0)
        && hoFail == old(hoFail) + (if o.success then 0 else 1)
        && pp == old(pp) + (if o.pingPong then 1 else 0)
    {
      var elev := Elevation(i.visible, s.sat);
      hoCount, nue := hoCount + 1, before.(hoCount := before.hoCount + 1);
      var isPingPong := s.sat == nue.lastSrcSat && t - nue.lastHoTime < 10;
      var success := true;
      if s.sinr < -8.0 {
        success := false;
      } else if elev < 12.0 {
        success := i.lucky;
      }
      if success {
        hoSuccess := hoSuccess + 1;
      } else {
        hoFail, nue := hoFail + 1, nue.(hoFails := nue.hoFails + 1);
      }
      if isPingPong {
        pp, nue := pp + 1, nue.(pingPongs := nue.pingPongs + 1);
      }
      if success {
        nue := nue.(lastSrcSat := nue.servingSat, servingSat := s.sat, servingSinr := s.sinr,
                    servingElev := elev, lastHoTime := t);
      }
    }

    /** First assignment, then the current values of the serving satellite. */
    method RefreshServing(visible: seq<SatMeas>, before: UeState) returns (nue: UeState)
      requires visible != []
      ensures nue == Refreshed(visible, before)
    {
      nue := before;
      if nue.servingSat == NO_SAT {
        nue := nue.(servingSat := visible[0].id, servingSinr := visible[0].sinr, servingElev := visible[0].elev);
      }
      var k := 0;
      while k < |visible|
        invariant 0 <= k <= |visible| && forall j | 0 <= j < k :: visible[j].id != nue.servingSat
      {
        if visible[k].id == nue.servingSat {
          assert Find(visible, nue.servingSat) == k;
          nue := nue.(servingSinr := visible[k].sinr, servingElev := visible[k].elev);
          return;
        }
        k := k + 1;
      }
    }

    method ScanCandidates(visible: seq<SatMeas>, serving: nat) returns (best: Best)
      ensures best == BestOf(visible, serving)
    {
      best := Best(0.0, -100.0, 0);
      for k := 0 to |visible|
        invariant best == BestOf(visible[..k], serving)
      {
        assert visible[..k + 1][..k] == visible[..k];
        var m := visible[k];
        if m.id == serving {
          continue;
        }
        var admitted := m.sinr >= -5.0 && m.tte >= 20.0;
        if admitted && m.tte > best.tte {
          best := Best(m.tte, m.sinr, (m.id + 1) % CELLS);
        }
      }
      assert visible[..|visible|] == visible;
    }

    method Decide(t: int, visible: seq<SatMeas>, nue: UeState, best: Best) returns (s: Selection)
      requires visible != [] && best == BestOf(visible, nue.servingSat)
      ensures s == Select(policy, t, visible, nue)
    {
      var servingPoor := nue.servingSinr < -5.0;
      var servingLost := nue.servingSinr < -30.0;
      var neighborBetter := visible[0].id != nue.servingSat && visible[0].sinr > nue.servingSinr + 3.0;
      var hysteresisBlock := policy == TteAware
        && t as real < nue.lastHoTime as real + Min(best.tte * 0.5, 15.0);
      s := NOTHING;
      if (servingPoor || servingLost || neighborBetter) && !hysteresisBlock {
        match policy {
          case TteAware =>
            if best.cell != 0 {
              s := Selection(best.cell, best.cell - 1, best.sinr);
            } else if servingLost {
              s := Selection(CellOf(visible[0].id), visible[0].id, visible[0].sinr);
            }
          case Location =>
            var k := 0;
            while k < |visible|
              invariant 0 <= k <= |visible|
              invariant forall j | 0 <= j < k :: !GoodNeighbour(nue.servingSat)(visible[j])
            {
              if visible[k].id != nue.servingSat && visible[k].sinr >= -5.0 {
                break;
              }
              k := k + 1;
            }
            assert k == First(visible, GoodNeighbour(nue.servingSat));
            s := Choose(visible, k);
          case A3 =>
            var k := 0;
            while k < |visible|
              invariant 0 <= k <= |visible|
              invariant forall j | 0 <= j < k :: !StrongerNeighbour(nue.servingSat, nue.servingSinr)(visible[j])
            {
              if visible[k].id != nue.servingSat && visible[k].sinr > nue.servingSinr + 3.0 {
                break;
              }
              k := k + 1;
            }
            assert k == First(visible, StrongerNeighbour(nue.servingSat, nue.servingSinr));
            s := Choose(visible, k);
          case TimeBased =>
            if t - nue.lastHoTime > 45 {
              s := Selection(CellOf(visible[0].id), visible[0].id, visible[0].sinr);
            }
        }
      }
    }

    method Elevation(visible: seq<SatMeas>, id: nat) returns (elev: real)
      ensures elev == ElevationOf(visible, id)
    {
      elev := 0.0;
      var k := 0;
      while k < |visible|
        invariant 0 <= k <= |visible| && elev == 0.0 && forall j | 0 <= j < k :: visible[j].id != id
      {
        if visible[k].id == id {
          assert Find(visible, id) == k;
          return visible[k].elev;
        }
        k := k + 1;
      }
    }

    /** One evaluation of all terminals. */
    method Evaluate(t: int, inputs: seq<Input>)
      requires |inputs| == |ues| && Valid()
      modifies this
      ensures Valid() && |ues| == old(|ues|)
      ensures forall u | 0 <= u < |ues| :: ues[u] == Step(policy, t, inputs[u], old(ues)[u]).ue
    {
      for u := 0 to |ues|
        invariant Valid() && |ues| == old(|ues|)
        invariant forall v | 0 <= v < u :: ues[v] == Step(policy, t, inputs[v], old(ues)[v]).ue
        invariant forall v | u <= v < |ues| :: ues[v] == old(ues)[v]
      {
        EvaluateUe(u, t, inputs[u]);
      }
    }
  }

  /** The whole simulation: the evaluations at seconds 0, 1, 2, ..., for all terminals. */
  method Simulate(policy: Policy, n: nat, inputs: seq<seq<Input>>) returns (e: NtnEvaluator)
    requires forall k | 0 <= k < |inputs| :: |inputs[k]| == n
    ensures e.Valid() && e.policy == policy && |e.ues| == n
    ensures forall u | 0 <= u < n :: e.ues[u] == Run(policy, SeenBy(inputs, n, u))
  {
    e := new NtnEvaluator(policy, n);
    for t := 0 to |inputs|
      invariant fresh(e) && e.Valid() && e.policy == policy && |e.ues| == n
      invariant forall u | 0 <= u < n :: e.ues[u] == Run(policy, SeenBy(inputs[..t], n, u))
    {
      ghost var before := e.ues;
      e.Evaluate(t, inputs[t]);
      forall u | 0 <= u < n ensures e.ues[u] == Run(policy, SeenBy(inputs[..t + 1], n, u)) {
        var seen := SeenBy(inputs[..t + 1], n, u);
        assert seen[..|seen| - 1] == SeenBy(inputs[..t], n, u) && seen[|seen| - 1] == inputs[t][u];
      }
    }
    assert inputs[..|inputs|] == inputs;
  }

  function SeenBy(inputs: seq<seq<Input>>, n: nat, u: nat): seq<Input>
    requires u < n && forall k | 0 <= k < |inputs| :: |inputs[k]| == n
  {
    seq(|inputs|, k requires 0 <= k < |inputs| => inputs[k][u])
  }
}
