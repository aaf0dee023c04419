/** The per-key GCM budget under concurrency: every interleaving of `AesGcm::encrypt` calls, each
    an atomic fetch-and-add on the key's counter followed by a check of the ticket drawn, with
    keys created, moved and destroyed while no call on them is in flight. A lineage is one key
    in memory, followed through its moves. */
module GcmBudget {
  import opened Bytes
  import opened SecretKeys

  type Lineage = nat
  type ObjectId = nat
  type CallId = nat

  /** A `SecretKey` object: the key it holds (none once wiped by a move) and its counter. */
  datatype Slot = Slot(lineage: Option<Lineage>, count: nat)

  /** A call that has drawn its ticket and not yet checked it. */
  datatype Call = Call(target: ObjectId, lineage: Option<Lineage>, prior: nat)

  datatype State = State(
    slots: map<ObjectId, Slot>,
    inFlight: map<CallId, Call>,
    drawn: map<Lineage, nat>,
    succeeded: map<Lineage, nat>)

  datatype Step =
    | Create(o: ObjectId, l: Lineage)
    | MoveConstruct(src: ObjectId, dst: ObjectId)
    | MoveAssign(src: ObjectId, dst: ObjectId)
    | Destroy(o: ObjectId)
    | DrawTicket(c: CallId, o: ObjectId)
    | CheckTicket(c: CallId)

  predicate Busy(s: State, o: ObjectId) {
    exists c :: c in s.inFlight && s.inFlight[c].target == o
  }

  predicate Enabled(s: State, step: Step) {
    match step
    case Create(o, l) => o !in s.slots && l !in s.drawn
    case MoveConstruct(src, dst) => src in s.slots && dst !in s.slots && !Busy(s, src)
    case MoveAssign(src, dst) => src in s.slots && dst in s.slots && !Busy(s, src) && !Busy(s, dst)
    case Destroy(o) => o in s.slots && !Busy(s, o)
    case DrawTicket(c, o) => c !in s.inFlight && o in s.slots
    case CheckTicket(c) => c in s.inFlight
  }

  /** The moved-from object keeps its counter and loses its key. */
  function Moved(s: State, src: ObjectId, dst: ObjectId): State
    requires src in s.slots
  {
    s.(slots := s.slots[dst := s.slots[src]][src := Slot(None, s.slots[src].count)])
  }

  function Incremented(m: map<Lineage, nat>, l: Option<Lineage>): map<Lineage, nat> {
    if l.Some? && l.value in m then m[l.value := m[l.value] + 1] else m
  }

  function Apply(s: State, step: Step): State
    requires Enabled(s, step)
  {
    match step
    case Create(o, l) =>
      s.(slots := s.slots[o := Slot(Some(l), 0)], drawn := s.drawn[l := 0], succeeded := s.succeeded[l := 0])
    case MoveConstruct(src, dst) => Moved(s, src, dst)
    case MoveAssign(src, dst) => if src == dst then s else Moved(s, src, dst)
    case Destroy(o) => s.(slots := s.slots - {o})
    case DrawTicket(c, o) =>
      var slot := s.slots[o];
      s.(slots := s.slots[o := slot.(count := (slot.count + 1) % TWO_64)],
         inFlight := s.inFlight[c := Call(o, slot.lineage, slot.count)],
         drawn := Incremented(s.drawn, slot.lineage))
    case CheckTicket(c) =>
      var call := s.inFlight[c];
      s.(inFlight := s.inFlight - {c},
         succeeded := if PassesCheck(call.prior) then Incremented(s.succeeded, call.lineage) else s.succeeded)
  }

  const INITIAL: State := State(map[], map[], map[], map[])

  /** The state after a sequence of steps, if every one of them was enabled. */
  function Run(steps: seq<Step>): Option<State> {
    if steps == [] then Some(INITIAL)
    else
      var before := Run(steps[..|steps| - 1]);
      if before.Some? && Enabled(before.value, steps[|steps| - 1])
      then Some(Apply(before.value, steps[|steps| - 1])) else None
  }

  // ----- How many tickets pass the check -----

  /** Of the first n tickets, those whose 64-bit value is below the limit. */
  function Accepted(n: nat): nat {
    if n == 0 then 0 else Accepted(n - 1) + if PassesCheck((n - 1) % TWO_64) then 1 else 0
  }

  lemma {:induction false} AcceptedFirst(n: nat)
    requires n <= TWO_64
    ensures Accepted(n) == if n < GCM_INVOCATION_LIMIT then n else GCM_INVOCATION_LIMIT
  {
    if n > 0 {
      AcceptedFirst(n - 1);
    }
  }

  lemma {:induction false} AcceptedGrows(m: nat, n: nat)
    requires m <= n
    ensures Accepted(m) <= Accepted(n)
    decreases n
  {
    if m < n {
      AcceptedGrows(m, n - 1);
    }
  }

  /** The limit holds exactly until the 64-bit counter has gone all the way round. */
  lemma LimitHoldsIff(n: nat)
    ensures Accepted(n) <= 0x1_0000_0000 <==> n <= 0x1_0000_0000_0000_0000
  {
    AcceptedFirst(TWO_64);
    if n <= TWO_64 {
      AcceptedFirst(n);
    } else {
      AcceptedNext(TWO_64);
      AcceptedGrows(TWO_64 + 1, n);
    }
  }

  lemma AcceptedNext(n: nat)
    ensures Accepted(n + 1) == Accepted(n) + if PassesCheck(n % TWO_64) then 1 else 0
  {
  }

  // ----- The invariant -----

  predicate Passes(call: Call, l: Lineage) {
    call.lineage == Some(l) && PassesCheck(call.prior)
  }

  /** Calls on a lineage whose ticket will pass. */
  function Passing(inFlight: map<CallId, Call>, l: Lineage): set<CallId> {
    set c | c in inFlight && Passes(inFlight[c], l)
  }

  lemma PassingAdds(inFlight: map<CallId, Call>, c: CallId, call: Call, l: Lineage)
    requires c !in inFlight
    ensures |Passing(inFlight[c := call], l)| == |Passing(inFlight, l)| + if Passes(call, l) then 1 else 0
  {
    hide Passes;
    var before, after := Passing(inFlight, l), Passing(inFlight[c := call], l);
    assert after == if Passes(call, l) then before + {c} else before;
  }

  lemma PassingRemoves(inFlight: map<CallId, Call>, c: CallId, l: Lineage)
    requires c in inFlight
    ensures |Passing(inFlight, l)| == |Passing(inFlight - {c}, l)| + if Passes(inFlight[c], l) then 1 else 0
  {
    hide Passes;
    var before, after := Passing(inFlight, l), Passing(inFlight - {c}, l);
    assert before == if Passes(inFlight[c], l) then after + {c} else after;
  }

  /** Each key is in at most one object. */
  ghost predicate OneHolder(s: State) {
    forall o, o' :: o in s.slots && o' in s.slots && s.slots[o].lineage.Some? && s.slots[o].lineage == s.slots[o'].lineage ==> o == o'
  }

  /** The counter of the object holding a key is the number of tickets drawn on it, modulo 2^64. */
  ghost predicate CountersAgree(s: State) {
    forall o :: o in s.slots && s.slots[o].lineage.Some? ==>
      s.slots[o].lineage.value in s.drawn && s.slots[o].count == s.drawn[s.slots[o].lineage.value] % TWO_64
  }

  ghost predicate Known(s: State) {
    && s.drawn.Keys == s.succeeded.Keys
    && forall c :: c in s.inFlight && s.inFlight[c].lineage.Some? ==> s.inFlight[c].lineage.value in s.drawn
  }

  /** Successes plus calls about to succeed are the tickets that pass. */
  ghost predicate Tallies(s: State, l: Lineage) {
    l in s.drawn && l in s.succeeded && s.succeeded[l] + |Passing(s.inFlight, l)| == Accepted(s.drawn[l])
  }

  ghost predicate Inv(s: State) {
    OneHolder(s) && CountersAgree(s) && Known(s) && forall l :: l in s.drawn ==> Tallies(s, l)
  }

  lemma CreateKeepsInv(s: State, o: ObjectId, l: Lineage)
    requires Inv(s) && Enabled(s, Create(o, l))
    ensures Inv(Apply(s, Create(o, l)))
  {
    var t := Apply(s, Create(o, l));
    assert Passing(s.inFlight, l) == {};
    forall k | k in t.drawn
      ensures Tallies(t, k)
    {
      assert k != l ==> Tallies(s, k);
    }
  }

  lemma MoveKeepsInv(s: State, src: ObjectId, dst: ObjectId)
    requires Inv(s) && src in s.slots && src != dst
    ensures Inv(Moved(s, src, dst))
  {
    hide Accepted;
    var t := Moved(s, src, dst);
    forall l | l in t.drawn
      ensures Tallies(t, l)
    {
      assert Tallies(s, l);
    }
  }

  lemma DestroyKeepsInv(s: State, o: ObjectId)
    requires Inv(s) && o in s.slots
    ensures Inv(s.(slots := s.slots - {o}))
  {
    hide Accepted;
    var t := s.(slots := s.slots - {o});
    forall l | l in t.drawn
      ensures Tallies(t, l)
    {
      assert Tallies(s, l);
    }
  }

  lemma DrawTallies(s: State, c: CallId, o: ObjectId, l: Lineage)
    requires Enabled(s, DrawTicket(c, o)) && Tallies(s, l)
    requires s.slots[o].lineage == Some(l) ==> s.slots[o].count == s.drawn[l] % TWO_64
    ensures Tallies(Apply(s, DrawTicket(c, o)), l)
  {
    hide Accepted, Passing;
    var slot := s.slots[o];
    PassingAdds(s.inFlight, c, Call(o, slot.lineage, slot.count), l);
    AcceptedNext(s.drawn[l]);
  }

  lemma DrawCounters(s: State, c: CallId, o: ObjectId)
    requires OneHolder(s) && CountersAgree(s) && Enabled(s, DrawTicket(c, o))
    ensures OneHolder(Apply(s, DrawTicket(c, o))) && CountersAgree(Apply(s, DrawTicket(c, o)))
  {
  }

  lemma DrawKeepsInv(s: State, c: CallId, o: ObjectId)
    requires Inv(s) && Enabled(s, DrawTicket(c, o))
    ensures Inv(Apply(s, DrawTicket(c, o)))
  {
    hide Accepted, Passing;
    DrawCounters(s, c, o);
    var t := Apply(s, DrawTicket(c, o));
    assert t.drawn.Keys == s.drawn.Keys;
    forall l | l in t.drawn
      ensures Tallies(t, l)
    {
      assert Tallies(s, l);
      DrawTallies(s, c, o, l);
    }
  }

  lemma CheckKeepsInv(s: State, c: CallId)
    requires Inv(s) && c in s.inFlight
    ensures Inv(Apply(s, CheckTicket(c)))
  {
    hide Accepted, Passing;
    var t := Apply(s, CheckTicket(c));
    assert t.succeeded.Keys == s.succeeded.Keys;
    forall l | l in t.drawn
      ensures Tallies(t, l)
    {
      assert Tallies(s, l);
      PassingRemoves(s.inFlight, c, l);
    }
  }

  lemma StepKeepsInv(s: State, step: Step)
    requires Inv(s) && Enabled(s, step)
    ensures Inv(Apply(s, step))
  {
    hide Inv;
    match step
    case Create(o, l) => CreateKeepsInv(s, o, l);
    case MoveConstruct(src, dst) => MoveKeepsInv(s, src, dst);
    case MoveAssign(src, dst) => if src != dst { MoveKeepsInv(s, src, dst); }
    case Destroy(o) => DestroyKeepsInv(s, o);
    case DrawTicket(c, o) => DrawKeepsInv(s, c, o);
    case CheckTicket(c) => CheckKeepsInv(s, c);
  }

  lemma {:induction false} RunKeepsInv(steps: seq<Step>)
    ensures Run(steps).Some? ==> Inv(Run(steps).value)
  {
    hide Inv;
    if steps == [] {
      InitialInv();
    } else {
      var before := steps[..|steps| - 1];
      RunKeepsInv(before);
      if Run(steps).Some? {
        StepKeepsInv(Run(before).value, steps[|steps| - 1]);
      }
    }
  }

  lemma InitialInv()
    ensures Inv(INITIAL)
  {
  }

  /** Over every run: a lineage's successes never exceed what its tickets allow, equal it once no
      call is in flight, and stay within 2^32 while at most 2^64 tickets have been drawn. */
  lemma BudgetHolds(steps: seq<Step>, l: Lineage)
    requires Run(steps).Some? && l in Run(steps).value.drawn
    ensures l in Run(steps).value.succeeded
    ensures Run(steps).value.succeeded[l] <= Accepted(Run(steps).value.drawn[l])
    ensures Run(steps).value.inFlight == map[] ==> Run(steps).value.succeeded[l] == Accepted(Run(steps).value.drawn[l])
    ensures Run(steps).value.drawn[l] <= 0x1_0000_0000_0000_0000 ==> Run(steps).value.succeeded[l] <= 0x1_0000_0000
  {
    hide Run, Accepted;
    RunKeepsInv(steps);
    var s := Run(steps).value;
    LimitHoldsIff(s.drawn[l]);
    assert Tallies(s, l);
    if s.inFlight == map[] {
      assert Passing(s.inFlight, l) == {};
    }
  }

  // ----- The bound is reached -----

  /** One key, used n times by one caller after another. */
  function UseTimes(n: nat): seq<Step> {
    if n == 0 then [Create(0, 0)] else UseTimes(n - 1) + [DrawTicket(0, 0), CheckTicket(0)]
  }

  /** The state that leads to. */
  function Used(n: nat): State {
    State(map[0 := Slot(Some(0), n % TWO_64)], map[], map[0 := n], map[0 := Accepted(n)])
  }

  lemma UseOnce(n: nat)
    ensures Enabled(Used(n), DrawTicket(0, 0))
    ensures
      var s := Apply(Used(n), DrawTicket(0, 0));
      Enabled(s, CheckTicket(0)) && Apply(s, CheckTicket(0)) == Used(n + 1)
  {
    hide Accepted;
    AcceptedNext(n);
    var s := Apply(Used(n), DrawTicket(0, 0));
    assert s.slots == Used(n + 1).slots && s.drawn == Used(n + 1).drawn;
    var t := Apply(s, CheckTicket(0));
    assert t.succeeded == Used(n + 1).succeeded && t.inFlight == map[];
  }

  lemma {:induction false} UsedTimes(n: nat)
    ensures Run(UseTimes(n)) == Some(Used(n))
  {
    hide Accepted, Apply, Enabled;
    if n == 0 {
      RunNone(UseTimes(0)[..0]);
      AcceptedNone();
      assert Enabled(INITIAL, Create(0, 0)) && Apply(INITIAL, Create(0, 0)) == Used(0) by { Created(); }
    } else {
      UsedTimes(n - 1);
      UseOnce(n - 1);
      var before := UseTimes(n - 1);
      RunNext(before, DrawTicket(0, 0));
      RunNext(before + [DrawTicket(0, 0)], CheckTicket(0));
      assert UseTimes(n) == before + [DrawTicket(0, 0)] + [CheckTicket(0)];
    }
  }

  lemma Created()
    ensures Enabled(INITIAL, Create(0, 0)) && Apply(INITIAL, Create(0, 0)) == Used(0)
  {
    AcceptedNone();
  }

  lemma AcceptedNone()
    ensures Accepted(0) == 0
  {
  }

  lemma RunNone(steps: seq<Step>)
    requires steps == []
    ensures Run(steps) == Some(INITIAL)
  {
  }

  lemma RunNext(steps: seq<Step>, step: Step)
    requires Run(steps).Some? && Enabled(Run(steps).value, step)
    ensures Run(steps + [step]) == Some(Apply(Run(steps).value, step))
  {
    hide Enabled, Apply;
    assert (steps + [step])[..|steps|] == steps;
  }

  /** For every n some run draws n tickets on a key and grants all that pass: 2^32 encryptions can
      succeed, and with 2^64 + 1 tickets one more does. */
  lemma BudgetIsReached(n: nat)
    ensures exists steps ::
      && Run(steps).Some? && 0 in Run(steps).value.drawn && 0 in Run(steps).value.succeeded
      && Run(steps).value.drawn[0] == n && Run(steps).value.succeeded[0] == Accepted(n)
  {
    hide Run, Accepted;
    UsedTimes(n);
    assert Run(UseTimes(n)).Some?;
  }

  /** How many of n tickets pass: all until the limit, then none until the counter wraps. */
  lemma TicketsThatPass(n: nat)
    ensures n <= 0x1_0000_0000 ==> Accepted(n) == n
    ensures 0x1_0000_0000 <= n <= 0x1_0000_0000_0000_0000 ==> Accepted(n) == 0x1_0000_0000
    ensures n > 0x1_0000_0000_0000_0000 ==> Accepted(n) > 0x1_0000_0000
  {
    hide Accepted;
    if n <= TWO_64 {
      AcceptedFirst(n);
    }
    LimitHoldsIff(n);
  }
}
