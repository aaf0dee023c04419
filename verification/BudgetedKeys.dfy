/** The steps of `GcmBudget` carried out on `SecretKey` objects: each is one call of the class, and
    the objects, their counters and the tickets drawn stay what the transition system says. */
module BudgetedKeys {
  import opened Bytes
  import opened Aes
  import opened SecretKeys
  import opened GcmBudget

  type Storage = s: seq<Byte> | |s| == 32 witness Zeros(32)

  /** The storage and size a lineage was created with. */
  datatype Material = Material(bytes: Storage, size: KeySize)

  /** Objects alive and tickets drawn but not yet checked. */
  datatype World = World(objects: map<ObjectId, SecretKey>, tickets: map<CallId, nat>)

  /** The object has the slot's counter and its lineage's key unchanged, or is wiped. */
  ghost predicate Agrees(key: SecretKey, slot: Slot, material: map<Lineage, Material>)
    reads key
  {
    && key.Valid()
    && key.gcmInvocations == slot.count
    && match slot.lineage
       case None => key.bytes == Zeros(32)
       case Some(l) => l in material && key.bytes == material[l].bytes && key.size == material[l].size
  }

  ghost predicate NoAliases(objects: map<ObjectId, SecretKey>) {
    forall o, o' :: o in objects && o' in objects && objects[o] == objects[o'] ==> o == o'
  }

  ghost predicate Represents(w: World, material: map<Lineage, Material>, s: State)
    reads w.objects.Values
  {
    && w.objects.Keys == s.slots.Keys
    && w.tickets.Keys == s.inFlight.Keys
    && material.Keys == s.drawn.Keys
    && NoAliases(w.objects)
    && (forall o :: o in w.objects ==> Agrees(w.objects[o], s.slots[o], material))
    && forall c :: c in w.tickets ==> w.tickets[c] == s.inFlight[c].prior
  }

  method GenerateKey(random: Storage, size: KeySize, ghost material: map<Lineage, Material>, ghost l: Lineage) returns (key: SecretKey)
    ensures fresh(key) && Agrees(key, Slot(Some(l), 0), material[l := Material(random, size)])
  {
    key := new SecretKey.Generate(size, random);
  }

  lemma StillAgrees(key: SecretKey, slot: Slot, material: map<Lineage, Material>, l: Lineage, m: Material)
    requires Agrees(key, slot, material) && l !in material
    ensures Agrees(key, slot, material[l := m])
  {
  }

  method CreateKey(w: World, ghost material: map<Lineage, Material>, ghost s: State, o: ObjectId, l: Lineage, random: Storage, size: KeySize)
    returns (w': World, ghost material': map<Lineage, Material>)
    requires Represents(w, material, s) && Enabled(s, Create(o, l))
    ensures Represents(w', material', Apply(s, Create(o, l)))
    ensures material' == material[l := Material(random, size)]
    ensures forall p :: p in w'.objects ==> w'.objects[p] in w.objects.Values || fresh(w'.objects[p])
  {
    hide NoAliases, Agrees;
    var key := GenerateKey(random, size, material, l);
    material' := material[l := Material(random, size)];
    AddObject(w.objects, o, key);
    forall p | p in w.objects
      ensures Agrees(w.objects[p], s.slots[p], material')
    {
      StillAgrees(w.objects[p], s.slots[p], material, l, Material(random, size));
    }
    w' := w.(objects := w.objects[o := key]);
  }

  method ConstructFrom(src: SecretKey, ghost material: map<Lineage, Material>, ghost from: Slot) returns (dst: SecretKey)
    requires Agrees(src, from, material)
    modifies src
    ensures fresh(dst) && Agrees(dst, from, material) && Agrees(src, Slot(None, from.count), material)
  {
    dst := new SecretKey.MoveFrom(src);
  }

  lemma AddObject(objects: map<ObjectId, SecretKey>, o: ObjectId, key: SecretKey)
    requires NoAliases(objects) && key !in objects.Values
    ensures NoAliases(objects[o := key])
  {
  }

  method MoveConstructKey(w: World, ghost material: map<Lineage, Material>, ghost s: State, src: ObjectId, dst: ObjectId)
    returns (w': World)
    requires Represents(w, material, s) && Enabled(s, MoveConstruct(src, dst))
    modifies w.objects.Values
    ensures Represents(w', material, Apply(s, MoveConstruct(src, dst)))
    ensures forall p :: p in w'.objects ==> w'.objects[p] in w.objects.Values || fresh(w'.objects[p])
  {
    hide NoAliases, Agrees;
    Unaliased(w.objects);
    var key := ConstructFrom(w.objects[src], material, s.slots[src]);
    AddObject(w.objects, dst, key);
    w' := w.(objects := w.objects[dst := key]);
  }

  /** One move assignment: key and count go along, the source is wiped, a self-move is no move. */
  method AssignFrom(src: SecretKey, dst: SecretKey, ghost material: map<Lineage, Material>, ghost from: Slot, ghost to: Slot)
    requires Agrees(src, from, material) && Agrees(dst, to, material)
    modifies src, dst
    ensures Agrees(dst, from, material)
    ensures src != dst ==> Agrees(src, Slot(None, from.count), material)
  {
    dst.MoveAssign(src);
  }

  method MoveAssignKey(w: World, ghost material: map<Lineage, Material>, ghost s: State, src: ObjectId, dst: ObjectId)
    requires Represents(w, material, s) && Enabled(s, MoveAssign(src, dst))
    modifies w.objects.Values
    ensures Represents(w, material, Apply(s, MoveAssign(src, dst)))
  {
    hide NoAliases, Agrees;
    Unaliased(w.objects);
    AssignFrom(w.objects[src], w.objects[dst], material, s.slots[src], s.slots[dst]);
  }

  method DestroyKey(w: World, ghost material: map<Lineage, Material>, ghost s: State, o: ObjectId) returns (w': World)
    requires Represents(w, material, s) && Enabled(s, Destroy(o))
    modifies w.objects.Values
    ensures Represents(w', material, Apply(s, Destroy(o)))
    ensures w.objects[o].bytes == Zeros(32) && w'.objects == w.objects - {o}
  {
    w.objects[o].Wipe();
    w' := w.(objects := w.objects - {o});
  }

  /** One fetch-and-add on one object. */
  method DrawFrom(key: SecretKey, ghost material: map<Lineage, Material>, ghost slot: Slot) returns (prior: nat)
    requires Agrees(key, slot, material)
    modifies key
    ensures prior == slot.count && Agrees(key, slot.(count := (slot.count + 1) % TWO_64), material)
  {
    prior := key.ConsumeGcmInvocation();
  }

  method DrawTicketOn(w: World, ghost material: map<Lineage, Material>, ghost s: State, c: CallId, o: ObjectId) returns (w': World)
    requires Represents(w, material, s) && Enabled(s, DrawTicket(c, o))
    modifies w.objects.Values
    ensures Represents(w', material, Apply(s, DrawTicket(c, o)))
    ensures w'.objects == w.objects
  {
    hide Incremented, NoAliases, Agrees;
    IncrementedKeys(s.drawn, s.slots[o].lineage);
    Unaliased(w.objects);
    var prior := DrawFrom(w.objects[o], material, s.slots[o]);
    w' := w.(tickets := w.tickets[c := prior]);
  }

  lemma IncrementedKeys(m: map<Lineage, nat>, l: Option<Lineage>)
    ensures Incremented(m, l).Keys == m.Keys
  {
  }

  lemma Unaliased(objects: map<ObjectId, SecretKey>)
    requires NoAliases(objects)
    ensures forall o, o' :: o in objects && o' in objects && o != o' ==> objects[o] != objects[o']
  {
  }

  /** The answer is the one the transition system counts as a success. */
  method CheckTicketOf(w: World, ghost material: map<Lineage, Material>, ghost s: State, c: CallId) returns (w': World, accepted: bool)
    requires Represents(w, material, s) && Enabled(s, CheckTicket(c))
    ensures Represents(w', material, Apply(s, CheckTicket(c)))
    ensures w'.objects == w.objects
    ensures Apply(s, CheckTicket(c)).succeeded
         == if accepted then Incremented(s.succeeded, s.inFlight[c].lineage) else s.succeeded
  {
    accepted := PassesCheck(w.tickets[c]);
    w' := w.(tickets := w.tickets - {c});
  }

  /** Any step, carried out on the objects, leads where the transition system says. */
  method PerformStep(w: World, ghost material: map<Lineage, Material>, ghost s: State, step: Step, random: Storage, size: KeySize)
    returns (w': World, ghost material': map<Lineage, Material>, accepted: bool)
    requires Represents(w, material, s) && Enabled(s, step)
    modifies w.objects.Values
    ensures Represents(w', material', Apply(s, step))
    ensures forall l :: l in material ==> l in material' && material'[l] == material[l]
    ensures forall p :: p in w'.objects ==> w'.objects[p] in w.objects.Values || fresh(w'.objects[p])
    ensures Apply(s, step).succeeded == Tallied(s.succeeded, s, step, accepted)
  {
    hide Represents, Enabled;
    material', accepted := material, false;
    match step
    case Create(o, l) =>
      FreshLineage(w, material, s, o, l);
      w', material' := CreateKey(w, material, s, o, l, random, size);
    case MoveConstruct(src, dst) => w' := MoveConstructKey(w, material, s, src, dst);
    case MoveAssign(src, dst) =>
      MoveAssignKey(w, material, s, src, dst);
      w' := w;
    case Destroy(o) => w' := DestroyKey(w, material, s, o);
    case DrawTicket(c, o) => w' := DrawTicketOn(w, material, s, c, o);
    case CheckTicket(c) => w', accepted := CheckTicketOf(w, material, s, c);
  }

  lemma FreshLineage(w: World, material: map<Lineage, Material>, s: State, o: ObjectId, l: Lineage)
    requires Represents(w, material, s) && Enabled(s, Create(o, l))
    ensures l !in material
  {
  }

  /** The successes per lineage, counted from the answers the checks gave. */
  ghost function Tallied(granted: map<Lineage, nat>, s: State, step: Step, accepted: bool): map<Lineage, nat>
    requires Enabled(s, step)
  {
    match step
    case Create(o, l) => granted[l := 0]
    case CheckTicket(c) => if accepted then Incremented(granted, s.inFlight[c].lineage) else granted
    case _ => granted
  }

  lemma RunPrefix(steps: seq<Step>, i: nat)
    requires Run(steps).Some? && i < |steps|
    ensures Run(steps[..i]).Some? && Enabled(Run(steps[..i]).value, steps[i])
    ensures Run(steps[..i + 1]) == Some(Apply(Run(steps[..i]).value, steps[i]))
    decreases |steps|
  {
    hide Enabled, Apply;
    var front := steps[..|steps| - 1];
    if i < |front| {
      RunPrefix(front, i);
      assert front[..i] == steps[..i] && front[..i + 1] == steps[..i + 1];
    } else {
      assert steps[..i] == front && steps[..i + 1] == steps;
    }
  }

  /** The successes per lineage over a whole run, counted from the answers, one per step. */
  ghost function Granted(steps: seq<Step>, answers: seq<bool>): map<Lineage, nat>
    requires |answers| == |steps| && Run(steps).Some?
  {
    if steps == [] then map[]
    else
      var last := |steps| - 1;
      Tallied(Granted(steps[..last], answers[..last]), Run(steps[..last]).value, steps[last], answers[last])
  }

  lemma GrantedNext(steps: seq<Step>, answers: seq<bool>, answer: bool)
    requires |steps| == |answers| + 1 && Run(steps).Some?
    ensures Granted(steps, answers + [answer])
         == Tallied(Granted(steps[..|answers|], answers), Run(steps[..|answers|]).value, steps[|answers|], answer)
  {
    hide Tallied, Enabled, Apply;
    assert (answers + [answer])[..|answers|] == answers;
  }

  /** Every run, carried out on key objects from nothing: objects, counters and key bytes end as the
      transition system says, and per key at most 2^32 checks answer yes while at most 2^64
      tickets are drawn. */
  method PerformRun(steps: seq<Step>, random: nat -> Storage, size: nat -> KeySize)
    returns (w: World, answers: seq<bool>, ghost material: map<Lineage, Material>)
    requires Run(steps).Some?
    ensures Represents(w, material, Run(steps).value)
    ensures |answers| == |steps| && Granted(steps, answers) == Run(steps).value.succeeded
    ensures
      var drawn, granted := Run(steps).value.drawn, Granted(steps, answers);
      forall l :: l in drawn && drawn[l] <= 0x1_0000_0000_0000_0000 ==> l in granted && granted[l] <= 0x1_0000_0000
  {
    hide Represents, Enabled, Apply, Run, Tallied, Granted;
    w, answers, material := World(map[], map[]), [], map[];
    StartOfRun(w, steps);
    for i := 0 to |steps|
      invariant Run(steps[..i]).Some? && Represents(w, material, Run(steps[..i]).value)
      invariant |answers| == i && Granted(steps[..i], answers) == Run(steps[..i]).value.succeeded
      invariant forall p :: p in w.objects ==> fresh(w.objects[p])
    {
      RunPrefix(steps, i);
      ghost var s := Run(steps[..i]).value;
      var accepted;
      w, material, accepted := PerformStep(w, material, s, steps[i], random(i), size(i));
      assert steps[..i + 1][..i] == steps[..i];
      GrantedNext(steps[..i + 1], answers, accepted);
      answers := answers + [accepted];
    }
    assert steps[..|steps|] == steps;
    ghost var drawn := Run(steps).value.drawn;
    forall l | l in drawn && drawn[l] <= TWO_64
      ensures l in Granted(steps, answers) && Granted(steps, answers)[l] <= GCM_INVOCATION_LIMIT
    {
      BudgetHolds(steps, l);
    }
  }

  lemma StartOfRun(w: World, steps: seq<Step>)
    requires w == World(map[], map[])
    ensures Run(steps[..0]) == Some(INITIAL) && Represents(w, map[], INITIAL)
    ensures Granted(steps[..0], []) == INITIAL.succeeded
  {
  }
}
