/** Handing out pairs of RTP and RTCP ports to sessions (libmedia/MediaController.cxx). */
module PortAllocation {
  import opened Options

  /** The ports that can be handed out, the next session id, and who holds what. */
  datatype Allocator = Allocator(ports: seq<int>, next: int, held: map<int, int>) {

    predicate IsFree(k: nat, taken: set<int>)
      requires k < |ports|
    {
      !IsHeld(ports[k]) && ports[k] !in taken
    }

    predicate IsHeld(port: int) { exists id :: id in held && held[id] == port }

    /** The first port that no session holds and that the probe does not find taken. */
    function FirstFree(taken: set<int>, from: nat := 0): (k: nat)
      requires from <= |ports|
      ensures from <= k <= |ports| && (k < |ports| ==> IsFree(k, taken))
      ensures forall i :: from <= i < k ==> !IsFree(i, taken)
      decreases |ports| - from
    {
      if from == |ports| || IsFree(from, taken) then from else FirstFree(taken, from + 1)
    }

    /** A session id is used up even when no port is free. */
    function Create(taken: set<int>): (r: (Allocator, Option<int>)) {
      var k := FirstFree(taken);
      if k == |ports| then (this.(next := next + 1), None)
      else (Allocator(ports, next + 1, held[next := ports[k]]), Some(next))
    }

    function Free(id: int): Allocator {
      this.(held := held - {id})
    }

    /** Ports are two apart; sessions have ids given out before and hold different ports. */
    predicate Safe() {
      && (forall i, j :: 0 <= i < j < |ports| ==> ports[i] + 2 <= ports[j])
      && (forall id :: id in held ==> id < next && held[id] in ports)
      && forall a, b :: a in held && b in held && a != b ==> held[a] != held[b]
    }
  }

  datatype Operation = Creating(taken: set<int>) | Freeing(id: int)

  function Step(a: Allocator, op: Operation): Allocator {
    match op
    case Creating(taken) => a.Create(taken).0
    case Freeing(id) => a.Free(id)
  }

  function Run(a: Allocator, ops: seq<Operation>): Allocator
    decreases |ops|
  {
    if ops == [] then a else Run(Step(a, ops[0]), ops[1..])
  }

  /** A new session gets the first port of the list that no session holds and that is not
      taken; there is none exactly when each port is held or taken.  Nothing else changes. */
  lemma {:induction false} CreateIsExact(a: Allocator, taken: set<int>)
    ensures var (b, id) := a.Create(taken);
      && b.ports == a.ports && b.next == a.next + 1
      && (id.None? <==> forall k :: 0 <= k < |a.ports| ==>
            a.ports[k] in taken || exists i :: i in a.held && a.held[i] == a.ports[k])
      && (id.None? ==> b.held == a.held)
      && (id.Some? ==>
            && id.value == a.next && id.value in b.held && b.held == a.held[id.value := b.held[id.value]]
            && exists k :: 0 <= k < |a.ports| && a.ports[k] == b.held[id.value]
                 && a.ports[k] !in taken && (forall i :: i in a.held ==> a.held[i] != a.ports[k])
                 && forall j :: 0 <= j < k ==>
                      a.ports[j] in taken || exists i :: i in a.held && a.held[i] == a.ports[j])
  {
    var k := a.FirstFree(taken);
    forall j | 0 <= j < k ensures a.ports[j] in taken || exists i :: i in a.held && a.held[i] == a.ports[j] {
      assert !a.IsFree(j, taken);
    }
    if k < |a.ports| {
      assert a.IsFree(k, taken);
      forall i | i in a.held ensures a.held[i] != a.ports[k] {}
      assert a.ports[k] == a.Create(taken).0.held[a.next];
    }
  }

  lemma {:induction false} CreateIsSafe(a: Allocator, taken: set<int>)
    requires a.Safe()
    ensures a.Create(taken).0.Safe()
    ensures a.Create(taken).1.Some? ==> a.Create(taken).1.value == a.next && a.next !in a.held
  {
    var k := a.FirstFree(taken);
    if k < |a.ports| {
      assert a.IsFree(k, taken);
    }
  }

  /** Over every run, live sessions have distinct ids and hold disjoint pairs of ports. */
  lemma {:induction false} RunIsSafe(a: Allocator, ops: seq<Operation>)
    requires a.Safe()
    ensures Run(a, ops).Safe() && Run(a, ops).next >= a.next && Run(a, ops).ports == a.ports
    decreases |ops|
  {
    if ops != [] {
      if ops[0].Creating? {
        CreateIsSafe(a, ops[0].taken);
      }
      RunIsSafe(Step(a, ops[0]), ops[1..]);
    }
  }

  lemma {:induction false} PairsAreDisjoint(a: Allocator, x: int, y: int)
    requires a.Safe() && x in a.held && y in a.held && x != y
    ensures {a.held[x], a.held[x] + 1} !! {a.held[y], a.held[y] + 1}
  {
    var i :| 0 <= i < |a.ports| && a.ports[i] == a.held[x];
    var j :| 0 <= j < |a.ports| && a.ports[j] == a.held[y];
    assert i < j || j < i;
  }

  /** No id is ever given out twice: a later session has a larger one. */
  lemma {:induction false} IdsIncrease(a: Allocator, taken: set<int>, ops: seq<Operation>, taken': set<int>)
    requires a.Safe()
    ensures var (b, first) := a.Create(taken);
      var second := Run(b, ops).Create(taken').1;
      first.Some? && second.Some? ==> first.value < second.value
  {
    CreateIsSafe(a, taken);
    RunIsSafe(a.Create(taken).0, ops);
  }

  /** Creation fails just when every port is held or taken. */
  lemma {:induction false} CreateFailsWhenFull(a: Allocator, taken: set<int>)
    ensures a.Create(taken).1.None? <==>
      forall p :: p in a.ports ==> p in taken || exists i :: i in a.held && a.held[i] == p
  {
    CreateIsExact(a, taken);
  }

  /** Freeing a session undoes creating it, but for the id. */
  lemma {:induction false} FreeUndoesCreate(a: Allocator, taken: set<int>)
    requires a.Safe()
    ensures var (b, id) := a.Create(taken);
      id.Some? ==> b.Free(id.value) == a.(next := a.next + 1)
  {
    CreateIsSafe(a, taken);
    var k := a.FirstFree(taken);
    if k < |a.ports| {
      assert a.held[a.next := a.ports[k]] - {a.next} == a.held;
    }
  }

  /** The port of a freed session is available again: the next creation takes it or one
      that comes before it. */
  lemma {:induction false} FreedIsAvailable(a: Allocator, id: int, taken: set<int>, k: nat)
    requires a.Safe() && id in a.held && k < |a.ports| && a.ports[k] == a.held[id] && a.held[id] !in taken
    ensures var b := a.Free(id);
      b.Create(taken).1.Some? && b.FirstFree(taken) <= k
      && ((forall i :: 0 <= i < k ==> !b.IsFree(i, taken)) ==> b.Create(taken).0.held[b.next] == a.held[id])
  {
    var b := a.Free(id);
    assert b.IsFree(k, taken);
  }
}
