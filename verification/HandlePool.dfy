// Handles and the pool that owns them (handles.c): creation links a handle in front of its
// pool, closing runs the callbacks and unlinks it, and closing the pool drains the list by
// closing its first handle until none is left.
module HandlePool {
  import opened TailQueue

  // dwType: APXHANDLE_TYPE_POOL, APXHANDLE_TYPE_INVALID, or any other type but that of a
  // Windows handle.
  datatype Kind = Plain | PoolKind | Invalid

  // fnCallback: __apxHandleCallback or a callback of the user.
  datatype Callback = Default | User(id: nat)

  // A callback that ran with WM_CLOSE: the handle's own, or one of its hooks.
  datatype Call = Main(handle: Handle) | Hook(handle: Handle, id: nat)

  class Journal {
    var calls: seq<Call>
  }

  class Handle {
    var dwType: Kind
    const fnCallback: Callback
    var lCallbacks: seq<nat>
    var queue: Node?<Handle>
    ghost const serial: nat

    constructor (fnCallback: Callback, ghost serial: nat)
      ensures dwType == Plain && this.fnCallback == fnCallback && lCallbacks == []
      ensures this.serial == serial
      ensures fresh(queue) && queue != null && queue.elem == this
    {
      dwType := Plain;
      this.fnCallback := fnCallback;
      this.serial := serial;
      lCallbacks := [];
      new;
      queue := new Node(this);
    }

    // The callback and the hooks, in the order in which apxCloseHandle runs them. The
    // default callback invalidates the handle; a hook is taken off the list when it has run.
    method RunCallbacks(journal: Journal)
      modifies this, journal
      ensures journal.calls == old(journal.calls + CloseCalls(this))
      ensures RanInOrder(old(journal.calls), journal.calls, this, old(lCallbacks))
      ensures queue == old(queue) && lCallbacks == []
      ensures dwType == if fnCallback.Default? then Invalid else old(dwType)
    {
      ghost var hooks, calls0 := lCallbacks, journal.calls;
      CloseCallsAre(this);
      ghost var calls := CloseCalls(this);
      hide CloseCalls;
      journal.calls := journal.calls + [Main(this)];
      RanNone(calls0, this, hooks);
      hide RanInOrder;
      if fnCallback.Default? {
        dwType := Invalid;
      }
      ghost var i := 0;
      while lCallbacks != []
        invariant i <= |hooks| && lCallbacks == hooks[i..] && queue == old(queue)
        invariant dwType == if fnCallback.Default? then Invalid else old(dwType)
        invariant RanInOrder(calls0, journal.calls, this, hooks[..i])
        decreases |lCallbacks|
      {
        RanOneMore(calls0, journal.calls, this, hooks, i);
        journal.calls := journal.calls + [Hook(this, lCallbacks[0])];
        lCallbacks := lCallbacks[1..];
        i := i + 1;
      }
      assert hooks[..i] == hooks;
      RanIsClosed(calls0, journal.calls, this, hooks, calls);
    }
  }

  // What a close adds to the record: the callback of the handle, then each of its hooks.
  ghost predicate RanInOrder(before: seq<Call>, now: seq<Call>, h: Handle, hooks: seq<nat>) {
    && |now| == |before| + 1 + |hooks| && now[..|before|] == before && now[|before|] == Main(h)
    && forall i :: 0 <= i < |hooks| ==> now[|before| + 1 + i] == Hook(h, hooks[i])
  }

  lemma RanNone(before: seq<Call>, h: Handle, hooks: seq<nat>)
    ensures RanInOrder(before, before + [Main(h)], h, hooks[..0])
  {
  }

  lemma RanOneMore(before: seq<Call>, now: seq<Call>, h: Handle, hooks: seq<nat>, k: nat)
    requires k < |hooks| && RanInOrder(before, now, h, hooks[..k])
    ensures RanInOrder(before, now + [Hook(h, hooks[k])], h, hooks[..k + 1])
  {
    var more := now + [Hook(h, hooks[k])];
    assert more[..|before|] == now[..|before|];
    forall i | 0 <= i < k
      ensures more[|before| + 1 + i] == Hook(h, hooks[i])
    {
      assert now[|before| + 1 + i] == Hook(h, hooks[..k][i]);
    }
  }

  lemma RanIsClosed(before: seq<Call>, now: seq<Call>, h: Handle, hooks: seq<nat>, calls: seq<Call>)
    requires RanInOrder(before, now, h, hooks) && RanInOrder([], calls, h, hooks)
    ensures now == before + calls
  {
    forall i | 0 <= i < |calls|
      ensures now[|before| + i] == calls[i]
    {
      assert i > 0 ==> calls[1 + (i - 1)] == Hook(h, hooks[i - 1]) == now[|before| + 1 + (i - 1)];
    }
  }

  lemma CloseCallsAre(h: Handle)
    ensures RanInOrder([], CloseCalls(h), h, h.lCallbacks)
  {
  }

  // What closing a handle is to record.
  ghost function CloseCalls(h: Handle): seq<Call>
    reads h
  {
    [Main(h)] + seq(|h.lCallbacks|, i requires 0 <= i < |h.lCallbacks| reads h => Hook(h, h.lCallbacks[i]))
  }

  // What draining these handles in order is to record.
  ghost function DrainCalls(nodes: seq<Node<Handle>>): seq<Call>
    reads set n | n in nodes :: n.elem
  {
    if nodes == [] then [] else CloseCalls(nodes[0].elem) + DrainCalls(nodes[1..])
  }

  ghost predicate Live(nodes: seq<Node<Handle>>)
    reads set n | n in nodes :: n.elem
  {
    forall n :: n in nodes ==> !n.elem.dwType.Invalid?
  }

  // How many handles stand before the first invalid one.
  ghost function LivePrefix(nodes: seq<Node<Handle>>): nat
    reads set n | n in nodes :: n.elem
  {
    if nodes == [] || nodes[0].elem.dwType.Invalid? then 0 else 1 + LivePrefix(nodes[1..])
  }

  lemma {:induction false} LivePrefixIs(nodes: seq<Node<Handle>>)
    ensures LivePrefix(nodes) <= |nodes|
    ensures Live(nodes) <==> LivePrefix(nodes) == |nodes|
    ensures LivePrefix(nodes) < |nodes| ==> nodes[LivePrefix(nodes)].elem.dwType.Invalid?
  {
    if nodes != [] {
      LivePrefixIs(nodes[1..]);
      assert nodes[0] in nodes && forall n :: n in nodes ==> n == nodes[0] || n in nodes[1..];
    }
  }

  // The handles whose own callback ran, in order of the calls.
  function MainsOf(calls: seq<Call>): seq<Handle> {
    if calls == [] then []
    else (if calls[0].Main? then [calls[0].handle] else []) + MainsOf(calls[1..])
  }

  lemma {:induction false} MainsOfConcat(a: seq<Call>, b: seq<Call>)
    ensures MainsOf(a + b) == MainsOf(a) + MainsOf(b)
  {
    if a == [] {
      assert a + b == b;
    } else {
      MainsOfConcat(a[1..], b);
      assert (a + b)[0] == a[0] && (a + b)[1..] == a[1..] + b;
    }
  }

  lemma {:induction false} MainsOfHooks(hooks: seq<Call>)
    requires forall c :: c in hooks ==> c.Hook?
    ensures MainsOf(hooks) == []
  {
    if hooks != [] {
      assert hooks[0] in hooks;
      MainsOfHooks(hooks[1..]);
    }
  }

  // A drain runs the callback of every handle exactly once and in list order.
  lemma {:induction false} DrainCallsEachOnce(nodes: seq<Node<Handle>>)
    ensures |MainsOf(DrainCalls(nodes))| == |nodes|
    ensures forall i :: 0 <= i < |nodes| ==> MainsOf(DrainCalls(nodes))[i] == nodes[i].elem
  {
    if nodes != [] {
      DrainCallsEachOnce(nodes[1..]);
      var first := CloseCalls(nodes[0].elem);
      MainsOfHooks(first[1..]);
      assert MainsOf(first) == [nodes[0].elem];
      MainsOfConcat(first, DrainCalls(nodes[1..]));
    }
  }

  // The hooks of h that ran, in order of the calls.
  function HooksOf(calls: seq<Call>, h: Handle): seq<nat> {
    if calls == [] then [] else HookOf(calls[0], h) + HooksOf(calls[1..], h)
  }

  function HookOf(call: Call, h: Handle): seq<nat> {
    if call.Hook? && call.handle == h then [call.id] else []
  }

  lemma {:induction false} HooksOfConcat(a: seq<Call>, b: seq<Call>, h: Handle)
    ensures HooksOf(a + b, h) == HooksOf(a, h) + HooksOf(b, h)
  {
    hide HookOf;
    if a == [] {
      assert a + b == b;
    } else {
      HooksOfConcat(a[1..], b, h);
      assert (a + b)[0] == a[0] && (a + b)[1..] == a[1..] + b;
    }
  }

  lemma {:induction false} HooksOfOne(calls: seq<Call>, owner: Handle, ids: seq<nat>, h: Handle)
    requires |calls| == |ids| && forall i :: 0 <= i < |ids| ==> calls[i] == Hook(owner, ids[i])
    ensures HooksOf(calls, h) == if h == owner then ids else []
  {
    if ids != [] {
      HooksOfOne(calls[1..], owner, ids[1..], h);
      assert ids == [ids[0]] + ids[1..];
    }
  }

  lemma HooksOfClose(owner: Handle, h: Handle)
    ensures HooksOf(CloseCalls(owner), h) == if h == owner then owner.lCallbacks else []
  {
    HooksOfOne(CloseCalls(owner)[1..], owner, owner.lCallbacks, h);
  }

  lemma {:induction false} HooksOfStranger(nodes: seq<Node<Handle>>, h: Handle)
    requires forall n :: n in nodes ==> n.elem != h
    ensures HooksOf(DrainCalls(nodes), h) == []
  {
    if nodes != [] {
      assert nodes[0] in nodes;
      HooksOfClose(nodes[0].elem, h);
      HooksOfConcat(CloseCalls(nodes[0].elem), DrainCalls(nodes[1..]), h);
      HooksOfStranger(nodes[1..], h);
    }
  }

  // And all of its hooks, in their order and each once.
  lemma {:induction false} DrainRunsHooks(nodes: seq<Node<Handle>>, i: nat)
    requires i < |nodes| && forall j, k :: 0 <= j < k < |nodes| ==> nodes[j].elem != nodes[k].elem
    ensures HooksOf(DrainCalls(nodes), nodes[i].elem) == nodes[i].elem.lCallbacks
  {
    var h := nodes[i].elem;
    HooksOfClose(nodes[0].elem, h);
    HooksOfConcat(CloseCalls(nodes[0].elem), DrainCalls(nodes[1..]), h);
    if i == 0 {
      HooksOfStranger(nodes[1..], h);
    } else {
      DrainRunsHooks(nodes[1..], i - 1);
    }
  }

  // What new calls say about the handles that were drained.
  lemma DrainRunsAll(nodes: seq<Node<Handle>>)
    requires forall j, k :: 0 <= j < k < |nodes| ==> nodes[j].elem != nodes[k].elem
    ensures |MainsOf(DrainCalls(nodes))| == |nodes|
    ensures forall i :: 0 <= i < |nodes| ==> MainsOf(DrainCalls(nodes))[i] == nodes[i].elem
    ensures forall i :: 0 <= i < |nodes| ==> HooksOf(DrainCalls(nodes), nodes[i].elem) == nodes[i].elem.lCallbacks
  {
    hide DrainCalls, MainsOf, HooksOf;
    DrainCallsEachOnce(nodes);
    forall i | 0 <= i < |nodes|
      ensures HooksOf(DrainCalls(nodes), nodes[i].elem) == nodes[i].elem.lCallbacks
    {
      DrainRunsHooks(nodes, i);
    }
  }

  class Pool {
    var dwType: Kind
    var dwSize: int
    const lHandles: Queue<Handle>
    ghost var births: nat

    ghost predicate Valid()
      reads this, lHandles, lHandles.nodes, set n | n in lHandles.nodes :: n.elem
    {
      && lHandles.Valid()
      && dwSize == |lHandles.nodes|
      && (forall n :: n in lHandles.nodes ==> n.elem.queue == n && n.elem.serial < births)
      && (forall i, j :: 0 <= i < j < |lHandles.nodes| ==> lHandles.nodes[j].elem.serial < lHandles.nodes[i].elem.serial)
    }

    constructor ()
      ensures Valid() && dwType == PoolKind && lHandles.nodes == [] && fresh(lHandles)
    {
      dwType, dwSize, births := PoolKind, 0, 0;
      lHandles := new Queue();
    }

    // apxHandleCreate, for a handle without an event thread. No handle stands for the
    // INVALID_HANDLE_VALUE that it returns for a parent which is no pool.
    method HandleCreate(fnCallback: Callback) returns (h: Handle?)
      requires Valid()
      modifies this, lHandles, lHandles.nodes
      ensures Valid() && dwType == old(dwType)
      ensures dwType != PoolKind ==> h == null && lHandles.nodes == old(lHandles.nodes)
      ensures dwType == PoolKind ==> h != null && fresh(h) && h.dwType == Plain && h.fnCallback == fnCallback
      ensures dwType == PoolKind ==> h.lCallbacks == [] && h.queue != null && h.queue.elem == h
      ensures dwType == PoolKind ==> lHandles.nodes == [h.queue] + old(lHandles.nodes)
    {
      if dwType != PoolKind {
        return null;
      }
      h := new Handle(fnCallback, births);
      lHandles.InsertHead(h.queue);
      dwSize, births := dwSize + 1, births + 1;
    }

    // apxHandleAddHook
    method HandleAddHook(h: Handle, first: bool, id: nat) returns (ok: bool)
      modifies h
      ensures h.dwType == old(h.dwType) && h.queue == old(h.queue)
      ensures ok <==> !h.dwType.Invalid?
      ensures h.lCallbacks == if !ok then old(h.lCallbacks)
                              else if first then [id] + old(h.lCallbacks) else old(h.lCallbacks) + [id]
    {
      if h.dwType.Invalid? {
        return false;
      }
      h.lCallbacks := if first then [id] + h.lCallbacks else h.lCallbacks + [id];
      return true;
    }

    // apxCloseHandle
    method CloseHandle(h: Handle, journal: Journal, ghost k: nat) returns (ok: bool)
      requires Valid() && (h.dwType.Invalid? || (k < |lHandles.nodes| && lHandles.nodes[k].elem == h))
      modifies this`dwSize, lHandles, lHandles.nodes, h, journal
      ensures Valid()
      ensures ok <==> !old(h.dwType).Invalid?
      ensures !ok ==> lHandles.nodes == old(lHandles.nodes) && journal.calls == old(journal.calls)
      ensures !ok ==> CloseCalls(h) == old(CloseCalls(h))
      ensures ok ==> lHandles.nodes == old(lHandles.nodes[..k] + lHandles.nodes[k + 1..])
      ensures ok ==> journal.calls == old(journal.calls + CloseCalls(h))
      ensures ok ==> RanInOrder(old(journal.calls), journal.calls, h, old(h.lCallbacks))
      ensures h.dwType.Invalid? && h.queue == old(h.queue)
    {
      hide CloseCalls, Distinct;
      if h.dwType.Invalid? {
        return false;
      }
      h.RunCallbacks(journal);
      h.dwType := Invalid;
      assert Valid();
      Unlink(h, k);
      return true;
    }

    // The last part of apxCloseHandle.
    method Unlink(h: Handle, ghost k: nat)
      requires Valid() && k < |lHandles.nodes| && lHandles.nodes[k].elem == h
      modifies this`dwSize, lHandles, lHandles.nodes
      ensures Valid() && lHandles.nodes == old(lHandles.nodes[..k] + lHandles.nodes[k + 1..])
    {
      hide Distinct, Queue.LinkedAt, Queue.PlaceOf, Queue.NodeAt;
      lHandles.Remove(h.queue, k);
      dwSize := dwSize - 1;
    }

    // The order in which a drain runs the callbacks is newest handle first.
    lemma NewestFirst()
      requires Valid()
      ensures var mains := MainsOf(DrainCalls(lHandles.nodes));
        && |mains| == dwSize
        && (forall i, j :: 0 <= i < j < |mains| ==> mains[j].serial < mains[i].serial)
    {
      DrainCallsEachOnce(lHandles.nodes);
    }

    lemma Front()
      requires Valid()
      ensures lHandles.first == if lHandles.nodes == [] then null else lHandles.nodes[0]
      ensures dwSize == |lHandles.nodes|
      ensures lHandles.nodes != [] ==> lHandles.nodes[0].elem !in (set n | n in lHandles.nodes[1..] :: n.elem)
    {
    }

    lemma ElementsDiffer()
      requires Valid()
      ensures forall j, k :: 0 <= j < k < |lHandles.nodes| ==> lHandles.nodes[j].elem != lHandles.nodes[k].elem
    {
    }

    lemma NothingToDrain()
      ensures DrainCalls([]) == []
    {
    }

    lemma LiveFront(nodes: seq<Node<Handle>>)
      requires nodes != [] && Live(nodes)
      ensures !nodes[0].elem.dwType.Invalid? && Live(nodes[1..])
    {
      assert nodes[0] in nodes;
    }

    lemma DrainCallsFront(nodes: seq<Node<Handle>>)
      requires nodes != []
      ensures DrainCalls(nodes) == CloseCalls(nodes[0].elem) + DrainCalls(nodes[1..])
    {
    }

    lemma LivePrefixFront(nodes: seq<Node<Handle>>)
      requires nodes != []
      ensures LivePrefix(nodes) == if nodes[0].elem.dwType.Invalid? then 0 else 1 + LivePrefix(nodes[1..])
    {
    }

    // One round of the draining loop. An invalid handle at the front is not closed and
    // nothing at all changes.
    method DrainRound(journal: Journal) returns (progress: bool)
      requires Valid() && lHandles.first != null
      modifies this`dwSize, lHandles, lHandles.nodes, lHandles.first.elem, journal
      ensures Valid()
      ensures progress <==> !old(lHandles.first.elem.dwType).Invalid?
      ensures !progress ==> lHandles.nodes == old(lHandles.nodes) && journal.calls == old(journal.calls)
      ensures !progress ==> lHandles.first == old(lHandles.first) && lHandles.first.elem.dwType.Invalid?
      ensures progress ==> lHandles.nodes == old(lHandles.nodes)[1..]
      ensures journal.calls + DrainCalls(lHandles.nodes) == old(journal.calls + DrainCalls(lHandles.nodes))
      ensures progress && old(Live(lHandles.nodes)) ==> Live(lHandles.nodes)
      ensures LivePrefix(lHandles.nodes) == old(LivePrefix(lHandles.nodes)) - if progress then 1 else 0
    {
      hide *;
      Front();
      if Live(lHandles.nodes) {
        LiveFront(lHandles.nodes);
      }
      ghost var h, rest := lHandles.first.elem, lHandles.nodes[1..];
      DrainCallsFront(lHandles.nodes);
      LivePrefixFront(lHandles.nodes);
      ghost var calls, later, live := CloseCalls(h), DrainCalls(rest), LivePrefix(rest);
      progress := CloseHandle(lHandles.first.elem, journal, 0);
      Front();
      assert DrainCalls(rest) == later && LivePrefix(rest) == live;
      if !progress {
        DrainCallsFront(lHandles.nodes);
        LivePrefixFront(lHandles.nodes);
      }
      assert old(journal.calls) + calls + later == old(journal.calls) + (calls + later);
    }

    // The first n rounds of the draining loop, or as many as its guard admits, counted. They take
    // off the handles before the first invalid one and then no more: the guard fails after
    // enough rounds if every handle is valid, and after no number of rounds otherwise.
    method DrainRounds(n: nat, journal: Journal) returns (rounds: nat)
      requires Valid()
      modifies this`dwSize, lHandles, lHandles.nodes, set n | n in lHandles.nodes :: n.elem
      modifies journal
      ensures Valid()
      ensures var k := if n < old(LivePrefix(lHandles.nodes)) then n else old(LivePrefix(lHandles.nodes));
        k <= old(|lHandles.nodes|) && lHandles.nodes == old(lHandles.nodes)[k..]
      ensures journal.calls + DrainCalls(lHandles.nodes) == old(journal.calls + DrainCalls(lHandles.nodes))
      ensures rounds == if old(Live(lHandles.nodes)) && n >= old(|lHandles.nodes|) then old(|lHandles.nodes|) else n
      ensures lHandles.first == null <==> old(Live(lHandles.nodes)) && n >= old(|lHandles.nodes|)
      ensures !old(Live(lHandles.nodes)) && n >= old(LivePrefix(lHandles.nodes)) ==>
        lHandles.first != null && lHandles.first.elem.dwType.Invalid?
    {
      hide *;
      ghost var all, live := lHandles.nodes, LivePrefix(lHandles.nodes);
      LivePrefixIs(all);
      Front();
      var i := 0;
      rounds := 0;
      while i < n
        invariant 0 <= i <= n && Valid()
        invariant rounds == if live == |all| && i >= |all| then |all| else i
        invariant live <= |all| && lHandles.nodes == all[if i < live then i else live..]
        invariant lHandles.first == if lHandles.nodes == [] then null else lHandles.nodes[0]
        invariant LivePrefix(lHandles.nodes) == live - if i < live then i else live
        invariant journal.calls + DrainCalls(lHandles.nodes) == old(journal.calls + DrainCalls(lHandles.nodes))
      {
        LivePrefixIs(lHandles.nodes);
        if lHandles.first != null {
          LivePrefixFront(lHandles.nodes);
          assert lHandles.nodes[0] in all;
          var progress := DrainRound(journal);
          Front();
          rounds := rounds + 1;
        }
        i := i + 1;
      }
      LivePrefixIs(lHandles.nodes);
    }

    // __apxPoolCallback with WM_CLOSE, for a pool without subpools.
    method PoolCallback(journal: Journal) returns (ok: bool)
      requires Valid()
      requires Live(lHandles.nodes)
      modifies this`dwSize, lHandles, lHandles.nodes, set n | n in lHandles.nodes :: n.elem
      modifies journal
      ensures ok <==> dwType == PoolKind
      ensures !ok ==> lHandles.nodes == old(lHandles.nodes) && journal.calls == old(journal.calls)
      ensures ok ==> Valid() && lHandles.nodes == [] && dwSize == 0
      ensures ok ==> journal.calls == old(journal.calls + DrainCalls(lHandles.nodes))
      ensures ok ==> |journal.calls| >= old(|journal.calls|) && journal.calls[..old(|journal.calls|)] == old(journal.calls)
      ensures ok ==> var ran := journal.calls[old(|journal.calls|)..];
        && |MainsOf(ran)| == old(|lHandles.nodes|)
        && (forall i :: 0 <= i < old(|lHandles.nodes|) ==> MainsOf(ran)[i] == old(lHandles.nodes)[i].elem)
        && (forall i :: 0 <= i < old(|lHandles.nodes|) ==>
              HooksOf(ran, old(lHandles.nodes)[i].elem) == old(lHandles.nodes[i].elem.lCallbacks))
    {
      if dwType != PoolKind {
        return false;
      }
      hide DrainCalls, MainsOf, HooksOf, Queue.Valid;
      ghost var calls := DrainCalls(lHandles.nodes);
      ElementsDiffer();
      DrainRunsAll(lHandles.nodes);
      DrainLoop(journal);
      NothingToDrain();
      assert journal.calls == old(journal.calls) + calls;
      dwSize := 0;
      return true;
    }

    method DrainLoop(journal: Journal)
      requires Valid()
      requires Live(lHandles.nodes)
      modifies this`dwSize, lHandles, lHandles.nodes, set n | n in lHandles.nodes :: n.elem
      modifies journal
      ensures Valid() && lHandles.nodes == [] && dwSize == 0
      ensures journal.calls + DrainCalls([]) == old(journal.calls + DrainCalls(lHandles.nodes))
    {
      hide *;
      ghost var all := lHandles.nodes;
      Front();
      while lHandles.first != null
        invariant Valid() && |lHandles.nodes| <= |all|
        invariant lHandles.nodes == all[|all| - |lHandles.nodes|..]
        invariant lHandles.first == if lHandles.nodes == [] then null else lHandles.nodes[0]
        invariant dwSize == |lHandles.nodes|
        invariant Live(lHandles.nodes)
        invariant journal.calls + DrainCalls(lHandles.nodes) == old(journal.calls + DrainCalls(lHandles.nodes))
        decreases |lHandles.nodes|
      {
        LiveFront(lHandles.nodes);
        var progress := DrainRound(journal);
        Front();
      }
    }
  }

  // apxHandleSendMessage with WM_CLOSE runs the same callbacks as apxCloseHandle, but the
  // handle keeps its hooks and stays linked in its pool. The result is that of the handle's
  // own callback: FALSE from the default one, and answer from one of the user.
  method SendClose(h: Handle, journal: Journal, answer: bool) returns (ok: bool)
    modifies h, journal
    ensures ok <==> !old(h.dwType).Invalid? && h.fnCallback.User? && answer
    ensures journal.calls == old(journal.calls + if h.dwType.Invalid? then [] else CloseCalls(h))
    ensures !old(h.dwType).Invalid? ==> RanInOrder(old(journal.calls), journal.calls, h, old(h.lCallbacks))
    ensures h.queue == old(h.queue) && h.lCallbacks == old(h.lCallbacks)
    ensures h.dwType == if h.fnCallback.Default? then Invalid else old(h.dwType)
  {
    if h.dwType.Invalid? {
      return false;
    }
    CloseCallsAre(h);
    ghost var calls, calls0 := CloseCalls(h), journal.calls;
    hide CloseCalls;
    journal.calls := journal.calls + [Main(h)];
    RanNone(calls0, h, h.lCallbacks);
    hide RanInOrder;
    ok := h.fnCallback.User? && answer;
    if h.fnCallback.Default? {
      h.dwType := Invalid;
    }
    var i := 0;
    while i < |h.lCallbacks|
      invariant i <= |h.lCallbacks| && h.lCallbacks == old(h.lCallbacks) && h.queue == old(h.queue)
      invariant RanInOrder(calls0, journal.calls, h, h.lCallbacks[..i])
      invariant h.dwType == if h.fnCallback.Default? then Invalid else old(h.dwType)
    {
      RanOneMore(calls0, journal.calls, h, h.lCallbacks, i);
      journal.calls := journal.calls + [Hook(h, h.lCallbacks[i])];
      i := i + 1;
    }
    assert h.lCallbacks[..i] == h.lCallbacks;
    RanIsClosed(calls0, journal.calls, h, h.lCallbacks, calls);
  }

  // A pool with a handle that a close message has invalidated.
  method StuckPool(journal: Journal) returns (pool: Pool)
    modifies journal
    ensures fresh(pool) && fresh(pool.lHandles) && pool.Valid()
    ensures |pool.lHandles.nodes| == 1 && !Live(pool.lHandles.nodes)
    ensures fresh(pool.lHandles.nodes[0]) && fresh(pool.lHandles.nodes[0].elem)
  {
    hide Queue.LinkedAt, Distinct;
    pool := new Pool();
    var h := pool.HandleCreate(Default);
    var ok := SendClose(h, journal, true);
    assert pool.lHandles.nodes[0].elem == h;
  }

  // Such a pool is never drained: for every n the loop makes n rounds, the handle stays and
  // the guard holds.
  method StuckWitness(n: nat) returns (pool: Pool, rounds: nat)
    ensures rounds == n
    ensures pool.Valid() && pool.lHandles.first != null && pool.lHandles.first.elem.dwType.Invalid?
  {
    hide *;
    var journal := new Journal;
    pool := StuckPool(journal);
    LivePrefixIs(pool.lHandles.nodes);
    rounds := pool.DrainRounds(n, journal);
  }
}
