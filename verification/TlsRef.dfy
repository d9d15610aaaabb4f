/** Reference counting for objects that threads keep as their current one, with a destructor that may itself take
    and drop references. */
module TlsRef {
  import opened Header

  datatype RefState = UNDEFINED | INITIALIZED | TOBE_DESTROYED | DESTROYING

  // dtorRuns counts how often the destructor was started.
  datatype Counted = Counted(cTlsRefs: int, state: RefState, dtorRuns: nat)

  // What a destructor may do to the object it is destroying.
  datatype Touch = Take | Drop

  function Balance(ts: seq<Touch>): int {
    if ts == [] then 0 else Balance(ts[..|ts| - 1]) + (if ts[|ts| - 1].Take? then 1 else -1)
  }

  // It drops nothing it has not taken, and takes nothing it does not drop.
  predicate Balanced(ts: seq<Touch>) {
    Balance(ts) == 0 && forall k :: 0 <= k <= |ts| ==> Balance(ts[..k]) >= 0
  }

  // All the ways to nest takes and drops, and to do one after the other.
  lemma BalancedGrows(a: seq<Touch>, b: seq<Touch>)
    requires Balanced(a) && Balanced(b)
    ensures Balanced([]) && Balanced(a + b) && Balanced([Take] + a + [Drop])
  {
    forall k | 0 <= k <= |a + b|
      ensures Balance((a + b)[..k]) == if k <= |a| then Balance(a[..k]) else Balance(b[..k - |a|])
    {
      if k <= |a| {
        assert (a + b)[..k] == a[..k];
      } else {
        assert (a + b)[..k] == a + b[..k - |a|];
        BalanceOfSum(a, b[..k - |a|]);
      }
    }
    assert (a + b)[..|a + b|] == a + b && a[..|a|] == a && b[..|b|] == b;
    NestedBalance(a);
  }

  lemma {:induction false} BalanceOfSum(a: seq<Touch>, b: seq<Touch>)
    ensures Balance(a + b) == Balance(a) + Balance(b)
    decreases |b|
  {
    if b == [] {
      assert a + b == a;
    } else {
      var front := b[..|b| - 1];
      BalanceOfSum(a, front);
      assert (a + b)[..|a + b| - 1] == a + front && (a + b)[|a + b| - 1] == b[|b| - 1];
    }
  }

  lemma NestedBalance(a: seq<Touch>)
    requires Balanced(a)
    ensures Balanced([Take] + a + [Drop])
  {
    var all := [Take] + a + [Drop];
    BalanceOfSum([Take], a);
    BalanceOfSum([Take] + a, [Drop]);
    assert Balance([Take]) == 1 && Balance([Drop]) == -1 by {
      assert [Take][..0] == [] && [Drop][..0] == [];
    }
    forall k | 0 <= k <= |all|
      ensures Balance(all[..k]) >= 0
    {
      if k == |all| {
        assert all[..k] == all;
      } else if k > 0 {
        assert all[..k] == [Take] + a[..k - 1];
        BalanceOfSum([Take], a[..k - 1]);
      }
    }
  }

  function Fresh(): Counted {
    Counted(1, INITIALIZED, 0)
  }

  predicate IsFunctional(o: Counted) {
    o.state == INITIALIZED
  }

  function AddRefOf(o: Counted): Counted {
    o.(cTlsRefs := o.cTlsRefs + 1)
  }

  // A release as its caller sees it.
  function ReleaseOf(o: Counted): Counted {
    if o.cTlsRefs == 1 && o.state != DESTROYING then Counted(0, DESTROYING, o.dtorRuns + 1)
    else o.(cTlsRefs := o.cTlsRefs - 1)
  }

  function MarkOf(o: Counted): Counted {
    o.(state := TOBE_DESTROYED)
  }

  class RefObj {
    var cTlsRefs: int
    var enmTlsRefState: RefState
    var dtorRuns: nat
    const dtor: seq<Touch>

    // VBoxTlsRefInit
    constructor (dtor: seq<Touch>)
      ensures View() == Fresh() && this.dtor == dtor
    {
      cTlsRefs := 1;
      enmTlsRefState := INITIALIZED;
      dtorRuns := 0;
      this.dtor := dtor;
    }

    function View(): Counted
      reads this
    {
      Counted(cTlsRefs, enmTlsRefState, dtorRuns)
    }

    method AddRef()
      modifies this
      ensures View() == AddRefOf(old(View()))
    {
      cTlsRefs := cTlsRefs + 1;
    }

    // The destructor's own takes and drops come back here, and end here: they leave no trace.
    method Release()
      requires Balanced(dtor)
      modifies this
      ensures View() == ReleaseOf(old(View()))
      decreases if enmTlsRefState == DESTROYING then 0 else 2
    {
      cTlsRefs := cTlsRefs - 1;
      if cTlsRefs == 0 && enmTlsRefState != DESTROYING {
        enmTlsRefState := DESTROYING;
        Destroy();
      }
    }

    method Destroy()
      requires Balanced(dtor) && enmTlsRefState == DESTROYING && cTlsRefs == 0
      modifies this
      ensures View() == Counted(0, DESTROYING, old(dtorRuns) + 1)
      decreases 1
    {
      dtorRuns := dtorRuns + 1;
      var k := 0;
      assert dtor[..0] == [];
      while k < |dtor|
        invariant 0 <= k <= |dtor|
        invariant View() == Counted(Balance(dtor[..k]), DESTROYING, old(dtorRuns) + 1)
      {
        assert dtor[..k + 1][..k] == dtor[..k];
        if dtor[k].Take? {
          AddRef();
        } else {
          Release();
        }
        k := k + 1;
      }
      assert dtor[..|dtor|] == dtor;
    }

    method MarkDestroy()
      modifies this
      ensures View() == MarkOf(old(View()))
    {
      enmTlsRefState := TOBE_DESTROYED;
    }
  }

  // ---------- how often the destructor runs ----------

  datatype Act = AddRef | Release | MarkDestroy

  function ActOn(o: Counted, a: Act): Counted {
    match a
    case AddRef => AddRefOf(o)
    case Release => ReleaseOf(o)
    case MarkDestroy => MarkOf(o)
  }

  function ActAll(acts: seq<Act>): Counted {
    if acts == [] then Fresh() else ActOn(ActAll(acts[..|acts| - 1]), acts[|acts| - 1])
  }

  // One to begin with, one more for every AddRef, one less for every Release.
  function Count(acts: seq<Act>): int {
    if acts == [] then 1
    else Count(acts[..|acts| - 1]) + (match acts[|acts| - 1] case AddRef => 1 case Release => -1 case MarkDestroy => 0)
  }

  predicate Matched(acts: seq<Act>) {
    forall k :: 0 <= k <= |acts| ==> Count(acts[..k]) >= 0
  }

  // The k-th act drops the last reference.
  predicate HitsZero(acts: seq<Act>, k: int) {
    0 <= k < |acts| && acts[k] == Release && Count(acts[..k + 1]) == 0
  }

  ghost predicate MarkedIn(acts: seq<Act>, from: int, to: int) {
    exists m :: from < m < to && 0 <= m < |acts| && acts[m] == MarkDestroy
  }

  // An earlier zero, unforgotten: nothing has marked the object since.
  ghost predicate StillDestroying(acts: seq<Act>) {
    exists j :: HitsZero(acts, j) && !MarkedIn(acts, j, |acts|)
  }

  ghost predicate HitsAgain(acts: seq<Act>) {
    exists j, k :: HitsZero(acts, j) && HitsZero(acts, k) && MarkedIn(acts, j, k)
  }

  ghost predicate HasHit(acts: seq<Act>) {
    exists k :: HitsZero(acts, k)
  }

  lemma HitOfPrefix(acts: seq<Act>, k: int)
    requires acts != [] && k < |acts| - 1
    ensures HitsZero(acts, k) == HitsZero(acts[..|acts| - 1], k)
  {
    if 0 <= k {
      assert acts[..|acts| - 1][..k + 1] == acts[..k + 1];
    }
  }

  lemma MarkOfPrefix(acts: seq<Act>, j: int, k: int)
    requires acts != [] && k <= |acts| - 1
    ensures MarkedIn(acts, j, k) == MarkedIn(acts[..|acts| - 1], j, k)
  {
    if MarkedIn(acts, j, k) {
      var m :| j < m < k && 0 <= m < |acts| && acts[m] == MarkDestroy;
      assert acts[..|acts| - 1][m] == MarkDestroy;
    }
  }

  lemma MarkOfLast(acts: seq<Act>, j: int)
    requires acts != [] && j < |acts| - 1
    ensures MarkedIn(acts, j, |acts|) <==> MarkedIn(acts[..|acts| - 1], j, |acts| - 1) || acts[|acts| - 1] == MarkDestroy
  {
    MarkOfPrefix(acts, j, |acts| - 1);
  }

  lemma HasHitStep(acts: seq<Act>)
    requires acts != []
    ensures HasHit(acts) <==> HasHit(acts[..|acts| - 1]) || HitsZero(acts, |acts| - 1)
  {
    var pre := acts[..|acts| - 1];
    forall k | k < |acts| - 1
      ensures HitsZero(acts, k) == HitsZero(pre, k)
    {
      HitOfPrefix(acts, k);
    }
    if HasHit(pre) {
      var k :| HitsZero(pre, k);
      assert HitsZero(acts, k);
    }
  }

  lemma StillStep(acts: seq<Act>)
    requires acts != []
    ensures StillDestroying(acts) <==>
      HitsZero(acts, |acts| - 1) || (acts[|acts| - 1] != MarkDestroy && StillDestroying(acts[..|acts| - 1]))
  {
    var pre, last := acts[..|acts| - 1], |acts| - 1;
    forall k | k < last
      ensures HitsZero(acts, k) == HitsZero(pre, k)
      ensures MarkedIn(acts, k, |acts|) <==> MarkedIn(pre, k, last) || acts[last] == MarkDestroy
    {
      HitOfPrefix(acts, k);
      MarkOfLast(acts, k);
    }
    if HitsZero(acts, last) {
      assert !MarkedIn(acts, last, |acts|);
    } else if acts[last] != MarkDestroy && StillDestroying(pre) {
      var k :| HitsZero(pre, k) && !MarkedIn(pre, k, |pre|);
      assert HitsZero(acts, k) && !MarkedIn(acts, k, |acts|);
    }
  }

  lemma AgainStep(acts: seq<Act>)
    requires acts != []
    ensures HitsAgain(acts) <==>
      HitsAgain(acts[..|acts| - 1]) || (HitsZero(acts, |acts| - 1) && HasHit(acts[..|acts| - 1]) && !StillDestroying(acts[..|acts| - 1]))
  {
    var pre, last := acts[..|acts| - 1], |acts| - 1;
    forall k | k < last
      ensures HitsZero(acts, k) == HitsZero(pre, k)
    {
      HitOfPrefix(acts, k);
    }
    forall j, k | k <= last
      ensures MarkedIn(acts, j, k) == MarkedIn(pre, j, k)
    {
      MarkOfPrefix(acts, j, k);
    }
    if HitsAgain(acts) {
      var j, k :| HitsZero(acts, j) && HitsZero(acts, k) && MarkedIn(acts, j, k);
      if k == last && StillDestroying(pre) {
        LaterHit(pre, j);
      }
    }
    if HitsZero(acts, last) && HasHit(pre) && !StillDestroying(pre) {
      var j :| HitsZero(pre, j);
      assert MarkedIn(acts, j, last);
    }
  }

  // A mark after a zero, and a zero with no mark after it: the second zero came after the mark.
  lemma LaterHit(acts: seq<Act>, j: int)
    requires HitsZero(acts, j) && MarkedIn(acts, j, |acts|) && StillDestroying(acts)
    ensures HitsAgain(acts)
  {
    var m :| j < m < |acts| && acts[m] == MarkDestroy;
    var k :| HitsZero(acts, k) && !MarkedIn(acts, k, |acts|);
    assert m < k;
    assert MarkedIn(acts, j, k);
  }

  lemma MatchedPrefix(acts: seq<Act>)
    requires acts != [] && Matched(acts)
    ensures Matched(acts[..|acts| - 1]) && Count(acts) >= 0
  {
    assert acts[..|acts|] == acts;
    var pre := acts[..|acts| - 1];
    assert forall n :: 0 <= n <= |pre| ==> pre[..n] == acts[..n];
  }

  // Over every run that drops no more than it took, from VBoxTlsRefInit on: the object is being destroyed exactly if
  // its count hit zero and nobody has marked it since; the destructor has run exactly if the count has hit zero; and
  // it has run more than once exactly if the count hit zero, the object was marked, and the count hit zero again.
  lemma {:induction false} DestructorRuns(acts: seq<Act>)
    requires Matched(acts)
    ensures ActAll(acts).cTlsRefs == Count(acts)
    ensures ActAll(acts).state == DESTROYING <==> StillDestroying(acts)
    ensures ActAll(acts).dtorRuns >= 1 <==> HasHit(acts)
    ensures ActAll(acts).dtorRuns >= 2 <==> HitsAgain(acts)
    decreases |acts|
  {
    if acts == [] {
    } else {
      MatchedPrefix(acts);
      DestructorRuns(acts[..|acts| - 1]);
      HasHitStep(acts);
      StillStep(acts);
      AgainStep(acts);
      StillHasHit(acts[..|acts| - 1]);
      assert acts[..|acts|] == acts;
    }
  }

  lemma StillHasHit(acts: seq<Act>)
    ensures StillDestroying(acts) ==> HasHit(acts)
  {
  }

  lemma ActFares(o: Counted, a: Act)
    ensures IsFunctional(ActOn(o, a)) <==> IsFunctional(o) && a != MarkDestroy && !(a == Release && o.cTlsRefs == 1)
    ensures o.state != UNDEFINED ==> ActOn(o, a).state != UNDEFINED
  {
  }

  predicate Marked(acts: seq<Act>) {
    MarkDestroy in acts
  }

  lemma MarkedStep(acts: seq<Act>)
    requires acts != []
    ensures Marked(acts) <==> Marked(acts[..|acts| - 1]) || acts[|acts| - 1] == MarkDestroy
  {
    assert acts == acts[..|acts| - 1] + [acts[|acts| - 1]];
  }

  lemma LastHit(acts: seq<Act>)
    requires acts != []
    ensures HitsZero(acts, |acts| - 1) <==> acts[|acts| - 1] == Release && Count(acts[..|acts| - 1]) == 1
  {
    assert acts[..|acts|] == acts;
  }

  // An object works until it is marked or its last reference goes, and never again after either.
  lemma {:induction false} FunctionalIff(acts: seq<Act>)
    requires Matched(acts)
    ensures IsFunctional(ActAll(acts)) <==> !Marked(acts) && !HasHit(acts)
    ensures ActAll(acts).state != UNDEFINED
    decreases |acts|
  {
    if acts == [] {
    } else {
      var pre := acts[..|acts| - 1];
      MatchedPrefix(acts);
      FunctionalIff(pre);
      DestructorRuns(pre);
      ActFares(ActAll(pre), acts[|acts| - 1]);
      MarkedStep(acts);
      HasHitStep(acts);
      LastHit(acts);
    }
  }

  // What VBoxTlsRefAddRef asserts: only an object being destroyed may be taken up from no references.
  predicate Asserted(acts: seq<Act>) {
    forall k :: 0 <= k < |acts| && acts[k] == AddRef ==>
      Count(acts[..k + 1]) > 1 || ActAll(acts[..k + 1]).state == DESTROYING
  }

  // A run that meets every assertion and still runs the destructor twice: the last reference goes, the object is taken
  // up once more, marked, and let go of again.
  lemma DestroyedTwice(acts: seq<Act>)
    requires acts == [Release, AddRef, MarkDestroy, Release]
    ensures Matched(acts) && Asserted(acts) && ActAll(acts).dtorRuns == 2
  {
    assert acts[..1] == [Release] && acts[..2] == [Release, AddRef] && acts[..3] == [Release, AddRef, MarkDestroy] && acts[..4] == acts;
    assert acts[..1][..0] == acts[..0] && acts[..2][..1] == acts[..1] && acts[..3][..2] == acts[..2];
    assert ActAll(acts[..0]) == Fresh() && Count(acts[..0]) == 1;
    assert ActAll(acts[..1]) == Counted(0, DESTROYING, 1) && Count(acts[..1]) == 0;
    assert ActAll(acts[..2]) == Counted(1, DESTROYING, 1) && Count(acts[..2]) == 1;
    assert ActAll(acts[..3]) == Counted(1, TOBE_DESTROYED, 1) && Count(acts[..3]) == 1;
  }

  // ---------- any number of objects and threads ----------

  // Objects by whatever names them (P), and each thread's current one.
  datatype World<P> = World(objs: map<P, Counted>, slots: map<nat, Option<P>>)

  function CurrentOf<P>(w: World<P>, thread: nat): Option<P> {
    if thread in w.slots then w.slots[thread] else None
  }

  function WithRelease<P>(w: World<P>, p: Option<P>): World<P> {
    if p.Some? && p.value in w.objs then w.(objs := w.objs[p.value := ReleaseOf(w.objs[p.value])]) else w
  }

  function WithAddRef<P>(w: World<P>, p: Option<P>): World<P> {
    if p.Some? && p.value in w.objs then w.(objs := w.objs[p.value := AddRefOf(w.objs[p.value])]) else w
  }

  function SetSlot<P(==)>(w: World<P>, thread: nat, p: Option<P>): World<P> {
    var cur := CurrentOf(w, thread);
    if cur == p then w else WithAddRef(WithRelease(w.(slots := w.slots[thread := p]), cur), p)
  }

  function AskSlot<P(==)>(w: World<P>, thread: nat): (res: (Option<P>, World<P>)) {
    var cur := CurrentOf(w, thread);
    if cur.None? || (cur.value in w.objs && IsFunctional(w.objs[cur.value])) then (cur, w)
    else (None, SetSlot(w, thread, None))
  }

  datatype Op<P> =
    | Create(p: P)
    | Hold(p: P)
    | Let(p: P)
    | Mark(p: P)
    | Set(thread: nat, to: Option<P>)
    | Get(thread: nat)

  // The world, and how many references the program itself holds to each object.
  datatype Situation<P> = Situation(w: World<P>, held: map<P, nat>)

  predicate Holds<P>(s: Situation<P>, p: P) {
    p in s.w.objs && p in s.held && s.held[p] > 0
  }

  // Nobody touches an object without holding a reference to it.
  predicate Allowed<P>(s: Situation<P>, op: Op<P>) {
    match op
    case Create(p) => p !in s.w.objs
    case Hold(p) => Holds(s, p)
    case Let(p) => Holds(s, p)
    case Mark(p) => Holds(s, p)
    case Set(thread, to) => to.Some? ==> Holds(s, to.value)
    case Get(thread) => true
  }

  function Apply<P(==)>(s: Situation<P>, op: Op<P>): Situation<P>
    requires Allowed(s, op)
  {
    match op
    case Create(p) => Situation(s.w.(objs := s.w.objs[p := Fresh()]), s.held[p := 1])
    case Hold(p) => Situation(WithAddRef(s.w, Some(p)), s.held[p := s.held[p] + 1])
    case Let(p) => Situation(WithRelease(s.w, Some(p)), s.held[p := s.held[p] - 1])
    case Mark(p) => s.(w := s.w.(objs := s.w.objs[p := MarkOf(s.w.objs[p])]))
    case Set(thread, to) => s.(w := SetSlot(s.w, thread, to))
    case Get(thread) => s.(w := AskSlot(s.w, thread).1)
  }

  // How many threads have p as their current object.
  function Threads<P(==)>(slots: map<nat, Option<P>>, p: P): set<nat> {
    set t | t in slots && slots[t] == Some(p)
  }

  // Every count is what the program holds plus what the threads hold; an object is destroyed once, when its count
  // reaches zero, and stays that way; no thread has a destroyed object as its current one.
  ghost predicate Sound<P>(s: Situation<P>) {
    && s.held.Keys == s.w.objs.Keys
    && (forall t :: t in s.w.slots && s.w.slots[t].Some? ==> s.w.slots[t].value in s.w.objs)
    && (forall p :: p in s.w.objs ==> Accounted(s.w.objs[p], s.held[p] + |Threads(s.w.slots, p)|))
  }

  predicate Accounted(o: Counted, n: nat) {
    && o.cTlsRefs == n
    && o.dtorRuns == (if n == 0 then 1 else 0)
    && (o.state == DESTROYING <==> n == 0)
  }

  lemma Released(o: Counted, n: nat)
    requires Accounted(o, n) && n > 0
    ensures Accounted(ReleaseOf(o), n - 1)
  {
  }

  lemma ThreadsMove<P>(slots: map<nat, Option<P>>, thread: nat, to: Option<P>, p: P)
    ensures var was := if thread in slots then slots[thread] else None;
      |Threads(slots[thread := to], p)| == |Threads(slots, p)| - (if was == Some(p) then 1 else 0) + (if to == Some(p) then 1 else 0)
  {
    var rest := Threads(slots, p) - {thread};
    OneThreadMore(rest, Threads(slots[thread := to], p), thread, to == Some(p));
    OneThreadMore(rest, Threads(slots, p), thread, thread in slots && slots[thread] == Some(p));
  }

  lemma OneThreadMore(rest: set<nat>, all: set<nat>, thread: nat, more: bool)
    requires thread !in rest && all - {thread} == rest && (thread in all <==> more)
    ensures |all| == |rest| + (if more then 1 else 0)
  {
    if more {
      assert all == rest + {thread};
    } else {
      assert all == rest;
    }
  }

  lemma SetAccounts<P>(s: Situation<P>, thread: nat, to: Option<P>, p: P)
    requires Sound(s) && (to.Some? ==> Holds(s, to.value)) && p in s.w.objs && CurrentOf(s.w, thread) != to
    ensures p in SetSlot(s.w, thread, to).objs
    ensures Accounted(SetSlot(s.w, thread, to).objs[p], s.held[p] + |Threads(SetSlot(s.w, thread, to).slots, p)|)
  {
    ThreadsMove(s.w.slots, thread, to, p);
    if CurrentOf(s.w, thread) == Some(p) {
      assert thread in Threads(s.w.slots, p);
      Released(s.w.objs[p], s.held[p] + |Threads(s.w.slots, p)|);
    }
  }

  lemma SetIsSound<P>(s: Situation<P>, thread: nat, to: Option<P>)
    requires Sound(s) && (to.Some? ==> Holds(s, to.value))
    ensures Sound(s.(w := SetSlot(s.w, thread, to))) && CurrentOf(SetSlot(s.w, thread, to), thread) == to
  {
    if CurrentOf(s.w, thread) != to {
      forall p | p in s.w.objs
        ensures Accounted(SetSlot(s.w, thread, to).objs[p], s.held[p] + |Threads(SetSlot(s.w, thread, to).slots, p)|)
      {
        SetAccounts(s, thread, to, p);
      }
    }
  }

  lemma StepIsSound<P>(s: Situation<P>, op: Op<P>)
    requires Sound(s) && Allowed(s, op)
    ensures Sound(Apply(s, op))
  {
    match op
    case Create(p) => assert Threads(s.w.slots, p) == {};
    case Hold(p) =>
    case Let(p) => Released(s.w.objs[p], s.held[p] + |Threads(s.w.slots, p)|);
    case Mark(p) =>
    case Set(thread, to) => SetIsSound(s, thread, to);
    case Get(thread) => SetIsSound(s, thread, None);
  }

  ghost predicate AllAllowed<P>(s: Situation<P>, ops: seq<Op<P>>)
    decreases |ops|
  {
    ops == [] || (Allowed(s, ops[0]) && AllAllowed(Apply(s, ops[0]), ops[1..]))
  }

  ghost function After<P>(s: Situation<P>, ops: seq<Op<P>>): Situation<P>
    requires AllAllowed(s, ops)
    decreases |ops|
  {
    if ops == [] then s else After(Apply(s, ops[0]), ops[1..])
  }

  // Over every run, for any number of objects and threads.
  lemma {:induction false} RunIsSound<P>(s: Situation<P>, ops: seq<Op<P>>)
    requires Sound(s) && AllAllowed(s, ops)
    ensures Sound(After(s, ops))
    decreases |ops|
  {
    if ops == [] {
    } else {
      StepIsSound(s, ops[0]);
      RunIsSound(Apply(s, ops[0]), ops[1..]);
    }
  }

  // Before the first object.
  function Nothing<P>(): Situation<P> {
    Situation(World(map[], map[]), map[])
  }

  // What that means for a thread: its current object is alive, and the functional one it asks for is its current one.
  lemma CurrentIsAlive<P>(ops: seq<Op<P>>, thread: nat)
    requires AllAllowed(Nothing<P>(), ops)
    ensures var w := After(Nothing<P>(), ops).w;
      && (CurrentOf(w, thread).Some? ==> CurrentOf(w, thread).value in w.objs && w.objs[CurrentOf(w, thread).value].dtorRuns == 0)
      && var (val, w') := AskSlot(w, thread);
         val == CurrentOf(w', thread) && (val.Some? ==> IsFunctional(w'.objs[val.value]))
  {
    var s0 := Nothing<P>();
    RunIsSound(s0, ops);
    var w := After(s0, ops).w;
    if CurrentOf(w, thread).Some? {
      assert thread in Threads(w.slots, CurrentOf(w, thread).value);
    }
  }

  // ---------- marked objects ----------

  // What has become of an object once it exists: it works exactly if it did, has not been marked, and is not destroyed.
  ghost predicate Fares<P>(was: bool, op: Op<P>, p: P, now: Counted) {
    IsFunctional(now) <==> was && op != Mark(p) && now.dtorRuns == 0
  }

  lemma ReleaseFares(o: Counted, n: nat)
    requires Accounted(o, n) && n > 0
    ensures IsFunctional(ReleaseOf(o)) <==> IsFunctional(o) && ReleaseOf(o).dtorRuns == 0
  {
  }

  lemma SetFares<P>(s: Situation<P>, thread: nat, to: Option<P>, p: P)
    requires Sound(s) && (to.Some? ==> Holds(s, to.value)) && p in s.w.objs
    ensures p in SetSlot(s.w, thread, to).objs
    ensures IsFunctional(SetSlot(s.w, thread, to).objs[p]) <==> IsFunctional(s.w.objs[p]) && SetSlot(s.w, thread, to).objs[p].dtorRuns == 0
    ensures SetSlot(s.w, thread, to).objs[p].dtorRuns >= s.w.objs[p].dtorRuns
  {
    if CurrentOf(s.w, thread) == Some(p) {
      assert thread in Threads(s.w.slots, p);
      ReleaseFares(s.w.objs[p], s.held[p] + |Threads(s.w.slots, p)|);
    }
  }

  lemma StepFares<P>(s: Situation<P>, op: Op<P>, p: P)
    requires Sound(s) && Allowed(s, op) && p in s.w.objs
    ensures p in Apply(s, op).w.objs && Fares(IsFunctional(s.w.objs[p]), op, p, Apply(s, op).w.objs[p])
    ensures Apply(s, op).w.objs[p].dtorRuns >= s.w.objs[p].dtorRuns
  {
    match op
    case Create(_) =>
    case Hold(_) =>
    case Let(q) =>
      if q == p {
        ReleaseFares(s.w.objs[p], s.held[p] + |Threads(s.w.slots, p)|);
      }
    case Mark(_) =>
    case Set(thread, to) =>
      SetFares(s, thread, to, p);
    case Get(thread) =>
      SetFares(s, thread, None, p);
  }

  // An object that is created, or is there to begin with and works, works at the end of a run exactly if nobody has marked
  // it and it is not destroyed.
  lemma {:induction false} RunFares<P>(s: Situation<P>, ops: seq<Op<P>>, p: P)
    requires Sound(s) && AllAllowed(s, ops) && p in After(s, ops).w.objs
    ensures var now := After(s, ops).w.objs[p];
      IsFunctional(now) <==> (p in s.w.objs ==> IsFunctional(s.w.objs[p])) && Mark(p) !in ops && now.dtorRuns == 0
    ensures p in s.w.objs && s.w.objs[p].dtorRuns > 0 ==> After(s, ops).w.objs[p].dtorRuns > 0
    decreases |ops|
  {
    if ops == [] {
    } else {
      StepIsSound(s, ops[0]);
      RunFares(Apply(s, ops[0]), ops[1..], p);
      assert Mark(p) in ops <==> ops[0] == Mark(p) || Mark(p) in ops[1..];
      if p in s.w.objs {
        StepFares(s, ops[0], p);
      }
    }
  }

  // What asking for a functional object comes to, after any run from nothing on: a thread gets its current object unless
  // somebody has marked it; then it gets none, and has none any more.
  lemma MarkedIsLetGo<P>(ops: seq<Op<P>>, thread: nat, p: P)
    requires AllAllowed(Nothing<P>(), ops) && CurrentOf(After(Nothing<P>(), ops).w, thread) == Some(p)
    ensures var w := After(Nothing<P>(), ops).w; var (val, w') := AskSlot(w, thread);
      if Mark(p) in ops then val == None && CurrentOf(w', thread) == None else val == Some(p) && w' == w
  {
    CurrentIsAlive(ops, thread);
    RunFares(Nothing<P>(), ops, p);
  }

  // One object, current for one thread, and marked: asking for it gives none and drops the thread's reference.
  lemma MarkedObjectIsDropped()
    ensures var ops := [Create(7), Set(0, Some(7)), Mark(7), Get(0)];
      && AllAllowed(Nothing<nat>(), ops)
      && var w := After(Nothing<nat>(), ops).w;
         CurrentOf(w, 0) == None && w.objs == map[7 := Counted(1, TOBE_DESTROYED, 0)]
  {
    var ops: seq<Op<nat>> := [Create(7), Set(0, Some(7)), Mark(7), Get(0)];
    var s1 := Apply(Nothing<nat>(), ops[0]);
    var s2 := Apply(s1, ops[1]);
    var s3 := Apply(s2, ops[2]);
    var s4 := Apply(s3, ops[3]);
    OneOp(s3, ops[3..]);
    assert ops[1..][1..] == ops[2..] && ops[2..][1..] == ops[3..];
    assert After(s3, ops[3..]) == s4;
    assert After(s2, ops[2..]) == s4;
    assert After(s1, ops[1..]) == s4;
  }

  lemma OneOp<P>(s: Situation<P>, ops: seq<Op<P>>)
    requires |ops| == 1 && Allowed(s, ops[0])
    ensures AllAllowed(s, ops) && After(s, ops) == Apply(s, ops[0])
  {
    assert ops[1..] == [];
  }

  // ---------- the same in place ----------

  // NULL names no object.
  function Named(p: RefObj?): Option<RefObj> {
    if p == null then None else Some(p)
  }

  // One variable of thread-local storage: which object each thread has as its current one.
  class Tsd {
    var slot: map<nat, RefObj?>

    constructor ()
      ensures slot == map[]
    {
      slot := map[];
    }

    function Current(thread: nat): RefObj?
      reads this
    {
      if thread in slot then slot[thread] else null
    }

    // The objects and slots as values. objs may be any objects that include the current ones.
    ghost predicate Among(objs: set<RefObj>)
      reads this
    {
      forall t :: t in slot && slot[t] != null ==> slot[t] in objs
    }

    ghost function Slots(): map<nat, Option<RefObj>>
      reads this
    {
      map t | t in slot :: Named(slot[t])
    }

    ghost function Abstract(objs: set<RefObj>): World<RefObj>
      reads this, objs
    {
      World(map o | o in objs :: o.View(), Slots())
    }

    // objs only says for which objects the change is stated.
    method SetCurrent(thread: nat, p: RefObj?, ghost objs: set<RefObj>)
      requires Among(objs) && (p != null ==> p in objs)
      requires Current(thread) != null ==> Balanced(Current(thread).dtor)
      modifies this, Current(thread), p
      ensures Among(objs) && Abstract(objs) == SetSlot(old(Abstract(objs)), thread, Named(p))
      ensures Current(thread) == p && forall t :: t != thread ==> Current(t) == old(Current(t))
      ensures old(Current(thread)) == p && p != null ==> p.View() == old(p.View())
      ensures old(Current(thread)) != p && old(Current(thread)) != null ==>
        old(Current(thread)).View() == ReleaseOf(old(Current(thread).View()))
      ensures old(Current(thread)) != p && p != null ==> p.View() == AddRefOf(old(p.View()))
    {
      var oldCur := Current(thread);
      if oldCur != p {
        slot := slot[thread := p];
        if oldCur != null {
          oldCur.Release();
        }
        if p != null {
          p.AddRef();
        }
      }
      assert Slots() == old(Slots())[thread := Named(p)] || Slots() == old(Slots());
    }

    method GetCurrentFunctional(thread: nat, ghost objs: set<RefObj>) returns (val: RefObj?)
      requires Among(objs)
      requires Current(thread) != null ==> Balanced(Current(thread).dtor)
      modifies this, Current(thread)
      ensures Among(objs) && (Named(val), Abstract(objs)) == AskSlot(old(Abstract(objs)), thread)
      ensures val == Current(thread) && (val != null ==> IsFunctional(val.View()))
      ensures val == if old(Current(thread) != null && IsFunctional(Current(thread).View())) then old(Current(thread)) else null
      ensures forall t :: t != thread ==> Current(t) == old(Current(t))
      ensures val != null ==> val.View() == old(Current(thread).View())
      ensures val == null && old(Current(thread)) != null ==>
        old(Current(thread)).View() == ReleaseOf(old(Current(thread).View()))
    {
      var cur := Current(thread);
      if cur == null || cur.enmTlsRefState == INITIALIZED {
        val := cur;
      } else {
        SetCurrent(thread, null, objs);
        val := null;
      }
    }
  }
}
