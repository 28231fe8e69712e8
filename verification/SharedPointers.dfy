/**
  Reference counting of source/base/shared_pointer.h.

  A handle is a `ptr_` and a `ref_count_`; both are addresses, 0 is null.  The counters live on the heap
  and are shared by the handles that point to them.  Objects are identified for good: an object that
  was deleted never comes back under the same identity.
 */
module SharedPointers {

  datatype Handle = Handle(ptr: nat, refCount: nat)

  const NULL := Handle(0, 0)

  datatype State = State(
    handles: map<nat, Handle>,   // the SharedPointer objects that exist
    counters: map<nat, int>,     // the counters on the heap
    objects: set<nat>,           // the objects on the heap
    deletions: seq<nat>)         // the objects that handles have deleted, in order

  // ---------------------------------------------------------------------------------------------
  // What the operations are made of
  // ---------------------------------------------------------------------------------------------

  /** release(), with the handle left pointing to nothing. */
  function Detached(s: State, h: nat): State
    requires h in s.handles && (s.handles[h].refCount != 0 ==> s.handles[h].refCount in s.counters)
  {
    var Handle(ptr, c) := s.handles[h];
    var t := s.(handles := s.handles[h := NULL]);
    if c == 0 then t
    else if s.counters[c] != 1 then t.(counters := s.counters[c := s.counters[c] - 1])
    else
      t.(counters := s.counters - {c},
         objects := s.objects - {ptr},
         deletions := if ptr == 0 then s.deletions else s.deletions + [ptr])
  }

  /** The handle takes what `value` points to, as one more user of it. */
  function Attached(s: State, h: nat, value: Handle): State
    requires value.refCount != 0 ==> value.refCount in s.counters
  {
    s.(handles := s.handles[h := value],
       counters := if value.refCount == 0 then s.counters
                   else s.counters[value.refCount := s.counters[value.refCount] + 1])
  }

  /** The handle takes a raw pointer, with a counter of its own. */
  function Owning(s: State, h: nat, ptr: nat, counter: nat): State {
    s.(handles := s.handles[h := Handle(ptr, counter)], counters := s.counters[counter := 1])
  }

  function Swapped(s: State, h: nat, other: nat): State
    requires h in s.handles && other in s.handles
  {
    s.(handles := s.handles[h := s.handles[other]][other := s.handles[h]])
  }

  function Created(s: State, h: nat): State {
    s.(handles := s.handles[h := NULL])
  }

  function Gone(s: State, h: nat): State {
    s.(handles := s.handles - {h})
  }

  // ---------------------------------------------------------------------------------------------
  // The invariant
  // ---------------------------------------------------------------------------------------------

  function Users(s: State, c: nat): set<nat> {
    set h | h in s.handles && s.handles[h].refCount == c
  }

  ghost predicate HandleOk(s: State, h: nat) {
    h in s.handles ==>
      var Handle(ptr, c) := s.handles[h];
      (c == 0 ==> ptr == 0) && (c != 0 ==> c in s.counters && (ptr == 0 || ptr in s.objects))
  }

  /** Two handles share the object exactly when they share the counter (null objects aside). */
  ghost predicate Agree(s: State, g: nat, h: nat) {
    g in s.handles && h in s.handles ==>
      && (s.handles[g].refCount == s.handles[h].refCount ==> s.handles[g].ptr == s.handles[h].ptr)
      && (s.handles[g].ptr == s.handles[h].ptr != 0 ==> s.handles[g].refCount == s.handles[h].refCount)
  }

  ghost predicate CountOk(s: State, c: nat) {
    c in s.counters ==> c != 0 && s.counters[c] == |Users(s, c)| >= 1
  }

  ghost predicate NoRepeats(deletions: seq<nat>) {
    forall i, j :: 0 <= i < j < |deletions| ==> deletions[i] != deletions[j]
  }

  ghost predicate Inv(s: State) {
    && (forall h :: HandleOk(s, h))
    && (forall g, h :: Agree(s, g, h))
    && (forall c :: CountOk(s, c))
    && NoRepeats(s.deletions)
    && 0 !in s.objects && (forall o :: o in s.deletions ==> o !in s.objects)
  }

  ghost predicate Owned(s: State, o: nat) {
    o != 0 && exists h :: h in s.handles && s.handles[h].ptr == o
  }

  lemma {:induction false} UsersOfUpdate(s: State, h: nat, v: Handle, t: State, c: nat)
    requires t.handles == s.handles[h := v] && c != 0
    ensures Users(t, c) == if v.refCount == c then Users(s, c) + {h} else Users(s, c) - {h}
  {
  }

  lemma {:induction false} LoneUser(s: State, c: nat, h: nat, g: nat)
    requires |Users(s, c)| == 1 && h in Users(s, c) && g in Users(s, c)
    ensures g == h
  {
    assert Users(s, c) == {h} by {
      assert |Users(s, c) - {h}| == 0;
    }
  }

  lemma {:induction false} DetachedKeepsInv(s: State, h: nat)
    requires Inv(s) && h in s.handles
    ensures HandleOk(s, h) && Inv(Detached(s, h))
  {
    assert HandleOk(s, h);
    var Handle(ptr, c) := s.handles[h];
    var t := Detached(s, h);
    if c != 0 {
      assert CountOk(s, c) && h in Users(s, c);
      if s.counters[c] == 1 { LastUser(s, h); }
    }
    forall x ensures CountOk(t, x) {
      assert CountOk(s, x);
      if x != 0 { UsersOfUpdate(s, h, NULL, t, x); }
    }
    forall g ensures HandleOk(t, g) {
      assert HandleOk(s, g);
    }
    forall f, g ensures Agree(t, f, g) {
      assert Agree(s, f, g) && HandleOk(s, f) && HandleOk(s, g);
    }
  }

  /** A count of one means that no other handle has the counter or the object. */
  lemma {:induction false} LastUser(s: State, h: nat)
    requires Inv(s) && h in s.handles && s.handles[h].refCount in s.counters && s.counters[s.handles[h].refCount] == 1
    ensures forall g :: g in s.handles && g != h ==>
      s.handles[g].refCount != s.handles[h].refCount
      && (s.handles[h].ptr != 0 ==> s.handles[g].ptr != s.handles[h].ptr)
  {
    var Handle(ptr, c) := s.handles[h];
    assert CountOk(s, c);
    forall g | g in s.handles && g != h
      ensures s.handles[g].refCount != c && (ptr != 0 ==> s.handles[g].ptr != ptr)
    {
      assert Agree(s, g, h);
      if s.handles[g].refCount == c { LoneUser(s, c, h, g); }
    }
  }

  lemma {:induction false} AttachedKeepsInv(s: State, h: nat, other: nat)
    requires Inv(s) && h in s.handles && s.handles[h] == NULL && other in s.handles && other != h
    ensures HandleOk(s, other) && Inv(Attached(s, h, s.handles[other]))
  {
    assert HandleOk(s, other);
    var v := s.handles[other];
    var t := Attached(s, h, v);
    forall x ensures CountOk(t, x) {
      assert CountOk(s, x);
      if x != 0 { UsersOfUpdate(s, h, v, t, x); }
    }
    forall g ensures HandleOk(t, g) {
      assert HandleOk(s, g);
    }
    forall f, g ensures Agree(t, f, g) {
      assert Agree(s, f, g) && Agree(s, other, g) && Agree(s, f, other);
    }
  }

  lemma {:induction false} OwningKeepsInv(s: State, h: nat, ptr: nat, counter: nat)
    requires Inv(s) && h in s.handles && s.handles[h] == NULL && Raw(s, ptr) && counter != 0 && counter !in s.counters
    ensures Inv(Owning(s, h, ptr, counter))
  {
    var t := Owning(s, h, ptr, counter);
    forall g | g in s.handles ensures s.handles[g].refCount != counter {
      assert HandleOk(s, g);
    }
    assert Users(s, counter) == {};
    forall x ensures CountOk(t, x) {
      assert CountOk(s, x);
      if x != 0 { UsersOfUpdate(s, h, Handle(ptr, counter), t, x); }
    }
    forall g ensures HandleOk(t, g) {
      assert HandleOk(s, g);
    }
    forall f, g ensures Agree(t, f, g) {
      assert Agree(s, f, g) && HandleOk(s, f) && HandleOk(s, g);
    }
  }

  lemma {:induction false} SwappedUsers(s: State, h: nat, other: nat, c: nat)
    requires h in s.handles && other in s.handles
    ensures |Users(Swapped(s, h, other), c)| == |Users(s, c)|
  {
    var before, after := Users(s, c), Users(Swapped(s, h, other), c);
    if h in before && other !in before {
      assert after == before - {h} + {other};
      Exchanged(before, h, other);
    } else if h !in before && other in before {
      assert after == before - {other} + {h};
      Exchanged(before, other, h);
    } else {
      assert after == before;
    }
  }

  lemma {:induction false} Exchanged(users: set<nat>, leaver: nat, joiner: nat)
    requires leaver in users && joiner !in users
    ensures |users - {leaver} + {joiner}| == |users|
  {
  }

  lemma {:induction false} SwappedKeepsInv(s: State, h: nat, other: nat)
    requires Inv(s) && h in s.handles && other in s.handles
    ensures Inv(Swapped(s, h, other))
  {
    var t := Swapped(s, h, other);
    forall x ensures CountOk(t, x) {
      assert CountOk(s, x);
      SwappedUsers(s, h, other, x);
    }
    forall g ensures HandleOk(t, g) {
      assert HandleOk(s, g) && HandleOk(s, h) && HandleOk(s, other);
    }
    forall f, g ensures Agree(t, f, g) {
      var f', g' := Partner(f, h, other), Partner(g, h, other);
      assert Agree(s, f', g');
    }
  }

  function Partner(g: nat, h: nat, other: nat): nat {
    if g == h then other else if g == other then h else g
  }

  lemma {:induction false} CreatedKeepsInv(s: State, h: nat)
    requires Inv(s) && h !in s.handles
    ensures Inv(Created(s, h))
  {
    var t := Created(s, h);
    forall x ensures CountOk(t, x) {
      assert CountOk(s, x);
      if x != 0 { UsersOfUpdate(s, h, NULL, t, x); }
    }
    forall g ensures HandleOk(t, g) { assert HandleOk(s, g); }
    forall f, g ensures Agree(t, f, g) { assert Agree(s, f, g) && HandleOk(s, f) && HandleOk(s, g); }
  }

  lemma {:induction false} GoneKeepsInv(s: State, h: nat)
    requires Inv(s) && h in s.handles && s.handles[h] == NULL
    ensures Inv(Gone(s, h))
  {
    var t := Gone(s, h);
    forall x ensures CountOk(t, x) {
      assert CountOk(s, x);
      assert x != 0 ==> Users(t, x) == Users(s, x);
    }
    forall g ensures HandleOk(t, g) { assert HandleOk(s, g); }
    forall f, g ensures Agree(t, f, g) { assert Agree(s, f, g); }
  }

  // ---------------------------------------------------------------------------------------------
  // Operations
  // ---------------------------------------------------------------------------------------------

  datatype Op =
    | New(o: nat)                                   // the program allocates an object
    | Default(h: nat)
    | Construct(h: nat, ptr: nat, counter: nat)     // counter is where `new int(1)` ends up
    | CopyConstruct(h: nat, other: nat)
    | MoveConstruct(h: nat, other: nat)
    | CopyAssign(h: nat, other: nat)
    | MoveAssign(h: nat, other: nat)
    | Reset(h: nat, ptr: nat, counter: nat)
    | Swap(h: nat, other: nat)
    | Destroy(h: nat)

  /** A raw pointer may be handed in while no handle owns it. */
  ghost predicate Raw(s: State, ptr: nat) {
    ptr == 0 || (ptr in s.objects && !Owned(s, ptr))
  }

  ghost predicate Allowed(s: State, op: Op)
    requires Inv(s)
  {
    match op
    case New(o) => o != 0 && o !in s.objects && o !in s.deletions
    case Default(h) => h !in s.handles
    case Construct(h, ptr, counter) => h !in s.handles && Raw(s, ptr) && counter != 0 && counter !in s.counters
    case CopyConstruct(h, other) => h !in s.handles && other in s.handles
    case MoveConstruct(h, other) => h !in s.handles && other in s.handles
    case CopyAssign(h, other) => h in s.handles && other in s.handles
    case MoveAssign(h, other) => h in s.handles && other in s.handles
    case Reset(h, ptr, counter) =>
      h in s.handles && Raw(s, ptr) && counter != 0
      && (DetachedKeepsInv(s, h); counter !in Detached(s, h).counters)
    case Swap(h, other) => h in s.handles && other in s.handles
    case Destroy(h) => h in s.handles
  }

  ghost function Apply(s: State, op: Op): State
    requires Inv(s) && Allowed(s, op)
  {
    match op
    case New(o) => s.(objects := s.objects + {o})
    case Default(h) => Created(s, h)
    case Construct(h, ptr, counter) => Owning(Created(s, h), h, ptr, counter)
    case CopyConstruct(h, other) =>
      assert HandleOk(s, other);
      Attached(Created(s, h), h, s.handles[other])
    case MoveConstruct(h, other) => Swapped(Created(s, h), h, other)
    case CopyAssign(h, other) =>
      if h == other then s
      else
        DetachedKeepsInv(s, h);
        assert HandleOk(Detached(s, h), other);
        Attached(Detached(s, h), h, s.handles[other])
    case MoveAssign(h, other) =>
      assert HandleOk(s, h);
      if h == other then s else Swapped(Detached(s, h), h, other)
    case Reset(h, ptr, counter) =>
      assert HandleOk(s, h);
      if ptr == 0 then Detached(s, h) else Owning(Detached(s, h), h, ptr, counter)
    case Swap(h, other) => Swapped(s, h, other)
    case Destroy(h) =>
      assert HandleOk(s, h);
      Gone(Detached(s, h), h)
  }

  lemma {:induction false} ApplyKeepsInv(s: State, op: Op)
    requires Inv(s) && Allowed(s, op)
    ensures Inv(Apply(s, op))
  {
    match op
    case New(o) =>
      var t := Apply(s, op);
      forall x ensures CountOk(t, x) { assert CountOk(s, x); assert Users(t, x) == Users(s, x); }
      forall g ensures HandleOk(t, g) { assert HandleOk(s, g); }
      forall f, g ensures Agree(t, f, g) { assert Agree(s, f, g); }
    case Default(h) => CreatedKeepsInv(s, h);
    case Construct(h, ptr, counter) =>
      CreatedKeepsInv(s, h);
      OwningKeepsInv(Created(s, h), h, ptr, counter);
    case CopyConstruct(h, other) =>
      CreatedKeepsInv(s, h);
      AttachedKeepsInv(Created(s, h), h, other);
    case MoveConstruct(h, other) =>
      CreatedKeepsInv(s, h);
      SwappedKeepsInv(Created(s, h), h, other);
    case CopyAssign(h, other) =>
      DetachedKeepsInv(s, h);
      if h != other { AttachedKeepsInv(Detached(s, h), h, other); }
    case MoveAssign(h, other) =>
      DetachedKeepsInv(s, h);
      if h != other { SwappedKeepsInv(Detached(s, h), h, other); }
    case Reset(h, ptr, counter) =>
      DetachedKeepsInv(s, h);
      DetachedSparesOthers(s, h);
      if ptr != 0 { OwningKeepsInv(Detached(s, h), h, ptr, counter); }
    case Swap(h, other) => SwappedKeepsInv(s, h, other);
    case Destroy(h) =>
      DetachedKeepsInv(s, h);
      GoneKeepsInv(Detached(s, h), h);
  }

  /** An object that no handle owns is not touched. */
  lemma {:induction false} DetachedSparesOthers(s: State, h: nat)
    requires Inv(s) && h in s.handles && HandleOk(s, h)
    ensures forall o :: o != 0 && !Owned(s, o) ==>
      (o in s.objects <==> o in Detached(s, h).objects) && !Owned(Detached(s, h), o)
      && (o in s.deletions <==> o in Detached(s, h).deletions)
  {
    var t := Detached(s, h);
    forall o | o != 0 && !Owned(s, o)
      ensures (o in s.objects <==> o in t.objects) && !Owned(t, o) && (o in s.deletions <==> o in t.deletions)
    {
      assert s.handles[h].ptr != o;
      assert forall g :: g in t.handles ==> t.handles[g].ptr == (if g == h then 0 else s.handles[g].ptr);
    }
  }

  // ---------------------------------------------------------------------------------------------
  // Where the handles point
  // ---------------------------------------------------------------------------------------------

  /** Where every handle points after an operation, from where they pointed before it; no counter matters for that. */
  function Pointed(handles: map<nat, Handle>, op: Op): map<nat, Handle> {
    match op
    case New(o) => handles
    case Default(h) => handles[h := NULL]
    case Construct(h, ptr, counter) => handles[h := Handle(ptr, counter)]
    case CopyConstruct(h, other) => if other in handles then handles[h := handles[other]] else handles
    case CopyAssign(h, other) => if other in handles then handles[h := handles[other]] else handles
    case MoveConstruct(h, other) => Moved(handles, h, other)
    case MoveAssign(h, other) => Moved(handles, h, other)
    case Reset(h, ptr, counter) => handles[h := if ptr == 0 then NULL else Handle(ptr, counter)]
    case Swap(h, other) =>
      map g | g in handles :: if Partner(g, h, other) in handles then handles[Partner(g, h, other)] else NULL
    case Destroy(h) => handles - {h}
  }

  /** A move to itself changes nothing. */
  function Moved(handles: map<nat, Handle>, h: nat, other: nat): map<nat, Handle> {
    if h == other || other !in handles then handles else handles[h := handles[other]][other := NULL]
  }

  /** The count of the counter c after an operation, from the handles that used it before. */
  function Counted(s: State, op: Op, c: nat): int {
    match op
    case New(_) => |Users(s, c)|
    case Default(_) => |Users(s, c)|
    case Construct(_, _, counter) => if c == counter then 1 else |Users(s, c)|
    case CopyConstruct(h, other) => |Users(s, c) - {h}| + if other in Users(s, c) then 1 else 0
    case CopyAssign(h, other) => |Users(s, c) - {h}| + if other in Users(s, c) then 1 else 0
    case MoveConstruct(_, _) => |Users(s, c)|
    case MoveAssign(h, other) => if h == other then |Users(s, c)| else |Users(s, c) - {h}|
    case Reset(h, ptr, counter) => if ptr != 0 && c == counter then 1 else |Users(s, c) - {h}|
    case Swap(_, _) => |Users(s, c)|
    case Destroy(h) => |Users(s, c) - {h}|
  }

  lemma {:induction false} PointsWhereTold(s: State, op: Op)
    requires Inv(s) && Allowed(s, op)
    ensures Apply(s, op).handles == Pointed(s.handles, op)
  {
    match op
    case New(_) =>
    case Default(_) =>
    case Construct(_, _, _) =>
    case CopyConstruct(h, other) =>
    case MoveConstruct(h, other) =>
    case CopyAssign(h, other) =>
      assert s.handles[h := s.handles[h]] == s.handles;
    case MoveAssign(h, other) =>
    case Reset(h, ptr, counter) =>
    case Swap(h, other) =>
    case Destroy(h) =>
      assert s.handles[h := NULL] - {h} == s.handles - {h};
  }

  /** No handle but h uses a counter that is not on the heap once h has let go. */
  lemma {:induction false} FreshCounter(s: State, h: nat, c: nat)
    requires Inv(s) && h in s.handles && c != 0 && HandleOk(s, h) && c !in Detached(s, h).counters
    ensures Users(s, c) - {h} == {}
  {
    DetachedKeepsInv(s, h);
    forall g | g in s.handles && g != h ensures s.handles[g].refCount != c {
      assert HandleOk(Detached(s, h), g);
    }
  }

  lemma {:induction false} UnusedCounter(s: State, c: nat)
    requires Inv(s) && c != 0 && c !in s.counters
    ensures Users(s, c) == {}
  {
    forall g | g in s.handles ensures s.handles[g].refCount != c {
      assert HandleOk(s, g);
    }
  }

  /** One handle is set to v. */
  lemma {:induction false} UsersWith(s: State, h: nat, v: Handle, t: State, c: nat)
    requires t.handles == s.handles[h := v] && c != 0
    ensures |Users(t, c)| == |Users(s, c) - {h}| + if v.refCount == c then 1 else 0
  {
    UsersOfUpdate(s, h, v, t, c);
    assert Users(s, c) + {h} == Users(s, c) - {h} + {h};
  }

  lemma {:induction false} UsersWithout(s: State, h: nat, c: nat)
    ensures h in Users(s, c) ==> |Users(s, c) - {h}| == |Users(s, c)| - 1
    ensures h !in Users(s, c) ==> Users(s, c) - {h} == Users(s, c)
  {
  }

  /** A handle is created or set; h may have had the counter before. */
  lemma {:induction false} UsersSet(s: State, op: Op, c: nat)
    requires Inv(s) && Allowed(s, op) && c != 0
    requires op.Default? || op.Construct? || op.CopyConstruct? || op.CopyAssign? || op.Reset?
    ensures |Users(Apply(s, op), c)| == Counted(s, op, c)
  {
    var t := Apply(s, op);
    PointsWhereTold(s, op);
    UsersWithout(s, op.h, c);
    match op
    case Default(h) => UsersWith(s, h, NULL, t, c);
    case Construct(h, ptr, counter) =>
      UnusedCounter(s, counter);
      UsersWith(s, h, Handle(ptr, counter), t, c);
    case CopyConstruct(h, other) => UsersWith(s, h, s.handles[other], t, c);
    case CopyAssign(h, other) => UsersWith(s, h, s.handles[other], t, c);
    case Reset(h, ptr, counter) =>
      assert HandleOk(s, h);
      FreshCounter(s, h, counter);
      UsersWith(s, h, if ptr == 0 then NULL else Handle(ptr, counter), t, c);
  }

  /** What one handle loses another one gets, or nobody. */
  lemma {:induction false} UsersMoved(s: State, op: Op, c: nat)
    requires Inv(s) && Allowed(s, op) && c != 0
    requires op.New? || op.MoveConstruct? || op.MoveAssign? || op.Swap? || op.Destroy?
    ensures |Users(Apply(s, op), c)| == Counted(s, op, c)
  {
    match op
    case New(_) => assert Users(Apply(s, op), c) == Users(s, c);
    case MoveConstruct(h, other) =>
      UsersWithout(s, h, c);
      UsersWith(s, h, NULL, Created(s, h), c);
      SwappedUsers(Created(s, h), h, other, c);
    case MoveAssign(h, other) =>
      if h != other {
        assert HandleOk(s, h);
        UsersWith(s, h, NULL, Detached(s, h), c);
        SwappedUsers(Detached(s, h), h, other, c);
      }
    case Swap(h, other) => SwappedUsers(s, h, other, c);
    case Destroy(h) => assert Users(Apply(s, op), c) == Users(s, c) - {h};
  }

  /** After every operation each counter is what the handles before it and the operation say, and is gone at 0. */
  lemma {:induction false} CountsWhatIsTold(s: State, op: Op, c: nat)
    requires Inv(s) && Allowed(s, op) && c != 0
    ensures c in Apply(s, op).counters <==> Counted(s, op, c) > 0
    ensures c in Apply(s, op).counters ==> Apply(s, op).counters[c] == Counted(s, op, c)
  {
    var t := Apply(s, op);
    if op.New? || op.MoveConstruct? || op.MoveAssign? || op.Swap? || op.Destroy? {
      UsersMoved(s, op, c);
    } else {
      UsersSet(s, op, c);
    }
    ApplyKeepsInv(s, op);
    assert CountOk(t, c);
    if c !in t.counters {
      UnusedCounter(t, c);
    }
  }

  // ---------------------------------------------------------------------------------------------
  // Lifetimes
  // ---------------------------------------------------------------------------------------------

  /** The handle was the last one: only then is something deleted, and that is its object. */
  lemma {:induction false} DetachedDeletesLast(s: State, h: nat, o: nat)
    requires Inv(s) && h in s.handles && HandleOk(s, h) && Owned(s, o)
    ensures Owned(Detached(s, h), o) <==> o !in Detached(s, h).deletions
  {
    DetachedKeepsInv(s, h);
    var t := Detached(s, h);
    OwnedIsAlive(t);
    OwnedIsAlive(s);
    var c := s.handles[h].refCount;
    if s.handles[h].ptr != o {
      var g :| g in s.handles && s.handles[g].ptr == o;
      assert t.handles[g].ptr == o;
    } else if s.counters[c] != 1 {
      assert CountOk(s, c) && h in Users(s, c);
      var g := OtherUser(s, c, h);
      assert Agree(s, g, h);
      assert t.handles[g].ptr == o;
    }
  }

  lemma {:induction false} OtherUser(s: State, c: nat, h: nat) returns (g: nat)
    requires h in Users(s, c) && |Users(s, c)| != 1
    ensures g in Users(s, c) && g != h
  {
    assert |Users(s, c) - {h}| == |Users(s, c)| - 1 > 0;
    g :| g in Users(s, c) - {h};
  }

  lemma {:induction false} OwnedIsAlive(s: State)
    requires Inv(s)
    ensures forall o :: Owned(s, o) ==> o in s.objects && o !in s.deletions
  {
    forall o | Owned(s, o) ensures o in s.objects {
      var h :| h in s.handles && s.handles[h].ptr == o;
      assert HandleOk(s, h);
    }
  }

  /** No operation brings an object back, loses one that is owned, or deletes one that is not. */
  ghost predicate Accounted(s: State, t: State) {
    && (forall o :: o in s.deletions ==> o in t.deletions)
    && (forall o :: Owned(s, o) ==> Owned(t, o) || o in t.deletions)
    && (forall o :: o in t.deletions ==> o in s.deletions || Owned(s, o))
    && (forall o :: o in s.objects ==> o in t.objects || o in t.deletions)
  }

  lemma {:induction false} DetachedAccounts(s: State, h: nat)
    requires Inv(s) && h in s.handles && HandleOk(s, h)
    ensures Accounted(s, Detached(s, h))
  {
    var t := Detached(s, h);
    DetachedSparesOthers(s, h);
    forall o | Owned(s, o) ensures Owned(t, o) || o in t.deletions {
      DetachedDeletesLast(s, h, o);
    }
    forall o | o in t.deletions ensures o in s.deletions || Owned(s, o) {
      assert o == s.handles[h].ptr || o in s.deletions;
    }
  }

  /** Rearranging handles without dropping what they point to deletes nothing. */
  lemma {:induction false} KeptAccounts(s: State, t: State, u: State)
    requires Accounted(s, t) && u.objects >= t.objects && u.deletions == t.deletions
    requires forall o :: Owned(t, o) ==> Owned(u, o)
    ensures Accounted(s, u)
  {
  }

  lemma {:induction false} SwappedOwns(s: State, h: nat, other: nat, o: nat)
    requires h in s.handles && other in s.handles && Owned(s, o)
    ensures Owned(Swapped(s, h, other), o)
  {
    var g :| g in s.handles && s.handles[g].ptr == o;
    assert Swapped(s, h, other).handles[Partner(g, h, other)].ptr == o;
  }

  lemma {:induction false} UpdatedOwns(s: State, h: nat, v: Handle, t: State, o: nat)
    requires t.handles == s.handles[h := v] && (h in s.handles ==> s.handles[h] == NULL) && Owned(s, o)
    ensures Owned(t, o)
  {
    var g :| g in s.handles && s.handles[g].ptr == o;
    assert t.handles[g].ptr == o;
  }

  lemma {:induction false} ApplyAccounts(s: State, op: Op)
    requires Inv(s) && Allowed(s, op)
    ensures Accounted(s, Apply(s, op))
  {
    assert Accounted(s, s);
    var u := Apply(s, op);
    match op
    case New(o) =>
    case Default(h) => forall o | Owned(s, o) ensures Owned(u, o) { UpdatedOwns(s, h, NULL, u, o); }
    case Construct(h, ptr, counter) =>
      forall o | Owned(s, o) ensures Owned(u, o) { UpdatedOwns(s, h, Handle(ptr, counter), u, o); }
    case CopyConstruct(h, other) =>
      forall o | Owned(s, o) ensures Owned(u, o) { UpdatedOwns(s, h, s.handles[other], u, o); }
    case MoveConstruct(h, other) =>
      forall o | Owned(s, o) ensures Owned(u, o) {
        UpdatedOwns(s, h, NULL, Created(s, h), o);
        SwappedOwns(Created(s, h), h, other, o);
      }
    case CopyAssign(h, other) =>
      if h != other {
        assert HandleOk(s, h);
        DetachedAccounts(s, h);
        var t := Detached(s, h);
        forall o | Owned(t, o) ensures Owned(u, o) { UpdatedOwns(t, h, s.handles[other], u, o); }
        KeptAccounts(s, t, u);
      }
    case MoveAssign(h, other) =>
      if h != other {
        assert HandleOk(s, h);
        DetachedAccounts(s, h);
        var t := Detached(s, h);
        forall o | Owned(t, o) ensures Owned(u, o) { SwappedOwns(t, h, other, o); }
        KeptAccounts(s, t, u);
      }
    case Reset(h, ptr, counter) =>
      assert HandleOk(s, h);
      DetachedAccounts(s, h);
      var t := Detached(s, h);
      if ptr != 0 {
        forall o | Owned(t, o) ensures Owned(u, o) { UpdatedOwns(t, h, Handle(ptr, counter), u, o); }
        KeptAccounts(s, t, u);
      }
    case Swap(h, other) => forall o | Owned(s, o) ensures Owned(u, o) { SwappedOwns(s, h, other, o); }
    case Destroy(h) =>
      assert HandleOk(s, h);
      DetachedAccounts(s, h);
      var t := Detached(s, h);
      forall o | Owned(t, o) ensures Owned(u, o) {
        var g :| g in t.handles && t.handles[g].ptr == o;
        assert u.handles[g].ptr == o;
      }
      KeptAccounts(s, t, u);
  }

  /** An operation deletes exactly the objects that were owned before it and are not owned after it. */
  lemma {:induction false} DeletesWhatIsLeft(s: State, op: Op, o: nat)
    requires Inv(s) && Allowed(s, op)
    ensures o in Apply(s, op).objects <==> (o in s.objects || op == New(o)) && (Owned(s, o) ==> Owned(Apply(s, op), o))
  {
    var t := Apply(s, op);
    ApplyKeepsInv(s, op);
    ApplyAccounts(s, op);
    OwnedIsAlive(s);
    OwnedIsAlive(t);
    NothingAppears(s, op, o);
  }

  lemma {:induction false} NothingAppears(s: State, op: Op, o: nat)
    requires Inv(s) && Allowed(s, op)
    ensures o in Apply(s, op).objects ==> o in s.objects || op == New(o)
  {
  }

  // ---------------------------------------------------------------------------------------------
  // Runs
  // ---------------------------------------------------------------------------------------------

  const START := State(map[], map[], {}, [])

  /** t comes from s by an operation that the program may call there. */
  ghost predicate Follows(s: State, op: Op, t: State) {
    Inv(s) ==> Allowed(s, op) && t == Apply(s, op)
  }

  ghost predicate IsRun(ops: seq<Op>, states: seq<State>) {
    && |states| == |ops| + 1 && states[0] == START
    && forall i :: 0 <= i < |ops| ==> Follows(states[i], ops[i], states[i + 1])
  }

  lemma {:induction false} RunKeepsInv(ops: seq<Op>, states: seq<State>, n: nat)
    requires IsRun(ops, states) && n <= |ops|
    ensures Inv(states[n])
  {
    if n == 0 {
    } else {
      var i := n - 1;
      RunKeepsInv(ops, states, i);
      assert Follows(states[i], ops[i], states[i + 1]);
      ApplyKeepsInv(states[i], ops[i]);
    }
  }

  /** The count a handle reports is the number of handles on its block, in every state of every run. */
  lemma {:induction false} CountsAreExact(ops: seq<Op>, states: seq<State>, n: nat, h: nat)
    requires IsRun(ops, states) && n <= |ops| && h in states[n].handles
    ensures UseCount(states[n], h) ==
      if states[n].handles[h].refCount == 0 then 0 else |Users(states[n], states[n].handles[h].refCount)|
  {
    RunKeepsInv(ops, states, n);
    assert HandleOk(states[n], h) && CountOk(states[n], states[n].handles[h].refCount);
  }

  function UseCount(s: State, h: nat): int
    requires h in s.handles
  {
    var c := s.handles[h].refCount;
    if c in s.counters then s.counters[c] else 0
  }

  /** A counter is on the heap exactly while some handle uses it. */
  lemma {:induction false} CountersLiveWithUsers(ops: seq<Op>, states: seq<State>, n: nat, c: nat)
    requires IsRun(ops, states) && n <= |ops| && c != 0
    ensures c in states[n].counters <==> Users(states[n], c) != {}
  {
    RunKeepsInv(ops, states, n);
    assert CountOk(states[n], c);
    if Users(states[n], c) != {} {
      var h :| h in Users(states[n], c);
      assert HandleOk(states[n], h);
    }
  }

  /**
    From the moment a handle owns an object, the object is alive exactly while some handle owns it, and
    deleted exactly once, in the very step in which the last handle leaves it.
   */
  lemma {:induction false} ObjectsLiveWithHandles(ops: seq<Op>, states: seq<State>, i: nat, j: nat, o: nat)
    requires IsRun(ops, states) && i <= j <= |ops| && Owned(states[i], o)
    ensures o in states[j].objects <==> Owned(states[j], o)
    ensures o in states[j].deletions <==> !Owned(states[j], o)
    ensures NoRepeats(states[j].deletions)
    decreases j
  {
    RunKeepsInv(ops, states, j);
    OwnedIsAlive(states[j]);
    if i == j {
    } else {
      ObjectsLiveWithHandles(ops, states, i, j - 1, o);
      RunKeepsInv(ops, states, j - 1);
      assert Follows(states[j - 1], ops[j - 1], states[j]);
      ApplyAccounts(states[j - 1], ops[j - 1]);
    }
  }

  /** When the last handle is gone, no counter is left behind. */
  lemma {:induction false} NothingLeaks(ops: seq<Op>, states: seq<State>, n: nat)
    requires IsRun(ops, states) && n <= |ops| && states[n].handles == map[]
    ensures states[n].counters == map[]
  {
    RunKeepsInv(ops, states, n);
    forall c ensures c !in states[n].counters {
      assert CountOk(states[n], c);
      assert Users(states[n], c) == {};
    }
  }

  // ---------------------------------------------------------------------------------------------
  // The operations in place
  // ---------------------------------------------------------------------------------------------

  /** The memory the handles live in; each method is one member of SharedPointer, called on handle h. */
  class SharedMemory {
    var handles: map<nat, Handle>
    var counters: map<nat, int>
    var objects: set<nat>
    var deletions: seq<nat>

    ghost function Model(): State
      reads this
    {
      State(handles, counters, objects, deletions)
    }

    constructor ()
      ensures Model() == START
    {
      handles, counters, objects, deletions := map[], map[], {}, [];
    }

    /** The counter goes down; at zero the object and the counter go.  The handle itself is not touched. */
    method Release(h: nat)
      requires Inv(Model()) && h in handles
      modifies this`counters, this`objects, this`deletions
      ensures HandleOk(old(Model()), h)
      ensures Model().(handles := handles[h := NULL]) == Detached(old(Model()), h)
    {
      assert HandleOk(Model(), h);
      var Handle(ptr, c) := handles[h];
      if c == 0 {
        return;
      }
      counters := counters[c := counters[c] - 1];
      if counters[c] == 0 {
        if ptr != 0 {
          objects := objects - {ptr};
          deletions := deletions + [ptr];
        }
        counters := counters - {c};
        assert counters == old(counters) - {c};
      }
    }

    method Construct(h: nat, ptr: nat, counter: nat)
      requires Inv(Model()) && Allowed(Model(), Op.Construct(h, ptr, counter))
      modifies this`handles, this`counters
      ensures Model() == Apply(old(Model()), Op.Construct(h, ptr, counter))
    {
      handles := handles[h := Handle(ptr, counter)];
      counters := counters[counter := 1];
    }

    method CopyConstruct(h: nat, other: nat)
      requires Inv(Model()) && Allowed(Model(), Op.CopyConstruct(h, other))
      modifies this`handles, this`counters
      ensures Model() == Apply(old(Model()), Op.CopyConstruct(h, other))
    {
      assert HandleOk(Model(), other);
      handles := handles[h := handles[other]];
      Count(h);
    }

    /** The new user of a counter, if there is one, is counted. */
    method Count(h: nat)
      requires h in handles && (handles[h].refCount != 0 ==> handles[h].refCount in counters)
      modifies this`counters
      ensures var c := handles[h].refCount;
        counters == if c == 0 then old(counters) else old(counters)[c := old(counters)[c] + 1]
    {
      var c := handles[h].refCount;
      if c != 0 {
        counters := counters[c := counters[c] + 1];
      }
    }

    method MoveConstruct(h: nat, other: nat)
      requires Inv(Model()) && Allowed(Model(), Op.MoveConstruct(h, other))
      modifies this`handles
      ensures Model() == Apply(old(Model()), Op.MoveConstruct(h, other))
    {
      handles := handles[h := handles[other]];
      handles := handles[other := NULL];
    }

    /** Also the converting assignment, which has no self test and needs none. */
    method CopyAssign(h: nat, other: nat)
      requires Inv(Model()) && Allowed(Model(), Op.CopyAssign(h, other))
      modifies this
      ensures Model() == Apply(old(Model()), Op.CopyAssign(h, other))
    {
      if h != other {
        ghost var before := Model();
        DetachedKeepsInv(before, h);
        assert HandleOk(Detached(before, h), other);
        Release(h);
        handles := handles[h := handles[other]];
        Count(h);
      }
    }

    method MoveAssign(h: nat, other: nat)
      requires Inv(Model()) && Allowed(Model(), Op.MoveAssign(h, other))
      modifies this
      ensures Model() == Apply(old(Model()), Op.MoveAssign(h, other))
    {
      if h != other {
        Release(h);
        handles := handles[h := handles[other]];
        handles := handles[other := NULL];
      }
    }

    method Reset(h: nat, ptr: nat, counter: nat)
      requires Inv(Model()) && Allowed(Model(), Op.Reset(h, ptr, counter))
      modifies this
      ensures Model() == Apply(old(Model()), Op.Reset(h, ptr, counter))
    {
      Release(h);
      if ptr != 0 {
        handles := handles[h := Handle(ptr, counter)];
        counters := counters[counter := 1];
      } else {
        handles := handles[h := NULL];
      }
    }

    method Swap(h: nat, other: nat)
      requires Inv(Model()) && Allowed(Model(), Op.Swap(h, other))
      modifies this`handles
      ensures Model() == Apply(old(Model()), Op.Swap(h, other))
    {
      handles := handles[h := handles[other]][other := handles[h]];
    }

    method Destroy(h: nat)
      requires Inv(Model()) && Allowed(Model(), Op.Destroy(h))
      modifies this
      ensures Model() == Apply(old(Model()), Op.Destroy(h))
    {
      Release(h);
      handles := handles - {h};
      assert handles == old(handles)[h := NULL] - {h};
    }
  }
}
