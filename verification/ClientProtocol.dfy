/** Who may touch a client's stream: sessions that join and leave, and threads that visit all clients. */
module ClientProtocol {
  const MAX_CLIENTS: nat := 64

  datatype Option<T> = None | Some(value: T)

  datatype Lock = Free | Held(holder: nat)

  /** What a registered client shares with other threads. Its stream belongs to thread `owner`. */
  datatype Handle = Handle(owner: nat, lock: Lock, alive: bool)

  /** Where a thread is. A session thread has a handle once it has joined; `back` is the handle of a
      session that visits all clients itself. Of `rest`, the clients to visit, the first one is next. */
  datatype Pc =
    | Ready | JoinWant | JoinHold | JoinFull | Joined(h: nat) | Refused | Running(h: nat) | Reading(h: nat)
    | SendWant(h: nat) | SendHold(h: nat) | CountWant(h: nat) | CountHold(h: nat)
    | LeaveWant(h: nat) | LeaveHold(h: nat) | LeaveMarked(h: nat)
    | LeaveList(h: nat) | LeaveErase(h: nat) | LeaveErased(h: nat) | Left(h: nat) | Gone(was: Option<nat>)
    | Idle | SnapWant(back: Option<nat>) | SnapHold(back: Option<nat>) | SnapDone(rest: seq<nat>, back: Option<nat>)
    | Visit(rest: seq<nat>, back: Option<nat>) | VisitWant(rest: seq<nat>, back: Option<nat>)
    | VisitHold(rest: seq<nat>, back: Option<nat>) | VisitTouch(rest: seq<nat>, back: Option<nat>)
    | VisitDone(rest: seq<nat>, back: Option<nat>)

  datatype State = State(conns: seq<nat>, list: Lock, handles: map<nat, Handle>, pcs: map<nat, Pc>)

  // ----- locks

  predicate WantsList(pc: Pc) {
    pc.JoinWant? || pc.CountWant? || pc.LeaveList? || pc.SnapWant?
  }

  predicate HoldsList(pc: Pc) {
    pc.JoinHold? || pc.JoinFull? || pc.Joined? || pc.CountHold? || pc.LeaveErase? || pc.LeaveErased? || pc.SnapHold? ||
        pc.SnapDone?
  }

  predicate WantsHandle(pc: Pc, h: nat) {
    match pc
    case SendWant(g) => g == h
    case LeaveWant(g) => g == h
    case VisitWant(rest, _) => rest != [] && rest[0] == h
    case _ => false
  }

  predicate HoldsHandle(pc: Pc, h: nat) {
    match pc
    case SendHold(g) => g == h
    case LeaveHold(g) => g == h
    case LeaveMarked(g) => g == h
    case VisitHold(rest, _) => rest != [] && rest[0] == h
    case VisitTouch(rest, _) => rest != [] && rest[0] == h
    case VisitDone(rest, _) => rest != [] && rest[0] == h
    case _ => false
  }

  function Granted(pc: Pc): Pc {
    match pc
    case JoinWant => JoinHold
    case CountWant(h) => CountHold(h)
    case LeaveList(h) => LeaveErase(h)
    case SnapWant(back) => SnapHold(back)
    case SendWant(h) => SendHold(h)
    case LeaveWant(h) => LeaveHold(h)
    case VisitWant(rest, back) => VisitHold(rest, back)
    case _ => pc
  }

  /** The thread has done all it wanted the list for. */
  predicate DoneWithList(pc: Pc) {
    pc.JoinFull? || pc.Joined? || pc.CountHold? || pc.LeaveErased? || pc.SnapDone?
  }

  predicate DoneWithHandle(pc: Pc) {
    pc.SendHold? || pc.LeaveMarked? || (pc.VisitDone? && pc.rest != [])
  }

  function Released(pc: Pc): Pc {
    match pc
    case JoinFull => Refused
    case Joined(h) => Running(h)
    case CountHold(h) => Running(h)
    case LeaveErased(h) => Left(h)
    case SnapDone(rest, back) => Visit(rest, back)
    case SendHold(h) => Running(h)
    case LeaveMarked(h) => LeaveList(h)
    case VisitDone(rest, back) => Visit(if rest == [] then [] else rest[1..], back)
    case _ => pc
  }

  // ----- steps

  /** What a thread may do next without any lock. */
  predicate Moves(pc: Pc, to: Pc) {
    match pc
    case Ready => to == JoinWant || to == Gone(None)
    case Refused => to == Gone(None)
    case Running(h) =>
      to == Reading(h) || to == SendWant(h) || to == CountWant(h) || to == SnapWant(Some(h)) || to == LeaveWant(h)
    case Reading(h) => to == Running(h)
    case Left(h) => to == Gone(Some(h))
    case Idle => to == SnapWant(None)
    case Visit(rest, back) =>
      if rest != [] then to == VisitWant(rest, back)
      else to == if back.Some? then Running(back.value) else Idle
    case _ => false
  }

  function Without(s: seq<nat>, h: nat): seq<nat> {
    if s == [] then [] else (if s[0] == h then [] else [s[0]]) + Without(s[1..], h)
  }

  datatype Event = Spawn(session: bool) | TakeList | GiveList | TakeHandle(h: nat) | GiveHandle(h: nat)
    | Register(h: nat) | Erase | Snapshot | Mark | Check | Touch | Move(to: Pc)

  /** Thread `t` takes one step. */
  ghost predicate Step(s: State, t: nat, e: Event, s2: State) {
    if e.Spawn? then t !in s.pcs && s2 == s.(pcs := s.pcs[t := if e.session then Ready else Idle])
    else t in s.pcs && StepOf(s, t, s.pcs[t], e, s2)
  }

  ghost predicate StepOf(s: State, t: nat, pc: Pc, e: Event, s2: State)
    requires t in s.pcs && pc == s.pcs[t]
  {
    match e
    case Spawn(_) => false
    case TakeList => WantsList(pc) && s.list.Free? && s2 == s.(list := Held(t), pcs := s.pcs[t := Granted(pc)])
    case GiveList => DoneWithList(pc) && s2 == s.(list := Free, pcs := s.pcs[t := Released(pc)])
    case TakeHandle(h) =>
      && WantsHandle(pc, h) && h in s.handles && s.handles[h].lock.Free?
      && s2 == s.(handles := s.handles[h := s.handles[h].(lock := Held(t))], pcs := s.pcs[t := Granted(pc)])
    case GiveHandle(h) =>
      && DoneWithHandle(pc) && HoldsHandle(pc, h) && h in s.handles
      && s2 == s.(handles := s.handles[h := s.handles[h].(lock := Free)], pcs := s.pcs[t := Released(pc)])
    case Register(h) =>
      && pc.JoinHold?
      && if |s.conns| >= MAX_CLIENTS then s2 == s.(pcs := s.pcs[t := JoinFull])
         else h !in s.handles &&
              s2 == s.(conns := s.conns + [h], handles := s.handles[h := Handle(t, Free, true)],
                  pcs := s.pcs[t := Joined(h)])
    case Erase => pc.LeaveErase? && s2 == s.(conns := Without(s.conns, pc.h), pcs := s.pcs[t := LeaveErased(pc.h)])
    case Snapshot => pc.SnapHold? && s2 == s.(pcs := s.pcs[t := SnapDone(s.conns, pc.back)])
    case Mark =>
      && pc.LeaveHold? && pc.h in s.handles
      && s2 == s.(handles := s.handles[pc.h := s.handles[pc.h].(alive := false)], pcs := s.pcs[t := LeaveMarked(pc.h)])
    case Check =>
      && pc.VisitHold? && pc.rest != [] && pc.rest[0] in s.handles
      && s2 == s.(pcs := s.pcs[t := if s.handles[pc.rest[0]].alive then VisitTouch(pc.rest, pc.back)
          else VisitDone(pc.rest, pc.back)])
    case Touch => pc.VisitTouch? && s2 == s.(pcs := s.pcs[t := VisitDone(pc.rest, pc.back)])
    case Move(to) => Moves(pc, to) && s2 == s.(pcs := s.pcs[t := to])
  }

  // ----- the invariant

  /** The handle that the thread has got by joining. */
  function Own(pc: Pc): Option<nat> {
    match pc
    case Ready => None
    case JoinWant => None
    case JoinHold => None
    case JoinFull => None
    case Refused => None
    case Idle => None
    case Gone(was) => was
    case SnapWant(back) => back
    case SnapHold(back) => back
    case SnapDone(_, back) => back
    case Visit(_, back) => back
    case VisitWant(_, back) => back
    case VisitHold(_, back) => back
    case VisitTouch(_, back) => back
    case VisitDone(_, back) => back
    case _ => Some(pc.h)
  }

  predicate Marked(pc: Pc) {
    pc.LeaveMarked? || pc.LeaveList? || pc.LeaveErase? || Erased(pc)
  }

  predicate Erased(pc: Pc) {
    pc.LeaveErased? || pc.Left? || pc.Gone?
  }

  function Visiting(pc: Pc): seq<nat> {
    match pc
    case SnapDone(rest, _) => rest
    case Visit(rest, _) => rest
    case VisitWant(rest, _) => rest
    case VisitHold(rest, _) => rest
    case VisitTouch(rest, _) => rest
    case VisitDone(rest, _) => rest
    case _ => []
  }

  /** What holds of one thread. */
  ghost predicate ThreadOk(s: State, t: nat, pc: Pc) {
    && (s.list == Held(t) <==> HoldsList(pc))
    && (forall h :: h in s.handles ==> (s.handles[h].lock == Held(t) <==> HoldsHandle(pc, h)))
    && (Own(pc).Some? ==> Own(pc).value in s.handles && s.handles[Own(pc).value].owner == t)
    && (forall h :: h in Visiting(pc) ==> h in s.handles)
    && (pc.VisitWant? || pc.VisitHold? || pc.VisitTouch? || pc.VisitDone? ==> Visiting(pc) != [])
    && (pc.VisitTouch? ==> Visiting(pc)[0] in s.handles && s.handles[Visiting(pc)[0]].alive)
  }

  /** What holds of one handle: its owner still knows it, and it is alive until the owner has marked
      it and listed until the owner has erased it. */
  ghost predicate HandleOk(s: State, h: nat)
    requires h in s.handles
  {
    var g := s.handles[h];
    && g.owner in s.pcs && Own(s.pcs[g.owner]) == Some(h)
    && (g.alive <==> !Marked(s.pcs[g.owner]))
    && (h in s.conns <==> !Erased(s.pcs[g.owner]))
    && (g.lock.Held? ==> g.lock.holder in s.pcs)
  }

  ghost predicate ListOk(s: State) {
    && |s.conns| <= MAX_CLIENTS && (forall h :: h in s.conns ==> h in s.handles)
    && (s.list.Held? ==> s.list.holder in s.pcs)
  }

  ghost predicate Inv(s: State) {
    && ListOk(s)
    && (forall t :: t in s.pcs ==> ThreadOk(s, t, s.pcs[t]))
    && (forall h :: h in s.handles ==> HandleOk(s, h))
  }

  ghost predicate Init(s: State) {
    s.conns == [] && s.list == Free && s.handles == map[] && s.pcs == map[]
  }

  lemma {:induction false} WithoutIt(s: seq<nat>, h: nat)
    ensures |Without(s, h)| <= |s| && forall g :: g in Without(s, h) <==> g in s && g != h
  {
    if s != [] {
      WithoutIt(s[1..], h);
      assert s == [s[0]] + s[1..];
    }
  }

  /** A step that changes nothing but where the thread is, between places that are alike. */
  lemma MoveKeeps(s: State, t: nat, to: Pc, s2: State)
    requires Inv(s) && t in s.pcs && s2 == s.(pcs := s.pcs[t := to]) && ThreadOk(s, t, to)
    requires Alike(s.pcs[t], to)
    ensures Inv(s2)
  {
    hide HoldsList, HoldsHandle, Visiting, Marked, Erased, Own;
    assert ThreadOk(s2, t, to);
    forall u | u in s2.pcs
      ensures ThreadOk(s2, u, s2.pcs[u])
    {
      assert ThreadOk(s, u, s.pcs[u]);
    }
    forall h | h in s2.handles
      ensures HandleOk(s2, h)
    {
      assert HandleOk(s, h);
    }
  }

  lemma SpawnKeeps(s: State, t: nat, pc: Pc, s2: State)
    requires Inv(s) && t !in s.pcs && (pc == Ready || pc == Idle) && s2 == s.(pcs := s.pcs[t := pc])
    ensures Inv(s2)
  {
    hide HoldsList, HoldsHandle, Visiting, Marked, Erased, Own;
    Spawning(pc);
    forall h | h in s2.handles
      ensures HandleOk(s2, h) && s.handles[h].lock != Held(t)
    {
      assert HandleOk(s, h);
    }
    forall u | u in s2.pcs
      ensures ThreadOk(s2, u, s2.pcs[u])
    {
      if u != t {
        assert ThreadOk(s, u, s.pcs[u]);
      }
    }
  }

  lemma Spawning(pc: Pc)
    requires pc == Ready || pc == Idle
    ensures Own(pc) == None && !HoldsList(pc) && Visiting(pc) == [] && forall h :: !HoldsHandle(pc, h)
  {
  }

  /** Two places with the same handle and the same standing of it. */
  predicate Alike(pc: Pc, to: Pc) {
    Own(to) == Own(pc) && (Own(pc).Some? ==> Marked(to) == Marked(pc) && Erased(to) == Erased(pc))
  }

  ghost predicate NoHandle(pc: Pc) {
    forall h :: !HoldsHandle(pc, h)
  }

  /** A place from which no more is visited than from another one, and nothing is touched. */
  ghost predicate Calm(pc: Pc, to: Pc) {
    && (forall h :: h in Visiting(to) ==> h in Visiting(pc)) && !to.VisitTouch?
    && (to.VisitWant? || to.VisitHold? || to.VisitDone? ==> Visiting(to) != [])
  }

  lemma TakesList(pc: Pc)
    requires WantsList(pc)
    ensures HoldsList(Granted(pc)) && Alike(pc, Granted(pc)) && Calm(pc, Granted(pc)) && NoHandle(pc)
    ensures NoHandle(Granted(pc))
  {
  }

  lemma GivesList(pc: Pc)
    requires DoneWithList(pc)
    ensures HoldsList(pc) && !HoldsList(Released(pc)) && Alike(pc, Released(pc)) && Calm(pc, Released(pc))
    ensures NoHandle(pc) && NoHandle(Released(pc))
  {
  }

  lemma TakesHandle(pc: Pc, h: nat)
    requires WantsHandle(pc, h)
    ensures !HoldsList(pc) && !HoldsList(Granted(pc)) && Alike(pc, Granted(pc)) && Calm(pc, Granted(pc)) && NoHandle(pc)
    ensures forall g :: HoldsHandle(Granted(pc), g) <==> g == h
  {
  }

  lemma GivesHandle(pc: Pc, h: nat)
    requires DoneWithHandle(pc) && HoldsHandle(pc, h)
    ensures !HoldsList(pc) && !HoldsList(Released(pc)) && Alike(pc, Released(pc)) && Calm(pc, Released(pc))
    ensures NoHandle(Released(pc))
    ensures forall g :: HoldsHandle(pc, g) <==> g == h
  {
  }

  /** Taking or giving the lock of the list. */
  lemma SetListKeeps(s: State, t: nat, to: Pc, list: Lock, s2: State)
    requires Inv(s) && t in s.pcs && s2 == s.(list := list, pcs := s.pcs[t := to])
    requires Alike(s.pcs[t], to) && Calm(s.pcs[t], to) && NoHandle(s.pcs[t]) && NoHandle(to)
    requires (s.list == Free || s.list == Held(t)) && list == if HoldsList(to) then Held(t) else Free
    ensures Inv(s2)
  {
    hide HoldsList, HoldsHandle, Visiting, Marked, Erased, Own;
    forall u | u in s2.pcs
      ensures ThreadOk(s2, u, s2.pcs[u])
    {
      assert ThreadOk(s, u, s.pcs[u]);
    }
    forall h | h in s2.handles
      ensures HandleOk(s2, h)
    {
      assert HandleOk(s, h);
    }
  }

  ghost function WithLock(s: State, h: nat, lock: Lock): map<nat, Handle>
    requires h in s.handles
  {
    s.handles[h := s.handles[h].(lock := lock)]
  }

  /** Taking or giving the lock of a handle. */
  lemma SetHandleKeeps(s: State, t: nat, to: Pc, h: nat, lock: Lock, s2: State)
    requires Inv(s) && t in s.pcs && h in s.handles && s2 == s.(handles := WithLock(s, h, lock), pcs := s.pcs[t := to])
    requires Alike(s.pcs[t], to) && Calm(s.pcs[t], to) && !HoldsList(s.pcs[t]) && !HoldsList(to)
    requires forall g :: g != h ==> !HoldsHandle(s.pcs[t], g) && !HoldsHandle(to, g)
    requires (s.handles[h].lock == Free || s.handles[h].lock == Held(t))
    requires lock == if HoldsHandle(to, h) then Held(t) else Free
    ensures Inv(s2)
  {
    hide HoldsList, HoldsHandle, Visiting, Marked, Erased, Own;
    forall u | u in s2.pcs
      ensures ThreadOk(s2, u, s2.pcs[u])
    {
      assert ThreadOk(s, u, s.pcs[u]);
      if u == t {
        SetHandleOwn(s, t, to, h, lock, s2);
      } else {
        SetHandleOther(s, u, s.pcs[u], h, lock, s2);
      }
    }
    forall g | g in s2.handles
      ensures HandleOk(s2, g)
    {
      assert HandleOk(s, g);
    }
  }

  lemma SetHandleOwn(s: State, t: nat, to: Pc, h: nat, lock: Lock, s2: State)
    requires t in s.pcs && ThreadOk(s, t, s.pcs[t]) && h in s.handles
    requires s2 == s.(handles := WithLock(s, h, lock), pcs := s.pcs[t := to])
    requires Alike(s.pcs[t], to) && Calm(s.pcs[t], to) && !HoldsList(s.pcs[t]) && !HoldsList(to)
    requires forall g :: g != h ==> !HoldsHandle(s.pcs[t], g) && !HoldsHandle(to, g)
    requires lock == if HoldsHandle(to, h) then Held(t) else Free
    ensures ThreadOk(s2, t, to)
  {
    hide HoldsList, HoldsHandle, Visiting, Marked, Erased, Own;
  }

  lemma SetHandleOther(s: State, u: nat, pc: Pc, h: nat, lock: Lock, s2: State)
    requires ThreadOk(s, u, pc) && h in s.handles && s2.handles == WithLock(s, h, lock) && s2.list == s.list
    requires s.handles[h].lock != Held(u) && lock != Held(u)
    ensures ThreadOk(s2, u, pc)
  {
    hide HoldsList, HoldsHandle, Visiting, Marked, Erased, Own;
  }

  /** A session joins. */
  lemma RegisterKeeps(s: State, t: nat, h: nat, s2: State)
    requires Inv(s) && t in s.pcs && s.pcs[t].JoinHold? && |s.conns| < MAX_CLIENTS && h !in s.handles
    requires s2 == s.(conns := s.conns + [h], handles := s.handles[h := Handle(t, Free, true)],
             pcs := s.pcs[t := Joined(h)])
    ensures Inv(s2)
  {
    hide HoldsList, HoldsHandle, Visiting, Marked, Erased, Own;
    Joining(h);
    forall u | u in s2.pcs
      ensures ThreadOk(s2, u, s2.pcs[u])
    {
      assert ThreadOk(s, u, s.pcs[u]);
      if u != t {
        NewHandle(s, u, s.pcs[u], h);
      }
    }
    forall g | g in s2.handles
      ensures HandleOk(s2, g)
    {
      if g != h {
        assert HandleOk(s, g);
      }
    }
  }

  lemma Joining(h: nat)
    ensures Own(JoinHold) == None && Own(Joined(h)) == Some(h) && !Marked(Joined(h)) && !Erased(Joined(h))
    ensures HoldsList(JoinHold) && HoldsList(Joined(h)) && NoHandle(JoinHold) && NoHandle(Joined(h))
    ensures Visiting(Joined(h)) == []
  {
  }

  /** No thread knows a handle that does not exist. */
  lemma NewHandle(s: State, u: nat, pc: Pc, h: nat)
    requires ThreadOk(s, u, pc) && h !in s.handles
    ensures !HoldsHandle(pc, h) && Own(pc) != Some(h)
  {
  }

  /** A session takes itself off the list. */
  lemma EraseKeeps(s: State, t: nat, s2: State)
    requires Inv(s) && t in s.pcs && s.pcs[t].LeaveErase?
    requires s2 == s.(conns := Without(s.conns, s.pcs[t].h), pcs := s.pcs[t := LeaveErased(s.pcs[t].h)])
    ensures Inv(s2)
  {
    hide Without, HoldsList, HoldsHandle, Visiting, Marked, Erased, Own;
    var h := s.pcs[t].h;
    Erasing(h);
    WithoutIt(s.conns, h);
    assert ThreadOk(s, t, s.pcs[t]);
    forall u | u in s2.pcs
      ensures ThreadOk(s2, u, s2.pcs[u])
    {
      assert ThreadOk(s, u, s.pcs[u]);
    }
    forall g | g in s2.handles
      ensures HandleOk(s2, g)
    {
      assert HandleOk(s, g);
    }
  }

  lemma Erasing(h: nat)
    ensures var pc, to := LeaveErase(h), LeaveErased(h);
            && Own(pc) == Own(to) == Some(h) && Marked(pc) && Marked(to) && !Erased(pc) && Erased(to) &&
                HoldsList(pc) && HoldsList(to)
            && NoHandle(pc) && NoHandle(to) && Visiting(to) == []
  {
  }

  /** A session marks its handle dead. Nobody is touching its stream, for the session has the lock. */
  lemma MarkKeeps(s: State, t: nat, s2: State)
    requires Inv(s) && t in s.pcs && s.pcs[t].LeaveHold? && s.pcs[t].h in s.handles
    requires var h := s.pcs[t].h;
             s2 == s.(handles := s.handles[h := s.handles[h].(alive := false)], pcs := s.pcs[t := LeaveMarked(h)])
    ensures Inv(s2)
  {
    hide HoldsList, HoldsHandle, Visiting, Marked, Erased, Own;
    var h := s.pcs[t].h;
    Marking(h);
    assert ThreadOk(s, t, s.pcs[t]);
    forall u | u in s2.pcs
      ensures ThreadOk(s2, u, s2.pcs[u])
    {
      assert ThreadOk(s, u, s.pcs[u]);
      if u != t {
        MarkOther(s, u, s.pcs[u], h, s2);
      }
    }
    forall g | g in s2.handles
      ensures HandleOk(s2, g)
    {
      assert HandleOk(s, g);
    }
  }

  lemma Marking(h: nat)
    ensures var pc, to := LeaveHold(h), LeaveMarked(h);
            && Own(pc) == Own(to) == Some(h) && !Marked(pc) && Marked(to) && !Erased(pc) && !Erased(to) &&
                !HoldsList(pc) && !HoldsList(to)
            && Visiting(to) == [] && forall g :: (HoldsHandle(pc, g) <==> g == h) && (HoldsHandle(to, g) <==> g == h)
  {
  }

  lemma MarkOther(s: State, u: nat, pc: Pc, h: nat, s2: State)
    requires ThreadOk(s, u, pc) && h in s.handles && s.handles[h].lock.Held? && s.handles[h].lock != Held(u)
    requires s2.list == s.list && s2.handles == s.handles[h := s.handles[h].(alive := false)]
    ensures ThreadOk(s2, u, pc)
  {
    hide HoldsList, Marked, Erased, Own;
    assert pc.VisitTouch? ==> HoldsHandle(pc, Visiting(pc)[0]);
  }

  /** Every step keeps the invariant. */
  lemma StepKeeps(s: State, t: nat, e: Event, s2: State)
    requires Inv(s) && Step(s, t, e, s2)
    ensures Inv(s2)
  {
    if e.Spawn? {
      SpawnKeeps(s, t, if e.session then Ready else Idle, s2);
      return;
    }
    hide Inv, ThreadOk, HandleOk;
    var pc := s.pcs[t];
    match e
    case TakeList =>
      TakesList(pc);
      SetListKeeps(s, t, Granted(pc), Held(t), s2);
    case GiveList =>
      GivesList(pc);
      ListHolder(s, t);
      SetListKeeps(s, t, Released(pc), Free, s2);
    case TakeHandle(h) =>
      TakesHandle(pc, h);
      SetHandleKeeps(s, t, Granted(pc), h, Held(t), s2);
    case GiveHandle(h) =>
      GivesHandle(pc, h);
      HandleHolder(s, t, h);
      SetHandleKeeps(s, t, Released(pc), h, Free, s2);
    case Register(h) =>
      if |s.conns| >= MAX_CLIENTS {
        FullKeeps(s, t, s2);
      } else {
        RegisterKeeps(s, t, h, s2);
      }
    case Erase => EraseKeeps(s, t, s2);
    case Mark => MarkKeeps(s, t, s2);
    case Snapshot => SnapshotKeeps(s, t, s2);
    case Check => CheckKeeps(s, t, s2);
    case Touch => CheckKeeps(s, t, s2);
    case Move(to) =>
      MovesAlike(s, t, to);
      MoveKeeps(s, t, to, s2);
  }

  lemma ListHolder(s: State, t: nat)
    requires Inv(s) && t in s.pcs && HoldsList(s.pcs[t])
    ensures s.list == Held(t)
  {
    assert ThreadOk(s, t, s.pcs[t]);
  }

  lemma HandleHolder(s: State, t: nat, h: nat)
    requires Inv(s) && t in s.pcs && h in s.handles && HoldsHandle(s.pcs[t], h)
    ensures s.handles[h].lock == Held(t)
  {
    assert ThreadOk(s, t, s.pcs[t]);
  }

  lemma FullKeeps(s: State, t: nat, s2: State)
    requires Inv(s) && t in s.pcs && s.pcs[t].JoinHold? && s2 == s.(pcs := s.pcs[t := JoinFull])
    ensures Inv(s2)
  {
    assert ThreadOk(s, t, s.pcs[t]);
    MoveKeeps(s, t, JoinFull, s2);
  }

  lemma SnapshotKeeps(s: State, t: nat, s2: State)
    requires Inv(s) && t in s.pcs && s.pcs[t].SnapHold? && s2 == s.(pcs := s.pcs[t := SnapDone(s.conns, s.pcs[t].back)])
    ensures Inv(s2)
  {
    hide HoldsList, HoldsHandle, Visiting, Marked, Erased, Own;
    assert ThreadOk(s, t, s.pcs[t]);
    Snapping(s.conns, s.pcs[t].back);
    MoveKeeps(s, t, SnapDone(s.conns, s.pcs[t].back), s2);
  }

  lemma Snapping(rest: seq<nat>, back: Option<nat>)
    ensures var pc, to := SnapHold(back), SnapDone(rest, back);
            Alike(pc, to) && HoldsList(pc) && HoldsList(to) && NoHandle(pc) && NoHandle(to) && Visiting(to) == rest
  {
  }

  lemma CheckKeeps(s: State, t: nat, s2: State)
    requires Inv(s) && t in s.pcs && (s.pcs[t].VisitHold? || s.pcs[t].VisitTouch?)
    requires var pc := s.pcs[t];
             || s2 == s.(pcs := s.pcs[t := VisitDone(pc.rest, pc.back)])
             || (pc.rest != [] && pc.rest[0] in s.handles && s.handles[pc.rest[0]].alive &&
                 s2 == s.(pcs := s.pcs[t := VisitTouch(pc.rest, pc.back)]))
    ensures Inv(s2)
  {
    hide HoldsList, HoldsHandle, Visiting, Marked, Erased, Own;
    var pc := s.pcs[t];
    assert ThreadOk(s, t, pc);
    Checking(pc);
    Checking(s2.pcs[t]);
    MoveKeeps(s, t, s2.pcs[t], s2);
  }

  lemma Checking(pc: Pc)
    requires pc.VisitHold? || pc.VisitTouch? || pc.VisitDone?
    ensures Own(pc) == pc.back && !HoldsList(pc) && Visiting(pc) == pc.rest && !Marked(pc) && !Erased(pc)
    ensures forall h :: HoldsHandle(pc, h) <==> pc.rest != [] && pc.rest[0] == h
  {
  }

  lemma Moving(pc: Pc, to: Pc)
    requires Moves(pc, to)
    ensures Alike(pc, to) && Calm(pc, to) && !HoldsList(pc) && !HoldsList(to) && NoHandle(pc) && NoHandle(to)
  {
  }

  lemma MovesAlike(s: State, t: nat, to: Pc)
    requires Inv(s) && t in s.pcs && Moves(s.pcs[t], to)
    ensures ThreadOk(s, t, to) && Alike(s.pcs[t], to)
  {
    hide HoldsList, HoldsHandle, Visiting, Marked, Erased, Own, Moves;
    assert ThreadOk(s, t, s.pcs[t]);
    Moving(s.pcs[t], to);
  }

  // ----- what follows for every run

  /** A run: states, and who did what between them. */
  ghost predicate Run(states: seq<State>, who: seq<nat>, events: seq<Event>) {
    && |states| == |who| + 1 == |events| + 1 && Init(states[0])
    && forall i :: 0 <= i < |who| ==> Step(states[i], who[i], events[i], states[i + 1])
  }

  lemma {:induction false} RunInv(states: seq<State>, who: seq<nat>, events: seq<Event>, i: nat)
    requires Run(states, who, events) && i < |states|
    ensures Inv(states[i])
  {
    hide Step, Inv;
    if i == 0 {
      InitInv(states[0]);
    } else {
      RunInv(states, who, events, i - 1);
      assert Step(states[i - 1], who[i - 1], events[i - 1], states[i - 1 + 1]);
      StepKeeps(states[i - 1], who[i - 1], events[i - 1], states[i]);
    }
  }

  lemma InitInv(s: State)
    requires Init(s)
    ensures Inv(s)
  {
  }

  /** The stream of thread `t` has been destroyed. */
  predicate Destroyed(s: State, t: nat) {
    t in s.pcs && s.pcs[t].Gone?
  }

  /** Thread `t` is writing to the stream behind handle `h`, or cancels it. */
  predicate Writes(s: State, t: nat, h: nat) {
    t in s.pcs && (s.pcs[t] == SendHold(h) || (s.pcs[t].VisitTouch? && s.pcs[t].rest != [] && s.pcs[t].rest[0] == h))
  }

  /** Thread `t` is reading from the stream behind handle `h`, which takes no lock. */
  predicate Reads(s: State, t: nat, h: nat) {
    t in s.pcs && s.pcs[t] == Reading(h)
  }

  predicate Uses(s: State, t: nat, h: nat) {
    Writes(s, t, h) || Reads(s, t, h)
  }

  /** Whoever uses a stream either has its lock or is its session, and the stream still exists. */
  lemma UseIsSafe(s: State, t: nat, h: nat)
    requires Inv(s) && Uses(s, t, h)
    ensures h in s.handles && s.handles[h].alive && !Destroyed(s, s.handles[h].owner)
    ensures Writes(s, t, h) ==> s.handles[h].lock == Held(t)
    ensures Reads(s, t, h) ==> s.handles[h].owner == t
  {
    assert ThreadOk(s, t, s.pcs[t]);
    assert HandleOk(s, h);
  }

  /** In every run no read, write or cancel touches a stream after its session has destroyed it. At most
      one thread at a time writes or cancels, and only the session itself reads. */
  lemma NoUseAfterDestroy(states: seq<State>, who: seq<nat>, events: seq<Event>, i: nat, t: nat, u: nat, h: nat)
    requires Run(states, who, events) && i < |states| && Uses(states[i], t, h)
    ensures h in states[i].handles && !Destroyed(states[i], states[i].handles[h].owner)
    ensures Reads(states[i], t, h) ==> t == states[i].handles[h].owner
    ensures Uses(states[i], u, h) && u != t ==> Reads(states[i], t, h) != Reads(states[i], u, h)
  {
    hide Inv, Step, Writes, Reads;
    RunInv(states, who, events, i);
    UseIsSafe(states[i], t, h);
    if Uses(states[i], u, h) {
      UseIsSafe(states[i], u, h);
    }
  }

  /** Some run leads to `s`. */
  ghost predicate Reached(s: State) {
    exists states, who, events :: Run(states, who, events) && states[|states| - 1] == s
  }

  lemma Reach(s: State, t: nat, e: Event, s2: State)
    requires Reached(s) && Step(s, t, e, s2)
    ensures Reached(s2)
  {
    hide Step;
    var states, who, events :| Run(states, who, events) && states[|states| - 1] == s;
    var all, ts, es := states + [s2], who + [t], events + [e];
    forall i | 0 <= i < |ts|
      ensures Step(all[i], ts[i], es[i], all[i + 1])
    {
      if i < |who| {
        assert Step(states[i], who[i], events[i], states[i + 1]);
      }
    }
    assert Run(all, ts, es);
  }

  lemma SessionJoins()
    ensures Reached(State([0], Held(0), map[0 := Handle(0, Free, true)], map[0 := Joined(0)]))
  {
    hide Reached;
    var s0 := State([], Free, map[], map[]);
    NoSteps(s0);
    var s1 := State([], Free, map[], map[0 := Ready]);
    Reach(s0, 0, Spawn(true), s1);
    var s2 := State([], Free, map[], map[0 := JoinWant]);
    Reach(s1, 0, Move(JoinWant), s2);
    var s3 := State([], Held(0), map[], map[0 := JoinHold]);
    Reach(s2, 0, TakeList, s3);
    Reach(s3, 0, Register(0), State([0], Held(0), map[0 := Handle(0, Free, true)], map[0 := Joined(0)]));
  }

  lemma NoSteps(s: State)
    requires Init(s)
    ensures Reached(s)
  {
    assert Run([s], [], []);
  }

  /** Session 0 reads, while thread 1 is at `pc` and nobody has a lock. */
  ghost predicate Meanwhile(s: State, pc: Pc) {
    && Reached(s) && s.conns == [0] && s.list == Free && 0 in s.pcs && s.pcs[0] == Reading(0)
    && 1 in s.pcs && s.pcs[1] == pc && 0 in s.handles && s.handles[0] == Handle(0, Free, true)
  }

  lemma SessionReads() returns (s: State)
    ensures Meanwhile(s, Idle)
  {
    hide Reached;
    SessionJoins();
    var s4 := State([0], Held(0), map[0 := Handle(0, Free, true)], map[0 := Joined(0)]);
    var s5 := s4.(list := Free, pcs := s4.pcs[0 := Running(0)]);
    Reach(s4, 0, GiveList, s5);
    var s6 := s5.(pcs := s5.pcs[0 := Reading(0)]);
    Reach(s5, 0, Move(Reading(0)), s6);
    s := s6.(pcs := s6.pcs[1 := Idle]);
    Reach(s6, 1, Spawn(false), s);
  }

  /** Thread 1 has copied the list of clients. */
  lemma ThreadVisits() returns (s: State)
    ensures Meanwhile(s, Visit([0], None))
  {
    hide Reached;
    var s1 := SessionReads();
    var s2 := s1.(pcs := s1.pcs[1 := SnapWant(None)]);
    Reach(s1, 1, Move(SnapWant(None)), s2);
    var s3 := s2.(list := Held(1), pcs := s2.pcs[1 := SnapHold(None)]);
    Reach(s2, 1, TakeList, s3);
    var s4 := s3.(pcs := s3.pcs[1 := SnapDone([0], None)]);
    Reach(s3, 1, Snapshot, s4);
    s := s4.(list := Free, pcs := s4.pcs[1 := Visit([0], None)]);
    Reach(s4, 1, GiveList, s);
  }

  /** A write can overlap with a read: here thread 1 visits session 0 while the session reads. */
  lemma ReadMeetsWrite() returns (s: State)
    ensures Reached(s) && Reads(s, 0, 0) && Writes(s, 1, 0)
  {
    hide Reached;
    var s0 := ThreadVisits();
    var s1 := s0.(pcs := s0.pcs[1 := VisitWant([0], None)]);
    Reach(s0, 1, Move(VisitWant([0], None)), s1);
    var s2 := s1.(handles := s1.handles[0 := s1.handles[0].(lock := Held(1))],
                  pcs := s1.pcs[1 := VisitHold([0], None)]);
    Reach(s1, 1, TakeHandle(0), s2);
    s := s2.(pcs := s2.pcs[1 := VisitTouch([0], None)]);
    Reach(s2, 1, Check, s);
  }

  /** There are never more clients than allowed. */
  lemma ClientsBounded(states: seq<State>, who: seq<nat>, events: seq<Event>, i: nat)
    requires Run(states, who, events) && i < |states|
    ensures |states[i].conns| <= 64
  {
    hide Step;
    RunInv(states, who, events, i);
  }

  /** A join is refused exactly when 64 clients are on the list; otherwise the new one comes last. */
  lemma JoinAdmits(s: State, t: nat, h: nat, s2: State)
    requires Step(s, t, Register(h), s2)
    ensures t in s2.pcs && (s2.pcs[t] == JoinFull <==> |s.conns| >= 64)
    ensures s2.conns == if |s.conns| < 64 then s.conns + [h] else s.conns
    ensures |s.conns| < 64 ==> h !in s.handles && h in s2.handles && s2.handles[h].alive
  {
  }

  /** Thread `t` has left with handle `h`. */
  predicate HasLeft(s: State, t: nat, h: nat) {
    t in s.pcs && (s.pcs[t] == Left(h) || s.pcs[t] == Gone(Some(h)))
  }

  lemma LeftStays(s: State, t: nat, e: Event, s2: State, u: nat, h: nat)
    requires Inv(s) && Step(s, t, e, s2) && HasLeft(s, u, h)
    ensures HasLeft(s2, u, h)
  {
    hide Inv;
  }

  /** Once `leave` has returned, the handle is off the list for good. */
  lemma {:induction false} LeftIsOff(states: seq<State>, who: seq<nat>, events: seq<Event>, i: nat, j: nat, t: nat,
                                     h: nat)
    requires Run(states, who, events) && i <= j < |states| && HasLeft(states[i], t, h)
    ensures HasLeft(states[j], t, h) && h !in states[j].conns
    decreases j
  {
    hide Inv, Step, HasLeft;
    RunInv(states, who, events, j);
    if i < j {
      LeftIsOff(states, who, events, i, j - 1, t, h);
      RunInv(states, who, events, j - 1);
      assert Step(states[j - 1], who[j - 1], events[j - 1], states[j - 1 + 1]);
      LeftStays(states[j - 1], who[j - 1], events[j - 1], states[j], t, h);
    }
    LeftNow(states[j], t, h);
  }

  lemma LeftNow(s: State, t: nat, h: nat)
    requires Inv(s) && HasLeft(s, t, h)
    ensures h !in s.conns
  {
    assert ThreadOk(s, t, s.pcs[t]);
    assert HandleOk(s, h);
  }

  /** No thread has two locks at a time, or waits for one while it has another. */
  lemma OneLock(s: State, t: nat, g: nat, h: nat)
    requires Inv(s) && t in s.pcs && g in s.handles && h in s.handles
    ensures s.handles[g].lock == Held(t) ==> s.list != Held(t) && !WantsList(s.pcs[t]) && !WantsHandle(s.pcs[t], h)
    ensures s.handles[g].lock == Held(t) && s.handles[h].lock == Held(t) ==> g == h
    ensures s.list == Held(t) ==> !WantsList(s.pcs[t]) && !WantsHandle(s.pcs[t], h)
  {
    hide HoldsList, HoldsHandle, WantsList, WantsHandle, Own, Visiting;
    assert ThreadOk(s, t, s.pcs[t]);
    OneAtATime(s.pcs[t], g, h);
  }

  lemma OneAtATime(pc: Pc, g: nat, h: nat)
    ensures HoldsHandle(pc, g) ==>
              !HoldsList(pc) && !WantsList(pc) && !WantsHandle(pc, h) && (HoldsHandle(pc, h) ==> g == h)
    ensures HoldsList(pc) ==> !WantsList(pc) && !WantsHandle(pc, h)
  {
  }

  // ----- a visit reaches everybody

  /** In step `k` thread `t` is done with client `h`: it uses its stream, or finds it dead. */
  ghost predicate Serves(states: seq<State>, who: seq<nat>, events: seq<Event>, t: nat, h: nat, k: nat)
    requires |states| == |who| + 1 == |events| + 1 && k < |who|
  {
    && who[k] == t && t in states[k].pcs
    && var pc := states[k].pcs[t];
       || (events[k] == Touch && pc.VisitTouch? && pc.rest != [] && pc.rest[0] == h)
       || (events[k] == Check && pc.VisitHold? && pc.rest != [] && pc.rest[0] == h && h in states[k].handles &&
           !states[k].handles[h].alive)
  }

  /** Thread `t` has been done with `h` after state `i` and before state `j`. */
  ghost predicate Served(states: seq<State>, who: seq<nat>, events: seq<Event>, t: nat, h: nat, i: nat, j: nat)
    requires |states| == |who| + 1 == |events| + 1 && j <= |who|
  {
    exists k :: i < k < j && Serves(states, who, events, t, h, k)
  }

  ghost predicate AllServed(states: seq<State>, who: seq<nat>, events: seq<Event>, t: nat, hs: seq<nat>, i: nat, j: nat)
    requires |states| == |who| + 1 == |events| + 1 && j <= |who|
  {
    forall h :: h in hs ==> Served(states, who, events, t, h, i, j)
  }

  lemma ServedLater(states: seq<State>, who: seq<nat>, events: seq<Event>, t: nat, hs: seq<nat>, i: nat, j: nat)
    requires |states| == |who| + 1 == |events| + 1 && j < |who| && AllServed(states, who, events, t, hs, i, j)
    ensures AllServed(states, who, events, t, hs, i, j + 1)
  {
    hide Serves;
    forall h | h in hs
      ensures Served(states, who, events, t, h, i, j + 1)
    {
      assert Served(states, who, events, t, h, i, j);
      var k :| i < k < j && Serves(states, who, events, t, h, k);
      assert k < j + 1;
    }
  }

  /** The clients that a thread on its visit still has to be done with. */
  function ToServe(pc: Pc): seq<nat> {
    match pc
    case VisitDone(rest, _) => if rest == [] then [] else rest[1..]
    case _ => Visiting(pc)
  }

  predicate OnVisit(pc: Pc) {
    pc.SnapDone? || pc.Visit? || pc.VisitWant? || pc.VisitHold? || pc.VisitTouch? || pc.VisitDone?
  }

  /** Of the clients `all` the thread has been done with all but those that it still has to visit; when the visit is
      over, with all. */
  ghost predicate Serving(states: seq<State>, who: seq<nat>, events: seq<Event>, t: nat, all: seq<nat>, i: nat, j: nat)
    requires |states| == |who| + 1 == |events| + 1 && j <= |who|
  {
    || AllServed(states, who, events, t, all, i, j)
    || (t in states[j].pcs && OnVisit(states[j].pcs[t]) && |ToServe(states[j].pcs[t])| <= |all| &&
        var m := |all| - |ToServe(states[j].pcs[t])|;
        all[m..] == ToServe(states[j].pcs[t]) && AllServed(states, who, events, t, all[..m], i, j))
  }

  lemma OtherStep(s: State, u: nat, e: Event, s2: State, t: nat)
    requires Step(s, u, e, s2) && u != t && t in s.pcs
    ensures t in s2.pcs && s2.pcs[t] == s.pcs[t]
  {
  }

  /** Where a step leads a thread. */
  lemma OwnPlace(s: State, t: nat, e: Event, s2: State)
    requires Step(s, t, e, s2) && t in s.pcs && OnVisit(s.pcs[t])
    ensures t in s2.pcs
    ensures var pc, to := s.pcs[t], s2.pcs[t];
            match e
            case GiveList => pc.SnapDone? && to == Released(pc)
            case TakeHandle(_) => pc.VisitWant? && to == Granted(pc)
            case GiveHandle(_) => pc.VisitDone? && to == Released(pc)
            case Check =>
              && pc.VisitHold? && pc.rest != [] && pc.rest[0] in s.handles
              && to == if s.handles[pc.rest[0]].alive then VisitTouch(pc.rest, pc.back) else VisitDone(pc.rest, pc.back)
            case Touch => pc.VisitTouch? && to == VisitDone(pc.rest, pc.back)
            case Move(place) => pc.Visit? && Moves(pc, place) && to == place
            case _ => false
  {
    hide Without, Granted, Released, Moves;
    var pc := s.pcs[t];
    match pc
    case Visit(rest, back) => VisitMoves(rest, back);
    case _ => OnlyVisitMoves(pc);
  }

  lemma VisitMoves(rest: seq<nat>, back: Option<nat>)
    ensures !WantsList(Visit(rest, back)) && !DoneWithList(Visit(rest, back)) && !DoneWithHandle(Visit(rest, back))
  {
  }

  lemma OnlyVisitMoves(pc: Pc)
    requires OnVisit(pc) && !pc.Visit?
    ensures forall to :: !Moves(pc, to)
  {
  }

  /** The step of a thread on a visit: it is done with the next client, or nothing changes in what is left. */
  lemma OwnStep(s: State, t: nat, e: Event, s2: State)
    requires Step(s, t, e, s2) && t in s.pcs && OnVisit(s.pcs[t])
    ensures t in s2.pcs
    ensures var pc, to := s.pcs[t], s2.pcs[t];
            var again := OnVisit(to) && ToServe(to) == ToServe(pc);
            match e
            case Touch => pc.VisitTouch? && OnVisit(to) && ToServe(to) == ToServe(VisitDone(pc.rest, pc.back))
            case Check =>
              && pc.VisitHold? && pc.rest != [] && pc.rest[0] in s.handles
              && if s.handles[pc.rest[0]].alive then again else OnVisit(to) && ToServe(to) == pc.rest[1..]
            case Move(_) => again || (!OnVisit(to) && ToServe(pc) == [])
            case _ => again
  {
    hide Step;
    OwnPlace(s, t, e, s2);
  }

  /** What a step of a thread on a visit leaves to be served. */
  lemma StepServes(states: seq<State>, who: seq<nat>, events: seq<Event>, t: nat, j: nat)
    requires |states| == |who| + 1 == |events| + 1 && j < |who| && t in states[j].pcs && OnVisit(states[j].pcs[t])
    requires Step(states[j], who[j], events[j], states[j + 1])
    ensures t in states[j + 1].pcs
    ensures var pc, to := states[j].pcs[t], states[j + 1].pcs[t];
            || (OnVisit(to) && ToServe(to) == ToServe(pc))
            || (OnVisit(to) && ToServe(pc) != [] && ToServe(to) == ToServe(pc)[1..] &&
                Serves(states, who, events, t, ToServe(pc)[0], j))
            || (!OnVisit(to) && ToServe(pc) == [])
  {
    hide Step;
    if who[j] != t {
      OtherStep(states[j], who[j], events[j], states[j + 1], t);
    } else {
      OwnStep(states[j], t, events[j], states[j + 1]);
    }
  }

  /** Every step of the run keeps this. */
  lemma ServingStep(states: seq<State>, who: seq<nat>, events: seq<Event>, t: nat, all: seq<nat>, i: nat, j: nat)
    requires |states| == |who| + 1 == |events| + 1 && i < j < |who| && Serving(states, who, events, t, all, i, j)
    requires Step(states[j], who[j], events[j], states[j + 1])
    ensures Serving(states, who, events, t, all, i, j + 1)
  {
    hide Step, Serves, Served, ToServe, OnVisit;
    if t in states[j].pcs && OnVisit(states[j].pcs[t]) && |ToServe(states[j].pcs[t])| <= |all| &&
       all[|all| - |ToServe(states[j].pcs[t])|..] == ToServe(states[j].pcs[t]) &&
       AllServed(states, who, events, t, all[..|all| - |ToServe(states[j].pcs[t])|], i, j)
    {
      StepServes(states, who, events, t, j);
      var pc, to := states[j].pcs[t], states[j + 1].pcs[t];
      var m := |all| - |ToServe(pc)|;
      ServedLater(states, who, events, t, all[..m], i, j);
      if !OnVisit(to) {
        assert all[..m] == all;
      } else if ToServe(to) != ToServe(pc) {
        var h := ToServe(pc)[0];
        assert all[m] == all[m..][0] == h;
        ServedNow(states, who, events, t, h, i, j);
        var n := m + 1;
        assert all[..n] == all[..m] + [h];
        assert all[n..] == all[m..][1..];
        assert |ToServe(to)| == |all| - n;
      }
    } else {
      ServedLater(states, who, events, t, all, i, j);
    }
  }

  lemma ServedNow(states: seq<State>, who: seq<nat>, events: seq<Event>, t: nat, h: nat, i: nat, j: nat)
    requires |states| == |who| + 1 == |events| + 1 && i < j < |who| && Serves(states, who, events, t, h, j)
    ensures Served(states, who, events, t, h, i, j + 1)
  {
  }

  lemma {:induction false} ServingRun(states: seq<State>, who: seq<nat>, events: seq<Event>, t: nat, i: nat, j: nat)
    requires Run(states, who, events) && i < j < |states| && who[i] == t && events[i] == Snapshot
    ensures Serving(states, who, events, t, states[i].conns, i, j)
    decreases j
  {
    hide Served, Serving, Step;
    assert Step(states[i], who[i], events[i], states[i + 1]);
    if j == i + 1 {
      ServingStart(states, who, events, t, i);
    } else {
      ServingRun(states, who, events, t, i, j - 1);
      assert Step(states[j - 1], who[j - 1], events[j - 1], states[j - 1 + 1]);
      ServingStep(states, who, events, t, states[i].conns, i, j - 1);
    }
  }

  lemma ServingStart(states: seq<State>, who: seq<nat>, events: seq<Event>, t: nat, i: nat)
    requires |states| == |who| + 1 == |events| + 1 && i < |who| && who[i] == t && events[i] == Snapshot
    requires Step(states[i], who[i], events[i], states[i + 1])
    ensures Serving(states, who, events, t, states[i].conns, i, i + 1)
  {
    hide Served;
    var all := states[i].conns;
    assert ToServe(states[i + 1].pcs[t]) == all;
    assert all[0..] == all && all[..0] == [];
  }

  /** A broadcast, or closing all connections, reaches every client: when a thread has taken a snapshot of the list
      and is back, it has used the stream of every client on the list, or found the client dead. */
  lemma VisitReachesAll(states: seq<State>, who: seq<nat>, events: seq<Event>, t: nat, i: nat, j: nat, h: nat)
    requires Run(states, who, events) && i < j < |states| && who[i] == t && events[i] == Snapshot
    requires t in states[j].pcs && (states[j].pcs[t].Idle? || states[j].pcs[t].Running?) && h in states[i].conns
    ensures Served(states, who, events, t, h, i, j)
  {
    hide Step, Served;
    ServingRun(states, who, events, t, i, j);
  }

  /** A client that stays alive gets every broadcast. */
  lemma AliveIsTouched(states: seq<State>, who: seq<nat>, events: seq<Event>, t: nat, i: nat, j: nat, h: nat)
    requires Run(states, who, events) && i < j < |states| && who[i] == t && events[i] == Snapshot
    requires t in states[j].pcs && (states[j].pcs[t].Idle? || states[j].pcs[t].Running?) && h in states[i].conns
    requires forall k :: i < k < j ==> h in states[k].handles && states[k].handles[h].alive
    ensures exists k :: i < k < j && who[k] == t && events[k] == Touch && Writes(states[k], t, h)
  {
    hide Step;
    VisitReachesAll(states, who, events, t, i, j, h);
    var k :| i < k < j && Serves(states, who, events, t, h, k);
    assert Writes(states[k], t, h);
  }

  // ----- no deadlock

  /** Thread `t` waits for a lock that `u` has. */
  ghost predicate Blocked(s: State, t: nat, u: nat)
    requires t in s.pcs
  {
    || (WantsList(s.pcs[t]) && s.list == Held(u))
    || exists h :: h in s.handles && WantsHandle(s.pcs[t], h) && s.handles[h].lock == Held(u)
  }

  lemma NewName(handles: map<nat, Handle>) returns (h: nat)
    ensures h !in handles
  {
    var keys := handles.Keys;
    h := 0;
    while h in keys
      invariant forall k :: 0 <= k < h ==> k !in keys
      invariant keys <= handles.Keys && forall k :: k in handles.Keys && k !in keys ==> k < h
      decreases keys
    {
      keys := keys - {h};
      h := h + 1;
    }
  }

  /** Whoever has a lock can go on. */
  lemma HolderMoves(s: State, t: nat) returns (e: Event, s2: State)
    requires Inv(s) && t in s.pcs && (s.list == Held(t) || exists h :: h in s.handles && s.handles[h].lock == Held(t))
    ensures Step(s, t, e, s2)
  {
    var pc := s.pcs[t];
    assert ThreadOk(s, t, pc);
    if pc.JoinHold? {
      var h := NewName(s.handles);
      e := Register(h);
      s2 := if |s.conns| >= MAX_CLIENTS then s.(pcs := s.pcs[t := JoinFull])
      else s.(conns := s.conns + [h], handles := s.handles[h := Handle(t, Free, true)], pcs := s.pcs[t := Joined(h)]);
    } else if pc.LeaveErase? {
      e, s2 := Erase, s.(conns := Without(s.conns, pc.h), pcs := s.pcs[t := LeaveErased(pc.h)]);
    } else if pc.SnapHold? {
      e, s2 := Snapshot, s.(pcs := s.pcs[t := SnapDone(s.conns, pc.back)]);
    } else if HoldsList(pc) {
      e, s2 := GiveList, s.(list := Free, pcs := s.pcs[t := Released(pc)]);
    } else {
      e, s2 := HandleHolderMoves(s, t);
    }
  }

  lemma HandleHolderMoves(s: State, t: nat) returns (e: Event, s2: State)
    requires Inv(s) && t in s.pcs && exists h :: h in s.handles && s.handles[h].lock == Held(t)
    ensures Step(s, t, e, s2)
  {
    var pc := s.pcs[t];
    var h :| h in s.handles && s.handles[h].lock == Held(t);
    assert ThreadOk(s, t, pc);
    assert HoldsHandle(pc, h);
    if pc.LeaveHold? {
      e, s2 := Mark, s.(handles := s.handles[h := s.handles[h].(alive := false)], pcs := s.pcs[t := LeaveMarked(h)]);
    } else if pc.VisitHold? {
      e := Check;
      s2 := s.(pcs := s.pcs[t := if s.handles[h].alive then VisitTouch(pc.rest, pc.back)
          else VisitDone(pc.rest, pc.back)]);
    } else if pc.VisitTouch? {
      e, s2 := Touch, s.(pcs := s.pcs[t := VisitDone(pc.rest, pc.back)]);
    } else {
      e := GiveHandle(h);
      s2 := s.(handles := s.handles[h := s.handles[h].(lock := Free)], pcs := s.pcs[t := Released(pc)]);
    }
  }

  /** A thread that is not finished can go on, or waits for one that can. */
  lemma Progress(s: State, t: nat) returns (u: nat, e: Event, s2: State)
    requires Inv(s) && t in s.pcs && !s.pcs[t].Gone?
    ensures (u == t || Blocked(s, t, u)) && Step(s, u, e, s2)
  {
    var pc := s.pcs[t];
    assert ThreadOk(s, t, pc);
    if WantsList(pc) {
      if s.list.Free? {
        u, e, s2 := t, TakeList, s.(list := Held(t), pcs := s.pcs[t := Granted(pc)]);
      } else {
        u := s.list.holder;
        e, s2 := HolderMoves(s, u);
      }
    } else if exists h :: h in s.handles && WantsHandle(pc, h) {
      var h :| h in s.handles && WantsHandle(pc, h);
      if s.handles[h].lock.Free? {
        u, e := t, TakeHandle(h);
        s2 := s.(handles := s.handles[h := s.handles[h].(lock := Held(t))], pcs := s.pcs[t := Granted(pc)]);
      } else {
        u := s.handles[h].lock.holder;
        assert HandleOk(s, h);
        e, s2 := HolderMoves(s, u);
      }
    } else if HoldsList(pc) || exists h :: h in s.handles && s.handles[h].lock == Held(t) {
      u := t;
      e, s2 := HolderMoves(s, t);
    } else {
      u := t;
      var to := FreeMove(s, t);
      e, s2 := Move(to), s.(pcs := s.pcs[t := to]);
    }
  }

  lemma FreeMove(s: State, t: nat) returns (to: Pc)
    requires t in s.pcs && ThreadOk(s, t, s.pcs[t]) && !s.pcs[t].Gone? && !WantsList(s.pcs[t]) && !HoldsList(s.pcs[t])
    requires forall h :: h in s.handles ==> !WantsHandle(s.pcs[t], h) && s.handles[h].lock != Held(t)
    ensures Moves(s.pcs[t], to)
  {
    var pc := s.pcs[t];
    match pc
    case Ready => to := JoinWant;
    case Refused => to := Gone(None);
    case Running(h) => to := LeaveWant(h);
    case Reading(h) => to := Running(h);
    case Left(h) => to := Gone(Some(h));
    case Idle => to := SnapWant(None);
    case Visit(rest, back) =>
      to := if rest != [] then VisitWant(rest, back) else if back.Some? then Running(back.value) else Idle;
    case _ =>
      to := pc;
      Lockless(s, t);
  }

  /** At every other place a thread has or wants a lock. */
  lemma Lockless(s: State, t: nat)
    requires t in s.pcs && ThreadOk(s, t, s.pcs[t])
    requires var pc := s.pcs[t];
             && !pc.Ready? && !pc.Refused? && !pc.Running? && !pc.Reading? && !pc.Left? && !pc.Idle? && !pc.Visit?
             && !pc.Gone? && !WantsList(pc) && !HoldsList(pc)
    ensures exists h :: h in s.handles && (WantsHandle(s.pcs[t], h) || s.handles[h].lock == Held(t))
  {
    var pc := s.pcs[t];
    var h := if Visiting(pc) != [] then Visiting(pc)[0] else Own(pc).value;
    assert WantsHandle(pc, h) || HoldsHandle(pc, h);
  }
}
