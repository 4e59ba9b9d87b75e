/** What the fleet operations of pc_side/oop_fleet do, as functions on the registered submarines by serial number. */
module FleetModel {
  datatype Message = Message(content: string, senderSerial: string)

  datatype Boat = Boat(combat: bool, onMission: bool, participants: seq<string>, received: seq<Message>)

  type Registry = map<string, Boat>

  // Erase-remove: every occurrence goes, the order of the rest stays.
  function Without(list: seq<string>, serial: string): (rest: seq<string>)
    ensures serial !in rest
    ensures forall s :: s in rest <==> s in list && s != serial
    ensures |rest| <= |list|
  {
    if list == [] then []
    else Without(list[..|list| - 1], serial) + (if list[|list| - 1] == serial then [] else [list[|list| - 1]])
  }

  lemma {:induction false} WithoutKeepsOrder(xs: seq<string>, ys: seq<string>, serial: string)
    ensures Without(xs + ys, serial) == Without(xs, serial) + Without(ys, serial)
  {
    if ys == [] {
      assert xs + ys == xs;
    } else {
      var init := ys[..|ys| - 1];
      assert (xs + ys)[..|xs + ys| - 1] == xs + init;
      WithoutKeepsOrder(xs, init, serial);
    }
  }

  function WithParticipant(list: seq<string>, own: string, other: string): seq<string> {
    if other == own || other in list then list else list + [other]
  }

  function Add(f: Registry, serial: string, kind: int): Registry {
    if serial in f || (kind != 1 && kind != 2) then f else f[serial := Boat(kind == 2, false, [], [])]
  }

  function Assign(f: Registry, serial: string): Registry {
    if serial in f && !f[serial].onMission then f[serial := f[serial].(onMission := true)] else f
  }

  predicate OnCombatMission(f: Registry, serial: string) {
    serial in f && f[serial].combat && f[serial].onMission
  }

  function Associate(f: Registry, a: string, b: string): Registry {
    if OnCombatMission(f, a) && OnCombatMission(f, b) then
      var g := f[a := f[a].(participants := WithParticipant(f[a].participants, a, b))];
      g[b := g[b].(participants := WithParticipant(g[b].participants, b, a))]
    else f
  }

  // The loop of Fleet::EndMission: strike serial from the lists of the others.
  function Unlink(f: Registry, others: seq<string>, serial: string): (g: Registry)
    ensures g.Keys == f.Keys
  {
    if others == [] then f else
    Struck(Unlink(f, others[..|others| - 1], serial), others[|others| - 1], serial)
  }

  // Strike serial from the list of one combat submarine.
  function Struck(f: Registry, other: string, serial: string): (g: Registry)
    ensures g.Keys == f.Keys
  {
    if other in f && f[other].combat
    then f[other := f[other].(participants := Without(f[other].participants, serial))]
    else f
  }

  function End(f: Registry, serial: string): Registry {
    if serial !in f || !f[serial].onMission then f else
    var g := if f[serial].combat then Unlink(f, f[serial].participants, serial) else f;
    g[serial := g[serial].(onMission := false, participants := [])]
  }

  predicate MaySend(f: Registry, sender: string, receiver: string) {
    && sender in f && f[sender].combat && receiver in f && f[receiver].combat
    && receiver in f[sender].participants
  }

  function Send(f: Registry, sender: string, receiver: string, content: string): Registry {
    if MaySend(f, sender, receiver) then
      f[receiver := f[receiver].(received := f[receiver].received + [Message(content, sender)])]
    else f
  }

  // ---- The participation graph ----

  predicate Distinct(list: seq<string>) {
    forall i, j :: 0 <= i < j < |list| ==> list[i] != list[j]
  }

  // Participation is between two assigned combat submarines of the fleet, mutual, never with oneself, and
  // noted once.
  predicate Consistent(f: Registry) {
    && (forall s <- f :: Distinct(f[s].participants) && s !in f[s].participants)
    && (forall s <- f :: forall p <- f[s].participants :: OnCombatMission(f, p) && s in f[p].participants)
    && (forall s <- f :: f[s].participants != [] ==> OnCombatMission(f, s))
  }

  lemma {:induction false} WithoutIsDistinct(list: seq<string>, serial: string)
    requires Distinct(list)
    ensures Distinct(Without(list, serial))
  {
    if list != [] {
      LastIsNew(list);
      var rest := Without(list[..|list| - 1], serial);
      WithoutIsDistinct(list[..|list| - 1], serial);
      assert forall i :: 0 <= i < |rest| ==> rest[i] in rest;
    }
  }

  lemma LastIsNew(list: seq<string>)
    requires Distinct(list) && list != []
    ensures list[|list| - 1] !in list[..|list| - 1]
  {
    forall i | 0 <= i < |list| - 1 ensures list[i] != list[|list| - 1] {
    }
  }

  lemma {:induction false} WithoutAbsent(list: seq<string>, serial: string)
    requires serial !in list
    ensures Without(list, serial) == list
  {
    if list != [] {
      var init, last := list[..|list| - 1], list[|list| - 1];
      assert list == init + [last] && last in list;
      WithoutAbsent(init, serial);
      assert Without(list, serial) == Without(init, serial) + [last];
    }
  }

  lemma {:induction false} UnlinkAt(f: Registry, others: seq<string>, serial: string, t: string)
    requires t in f
    ensures Unlink(f, others, serial)[t] ==
      if t in others && f[t].combat then f[t].(participants := Without(f[t].participants, serial)) else f[t]
  {
    if others != [] {
      var init, o := others[..|others| - 1], others[|others| - 1];
      UnlinkAt(f, init, serial, t);
      assert t in others <==> t in init || t == o;
      WithoutAbsent(Without(f[t].participants, serial), serial);
    }
  }

  // Main result: ending a mission clears that submarine's own list, strikes its serial number from every
  // other list, and changes nothing else anywhere.
  lemma EndMeans(f: Registry, serial: string, t: string)
    requires Consistent(f) && serial in f && f[serial].onMission && t in f
    ensures End(f, serial).Keys == f.Keys
    ensures End(f, serial)[t] ==
      if t == serial then f[t].(onMission := false, participants := [])
      else f[t].(participants := Without(f[t].participants, serial))
  {
    UnlinkAt(f, f[serial].participants, serial, t);
    if t !in f[serial].participants || !f[serial].combat {
      assert serial !in f[t].participants;
      WithoutAbsent(f[t].participants, serial);
    }
    if t in f[serial].participants { assert OnCombatMission(f, t); }
  }

  // ---- Runs of the menu ----

  datatype Operation =
    | AddSubmarine(serial: string, kind: int)
    | AssignMission(serial: string)
    | EndMission(serial: string)
    | AssociateSubmarines(a: string, b: string)
    | SendMessage(sender: string, receiver: string, content: string)

  function Apply(f: Registry, op: Operation): Registry {
    match op
    case AddSubmarine(serial, kind) => Add(f, serial, kind)
    case AssignMission(serial) => Assign(f, serial)
    case EndMission(serial) => End(f, serial)
    case AssociateSubmarines(a, b) => Associate(f, a, b)
    case SendMessage(sender, receiver, content) => Send(f, sender, receiver, content)
  }

  function After(ops: seq<Operation>): Registry {
    if ops == [] then map[] else Apply(After(ops[..|ops| - 1]), ops[|ops| - 1])
  }

  lemma AssociateStaysConsistent(f: Registry, a: string, b: string)
    requires Consistent(f)
    ensures Consistent(Associate(f, a, b))
  {
    var g := Associate(f, a, b);
    if OnCombatMission(f, a) && OnCombatMission(f, b) && a != b {
      assert g[a].participants == WithParticipant(f[a].participants, a, b);
      assert g[b].participants == WithParticipant(f[b].participants, b, a);
      forall s | s in g ensures Distinct(g[s].participants) && s !in g[s].participants {
        assert s in f;
      }
      forall s, p | s in g && p in g[s].participants ensures OnCombatMission(g, p) && s in g[p].participants {
        assert s in f;
        if p in f[s].participants { assert OnCombatMission(f, p) && s in f[p].participants; }
      }
    } else {
      assert g == f;
    }
  }

  lemma EndStaysConsistent(f: Registry, serial: string)
    requires Consistent(f)
    ensures Consistent(End(f, serial))
  {
    var g := End(f, serial);
    if serial in f && f[serial].onMission {
      assert g.Keys == f.Keys;
      forall s | s in g ensures Distinct(g[s].participants) && s !in g[s].participants {
        EndMeans(f, serial, s);
        WithoutIsDistinct(f[s].participants, serial);
      }
      forall s, p | s in g && p in g[s].participants ensures OnCombatMission(g, p) && s in g[p].participants {
        EndMeans(f, serial, s);
        EndMeans(f, serial, p);
        assert OnCombatMission(f, p) && s in f[p].participants;
      }
      forall s | s in g && g[s].participants != [] ensures OnCombatMission(g, s) {
        EndMeans(f, serial, s);
        assert OnCombatMission(f, s);
      }
    }
  }

  lemma ApplyStaysConsistent(f: Registry, op: Operation)
    requires Consistent(f)
    ensures Consistent(Apply(f, op))
  {
    match op
    case AssociateSubmarines(a, b) => AssociateStaysConsistent(f, a, b);
    case EndMission(serial) => EndStaysConsistent(f, serial);
    case AddSubmarine(serial, kind) => AddStaysConsistent(f, serial, kind);
    case AssignMission(serial) =>
    case SendMessage(sender, receiver, content) =>
  }

  lemma AddStaysConsistent(f: Registry, serial: string, kind: int)
    requires Consistent(f)
    ensures Consistent(Add(f, serial, kind))
  {
    var g := Add(f, serial, kind);
    forall s, p | s in g && p in g[s].participants ensures OnCombatMission(g, p) && s in g[p].participants {
      assert s in f && OnCombatMission(f, p);
    }
    forall s | s in g && g[s].participants != [] ensures OnCombatMission(g, s) {
      assert s in f && OnCombatMission(f, s);
    }
  }

  // Main result: the participation graph is consistent after every sequence of menu operations.
  lemma {:induction false} ConsistentOverRuns(ops: seq<Operation>)
    ensures Consistent(After(ops))
  {
    if ops != [] {
      ConsistentOverRuns(ops[..|ops| - 1]);
      ApplyStaysConsistent(After(ops[..|ops| - 1]), ops[|ops| - 1]);
    }
  }

  predicate Mutual(f: Registry, s: string, t: string) {
    s != t && OnCombatMission(f, s) && OnCombatMission(f, t) && t in f[s].participants && s in f[t].participants
  }

  // ---- What a run means, read off its operations ----

  // A submarine is added by the first operation that gives its serial number a kind there is; kind 2 makes it
  // a combat submarine.
  predicate Added(ops: seq<Operation>, s: string) {
    exists k :: 0 <= k < |ops| && (ops[k] == AddSubmarine(s, 1) || ops[k] == AddSubmarine(s, 2))
  }

  predicate AddedForCombat(ops: seq<Operation>, s: string) {
    exists k :: 0 <= k < |ops| && ops[k] == AddSubmarine(s, 2) && !Added(ops[..k], s)
  }

  // It is on a mission if it has been assigned one, after it was added, and has not ended it since.
  predicate OnMission(ops: seq<Operation>, s: string) {
    exists k :: 0 <= k < |ops| && ops[k] == AssignMission(s) && Added(ops[..k], s) && EndMission(s) !in ops[k..]
  }

  // Two submarines are associated if they have been, in either order, as combat submarines on a mission, and
  // neither has ended its mission since.
  predicate Associated(ops: seq<Operation>, s: string, t: string) {
    exists k :: 0 <= k < |ops| && AssociatedAt(ops, k, s, t)
  }

  predicate AssociatedAt(ops: seq<Operation>, k: nat, s: string, t: string)
    requires k < |ops|
  {
    && s != t && (ops[k] == AssociateSubmarines(s, t) || ops[k] == AssociateSubmarines(t, s))
    && Ready(ops[..k], s) && Ready(ops[..k], t)
    && EndMission(s) !in ops[k..] && EndMission(t) !in ops[k..]
  }

  predicate Ready(ops: seq<Operation>, s: string) { AddedForCombat(ops, s) && OnMission(ops, s) }

  // The messages sent to a submarine by one it was associated with at that moment, in order.
  function MailOf(ops: seq<Operation>, receiver: string): seq<Message> {
    if ops == [] then [] else
    var init, op := ops[..|ops| - 1], ops[|ops| - 1];
    MailOf(init, receiver) +
    (if op.SendMessage? && op.receiver == receiver && Associated(init, op.sender, receiver)
     then [Message(op.content, op.sender)] else [])
  }

  lemma AddedOnce(ops: seq<Operation>, op: Operation, s: string)
    ensures Added(ops + [op], s) <==> Added(ops, s) || op == AddSubmarine(s, 1) || op == AddSubmarine(s, 2)
    ensures AddedForCombat(ops + [op], s) <==> AddedForCombat(ops, s) || (op == AddSubmarine(s, 2) && !Added(ops, s))
  {
    var all := ops + [op];
    assert all[..|ops|] == ops && all[|ops|] == op;
    forall k | 0 <= k < |ops| ensures all[..k] == ops[..k] && all[k] == ops[k] {
    }
    if Added(ops, s) {
      var k :| 0 <= k < |ops| && (ops[k] == AddSubmarine(s, 1) || ops[k] == AddSubmarine(s, 2));
      assert all[k] == ops[k];
    }
    if AddedForCombat(ops, s) {
      var k :| 0 <= k < |ops| && ops[k] == AddSubmarine(s, 2) && !Added(ops[..k], s);
      assert all[k] == ops[k] && all[..k] == ops[..k];
    }
  }

  lemma OnMissionNext(ops: seq<Operation>, op: Operation, s: string)
    ensures OnMission(ops + [op], s) <==>
      (op == AssignMission(s) && Added(ops, s)) || (op != EndMission(s) && OnMission(ops, s))
  {
    hide Added;
    var all := ops + [op];
    assert all[..|ops|] == ops && all[|ops|] == op && all[|ops|..] == [op];
    forall k | 0 <= k < |ops| ensures all[..k] == ops[..k] && all[k] == ops[k] && all[k..] == ops[k..] + [op] {
    }
    if OnMission(ops, s) && op != EndMission(s) {
      var k :| 0 <= k < |ops| && ops[k] == AssignMission(s) && Added(ops[..k], s) && EndMission(s) !in ops[k..];
      assert all[k] == AssignMission(s) && EndMission(s) !in all[k..];
    }
  }

  lemma AssociatedNext(ops: seq<Operation>, op: Operation, s: string, t: string)
    ensures Associated(ops + [op], s, t) <==>
      || (s != t && (op == AssociateSubmarines(s, t) || op == AssociateSubmarines(t, s)) && Ready(ops, s) &&
        Ready(ops, t))
      || (op != EndMission(s) && op != EndMission(t) && Associated(ops, s, t))
  {
    hide Ready;
    var all := ops + [op];
    assert all[..|ops|] == ops && all[|ops|] == op && all[|ops|..] == [op];
    forall k | 0 <= k < |ops|
      ensures AssociatedAt(all, k, s, t) <==> AssociatedAt(ops, k, s, t) && op != EndMission(s) && op != EndMission(t)
    {
      assert all[..k] == ops[..k] && all[k] == ops[k] && all[k..] == ops[k..] + [op];
    }
    if Associated(ops, s, t) && op != EndMission(s) && op != EndMission(t) {
      var k :| 0 <= k < |ops| && AssociatedAt(ops, k, s, t);
      assert AssociatedAt(all, k, s, t);
    }
    if Associated(all, s, t) {
      var k :| 0 <= k < |all| && AssociatedAt(all, k, s, t);
      if k < |ops| { assert AssociatedAt(ops, k, s, t); }
    }
    assert AssociatedAt(all, |ops|, s, t) <==>
      s != t && (op == AssociateSubmarines(s, t) || op == AssociateSubmarines(t, s)) && Ready(ops, s) && Ready(ops, t);
  }

  // One more operation, in these terms.
  lemma OneMoreOperation(ops: seq<Operation>, op: Operation, s: string)
    ensures Added(ops + [op], s) <==> Added(ops, s) || op == AddSubmarine(s, 1) || op == AddSubmarine(s, 2)
    ensures AddedForCombat(ops + [op], s) <==> AddedForCombat(ops, s) || (op == AddSubmarine(s, 2) && !Added(ops, s))
    ensures OnMission(ops + [op], s) <==>
      (op == AssignMission(s) && Added(ops, s)) || (op != EndMission(s) && OnMission(ops, s))
    ensures forall t :: Associated(ops + [op], s, t) <==>
      || (s != t && (op == AssociateSubmarines(s, t) || op == AssociateSubmarines(t, s)) && Ready(ops, s) &&
        Ready(ops, t))
      || (op != EndMission(s) && op != EndMission(t) && Associated(ops, s, t))
    ensures MailOf(ops + [op], s) == MailOf(ops, s) +
      if op.SendMessage? && op.receiver == s && Associated(ops, op.sender, s) then [Message(op.content, op.sender)]
        else []
  {
    hide Added, AddedForCombat, OnMission, Associated, Ready;
    AddedOnce(ops, op, s);
    OnMissionNext(ops, op, s);
    forall t { AssociatedNext(ops, op, s, t); }
    assert (ops + [op])[..|ops|] == ops;
  }

  // What the registry says of one submarine is what the operations say of it.
  ghost predicate Agrees(f: Registry, ops: seq<Operation>, s: string) {
    && (s in f <==> Added(ops, s))
    && (s in f ==>
          && (f[s].combat <==> AddedForCombat(ops, s))
          && (f[s].onMission <==> OnMission(ops, s))
          && f[s].received == MailOf(ops, s)
          && forall t :: t in f[s].participants <==> Associated(ops, s, t))
    && (s !in f ==>
          MailOf(ops, s) == [] && !AddedForCombat(ops, s) && !OnMission(ops, s) && forall t :: !Associated(ops, s, t))
  }

  lemma ReadyMeans(f: Registry, ops: seq<Operation>, s: string)
    requires Agrees(f, ops, s)
    ensures Ready(ops, s) <==> OnCombatMission(f, s)
  {
    hide Added, AddedForCombat, OnMission, Associated, MailOf;
  }

  lemma AgreesAfterAdd(f: Registry, ops: seq<Operation>, serial: string, kind: int, s: string)
    requires Agrees(f, ops, s)
    ensures Agrees(Add(f, serial, kind), ops + [AddSubmarine(serial, kind)], s)
  {
    hide Added, AddedForCombat, OnMission, Associated, MailOf, Ready;
    OneMoreOperation(ops, AddSubmarine(serial, kind), s);
  }

  lemma AgreesAfterAssign(f: Registry, ops: seq<Operation>, serial: string, s: string)
    requires Agrees(f, ops, s)
    ensures Agrees(Assign(f, serial), ops + [AssignMission(serial)], s)
  {
    hide Added, AddedForCombat, OnMission, Associated, MailOf, Ready;
    OneMoreOperation(ops, AssignMission(serial), s);
  }

  lemma AgreesAfterEnd(f: Registry, ops: seq<Operation>, serial: string, s: string)
    requires Consistent(f) && Agrees(f, ops, s)
    ensures Agrees(End(f, serial), ops + [EndMission(serial)], s)
  {
    hide Added, AddedForCombat, OnMission, Associated, MailOf, Ready;
    OneMoreOperation(ops, EndMission(serial), s);
    if serial in f && f[serial].onMission {
      if s in f { EndMeans(f, serial, s); } else { EndMeans(f, serial, serial); }
    } else if s in f {
      assert forall t <- f[s].participants :: OnCombatMission(f, t);
      assert s == serial ==> f[s].participants == [];
    }
  }

  lemma AssociateMeans(f: Registry, a: string, b: string, s: string)
    ensures Associate(f, a, b).Keys == f.Keys
    ensures s in f ==>
      var g := Associate(f, a, b);
      && g[s].(participants := f[s].participants) == f[s]
      && forall t :: t in g[s].participants <==>
           || t in f[s].participants
           || (s != t && OnCombatMission(f, a) && OnCombatMission(f, b) && ((s == a && t == b) || (s == b && t == a)))
  {
  }

  lemma AgreesAfterAssociate(f: Registry, ops: seq<Operation>, a: string, b: string, s: string)
    requires (Ready(ops, a) <==> OnCombatMission(f, a)) && (Ready(ops, b) <==> OnCombatMission(f, b))
    requires Agrees(f, ops, s)
    ensures Agrees(Associate(f, a, b), ops + [AssociateSubmarines(a, b)], s)
  {
    AssociateMeans(f, a, b, s);
    hide Added, AddedForCombat, OnMission, Associated, MailOf, Associate, OnCombatMission;
    OneMoreOperation(ops, AssociateSubmarines(a, b), s);
  }

  lemma AgreesAfterSend(f: Registry, ops: seq<Operation>, sender: string, receiver: string, content: string, s: string)
    requires Consistent(f) && Agrees(f, ops, sender) && Agrees(f, ops, s)
    ensures Agrees(Send(f, sender, receiver, content), ops + [SendMessage(sender, receiver, content)], s)
  {
    hide Added, AddedForCombat, OnMission, Associated, MailOf, Ready;
    OneMoreOperation(ops, SendMessage(sender, receiver, content), s);
    if sender in f && receiver in f[sender].participants {
      assert OnCombatMission(f, sender) && OnCombatMission(f, receiver);
    }
  }

  // Main result: after every run of the menu it is exactly as its operations say who there is, of which kind,
  // who is on a mission, who is associated with whom, and which messages each mailbox holds, in order.
  lemma {:induction false} RunMeans(ops: seq<Operation>, s: string)
    ensures Agrees(After(ops), ops, s)
    decreases |ops|
  {
    hide Agrees, Add, Assign, End, Associate, Send, Consistent;
    if ops == [] {
      NobodyYet(s);
    } else {
      var init, op := ops[..|ops| - 1], ops[|ops| - 1];
      assert ops == init + [op];
      var f := After(init);
      RunMeans(init, s);
      ConsistentOverRuns(init);
      match op
      case AddSubmarine(serial, kind) => AgreesAfterAdd(f, init, serial, kind, s);
      case AssignMission(serial) => AgreesAfterAssign(f, init, serial, s);
      case EndMission(serial) => AgreesAfterEnd(f, init, serial, s);
      case AssociateSubmarines(a, b) =>
        RunMeans(init, a);
        RunMeans(init, b);
        ReadyMeans(f, init, a);
        ReadyMeans(f, init, b);
        AgreesAfterAssociate(f, init, a, b, s);
      case SendMessage(sender, receiver, content) =>
        RunMeans(init, sender);
        AgreesAfterSend(f, init, sender, receiver, content, s);
    }
  }

  lemma NobodyYet(s: string)
    ensures Agrees(map[], [], s)
  {
  }

  // At every moment to be associated means to be listed by each other.
  lemma AssociatedIsMutual(ops: seq<Operation>, s: string, t: string)
    ensures Associated(ops, s, t) <==> Mutual(After(ops), s, t)
  {
    RunMeans(ops, s);
    ConsistentOverRuns(ops);
    hide Added, AddedForCombat, OnMission, Associated, MailOf, After;
    var f := After(ops);
    if s in f && t in f[s].participants { assert OnCombatMission(f, s) && OnCombatMission(f, t) &&
      s in f[t].participants; }
  }

  // Operation k of the run sent this message, between two submarines associated at that time.
  predicate SentAt(ops: seq<Operation>, k: nat, receiver: string, m: Message) {
    && k < |ops|
    && ops[k] == SendMessage(m.senderSerial, receiver, m.content)
    && Mutual(After(ops[..k]), m.senderSerial, receiver)
  }

  // Ending a mission leaves all mailboxes alone.
  lemma EndKeepsMail(f: Registry, serial: string, t: string)
    requires t in f
    ensures End(f, serial).Keys == f.Keys && End(f, serial)[t].received == f[t].received
  {
    if serial in f { UnlinkAt(f, f[serial].participants, serial, t); }
  }

  // Main result: every message in any mailbox was sent by an operation of the run, at a moment when sender
  // and receiver were mutually associated.
  lemma {:induction false} MailComesFromAssociates(ops: seq<Operation>, receiver: string, i: nat) returns (k: nat)
    requires receiver in After(ops) && i < |After(ops)[receiver].received|
    ensures SentAt(ops, k, receiver, After(ops)[receiver].received[i])
  {
    assert ops != [];
    var init, op := ops[..|ops| - 1], ops[|ops| - 1];
    var f := After(init);
    var m := After(ops)[receiver].received[i];
    if op.EndMission? && receiver in f { EndKeepsMail(f, op.serial, receiver); }
    if receiver in f && i < |f[receiver].received| {
      assert f[receiver].received[i] == m;
      k := MailComesFromAssociates(init, receiver, i);
      assert init[..k] == ops[..k];
    } else {
      k := |ops| - 1;
      assert ops[..k] == init;
      ConsistentOverRuns(init);
      assert op == SendMessage(m.senderSerial, receiver, m.content);
    }
  }
}

/** The objects behind it: pc_side/oop_fleet/fleet.cpp and combat_submarine.cpp. */
module Fleets {
  import opened FleetModel

  // ResearchSubmarine and CombatSubmarine in one; only the latter uses the last two fields.
  class Submarine {
    const serialNumber: string
    const combat: bool
    var onMission: bool                    // assignedToMission_
    var participants: seq<string>          // participatingSubmarines_
    var received: seq<Message>             // receivedMessages_

    ghost function Value(): Boat
      reads this
    {
      Boat(combat, onMission, participants, received)
    }

    constructor (serialNumber: string, combat: bool)
      ensures this.serialNumber == serialNumber
      ensures Value() == Boat(combat, false, [], [])
    {
      this.serialNumber, this.combat := serialNumber, combat;
      onMission, participants, received := false, [], [];
    }

    method AssignMission()
      modifies `onMission
      ensures onMission
    {
      onMission := true;
    }

    method EndMission()
      modifies `onMission, `participants
      ensures Value() == old(Value()).(onMission := false, participants := if combat then [] else old(participants))
    {
      if combat { participants := []; }
      onMission := false;
    }

    method HasParticipant(other: string) returns (found: bool)
      ensures found <==> other in participants
    {
      for i := 0 to |participants|
        invariant other !in participants[..i]
      {
        if participants[i] == other { return true; }
      }
      assert participants[..|participants|] == participants;
      found := false;
    }

    method AddParticipant(other: string)
      modifies `participants
      ensures participants == WithParticipant(old(participants), serialNumber, other)
    {
      if other == serialNumber { return; }
      var found := HasParticipant(other);
      if !found { participants := participants + [other]; }
    }

    method RemoveParticipant(other: string)
      modifies `participants
      ensures participants == Without(old(participants), other)
    {
      var rest := [];
      for i := 0 to |participants|
        invariant rest == Without(participants[..i], other)
      {
        assert participants[..i + 1][..i] == participants[..i];
        if participants[i] != other { rest := rest + [participants[i]]; }
      }
      assert participants[..|participants|] == participants;
      participants := rest;
    }

    method ReceiveMessage(sender: string, content: string)
      modifies `received
      ensures received == old(received) + [Message(content, sender)]
    {
      received := received + [Message(content, sender)];
    }
  }

  class Fleet {
    var submarines: seq<Submarine>
    ghost var registry: Registry           // the submarines by serial number

    // Serial numbers are unique and registry is what the objects say.
    ghost predicate Valid()
      reads this, submarines
    {
      && (forall i, j :: 0 <= i < j < |submarines| ==> submarines[i].serialNumber != submarines[j].serialNumber)
      && (forall i :: 0 <= i < |submarines| ==> Registered(submarines[i]))
      && (forall serial <- registry :: Holds(serial))
    }

    ghost predicate Registered(s: Submarine)
      reads this, s
    {
      s.serialNumber in registry && registry[s.serialNumber] == s.Value()
    }

    ghost predicate Holds(serial: string)
      reads this
    {
      exists i :: 0 <= i < |submarines| && submarines[i].serialNumber == serial
    }

    constructor ()
      ensures Valid() && registry == map[] && submarines == []
    {
      submarines, registry := [], map[];
    }

    // FindBySerial.
    method FindBySerial(serial: string) returns (sub: Submarine?)
      requires Valid()
      ensures sub == null <==> serial !in registry
      ensures sub != null ==> sub in submarines && sub.serialNumber == serial && registry[serial] == sub.Value()
    {
      for i := 0 to |submarines|
        invariant forall j :: 0 <= j < i ==> submarines[j].serialNumber != serial
      {
        if submarines[i].serialNumber == serial { return submarines[i]; }
      }
      assert serial in registry ==> Holds(serial);
      sub := null;
    }

    method AddSubmarine(serial: string, kind: int)
      requires Valid()
      modifies this
      ensures Valid() && registry == Add(old(registry), serial, kind)
      ensures submarines == old(submarines) || (|submarines| == |old(submarines)| + 1 && old(submarines) <= submarines)
      ensures forall s <- submarines :: s in old(submarines) || fresh(s)
    {
      var existing := FindBySerial(serial);
      if existing != null { return; }
      if kind != 1 && kind != 2 { return; }
      var sub := new Submarine(serial, kind == 2);
      PushBack(sub);
    }

    method PushBack(sub: Submarine)
      requires Valid() && sub !in submarines && sub.serialNumber !in registry
      modifies this
      ensures Valid() && registry == old(registry)[sub.serialNumber := sub.Value()]
      ensures submarines == old(submarines) + [sub]
    {
      submarines := submarines + [sub];
      registry := registry[sub.serialNumber := sub.Value()];
      assert forall i :: 0 <= i < |old(submarines)| ==> submarines[i] == old(submarines)[i];
      assert submarines[|submarines| - 1].serialNumber == sub.serialNumber;
      forall k | k in registry ensures Holds(k) {
        if k != sub.serialNumber {
          assert old(Holds(k));
          var i :| 0 <= i < |old(submarines)| && old(submarines)[i].serialNumber == k;
          assert submarines[i].serialNumber == k;
        }
      }
      forall i | 0 <= i < |submarines| ensures Registered(submarines[i]) {
        if i < |old(submarines)| { assert old(Registered(submarines[i])); }
      }
    }

    // Bring the registry up to date after a change to one submarine.
    ghost method Note(sub: Submarine)
      requires sub in submarines && sub.serialNumber in registry
      requires forall i, j :: 0 <= i < j < |submarines| ==> submarines[i].serialNumber != submarines[j].serialNumber
      requires forall i :: 0 <= i < |submarines| ==> submarines[i] == sub || Registered(submarines[i])
      requires forall serial <- registry :: Holds(serial)
      modifies `registry
      ensures Valid() && registry == old(registry)[sub.serialNumber := sub.Value()]
    {
      registry := registry[sub.serialNumber := sub.Value()];
      forall i | 0 <= i < |submarines| ensures Registered(submarines[i]) {
        if submarines[i] != sub { assert submarines[i].serialNumber != sub.serialNumber; }
      }
      forall k | k in registry ensures Holds(k) {
        if k != sub.serialNumber { assert old(Holds(k)); }
      }
    }

    method AssignMission(serial: string)
      requires Valid()
      modifies `registry, submarines
      ensures Valid() && registry == Assign(old(registry), serial)
    {
      var sub := FindBySerial(serial);
      if sub == null || sub.onMission { return; }
      sub.AssignMission();
      Note(sub);
    }

    // other.RemoveParticipant(serial) on a submarine of the fleet.
    method Strike(other: Submarine, serial: string)
      requires Valid() && other in submarines
      modifies `registry, other`participants
      ensures Valid() && other.serialNumber in old(registry)
      ensures var b := old(registry)[other.serialNumber];
        registry == old(registry)[other.serialNumber := b.(participants := Without(b.participants, serial))]
    {
      assert Registered(other);
      other.RemoveParticipant(serial);
      Note(other);
    }

    // sub.AddParticipant(serial) on a submarine of the fleet.
    method Link(sub: Submarine, serial: string)
      requires Valid() && sub in submarines
      modifies `registry, sub`participants
      ensures Valid() && sub.serialNumber in old(registry)
      ensures var b := old(registry)[sub.serialNumber];
        registry == old(registry)[sub.serialNumber :=
          b.(participants := WithParticipant(b.participants, sub.serialNumber, serial))]
    {
      assert Registered(sub);
      sub.AddParticipant(serial);
      Note(sub);
    }

    // sub.EndMission() on a submarine of the fleet.
    method Finish(sub: Submarine)
      requires Valid() && sub in submarines
      modifies `registry, sub
      ensures Valid() && sub.serialNumber in old(registry)
      ensures var b := old(registry)[sub.serialNumber];
        registry == old(registry)[sub.serialNumber :=
          b.(onMission := false, participants := if b.combat then [] else b.participants)]
    {
      assert Registered(sub);
      sub.EndMission();
      Note(sub);
    }

    // One turn of the loop of EndMission.
    method StrikeFrom(otherSerial: string, sub: Submarine)
      requires Valid() && otherSerial != sub.serialNumber
      modifies `registry, submarines
      ensures Valid() && registry == Struck(old(registry), otherSerial, sub.serialNumber)
      ensures sub.participants == old(sub.participants)
    {
      hide Valid, Without;
      var other := FindBySerial(otherSerial);
      if other != null && other.combat {
        Strike(other, sub.serialNumber);
      }
    }

    // The loop of EndMission. Without irreflexive participation it would change the list it runs over.
    method UnlinkOthers(sub: Submarine)
      requires Valid() && sub.serialNumber !in sub.participants
      modifies `registry, submarines
      ensures Valid() && registry == Unlink(old(registry), old(sub.participants), sub.serialNumber)
      ensures sub.participants == old(sub.participants)
    {
      hide Valid, Struck;
      ghost var f, list := registry, sub.participants;
      var i := 0;
      while i < |sub.participants|
        invariant Valid() && i <= |sub.participants|
        invariant sub.participants == list
        invariant registry == Unlink(f, list[..i], sub.serialNumber)
        decreases |list| - i
      {
        assert list[i] in list && list[..i + 1][..i] == list[..i];
        StrikeFrom(sub.participants[i], sub);
        i := i + 1;
      }
      assert list[..|list|] == list;
    }

    method EndMission(serial: string)
      requires Valid() && Consistent(registry)
      modifies `registry, submarines
      ensures Valid() && registry == End(old(registry), serial)
    {
      var sub := FindBySerial(serial);
      if sub == null || !sub.onMission { return; }
      NoSelf(registry, serial);
      hide Valid, Consistent, Unlink;
      if sub.combat {
        UnlinkAt(registry, sub.participants, serial, serial);
        UnlinkOthers(sub);
      }
      Finish(sub);
    }

    method AssociateCombatSubmarines(first: string, second: string)
      requires Valid()
      modifies `registry, submarines
      ensures Valid() && registry == Associate(old(registry), first, second)
    {
      hide Valid;
      var a := FindBySerial(first);
      if a == null || !a.combat || !a.onMission { return; }
      var b := FindBySerial(second);
      if b == null || !b.combat || !b.onMission { return; }
      Link(a, b.serialNumber);
      Link(b, a.serialNumber);
    }

    // receiver.ReceiveMessage(...) on a submarine of the fleet.
    method Deliver(receiver: Submarine, senderSerial: string, content: string)
      requires Valid() && receiver in submarines
      modifies `registry, receiver`received
      ensures Valid() && receiver.serialNumber in old(registry)
      ensures var b := old(registry)[receiver.serialNumber];
        registry == old(registry)[receiver.serialNumber :=
          b.(received := b.received + [Message(content, senderSerial)])]
    {
      assert Registered(receiver);
      receiver.ReceiveMessage(senderSerial, content);
      Note(receiver);
    }

    method SendMessage(senderSerial: string, receiverSerial: string, content: string)
      requires Valid()
      modifies `registry, submarines
      ensures Valid() && registry == Send(old(registry), senderSerial, receiverSerial, content)
    {
      hide Valid;
      var sender := FindBySerial(senderSerial);
      if sender == null || !sender.combat { return; }
      var receiver := FindBySerial(receiverSerial);
      if receiver == null || !receiver.combat { return; }
      var found := sender.HasParticipant(receiverSerial);
      if !found { return; }
      Deliver(receiver, sender.serialNumber, content);
    }

    // One choice in the menu of pc_side/oop_fleet/main.cpp.
    method Perform(op: Operation)
      requires Valid() && Consistent(registry)
      modifies this, submarines
      ensures Valid() && registry == Apply(old(registry), op) && Consistent(registry)
      ensures fresh(set s <- submarines | s !in old(submarines))
    {
      ApplyStaysConsistent(registry, op);
      hide Valid, Consistent, Add, Assign, End, Associate, Send;
      match op
      case AddSubmarine(serial, kind) => AddSubmarine(serial, kind);
      case AssignMission(serial) => AssignMission(serial);
      case EndMission(serial) => EndMission(serial);
      case AssociateSubmarines(a, b) => AssociateCombatSubmarines(a, b);
      case SendMessage(sender, receiver, content) => SendMessage(sender, receiver, content);
    }
  }

  // Main result: a session at the menu, from the empty fleet. The objects are always those of the model, so
  // everything proved about its runs holds of them.
  method RunMenu(ops: seq<Operation>) returns (fleet: Fleet)
    ensures fresh(fleet) && fleet.Valid() && fleet.registry == After(ops) && Consistent(fleet.registry)
    ensures forall s <- fleet.submarines :: SpeaksFor(s, ops)
  {
    fleet := new Fleet();
    ConsistentOverRuns([]);
    for i := 0 to |ops|
      invariant fresh(fleet) && fresh(fleet.submarines)
      invariant fleet.Valid() && fleet.registry == After(ops[..i]) && Consistent(fleet.registry)
    {
      hide Fleet.Valid, Consistent, Apply;
      AfterOneMore(ops, i);
      fleet.Perform(ops[i]);
    }
    assert ops[..|ops|] == ops;
    forall s | s in fleet.submarines ensures SpeaksFor(s, ops) {
      assert fleet.Registered(s);
      RunMeans(ops, s.serialNumber);
    }
  }

  // The object is as the operations say.
  ghost predicate SpeaksFor(s: Submarine, ops: seq<Operation>)
    reads s
  {
    && (s.combat <==> AddedForCombat(ops, s.serialNumber))
    && (s.onMission <==> OnMission(ops, s.serialNumber))
    && (forall t :: t in s.participants <==> Associated(ops, s.serialNumber, t))
    && s.received == MailOf(ops, s.serialNumber)
  }

  lemma AfterOneMore(ops: seq<Operation>, i: nat)
    requires i < |ops|
    ensures After(ops[..i + 1]) == Apply(After(ops[..i]), ops[i])
  {
    assert ops[..i + 1][..i] == ops[..i];
  }

  lemma NoSelf(f: Registry, serial: string)
    requires Consistent(f) && serial in f
    ensures serial !in f[serial].participants
    ensures !f[serial].combat ==> f[serial].participants == []
  {
  }
}
