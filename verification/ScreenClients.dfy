/** The client list of the screen capture: how ids are given out, and when a new client replaces another. */
module ScreenClients {
  import opened Basics

  const MAX_CLIENT := 4

  datatype Kind = Window | RawData | Canvas

  datatype Client = Client(id: int, kind: Kind)

  predicate HasClient(clients: seq<Client>, id: int) {
    exists i :: 0 <= i < |clients| && clients[i].id == id
  }

  function KindOf(clients: seq<Client>, id: int): Kind
    requires HasClient(clients, id)
  {
    if clients[0].id == id then clients[0].kind else KindOf(clients[1..], id)
  }

  function Count(clients: seq<Client>, kind: Kind): nat {
    if clients == [] then 0
    else Count(clients[..|clients| - 1], kind) + if clients[|clients| - 1].kind == kind then 1 else 0
  }

  // ----- The list: sorted by id, an id that is present is replaced -----

  predicate Sorted(clients: seq<Client>) {
    forall i, j :: 0 <= i < j < |clients| ==> clients[i].id < clients[j].id
  }

  function Added(clients: seq<Client>, c: Client): seq<Client> {
    if clients == [] then [c]
    else if clients[0].id < c.id then [clients[0]] + Added(clients[1..], c)
    else if clients[0].id == c.id then [c] + clients[1..]
    else [c] + clients
  }

  function Removed(clients: seq<Client>, id: int): seq<Client> {
    if clients == [] then []
    else if clients[0].id == id then clients[1..]
    else [clients[0]] + Removed(clients[1..], id)
  }

  /** The other clients have larger ids than the first. */
  lemma FirstAndRest(clients: seq<Client>, id: int)
    requires Sorted(clients) && clients != []
    ensures Sorted(clients[1..]) && (forall d :: d in clients[1..] ==> d.id > clients[0].id)
    ensures forall d :: d in clients <==> d == clients[0] || d in clients[1..]
    ensures HasClient(clients, id) <==> clients[0].id == id || HasClient(clients[1..], id)
    ensures HasClient(clients[1..], id) ==> id > clients[0].id
  {
    assert forall i :: 0 < i < |clients| ==> clients[i] == clients[1..][i - 1];
  }

  lemma {:induction false} AddedHolds(clients: seq<Client>, c: Client)
    requires Sorted(clients)
    ensures Sorted(Added(clients, c))
    ensures forall d :: d in Added(clients, c) <==> d == c || (d in clients && d.id != c.id)
    ensures |Added(clients, c)| == |clients| + if HasClient(clients, c.id) then 0 else 1
  {
    if clients != [] {
      hide HasClient;
      FirstAndRest(clients, c.id);
      if clients[0].id < c.id {
        AddedHolds(clients[1..], c);
        assert forall d :: d in Added(clients[1..], c) ==> d.id > clients[0].id;
      }
    }
  }

  lemma {:induction false} RemovedHolds(clients: seq<Client>, id: int)
    requires Sorted(clients)
    ensures Sorted(Removed(clients, id))
    ensures forall d :: d in Removed(clients, id) <==> d in clients && d.id != id
    ensures |Removed(clients, id)| == |clients| - if HasClient(clients, id) then 1 else 0
  {
    if clients != [] {
      hide HasClient;
      FirstAndRest(clients, id);
      if clients[0].id != id {
        RemovedHolds(clients[1..], id);
        assert forall d :: d in Removed(clients[1..], id) ==> d.id > clients[0].id;
      }
    }
  }

  lemma {:induction false} AddedHas(clients: seq<Client>, c: Client, id: int)
    requires HasClient(clients, id) && id != c.id
    ensures HasClient(Added(clients, c), id) && KindOf(Added(clients, c), id) == KindOf(clients, id)
  {
    RestHas(clients, id);
    if clients[0].id < c.id && clients[0].id != id {
      AddedHas(clients[1..], c, id);
    }
    RestHas(Added(clients, c), id);
  }

  lemma {:induction false} RemovedHas(clients: seq<Client>, other: int, id: int)
    requires HasClient(clients, id) && id != other
    ensures HasClient(Removed(clients, other), id) && KindOf(Removed(clients, other), id) == KindOf(clients, id)
  {
    RestHas(clients, id);
    if clients[0].id != other && clients[0].id != id {
      RemovedHas(clients[1..], other, id);
    }
    RestHas(Removed(clients, other), id);
  }

  lemma RestHas(clients: seq<Client>, id: int)
    ensures HasClient(clients, id) <==> clients != [] && (clients[0].id == id || HasClient(clients[1..], id))
  {
    if clients != [] {
      assert forall i :: 0 < i < |clients| ==> clients[i] == clients[1..][i - 1];
    }
  }

  lemma {:induction false} KindIsListed(clients: seq<Client>, id: int)
    requires HasClient(clients, id)
    ensures Client(id, KindOf(clients, id)) in clients
  {
    if clients[0].id != id {
      RestHas(clients, id);
      KindIsListed(clients[1..], id);
    }
  }

  // ----- Giving out ids -----

  /** The ids are 1, 2, ..., without a gap. */
  predicate Compact(clients: seq<Client>) {
    forall i :: 0 <= i < |clients| ==> clients[i].id == i + 1
  }

  /** What the scan for a gap finds: behind the first gap every position differs, so the last one counts. */
  function NewId(clients: seq<Client>): int {
    if Compact(clients) then |clients| + 1 else |clients|
  }

  predicate Admits(clients: seq<Client>, kind: Kind) {
    |clients| < MAX_CLIENT && (kind == Canvas ==> forall c :: c in clients ==> c.kind != Canvas)
  }

  /** The list after a client asked to join, and its id. */
  function Joined(clients: seq<Client>, kind: Kind): (seq<Client>, Option<int>) {
    if Admits(clients, kind) then (Added(clients, Client(NewId(clients), kind)), Some(NewId(clients)))
    else (clients, None)
  }

  lemma JoinedHas(clients: seq<Client>, kind: Kind, id: int)
    requires HasClient(clients, id) && NewId(clients) != id
    ensures var list := Joined(clients, kind).0; HasClient(list, id) && KindOf(list, id) == KindOf(clients, id)
  {
    AddedHas(clients, Client(NewId(clients), kind), id);
  }

  ghost predicate Listed(clients: seq<Client>) {
    && Sorted(clients)
    && (forall c :: c in clients ==> 1 <= c.id <= MAX_CLIENT)
    && (forall c, d :: c in clients && d in clients && c.kind == Canvas && d.kind == Canvas ==> c == d)
  }

  method FindNewId(clients: seq<Client>) returns (clientNum: int)
    requires Listed(clients)
    ensures clientNum == NewId(clients)
    ensures (forall i :: 0 <= i < |clients| ==> clients[i].id == i + 1) ==> clientNum == |clients| + 1
    ensures (exists i :: 0 <= i < |clients| && clients[i].id != i + 1) ==> clientNum == |clients|
  {
    clientNum := -1;
    if |clients| == 0 {
      return 1;
    }
    for i := 0 to |clients|
      invariant clientNum == -1 ==> Compact(clients[..i])
      invariant clientNum != -1 ==> clientNum == i > 0 && clients[i - 1].id > i
    {
      assert clients[i] in clients && (i > 0 ==> clients[i - 1].id < clients[i].id);
      assert clientNum == -1 ==> i == 0 || clients[..i][i - 1].id == i;
      if clients[i].id != i + 1 {
        clientNum := i + 1;
      }
    }
    assert clients[..|clients|] == clients;
    if clientNum == -1 {
      clientNum := |clients| + 1;
    }
  }

  method HasCanvas(clients: seq<Client>) returns (found: bool)
    ensures found <==> exists c :: c in clients && c.kind == Canvas
  {
    for i := 0 to |clients|
      invariant forall j :: 0 <= j < i ==> clients[j].kind != Canvas
    {
      if clients[i].kind == Canvas {
        return true;
      }
    }
    return false;
  }

  // ----- Over all runs -----

  /** A client leaves only if it is in the list. */
  datatype Change = Join(kind: Kind) | Leave(id: int)

  function Changed(clients: seq<Client>, change: Change): seq<Client> {
    match change
    case Join(kind) => Joined(clients, kind).0
    case Leave(id) => Removed(clients, id)
  }

  function ListAfter(changes: seq<Change>): seq<Client> {
    if changes == [] then [] else Changed(ListAfter(changes[..|changes| - 1]), changes[|changes| - 1])
  }

  lemma ChangeKeepsListed(clients: seq<Client>, change: Change)
    requires Listed(clients)
    ensures Listed(Changed(clients, change))
  {
    match change {
      case Join(kind) =>
        IdInRange(clients);
        AddedHolds(clients, Client(NewId(clients), kind));
      case Leave(id) => RemovedHolds(clients, id);
    }
  }

  lemma IdInRange(clients: seq<Client>)
    requires Listed(clients)
    ensures 1 <= NewId(clients) <= |clients| + 1
  {}

  /** Over every run of joins and leaves: ids are distinct and from 1 to the maximal number of clients, and at
      most one client is a canvas client. */
  lemma {:induction false} ListStaysListed(changes: seq<Change>)
    ensures Listed(ListAfter(changes)) && Count(ListAfter(changes), Canvas) <= 1
  {
    if changes != [] {
      ListStaysListed(changes[..|changes| - 1]);
      ChangeKeepsListed(ListAfter(changes[..|changes| - 1]), changes[|changes| - 1]);
    }
    CanvasIsAlone(ListAfter(changes));
  }

  lemma {:induction false} CanvasIsAlone(clients: seq<Client>)
    requires Listed(clients)
    ensures Count(clients, Canvas) == if exists c :: c in clients && c.kind == Canvas then 1 else 0
  {
    if clients != [] {
      var n := |clients| - 1;
      var last := clients[n];
      assert forall c :: c in clients <==> c == last || c in clients[..n];
      assert last !in clients[..n];
      CanvasIsAlone(clients[..n]);
    }
  }

  // ----- When a new client replaces another -----

  /** A client that is admitted gets an id of its own, and every other client stays as it is, if and only if the ids
      have no gap or the number of clients is not an id in use. */
  lemma JoinKeepsOthersIff(clients: seq<Client>, kind: Kind)
    requires Listed(clients) && Admits(clients, kind)
    ensures var (list, id) := Joined(clients, kind);
            && id.Some? && Client(id.value, kind) in list
            && (|list| == |clients| + 1 && (forall c :: c in clients ==> c in list)
                <==> Compact(clients) || !HasClient(clients, |clients|))
  {
    AddedHolds(clients, Client(NewId(clients), kind));
  }

  /** Change number `n` of a run, if it is an admitted join, gives the new client an id of its own. */
  ghost predicate KeepsOthers(changes: seq<Change>, n: nat) {
    n < |changes| && changes[n].Join? && Admits(ListAfter(changes[..n]), changes[n].kind) ==>
      var list, next := ListAfter(changes[..n]), ListAfter(changes[..n + 1]);
      |next| == |list| + 1 && forall c :: c in list ==> c in next
  }

  /** In every run with at most `bound` clients at once, no client is replaced. */
  ghost predicate ApartUpTo(bound: nat) {
    forall changes: seq<Change>, n: nat :: AtMost(changes, bound) ==> KeepsOthers(changes, n)
  }

  ghost predicate AtMost(changes: seq<Change>, bound: nat) {
    forall n :: 0 <= n <= |changes| ==> |ListAfter(changes[..n])| <= bound
  }

  lemma NextList(changes: seq<Change>, n: nat)
    requires n < |changes|
    ensures ListAfter(changes[..n + 1]) == Changed(ListAfter(changes[..n]), changes[n])
  {
    assert changes[..n + 1] == changes[..n] + [changes[n]];
    OneMoreChange(changes[..n], changes[n]);
  }

  /** With at most two clients at once, a third id is never given out. */
  lemma {:induction false} IdsStayLow(changes: seq<Change>, n: nat)
    requires AtMost(changes, 2) && n <= |changes|
    ensures forall c :: c in ListAfter(changes[..n]) ==> c.id <= 2
  {
    if n > 0 {
      IdsStayLow(changes, n - 1);
      NextList(changes, n - 1);
      var list := ListAfter(changes[..n - 1]);
      assert |ListAfter(changes[..n])| <= 2;
      ListStaysListed(changes[..n - 1]);
      hide ListAfter, AtMost;
      LowStaysLow(list, changes[n - 1]);
    }
  }

  lemma LowStaysLow(list: seq<Client>, change: Change)
    requires Listed(list) && (forall c :: c in list ==> c.id <= 2) && |Changed(list, change)| <= 2
    ensures forall c :: c in Changed(list, change) ==> c.id <= 2
  {
    match change {
      case Join(kind) =>
        AddedHolds(list, Client(NewId(list), kind));
        if Compact(list) {
          NotListed(list);
        }
      case Leave(id) => RemovedHolds(list, id);
    }
  }

  lemma NotListed(list: seq<Client>)
    requires Compact(list)
    ensures !HasClient(list, |list| + 1)
  {}

  lemma LowIsApart(list: seq<Client>)
    requires Listed(list) && |list| <= 2 && forall c :: c in list ==> c.id <= 2
    ensures Compact(list) || !HasClient(list, |list|)
  {
    if |list| == 2 {
      assert list[0] in list && list[1] in list && list[0].id < list[1].id;
    } else if |list| == 1 {
      assert list[0] in list;
    }
  }

  lemma JoinKeepsOthers(changes: seq<Change>, n: nat)
    requires AtMost(changes, 2)
    ensures KeepsOthers(changes, n)
  {
    if n < |changes| && changes[n].Join? && Admits(ListAfter(changes[..n]), changes[n].kind) {
      var list := ListAfter(changes[..n]);
      ListStaysListed(changes[..n]);
      IdsStayLow(changes, n);
      NextList(changes, n);
      LowIsApart(list);
      JoinKeepsOthersIff(list, changes[n].kind);
    }
  }

  /** Two clients at once are the most for which this holds. */
  lemma ApartUpToIff(bound: nat)
    ensures ApartUpTo(bound) <==> bound <= 2
  {
    if bound <= 2 {
      forall changes: seq<Change>, n: nat | AtMost(changes, bound) ensures KeepsOthers(changes, n) {
        assert AtMost(changes, 2);
        JoinKeepsOthers(changes, n);
      }
    } else {
      var changes := [Join(RawData), Join(Canvas), Join(RawData), Leave(1), Join(RawData)];
      ExampleReplaces(changes);
      assert AtMost(changes, bound) && !KeepsOthers(changes, 4);
    }
  }

  lemma ExampleReplaces(changes: seq<Change>)
    requires changes == [Join(RawData), Join(Canvas), Join(RawData), Leave(1), Join(RawData)]
    ensures AtMost(changes, 3) && !KeepsOthers(changes, 4)
  {
    ExampleLists();
    hide ListAfter;
    forall n | 0 <= n <= 5 ensures |ListAfter(changes[..n])| <= 3 {
      assert n == 0 || n == 1 || n == 2 || n == 3 || n == 4 || n == 5;
    }
    assert Client(2, Canvas) in ListAfter(changes[..4]);
  }

  /** Client 1 leaves three, and the next one takes the id and the place of the canvas client. */
  lemma CanvasIsReplaced()
    ensures var changes := [Join(RawData), Join(Canvas), Join(RawData), Leave(1), Join(RawData)];
            && ListAfter(changes[..4]) == [Client(2, Canvas), Client(3, RawData)]
            && ListAfter(changes) == [Client(2, RawData), Client(3, RawData)]
  {
    ExampleLists();
    var changes := [Join(RawData), Join(Canvas), Join(RawData), Leave(1), Join(RawData)];
    assert changes[..5] == changes;
  }

  lemma ExampleLists()
    ensures var changes := [Join(RawData), Join(Canvas), Join(RawData), Leave(1), Join(RawData)];
            && ListAfter(changes[..0]) == [] && ListAfter(changes[..1]) == [Client(1, RawData)]
            && ListAfter(changes[..2]) == [Client(1, RawData), Client(2, Canvas)]
            && ListAfter(changes[..3]) == [Client(1, RawData), Client(2, Canvas), Client(3, RawData)]
            && ListAfter(changes[..4]) == [Client(2, Canvas), Client(3, RawData)]
            && ListAfter(changes[..5]) == [Client(2, RawData), Client(3, RawData)]
  {
    var changes := [Join(RawData), Join(Canvas), Join(RawData), Leave(1), Join(RawData)];
    assert ListAfter(changes[..0]) == [];
    NextList(changes, 0);
    NextList(changes, 1);
    NextList(changes, 2);
    NextList(changes, 3);
    NextList(changes, 4);
    hide ListAfter, Joined;
    ExampleJoins();
  }

  lemma ExampleJoins()
    ensures Joined([], RawData).0 == [Client(1, RawData)]
    ensures Joined([Client(1, RawData)], Canvas).0 == [Client(1, RawData), Client(2, Canvas)]
    ensures Joined([Client(1, RawData), Client(2, Canvas)], RawData).0
            == [Client(1, RawData), Client(2, Canvas), Client(3, RawData)]
    ensures Removed([Client(1, RawData), Client(2, Canvas), Client(3, RawData)], 1)
            == [Client(2, Canvas), Client(3, RawData)]
    ensures Joined([Client(2, Canvas), Client(3, RawData)], RawData).0 == [Client(2, RawData), Client(3, RawData)]
  {
    var two, list := [Client(1, RawData), Client(2, Canvas)], [Client(2, Canvas), Client(3, RawData)];
    LastAdded([Client(1, RawData)], Client(2, Canvas));
    LastAdded(two, Client(3, RawData));
    assert list[0].id == 2;
    assert Added(list, Client(2, RawData)) == [Client(2, RawData)] + list[1..];
  }

  lemma {:induction false} LastAdded(clients: seq<Client>, c: Client)
    requires forall d :: d in clients ==> d.id < c.id
    ensures Added(clients, c) == clients + [c]
  {
    if clients != [] {
      assert clients[0] in clients;
      LastAdded(clients[1..], c);
    }
  }

  lemma OneMoreChange(changes: seq<Change>, change: Change)
    ensures ListAfter(changes + [change]) == Changed(ListAfter(changes), change)
  {
    assert (changes + [change])[..|changes|] == changes;
  }
}
