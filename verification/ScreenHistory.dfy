/** What becomes of a captured buffer after any history of clients that join, start, stop and leave. */
module ScreenHistory {
  import opened Basics
  import opened ScreenClients
  import opened ScreenManager

  // ----- Histories -----

  datatype Move = ClientJoins(kind: Kind) | ClientLeaves(id: int) | ClientStarts(id: int) | ClientStops(id: int)

  /** A move of a client that is not in the list does not occur. */
  function Moved(s: Screen, m: Move): Screen {
    match m
    case ClientJoins(kind) => s.(clients := Joined(s.clients, kind).0)
    case ClientLeaves(id) => s.(clients := Removed(s.clients, id))
    case ClientStarts(id) => if HasClient(s.clients, id) then Started(s, id) else s
    case ClientStops(id) => if HasClient(s.clients, id) then Stopped(s, id) else s
  }

  function After(moves: seq<Move>, mode: bool): Screen {
    if moves == [] then Screen([], [], [], false, false, mode, false, [], [])
    else Moved(After(moves[..|moves| - 1], mode), moves[|moves| - 1])
  }

  lemma {:induction false} ClientsListed(moves: seq<Move>, mode: bool)
    ensures Listed(After(moves, mode).clients)
  {
    if moves != [] {
      var n := |moves| - 1;
      ClientsListed(moves[..n], mode);
      var clients := After(moves[..n], mode).clients;
      match moves[n] {
        case ClientJoins(kind) => ChangeKeepsListed(clients, Join(kind));
        case ClientLeaves(id) => ChangeKeepsListed(clients, Leave(id));
        case _ =>
      }
    }
  }

  predicate IsCanvas(clients: seq<Client>, id: int) {
    HasClient(clients, id) && KindOf(clients, id) == Canvas
  }

  /** Move number `k` is a start, or a stop, of a client that is a canvas client at that time. */
  predicate CanvasStarts(moves: seq<Move>, mode: bool, k: nat) {
    k < |moves| && moves[k].ClientStarts? && IsCanvas(After(moves[..k], mode).clients, moves[k].id)
  }

  predicate CanvasStops(moves: seq<Move>, mode: bool, k: nat) {
    k < |moves| && moves[k].ClientStops? && IsCanvas(After(moves[..k], mode).clients, moves[k].id)
  }

  /** Some canvas client started, and none has stopped since; clients may have left. */
  ghost predicate CanvasLastStarted(moves: seq<Move>, mode: bool) {
    exists k: nat :: CanvasStarts(moves, mode, k) && forall j: nat :: k < j ==> !CanvasStops(moves, mode, j)
  }

  lemma MovesBefore(moves: seq<Move>, mode: bool, k: nat)
    requires k + 1 < |moves|
    ensures CanvasStarts(moves, mode, k) == CanvasStarts(moves[..|moves| - 1], mode, k)
    ensures CanvasStops(moves, mode, k) == CanvasStops(moves[..|moves| - 1], mode, k)
  {
    hide After, IsCanvas;
    assert moves[..|moves| - 1][..k] == moves[..k];
  }

  lemma LastStartedStep(moves: seq<Move>, mode: bool)
    requires moves != []
    ensures var n := |moves| - 1;
            CanvasLastStarted(moves, mode)
            <==> CanvasStarts(moves, mode, n) || (!CanvasStops(moves, mode, n) && CanvasLastStarted(moves[..n], mode))
  {
    hide After, CanvasStarts, CanvasStops;
    var n := |moves| - 1;
    var before := moves[..n];
    OnlySmaller(moves, mode);
    OnlySmaller(before, mode);
    forall k: nat | k < n
      ensures CanvasStarts(moves, mode, k) == CanvasStarts(before, mode, k)
      ensures CanvasStops(moves, mode, k) == CanvasStops(before, mode, k)
    {
      MovesBefore(moves, mode, k);
    }
    if CanvasLastStarted(moves, mode) {
      var k: nat :| CanvasStarts(moves, mode, k) && forall j: nat :: k < j ==> !CanvasStops(moves, mode, j);
      assert k < n ==> CanvasStarts(before, mode, k);
    }
    if !CanvasStops(moves, mode, n) && CanvasLastStarted(before, mode) {
      var k: nat :| CanvasStarts(before, mode, k) && forall j: nat :: k < j ==> !CanvasStops(before, mode, j);
      assert CanvasStarts(moves, mode, k);
    }
  }

  /** The flag that decides who gets a buffer says exactly that. */
  lemma {:induction false} CanvasExistsIff(moves: seq<Move>, mode: bool)
    ensures After(moves, mode).canvasExists <==> CanvasLastStarted(moves, mode)
  {
    if moves == [] {
      OnlySmaller(moves, mode);
    } else {
      CanvasExistsIff(moves[..|moves| - 1], mode);
      LastStartedStep(moves, mode);
      LastMove(moves, mode);
    }
  }

  lemma OnlySmaller(moves: seq<Move>, mode: bool)
    ensures forall k: nat :: CanvasStarts(moves, mode, k) || CanvasStops(moves, mode, k) ==> k < |moves|
    ensures forall k: nat :: !(CanvasStarts(moves, mode, k) && CanvasStops(moves, mode, k))
  {
    hide After, IsCanvas;
  }

  lemma LastMove(moves: seq<Move>, mode: bool)
    requires moves != []
    ensures var n := |moves| - 1;
            After(moves, mode).canvasExists
               == if CanvasStarts(moves, mode, n) then true
                  else if CanvasStops(moves, mode, n) then false
                  else After(moves[..n], mode).canvasExists
  {}

  // ----- What becomes of a buffer -----

  /** How often a buffer is accounted for when `n` clients are served: given back, or queued for the canvas client. */
  function Accounts(s: Screen, n: nat): nat
    requires n <= |s.clients|
  {
    Returns(s, n) + if s.canvasExists && n == |s.clients| then Count(s.clients, Canvas) else 0
  }

  lemma AccountsAddUp(s: Screen, b: Buffer, fails: set<nat>)
    requires Accepts(s, Some(b))
    ensures var t := Captured(s, Some(b), fails);
            && multiset(t.released) + Bag(t.frames)
               == multiset(s.released) + Bag(s.frames)
                  + multiset(Repeat(b.mem, Accounts(s, Served(s.clients, fails))))
            && |t.released| + |t.frames| == |s.released| + |s.frames| + Accounts(s, Served(s.clients, fails))
  {
    hide Returns, Count;
    var n := Served(s.clients, fails);
    var f := Frame(b.mem, b.canvas);
    var queued := if s.canvasExists && n == |s.clients| then Repeat(f, Count(s.clients, Canvas)) else [];
    BagAppend(s.frames, queued);
    assert Addresses(queued) == Repeat(b.mem, |queued|);
    assert Repeat(b.mem, Returns(s, n)) + Repeat(b.mem, |queued|) == Repeat(b.mem, Accounts(s, n));
  }

  predicate AllWindows(clients: seq<Client>, n: nat)
    requires n <= |clients|
  {
    forall i :: 0 <= i < n ==> clients[i].kind == Window
  }

  /** Client `i` is the only one of the first `n` that is not a window. */
  predicate OnlyOther(clients: seq<Client>, n: nat, i: nat)
    requires n <= |clients|
  {
    i < n && clients[i].kind != Window && forall j :: 0 <= j < n && j != i ==> clients[j].kind == Window
  }

  ghost predicate OneNotWindow(clients: seq<Client>, n: nat)
    requires n <= |clients|
  {
    exists i: nat :: OnlyOther(clients, n, i)
  }

  lemma OneNotWindowStep(clients: seq<Client>, n: nat)
    requires 0 < n <= |clients|
    ensures OneNotWindow(clients, n)
            <==> if clients[n - 1].kind == Window then OneNotWindow(clients, n - 1) else AllWindows(clients, n - 1)
  {
    if OneNotWindow(clients, n) {
      var i: nat :| OnlyOther(clients, n, i);
      assert clients[n - 1].kind == Window ==> OnlyOther(clients, n - 1, i);
    }
    if clients[n - 1].kind == Window && OneNotWindow(clients, n - 1) {
      var i: nat :| OnlyOther(clients, n - 1, i);
      assert OnlyOther(clients, n, i);
    }
    if clients[n - 1].kind != Window && AllWindows(clients, n - 1) {
      assert OnlyOther(clients, n, n - 1);
    }
  }

  lemma {:induction false} CountsAre(clients: seq<Client>, n: nat)
    requires n <= |clients|
    ensures var others := Count(clients[..n], RawData) + Count(clients[..n], Canvas);
            && (others == 0 <==> AllWindows(clients, n))
            && (others == 1 <==> OneNotWindow(clients, n))
  {
    if n > 0 {
      CountsAre(clients, n - 1);
      CountStep(clients, n - 1, RawData);
      CountStep(clients, n - 1, Canvas);
      OneNotWindowStep(clients, n);
      hide Count, OneNotWindow;
    }
  }

  /** When a buffer is accounted for exactly once: drawing succeeds for a window that is the only client; or a canvas
      client was started last, is still in the list, and drawing fails for none; or none was started last, and
      exactly one client that is not a window is served. */
  ghost predicate Once(clients: seq<Client>, canvasStarted: bool, n: nat)
    requires n <= |clients|
  {
    if |clients| == 1 && clients[0].kind == Window then n == 1
    else if canvasStarted then n == |clients| && exists c :: c in clients && c.kind == Canvas
    else OneNotWindow(clients, n)
  }

  lemma AccountsOnceIff(s: Screen, n: nat)
    requires Listed(s.clients) && n <= |s.clients|
    ensures Accounts(s, n) == 1 <==> Once(s.clients, s.canvasExists, n)
  {
    CountsAre(s.clients, n);
    CanvasIsAlone(s.clients);
    if |s.clients| == 1 {
      OneClient(s.clients, n);
    }
    hide Count, OneNotWindow, AllWindows, Listed;
  }

  lemma OneClient(clients: seq<Client>, n: nat)
    requires |clients| == 1 && n <= 1
    ensures forall kind :: Count(clients[..n], kind) == if n == 1 && clients[0].kind == kind then 1 else 0
    ensures forall kind :: Count(clients, kind) == if clients[0].kind == kind then 1 else 0
    ensures (exists c :: c in clients && c.kind == Canvas) <==> clients[0].kind == Canvas
  {
    assert clients[..1] == clients && clients[..0] == [] && clients[0] in clients;
    assert forall c :: c in clients <==> c == clients[0];
  }

  /** After every history, an accepted buffer is accounted for exactly once if and only if the history left the
      list and the last canvas call so. */
  lemma OnceAfterHistoryIff(moves: seq<Move>, mode: bool, s: Screen, b: Buffer, fails: set<nat>)
    requires s.clients == After(moves, mode).clients && s.canvasExists == After(moves, mode).canvasExists
    requires Accepts(s, Some(b))
    ensures var t := Captured(s, Some(b), fails);
            |t.released| + |t.frames| == |s.released| + |s.frames| + 1
            <==> Once(s.clients, CanvasLastStarted(moves, mode), Served(s.clients, fails))
  {
    ClientsListed(moves, mode);
    CanvasExistsIff(moves, mode);
    hide Accounts, Once, After, CanvasLastStarted, Captured, Served;
    AccountsAddUp(s, b, fails);
    AccountsOnceIff(s, Served(s.clients, fails));
  }

  /** A canvas client that leaves without stopping: from then on every buffer is lost, unless a window is the only
      client. */
  lemma LeftCanvasLosesAll(s: Screen, b: Buffer, fails: set<nat>)
    requires Accepts(s, Some(b)) && s.canvasExists && Listed(s.clients)
    requires !(|s.clients| == 1 && s.clients[0].kind == Window) && forall c :: c in s.clients ==> c.kind != Canvas
    ensures var t := Captured(s, Some(b), fails); t.released == s.released && t.frames == s.frames
  {
    CanvasIsAlone(s.clients);
    if |s.clients| == 1 {
      OneClient(s.clients, Served(s.clients, fails));
    }
    hide Count, Listed;
    assert s.released + [] == s.released && s.frames + [] == s.frames;
  }

  /** With a canvas and a raw client in the list, stopping the canvas client makes the next buffer released twice. */
  lemma StoppedCanvasReleasesTwice(s: Screen, b: Buffer)
    requires s.clients == [Client(1, Canvas), Client(2, RawData)] && s.started && !s.error && s.canvasExists
    requires b.mem != 0 && b.canvas != 0 && HasClient(s.clients, 1)
    ensures Captured(Stopped(s, 1), Some(b), {}).released == s.released + [b.mem, b.mem]
  {
    assert s.clients[0].id == 1;
    ServedAllIff(s.clients, {}, 0);
    CountStep(s.clients, 0, RawData);
    CountStep(s.clients, 1, RawData);
    CountStep(s.clients, 0, Canvas);
    CountStep(s.clients, 1, Canvas);
    assert s.clients[..2] == s.clients;
    assert Repeat(b.mem, 2) == [b.mem, b.mem];
  }
}
