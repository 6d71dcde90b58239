/** Screen capture: buffers lent by the device are queued for a canvas client and copied for raw clients. */
module ScreenManager {
  import opened Basics
  import opened ScreenClients

  type Address = int
  type Picture = seq<int>

  /** A buffer as the device delivers it. */
  datatype Buffer = Buffer(mem: Address, canvas: int, picture: Picture)

  datatype Frame = Frame(mem: Address, canvas: int)

  const RAW_LIMIT := 60

  // ----- The state and its steps -----

  /** `shown` is what was drawn on the window, `released` the log of buffers given back to the device. */
  datatype Screen = Screen(clients: seq<Client>, frames: seq<Frame>, raw: seq<Picture>, started: bool,
                           error: bool, canvasMode: bool, canvasExists: bool, shown: seq<Picture>,
                           released: seq<Address>)

  function Repeat<T>(x: T, n: nat): (r: seq<T>)
    ensures |r| == n && forall i :: 0 <= i < n ==> r[i] == x
  {
    seq(n, _ => x)
  }

  predicate Accepts(s: Screen, b: Option<Buffer>) {
    s.started && !s.error && b.Some? && b.value.mem != 0 && !(s.canvasMode && b.value.canvas == 0)
  }

  /** How many clients from the `i`-th on are served until drawing on the window fails for one; `fails` holds the
      places of the clients for which it would fail. */
  function ServedFrom(clients: seq<Client>, fails: set<nat>, i: nat): (n: nat)
    requires i <= |clients|
    ensures i <= n <= |clients|
    decreases |clients| - i
  {
    if i == |clients| || (clients[i].kind == Window && i in fails) then i else ServedFrom(clients, fails, i + 1)
  }

  function Served(clients: seq<Client>, fails: set<nat>): (n: nat)
    ensures n <= |clients|
  {
    ServedFrom(clients, fails, 0)
  }

  /** The copies of a picture that fit the raw queue, one for each raw client among the first `n`. */
  function RawCopies(s: Screen, n: nat): nat
    requires n <= |s.clients|
  {
    var c := Count(s.clients[..n], RawData);
    if |s.raw| + c <= RAW_LIMIT then c else if |s.raw| <= RAW_LIMIT then RAW_LIMIT - |s.raw| else 0
  }

  /** How often a buffer is given back for the first `n` clients: once for each when no canvas client is started,
      and for a window only if it is the only client. */
  function Returns(s: Screen, n: nat): nat
    requires n <= |s.clients|
  {
    (if s.canvasExists then 0 else Count(s.clients[..n], RawData) + Count(s.clients[..n], Canvas))
    + (if |s.clients| == 1 then Count(s.clients[..n], Window) else 0)
  }

  /** When drawing fails, the clients from that one on get nothing, and nothing is queued for the canvas client. */
  function Captured(s: Screen, b: Option<Buffer>, fails: set<nat>): Screen {
    if Accepts(s, b) then
      var n := Served(s.clients, fails);
      s.(raw := s.raw + Repeat(b.value.picture, RawCopies(s, n)),
         shown := s.shown + Repeat(b.value.picture, Count(s.clients[..n], Window)),
         released := s.released + Repeat(b.value.mem, Returns(s, n)),
         frames := s.frames + if s.canvasExists && n == |s.clients|
                              then Repeat(Frame(b.value.mem, b.value.canvas), Count(s.clients, Canvas))
                              else [])
    else if s.started && !s.error && b.Some? && b.value.mem != 0 then s.(error := true)
    else s
  }

  datatype Delivery = Nothing | CanvasFrame(frame: Frame) | RawPicture(picture: Picture)

  function Read(s: Screen, id: int): (Screen, Delivery)
    requires HasClient(s.clients, id)
  {
    if !s.started then (s, Nothing)
    else
      match KindOf(s.clients, id)
      case Canvas => if s.frames == [] then (s, Nothing) else (s.(frames := s.frames[1..]), CanvasFrame(s.frames[0]))
      case RawData => if s.raw == [] then (s, Nothing) else (s.(raw := s.raw[1..]), RawPicture(s.raw[0]))
      case Window => (s, Nothing)
  }

  function Freed(s: Screen, id: int, mem: Address): Screen
    requires HasClient(s.clients, id)
  {
    if s.started && KindOf(s.clients, id) == Canvas then s.(released := s.released + [mem]) else s
  }

  function Started(s: Screen, id: int): Screen
    requires HasClient(s.clients, id)
  {
    s.(started := true, canvasExists := s.canvasExists || KindOf(s.clients, id) == Canvas)
  }

  function Stopped(s: Screen, id: int): Screen
    requires HasClient(s.clients, id)
  {
    var r := if |s.clients| == 1 && s.started then s.(started := false, frames := []) else s;
    match KindOf(s.clients, id)
    case Canvas => r.(canvasExists := false)
    case RawData => r.(raw := [])
    case Window => r
  }

  // ----- The manager -----

  class Manager {
    var clients: seq<Client>
    var canvasFramesReceived: seq<Frame>
    var rawBufferQueue: seq<Picture>
    var started: bool
    var error: bool
    const canvasMode: bool
    var canvasClientExist: bool
    /** What was drawn on the window. */
    var windowPictures: seq<Picture>
    /** Buffers given back to the device. */
    var released: seq<Address>

    ghost function View(): Screen
      reads this
    {
      Screen(clients, canvasFramesReceived, rawBufferQueue, started, error, canvasMode, canvasClientExist,
             windowPictures, released)
    }

    constructor (clientList: seq<Client>, mode: bool)
      ensures View() == Screen(clientList, [], [], false, false, mode, false, [], [])
    {
      clients, canvasFramesReceived, rawBufferQueue, windowPictures, released := clientList, [], [], [], [];
      started, error, canvasMode, canvasClientExist := false, false, mode, false;
    }

    /** A client joins the list, unless the list is full or it would be a second canvas client. */
    method Init(kind: Kind) returns (id: Option<int>)
      requires Listed(clients)
      modifies this`clients
      ensures (clients, id) == Joined(old(clients), kind) && Listed(clients)
    {
      ChangeKeepsListed(clients, Join(kind));
      if |clients| >= MAX_CLIENT {
        return None;
      }
      var clientNum := FindNewId(clients);
      if kind == Canvas {
        var owned := HasCanvas(clients);
        if owned {
          return None;
        }
      }
      clients := Added(clients, Client(clientNum, kind));
      return Some(clientNum);
    }

    method Uninit(id: int)
      requires Listed(clients) && HasClient(clients, id)
      modifies this`clients
      ensures clients == Removed(old(clients), id) && Listed(clients)
    {
      ChangeKeepsListed(clients, Leave(id));
      clients := Removed(clients, id);
    }

    method Find(id: int) returns (kind: Kind)
      requires HasClient(clients, id)
      ensures kind == KindOf(clients, id)
    {
      var i := 0;
      while clients[i].id != id
        invariant 0 <= i < |clients| && HasClient(clients[i..], id)
        invariant KindOf(clients, id) == KindOf(clients[i..], id)
        decreases |clients| - i
      {
        assert clients[i..][1..] == clients[i + 1..];
        i := i + 1;
      }
      kind := clients[i].kind;
    }

    method Start(id: int)
      requires HasClient(clients, id)
      modifies this
      ensures View() == Started(old(View()), id)
    {
      var kind := Find(id);
      if kind == Canvas {
        canvasClientExist := true;
      }
      started := true;
    }

    method Reset()
      modifies this
      ensures View() == if old(started) then old(View()).(started := false, frames := []) else old(View())
    {
      if !started {
        return;
      }
      started := false;
      while canvasFramesReceived != []
        invariant View() == old(View()).(started := false, frames := canvasFramesReceived)
        decreases |canvasFramesReceived|
      {
        canvasFramesReceived := canvasFramesReceived[1..];
      }
    }

    method Stop(id: int)
      requires HasClient(clients, id)
      modifies this
      ensures View() == Stopped(old(View()), id)
    {
      if |clients| == 1 {
        Reset();
      }
      var kind := Find(id);
      if kind == Canvas {
        canvasClientExist := false;
      }
      if kind == RawData {
        ghost var s := View();
        while rawBufferQueue != []
          invariant View() == s.(raw := rawBufferQueue)
          decreases |rawBufferQueue|
        {
          rawBufferQueue := rawBufferQueue[1..];
        }
      }
    }

    method ReadBuffer(id: int) returns (d: Delivery)
      requires HasClient(clients, id)
      modifies this
      ensures (View(), d) == Read(old(View()), id)
    {
      var kind := Find(id);
      if !started {
        return Nothing;
      }
      if kind == Canvas {
        if canvasFramesReceived == [] {
          return Nothing;
        }
        d := CanvasFrame(canvasFramesReceived[0]);
        canvasFramesReceived := canvasFramesReceived[1..];
        return;
      }
      if kind == RawData && rawBufferQueue != [] {
        d := RawPicture(rawBufferQueue[0]);
        rawBufferQueue := rawBufferQueue[1..];
      } else {
        d := Nothing;
      }
    }

    method FreeBuffer(id: int, mem: Address)
      requires HasClient(clients, id)
      modifies this
      ensures View() == Freed(old(View()), id, mem)
    {
      if !started {
        return;
      }
      var kind := Find(id);
      if kind == Canvas {
        released := released + [mem];
      }
    }

    /** One client of the first pass; false if drawing on the window fails. */
    method ServeClient(b: Buffer, i: nat, fails: set<nat>) returns (ok: bool)
      requires i < |clients|
      modifies this`rawBufferQueue, this`windowPictures, this`released
      ensures ok == !(clients[i].kind == Window && i in fails)
      ensures !ok ==> View() == old(View())
      ensures ok ==> View() == ClientServed(old(View()), b, clients[i].kind)
    {
      var kind := clients[i].kind;
      match kind {
        case Window =>
          if i in fails {
            return false;
          }
          windowPictures := windowPictures + [b.picture];
          if |clients| == 1 {
            released := released + [b.mem];
          }
        case RawData =>
          if |rawBufferQueue| < RAW_LIMIT {
            rawBufferQueue := rawBufferQueue + [b.picture];
          }
          if !canvasClientExist {
            released := released + [b.mem];
          }
        case Canvas =>
          if !canvasClientExist {
            released := released + [b.mem];
          }
      }
      return true;
    }

    /** First pass: draw the picture or copy it, and give the buffer back where it is not needed any more. */
    method ServeAll(b: Buffer, fails: set<nat>) returns (ok: bool)
      modifies this`rawBufferQueue, this`windowPictures, this`released
      ensures ok == (Served(clients, fails) == |clients|)
      ensures View() == FirstPass(old(View()), b, Served(clients, fails))
    {
      hide ClientServed;
      ghost var s := View();
      PassStarts(s, b);
      for i := 0 to |clients|
        invariant Served(clients, fails) == ServedFrom(clients, fails, i)
        invariant View() == FirstPass(s, b, i)
      {
        PassContinues(s, b, i);
        var served := ServeClient(b, i, fails);
        if !served {
          return false;
        }
      }
      return true;
    }

    /** Second pass: queue the buffer for the canvas client. */
    method ServeCanvas(b: Buffer)
      modifies this`canvasFramesReceived
      ensures canvasFramesReceived == old(canvasFramesReceived) + Repeat(Frame(b.mem, b.canvas), Count(clients, Canvas))
    {
      var frame := Frame(b.mem, b.canvas);
      for i := 0 to |clients|
        invariant canvasFramesReceived == old(canvasFramesReceived) + Repeat(frame, Count(clients[..i], Canvas))
      {
        assert clients[..i + 1][..i] == clients[..i];
        if clients[i].kind == Canvas {
          canvasFramesReceived := canvasFramesReceived + [frame];
        }
      }
      assert clients[..|clients|] == clients;
    }

    /** `fails` holds the places of the window clients for which drawing fails. */
    method DataCallBack(buffer: Option<Buffer>, fails: set<nat>)
      modifies this
      ensures View() == Captured(old(View()), buffer, fails)
    {
      hide RawCopies, Returns, Count;
      if !started || error {
        return;
      }
      if buffer.None? || buffer.value.mem == 0 {
        return;
      }
      var b := buffer.value;
      if canvasMode && b.canvas == 0 {
        error := true;
        return;
      }
      assert canvasFramesReceived + [] == canvasFramesReceived;
      var served := ServeAll(b, fails);
      if served && canvasClientExist {
        ServeCanvas(b);
      }
    }
  }

  // ----- The first pass, client by client -----

  /** What serving one client does. */
  function ClientServed(s: Screen, b: Buffer, kind: Kind): Screen {
    s.(raw := if kind == RawData && |s.raw| < RAW_LIMIT then s.raw + [b.picture] else s.raw,
       shown := if kind == Window then s.shown + [b.picture] else s.shown,
       released := if (if kind == Window then |s.clients| == 1 else !s.canvasExists) then s.released + [b.mem]
                   else s.released)
  }

  /** What serving the first `n` clients does. */
  function FirstPass(s: Screen, b: Buffer, n: nat): Screen
    requires n <= |s.clients|
  {
    s.(raw := s.raw + Repeat(b.picture, RawCopies(s, n)),
       shown := s.shown + Repeat(b.picture, Count(s.clients[..n], Window)),
       released := s.released + Repeat(b.mem, Returns(s, n)))
  }

  lemma PassStarts(s: Screen, b: Buffer)
    ensures FirstPass(s, b, 0) == s
  {}

  lemma CountStep(clients: seq<Client>, n: nat, kind: Kind)
    requires n < |clients|
    ensures Count(clients[..n + 1], kind) == Count(clients[..n], kind) + if clients[n].kind == kind then 1 else 0
  {
    assert clients[..n + 1][..n] == clients[..n];
  }

  lemma RepeatStep<T>(s: seq<T>, x: T, n: nat)
    ensures s + Repeat(x, n) + [x] == s + Repeat(x, n + 1)
  {}

  lemma PassContinues(s: Screen, b: Buffer, n: nat)
    requires n < |s.clients|
    ensures FirstPass(s, b, n + 1) == ClientServed(FirstPass(s, b, n), b, s.clients[n].kind)
  {
    CountStep(s.clients, n, RawData);
    CountStep(s.clients, n, Canvas);
    CountStep(s.clients, n, Window);
    hide Count;
    RepeatStep(s.raw, b.picture, RawCopies(s, n));
    RepeatStep(s.shown, b.picture, Count(s.clients[..n], Window));
    RepeatStep(s.released, b.mem, Returns(s, n));
  }

  // ----- The ledger of a canvas session -----

  /** What another client asks of the manager. */
  datatype Call = ReadsNext | Frees(mem: Address) | Starts | Stops

  function Called(s: Screen, id: int, call: Call): (t: Screen)
    requires HasClient(s.clients, id)
    ensures t.clients == s.clients
  {
    match call
    case ReadsNext => Read(s, id).0
    case Frees(mem) => Freed(s, id, mem)
    case Starts => Started(s, id)
    case Stops => Stopped(s, id)
  }

  /** What a session does: the device delivers a buffer it owns, the client reads, or gives back one of the
      buffers it holds; another client joins, makes a call or leaves. */
  datatype Event =
    | Deliver(buffer: Option<Buffer>, fails: set<nat>)
    | ReadNext
    | GiveBack(index: nat)
    | Joins(kind: Kind)
    | OtherCall(client: int, call: Call)
    | Leaves(client: int)

  /** `accepted` and `delivered` are in order of time; `held` is what the client has not given back, `lost` the
      buffers for which drawing on the window failed. */
  datatype Session = Session(screen: Screen, accepted: seq<Frame>, delivered: seq<Frame>, held: seq<Frame>,
                             lost: seq<Frame>)

  function Addresses(frames: seq<Frame>): (r: seq<Address>)
    ensures |r| == |frames| && forall i :: 0 <= i < |frames| ==> r[i] == frames[i].mem
  {
    seq(|frames|, i requires 0 <= i < |frames| => frames[i].mem)
  }

  function Bag(frames: seq<Frame>): multiset<Address> {
    multiset(Addresses(frames))
  }

  /** The buffers lent to the client. */
  function Lent(x: Session): multiset<Address> {
    Bag(x.screen.frames) + Bag(x.held)
  }

  /** The buffers the device does not have. */
  function Out(x: Session): multiset<Address> {
    Lent(x) + Bag(x.lost)
  }

  predicate IsOther(clients: seq<Client>, id: int) {
    HasClient(clients, id) && KindOf(clients, id) != Canvas
  }

  /** One event. A delivery of a buffer the device does not have, a return of a buffer not held, a call by a client
      that is not in the list and a join that replaces this client do not occur. */
  function Step(x: Session, id: int, e: Event): (y: Session)
    requires HasClient(x.screen.clients, id)
    ensures HasClient(y.screen.clients, id)
  {
    match e
    case Deliver(b, fails) =>
      if b.Some? && b.value.mem in Out(x) then x
      else
        var y := x.(screen := Captured(x.screen, b, fails));
        if !Accepts(x.screen, b) then y
        else
          var f := Frame(b.value.mem, b.value.canvas);
          if Served(x.screen.clients, fails) == |x.screen.clients| then y.(accepted := x.accepted + [f])
          else y.(lost := x.lost + [f])
    case ReadNext =>
      var (s, d) := Read(x.screen, id);
      if d.CanvasFrame? then x.(screen := s, delivered := x.delivered + [d.frame], held := x.held + [d.frame])
      else x.(screen := s)
    case GiveBack(i) =>
      if i >= |x.held| then x
      else x.(screen := Freed(x.screen, id, x.held[i].mem), held := x.held[..i] + x.held[i + 1..])
    case Joins(kind) =>
      if NewId(x.screen.clients) == id then x
      else
        JoinedHas(x.screen.clients, kind, id);
        x.(screen := x.screen.(clients := Joined(x.screen.clients, kind).0))
    case OtherCall(j, call) =>
      if IsOther(x.screen.clients, j) then x.(screen := Called(x.screen, j, call)) else x
    case Leaves(j) =>
      if IsOther(x.screen.clients, j) && j != id then
        RemovedHas(x.screen.clients, j, id);
        x.(screen := x.screen.(clients := Removed(x.screen.clients, j)))
      else x
  }

  function Run(s: Screen, id: int, events: seq<Event>): (x: Session)
    requires HasClient(s.clients, id)
    ensures HasClient(x.screen.clients, id)
  {
    if events == [] then Session(s, [], [], [], [])
    else Step(Run(s, id, events[..|events| - 1]), id, events[|events| - 1])
  }

  /** A list as joins and leaves make it, with the canvas client in it. */
  ghost predicate CanvasListed(clients: seq<Client>, id: int) {
    Listed(clients) && HasClient(clients, id) && KindOf(clients, id) == Canvas
  }

  lemma OneCanvas(clients: seq<Client>, id: int)
    requires CanvasListed(clients, id)
    ensures Count(clients, Canvas) == 1
  {
    KindIsListed(clients, id);
    CanvasIsAlone(clients);
  }

  /** A canvas client just started: nothing queued, nothing released yet. */
  ghost predicate Fresh(s: Screen, id: int) {
    && CanvasListed(s.clients, id)
    && s.started && s.canvasExists && s.frames == [] && s.released == [] && |s.raw| <= RAW_LIMIT
  }

  ghost predicate NoneTwice(m: multiset<Address>) {
    forall a :: m[a] <= 1
  }

  ghost predicate Ledger(x: Session, id: int) {
    && CanvasListed(x.screen.clients, id) && x.screen.started && x.screen.canvasExists
    && x.accepted == x.delivered + x.screen.frames
    && Bag(x.delivered) == Bag(x.held) + multiset(x.screen.released)
    && NoneTwice(Out(x))
    && |x.screen.raw| <= RAW_LIMIT
  }

  lemma BagAppend(a: seq<Frame>, b: seq<Frame>)
    ensures Bag(a + b) == Bag(a) + Bag(b)
  {
    assert Addresses(a + b) == Addresses(a) + Addresses(b);
  }

  lemma BagOne(f: Frame)
    ensures Bag([f]) == multiset{f.mem}
  {
    assert Addresses([f]) == [f.mem];
  }

  lemma OneMore(m: multiset<Address>, a: Address)
    ensures NoneTwice(m + multiset{a}) <==> NoneTwice(m) && a !in m
  {
    assert (m + multiset{a})[a] == m[a] + 1;
    if NoneTwice(m) && a !in m {
      forall b ensures (m + multiset{a})[b] <= 1 {
        assert (m + multiset{a})[b] == m[b] + multiset{a}[b];
      }
    }
    if NoneTwice(m + multiset{a}) {
      forall b ensures m[b] <= 1 {
        assert (m + multiset{a})[b] == m[b] + multiset{a}[b];
      }
    }
  }

  /** As long as a canvas client is started, the first pass gives nothing back. */
  lemma NothingReturned(s: Screen, id: int, n: nat)
    requires CanvasListed(s.clients, id) && s.canvasExists && n <= |s.clients|
    ensures Returns(s, n) == 0
  {
    if |s.clients| == 1 && n == 1 {
      assert s.clients[0].id == id;
      CountStep(s.clients, 0, Window);
    }
  }

  /** A buffer joins the queue, or is lost when drawing on the window fails. */
  lemma DeliverMoves(x: Session, id: int, b: Buffer, fails: set<nat>)
    requires Ledger(x, id) && Accepts(x.screen, Some(b)) && b.mem !in Out(x)
    ensures var y := Step(x, id, Deliver(Some(b), fails));
            var f := Frame(b.mem, b.canvas);
            && y.screen.released == x.screen.released && |y.screen.raw| <= RAW_LIMIT
            && y.screen.clients == x.screen.clients && y.screen.canvasExists && y.screen.started
            && y.delivered == x.delivered && y.held == x.held
            && if Served(x.screen.clients, fails) == |x.screen.clients|
               then y.screen.frames == x.screen.frames + [f] && y.accepted == x.accepted + [f] && y.lost == x.lost
               else y.screen.frames == x.screen.frames && y.accepted == x.accepted && y.lost == x.lost + [f]
  {
    hide Count;
    OneCanvas(x.screen.clients, id);
    NothingReturned(x.screen, id, Served(x.screen.clients, fails));
    assert Repeat(Frame(b.mem, b.canvas), 1) == [Frame(b.mem, b.canvas)];
    assert x.screen.released + Repeat(b.mem, 0) == x.screen.released;
    assert x.screen.frames + [] == x.screen.frames;
  }

  /** Either way, one more buffer is out. */
  lemma DeliverLends(x: Session, y: Session, f: Frame)
    requires y.held == x.held
    requires (y.screen.frames == x.screen.frames + [f] && y.lost == x.lost)
             || (y.screen.frames == x.screen.frames && y.lost == x.lost + [f])
    ensures Out(y) == Out(x) + multiset{f.mem}
  {
    BagAppend(x.screen.frames, [f]);
    BagAppend(x.lost, [f]);
    BagOne(f);
  }

  lemma DeliverKeepsLedger(x: Session, id: int, b: Option<Buffer>, fails: set<nat>)
    requires Ledger(x, id)
    ensures Ledger(Step(x, id, Deliver(b, fails)), id)
  {
    if Accepts(x.screen, b) && b.value.mem !in Out(x) {
      var f := Frame(b.value.mem, b.value.canvas);
      DeliverMoves(x, id, b.value, fails);
      hide Captured, Out, CanvasListed, Served;
      var y := Step(x, id, Deliver(b, fails));
      DeliverLends(x, y, f);
      OneMore(Out(x), f.mem);
      assert x.delivered + (x.screen.frames + [f]) == x.accepted + [f];
    }
  }

  /** The head of the queue moves to the client. */
  lemma ReadMoves(x: Session, id: int)
    requires Ledger(x, id) && x.screen.frames != []
    ensures var y := Step(x, id, ReadNext);
            var f := x.screen.frames[0];
            && y == x.(screen := x.screen.(frames := x.screen.frames[1..]), delivered := x.delivered + [f],
                       held := x.held + [f])
            && Lent(y) == Lent(x) && Bag(y.delivered) == Bag(y.held) + multiset(y.screen.released)
  {
    var frames := x.screen.frames;
    var f := frames[0];
    BagOne(f);
    assert Bag(frames) == multiset{f.mem} + Bag(frames[1..]) by {
      assert frames == [f] + frames[1..];
      BagAppend([f], frames[1..]);
    }
    BagAppend(x.delivered, [f]);
    BagAppend(x.held, [f]);
  }

  lemma ReadKeepsLedger(x: Session, id: int)
    requires Ledger(x, id)
    ensures Ledger(Step(x, id, ReadNext), id)
  {
    var frames := x.screen.frames;
    if frames != [] {
      ReadMoves(x, id);
      assert x.delivered + frames == x.delivered + [frames[0]] + frames[1..];
    }
  }

  /** A buffer given back leaves the client for the device. */
  lemma GiveBackMoves(x: Session, id: int, i: nat)
    requires Ledger(x, id) && i < |x.held|
    ensures var y := Step(x, id, GiveBack(i));
            var f := x.held[i];
            && y.screen == x.screen.(released := x.screen.released + [f.mem])
            && Bag(x.held) == Bag(y.held) + multiset{f.mem}
            && Lent(x) == Lent(y) + multiset{f.mem}
  {
    var a, b, f := x.held[..i], x.held[i + 1..], x.held[i];
    assert x.held == a + ([f] + b);
    BagAppend(a, [f] + b);
    BagAppend([f], b);
    BagAppend(a, b);
    BagOne(f);
  }

  lemma GiveBackKeepsLedger(x: Session, id: int, i: nat)
    requires Ledger(x, id)
    ensures Ledger(Step(x, id, GiveBack(i)), id)
  {
    if i < |x.held| {
      GiveBackMoves(x, id, i);
      var y := Step(x, id, GiveBack(i));
      assert Out(x) == Out(y) + multiset{x.held[i].mem};
      OneMore(Out(y), x.held[i].mem);
    }
  }

  /** Another client is not the only one, so its calls touch the raw queue only. */
  lemma OtherCallTouchesRaw(x: Session, id: int, j: int, call: Call)
    requires Ledger(x, id)
    ensures var y := Step(x, id, OtherCall(j, call));
            y == x.(screen := x.screen.(raw := y.screen.raw)) && |y.screen.raw| <= |x.screen.raw|
  {
    var clients := x.screen.clients;
    if |clients| == 1 && HasClient(clients, j) {
      assert clients[0].id == id && clients[0].id == j;
    }
  }

  lemma JoinKeepsLedger(x: Session, id: int, kind: Kind)
    requires Ledger(x, id)
    ensures Ledger(Step(x, id, Joins(kind)), id)
  {
    hide Bag, Listed;
    var clients := x.screen.clients;
    if NewId(clients) != id {
      ChangeKeepsListed(clients, Join(kind));
      JoinedHas(clients, kind, id);
    }
  }

  lemma LeaveKeepsLedger(x: Session, id: int, j: int)
    requires Ledger(x, id)
    ensures Ledger(Step(x, id, Leaves(j)), id)
  {
    hide Bag, Listed;
    var clients := x.screen.clients;
    if IsOther(clients, j) && j != id {
      ChangeKeepsListed(clients, Leave(j));
      RemovedHas(clients, j, id);
    }
  }

  lemma StepKeepsLedger(x: Session, id: int, e: Event)
    requires Ledger(x, id)
    ensures Ledger(Step(x, id, e), id)
  {
    match e {
      case Deliver(b, fails) => DeliverKeepsLedger(x, id, b, fails);
      case ReadNext => ReadKeepsLedger(x, id);
      case GiveBack(i) => GiveBackKeepsLedger(x, id, i);
      case Joins(kind) => JoinKeepsLedger(x, id, kind);
      case OtherCall(j, call) => OtherCallTouchesRaw(x, id, j, call);
      case Leaves(j) => LeaveKeepsLedger(x, id, j);
    }
  }

  lemma {:induction false} RunKeepsLedger(s: Screen, id: int, events: seq<Event>)
    requires Fresh(s, id)
    ensures Ledger(Run(s, id, events), id)
  {
    if events != [] {
      hide Ledger, Step;
      var n := |events| - 1;
      RunKeepsLedger(s, id, events[..n]);
      StepKeepsLedger(Run(s, id, events[..n]), id, events[n]);
    } else {
      FreshHasLedger(s, id);
    }
  }

  lemma FreshHasLedger(s: Screen, id: int)
    requires Fresh(s, id)
    ensures Ledger(Session(s, [], [], [], []), id)
  {}

  /** Over every session: each accepted buffer is queued, held by the client or released, and only one of
      these; delivery is in order of arrival; the raw queue is bounded. */
  lemma SessionLedger(s: Screen, id: int, events: seq<Event>)
    requires Fresh(s, id)
    ensures var x := Run(s, id, events);
            && Bag(x.accepted) == Bag(x.screen.frames) + Bag(x.held) + multiset(x.screen.released)
            && x.delivered <= x.accepted && x.screen.frames == x.accepted[|x.delivered|..]
            && NoneTwice(Bag(x.screen.frames) + Bag(x.held) + Bag(x.lost))
            && |x.screen.raw| <= RAW_LIMIT
  {
    RunKeepsLedger(s, id, events);
    LedgerAddsUp(Run(s, id, events), id);
  }

  lemma LedgerAddsUp(x: Session, id: int)
    requires Ledger(x, id)
    ensures Bag(x.accepted) == Bag(x.screen.frames) + Bag(x.held) + multiset(x.screen.released)
    ensures x.delivered <= x.accepted && x.screen.frames == x.accepted[|x.delivered|..]
    ensures NoneTwice(Bag(x.screen.frames) + Bag(x.held) + Bag(x.lost)) && |x.screen.raw| <= RAW_LIMIT
  {
    BagAppend(x.delivered, x.screen.frames);
  }

  /** A buffer is lost exactly if it passes the guards while drawing on the window fails for some client. */
  lemma LostIff(s: Screen, id: int, events: seq<Event>, b: Buffer, fails: set<nat>)
    requires Fresh(s, id)
    ensures var x := Run(s, id, events);
            var y := Step(x, id, Deliver(Some(b), fails));
            && (y.lost != x.lost
                <==> Accepts(x.screen, Some(b)) && b.mem !in Out(x)
                     && exists i :: 0 <= i < |x.screen.clients| && x.screen.clients[i].kind == Window && i in fails)
            && (y.lost == x.lost && Accepts(x.screen, Some(b)) && b.mem !in Out(x)
                ==> y.screen.frames == x.screen.frames + [Frame(b.mem, b.canvas)])
  {
    RunKeepsLedger(s, id, events);
    var x := Run(s, id, events);
    ServedAllIff(x.screen.clients, fails, 0);
    if Accepts(x.screen, Some(b)) && b.mem !in Out(x) {
      DeliverMoves(x, id, b, fails);
    }
  }

  lemma {:induction false} ServedAllIff(clients: seq<Client>, fails: set<nat>, i: nat)
    requires i <= |clients|
    ensures ServedFrom(clients, fails, i) == |clients|
            <==> forall k: nat :: i <= k < |clients| && clients[k].kind == Window ==> k !in fails
    decreases |clients| - i
  {
    if i < |clients| {
      ServedAllIff(clients, fails, i + 1);
    }
  }

  /** No buffer is released that the device already has: what is released was lent until then, and no more. */
  lemma ReleasedOnce(s: Screen, id: int, events: seq<Event>, e: Event)
    requires Fresh(s, id)
    ensures var x := Run(s, id, events);
            var y := Step(x, id, e);
            y.screen.released == x.screen.released
            || exists a | a in Out(x) && a !in Out(y) :: y.screen.released == x.screen.released + [a]
  {
    RunKeepsLedger(s, id, events);
    hide Fresh, Ledger, Step, Out, Run;
    StepReleasesOnce(Run(s, id, events), id, e);
  }

  lemma StepReleasesOnce(x: Session, id: int, e: Event)
    requires Ledger(x, id)
    ensures var y := Step(x, id, e);
            y.screen.released == x.screen.released
            || exists a | a in Out(x) && a !in Out(y) :: y.screen.released == x.screen.released + [a]
  {
    match e {
      case GiveBack(i) =>
        if i < |x.held| {
          GiveBackReleases(x, id, i);
        }
      case Deliver(b, fails) =>
        if Accepts(x.screen, b) && b.value.mem !in Out(x) {
          DeliverMoves(x, id, b.value, fails);
        }
      case OtherCall(j, call) => OtherCallTouchesRaw(x, id, j, call);
      case _ =>
    }
  }

  lemma GiveBackReleases(x: Session, id: int, i: nat)
    requires Ledger(x, id) && i < |x.held|
    ensures var y := Step(x, id, GiveBack(i));
            var a := x.held[i].mem;
            a in Out(x) && a !in Out(y) && y.screen.released == x.screen.released + [a]
  {
    GiveBackMoves(x, id, i);
    hide Lent;
    var y := Step(x, id, GiveBack(i));
    assert Out(x) == Out(y) + multiset{x.held[i].mem};
    OneMore(Out(y), x.held[i].mem);
  }

  // ----- Outside such a session -----

  /** After a stop, the queue is kept and every buffer lent out can still be given back. */
  ghost predicate StopKeeps(x: Session, id: int)
    requires HasClient(x.screen.clients, id)
  {
    var t := Stopped(x.screen, id);
    && t.frames == x.screen.frames
    && forall a :: a in Lent(x) ==> Freed(t, id, a).released == t.released + [a]
  }

  /** That is so, after every session, if and only if there is another client or nothing is lent out. */
  lemma StopKeepsIff(s: Screen, id: int, events: seq<Event>)
    requires Fresh(s, id)
    ensures var x := Run(s, id, events);
            StopKeeps(x, id) <==> |x.screen.clients| > 1 || Lent(x) == multiset{}
  {
    RunKeepsLedger(s, id, events);
    hide Fresh, Ledger, StopKeeps, Lent, Run;
    StopKeepsHere(Run(s, id, events), id);
  }

  lemma StopKeepsHere(x: Session, id: int)
    requires Ledger(x, id)
    ensures StopKeeps(x, id) <==> |x.screen.clients| > 1 || Lent(x) == multiset{}
  {
    if |x.screen.clients| == 1 {
      assert Lent(x) != multiset{} ==> exists a :: a in Lent(x);
      assert |Bag(x.screen.frames)| == |x.screen.frames|;
    }
  }

  /** Without another client, queued buffers are dropped and buffers freed afterwards are not released. */
  lemma StopForfeits(s: Screen, id: int, events: seq<Event>, mem: Address)
    requires Fresh(s, id) && |Run(s, id, events).screen.clients| == 1
    ensures var x := Run(s, id, events);
            var t := Stopped(x.screen, id);
            && t.frames == [] && t.released == x.screen.released
            && Freed(t, id, mem) == t && Read(t, id) == (t, Nothing)
  {
    RunKeepsLedger(s, id, events);
  }
}
