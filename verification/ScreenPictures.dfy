/** What raw clients get: pictures in the order in which the device delivered them. */
module ScreenPictures {
  import opened Basics
  import opened ScreenClients
  import opened ScreenManager

  // ----- What one delivery and one read do -----

  /** The delivery is taken: the capture runs without error, there is a buffer, and in canvas mode it has a canvas. */
  predicate Taken(s: Screen, b: Option<Buffer>) {
    s.started && !s.error && b.Some? && b.value.mem != 0 && (s.canvasMode ==> b.value.canvas != 0)
  }

  /** The first `n` clients are served: they are all, or drawing on the window fails for the next, and for none
      earlier. */
  predicate AreServed(clients: seq<Client>, fails: set<nat>, n: nat) {
    && n <= |clients|
    && (forall i: nat :: i < n && clients[i].kind == Window ==> i !in fails)
    && (n < |clients| ==> clients[n].kind == Window && n in fails)
  }

  lemma {:induction false} ServedAre(clients: seq<Client>, fails: set<nat>, i: nat)
    requires i <= |clients| && forall j: nat :: j < i && clients[j].kind == Window ==> j !in fails
    ensures AreServed(clients, fails, ServedFrom(clients, fails, i))
    decreases |clients| - i
  {
    if i < |clients| && !(clients[i].kind == Window && i in fails) {
      ServedAre(clients, fails, i + 1);
    }
  }

  /** One entry for each raw client among the first `n`, while there is room. */
  function Entries(clients: seq<Client>, n: nat, room: int, picture: Picture): (e: seq<Picture>)
    requires n <= |clients|
    ensures forall i :: 0 <= i < |e| ==> e[i] == picture
  {
    if n == 0 then []
    else
      var before := Entries(clients, n - 1, room, picture);
      if clients[n - 1].kind == RawData && |before| < room then before + [picture] else before
  }

  lemma {:induction false} EntriesCount(clients: seq<Client>, n: nat, room: int, picture: Picture)
    requires n <= |clients|
    ensures var c := Count(clients[..n], RawData);
            |Entries(clients, n, room, picture)| == if c <= room then c else if room >= 0 then room else 0
  {
    if n > 0 {
      EntriesCount(clients, n - 1, room, picture);
      CountStep(clients, n - 1, RawData);
    }
  }

  /** A buffer that is taken is copied once for each raw client that is served, while fewer than 60 are queued. */
  lemma DeliveryQueues(s: Screen, b: Option<Buffer>, fails: set<nat>)
    ensures var t := Captured(s, b, fails);
            if Taken(s, b) then
              exists n: nat :: AreServed(s.clients, fails, n)
                               && t.raw == s.raw + Entries(s.clients, n, 60 - |s.raw|, b.value.picture)
            else t.raw == s.raw
  {
    if Taken(s, b) {
      ServedAre(s.clients, fails, 0);
      var n := Served(s.clients, fails);
      EntriesCount(s.clients, n, 60 - |s.raw|, b.value.picture);
      hide Count;
      assert Repeat(b.value.picture, RawCopies(s, n)) == Entries(s.clients, n, 60 - |s.raw|, b.value.picture);
    }
  }

  /** And it is drawn once for each window client that is served. */
  lemma DeliveryShows(s: Screen, b: Option<Buffer>, fails: set<nat>)
    ensures var t := Captured(s, b, fails);
            if Taken(s, b) then
              exists n: nat :: AreServed(s.clients, fails, n)
                               && t.shown == s.shown + Repeat(b.value.picture, Count(s.clients[..n], Window))
            else t.shown == s.shown
  {
    ServedAre(s.clients, fails, 0);
    hide Count;
    assert AreServed(s.clients, fails, Served(s.clients, fails));
  }

  /** A start runs the capture; the stop of the only client ends it and drops the canvas queue, and any other leaves
      it running; the stop of a raw client drops the raw queue. */
  lemma StartsAndStopsAre(s: Screen, id: int)
    requires HasClient(s.clients, id)
    ensures Started(s, id).started && Started(s, id).frames == s.frames && Started(s, id).raw == s.raw
    ensures var t := Stopped(s, id);
            && t.started == (s.started && |s.clients| != 1)
            && t.frames == (if s.started && |s.clients| == 1 then [] else s.frames)
            && t.raw == (if KindOf(s.clients, id) == RawData then [] else s.raw)
  {}

  /** A buffer without a canvas in canvas mode stops the capture: it and every later one is ignored. */
  lemma NoCanvasStops(s: Screen, b: Buffer, later: Option<Buffer>, fails: set<nat>, laterFails: set<nat>)
    requires s.started && !s.error && s.canvasMode && b.mem != 0 && b.canvas == 0
    ensures var t := Captured(s, Some(b), fails); t == s.(error := true) && Captured(t, later, laterFails) == t
  {}

  /** Only a started capture delivers: to a raw client the picture at the front of the queue, which is taken off. */
  lemma ReadTakesFront(s: Screen, id: int)
    requires HasClient(s.clients, id)
    ensures s.started && KindOf(s.clients, id) == RawData && s.raw != [] ==>
              Read(s, id).1 == RawPicture(s.raw[0]) && [s.raw[0]] + Read(s, id).0.raw == s.raw
    ensures !(s.started && KindOf(s.clients, id) == RawData && s.raw != []) ==>
              !Read(s, id).1.RawPicture? && Read(s, id).0.raw == s.raw
  {}

  // ----- Over all runs -----

  /** Whatever happens: a delivery, a call by a client, or a change of the client list. */
  datatype Happening =
    | Delivers(buffer: Option<Buffer>, fails: set<nat>)
    | Calls(id: int, call: Call)
    | Changes(change: Change)

  /** `accepted` are the pictures ever put into the raw queue and not dropped again by the stop of a raw client,
      `delivered` those that were read, both in order of time. */
  datatype Pictures = Pictures(screen: Screen, accepted: seq<Picture>, delivered: seq<Picture>)

  ghost predicate Happens(x: Pictures, h: Happening, y: Pictures) {
    match h
    case Delivers(b, fails) =>
      && y.screen == Captured(x.screen, b, fails) && y.delivered == x.delivered
      && if Taken(x.screen, b) then
           exists n: nat :: AreServed(x.screen.clients, fails, n)
             && y.accepted == x.accepted + Entries(x.screen.clients, n, 60 - |x.screen.raw|, b.value.picture)
         else y.accepted == x.accepted
    case Calls(id, call) =>
      if !HasClient(x.screen.clients, id) then y == x
      else
        && y.screen == Called(x.screen, id, call)
        && y.delivered == x.delivered + Got(x.screen, id, call)
        && y.accepted == if call.Stops? && KindOf(x.screen.clients, id) == RawData then x.delivered else x.accepted
    case Changes(change) => y == x.(screen := x.screen.(clients := Changed(x.screen.clients, change)))
  }

  /** The picture a call hands out, if it does. */
  function Got(s: Screen, id: int, call: Call): seq<Picture>
    requires HasClient(s.clients, id)
  {
    if call.ReadsNext? && Read(s, id).1.RawPicture? then [Read(s, id).1.picture] else []
  }

  ghost predicate IsRun(xs: seq<Pictures>, hs: seq<Happening>) {
    |xs| == |hs| + 1 && forall i :: 0 <= i < |hs| ==> Happens(xs[i], hs[i], xs[i + 1])
  }

  lemma AcceptedOnce(clients: seq<Client>, fails: set<nat>, m: nat, n: nat)
    requires AreServed(clients, fails, m) && AreServed(clients, fails, n)
    ensures m == n
  {}

  lemma HappensKeepsOrder(x: Pictures, h: Happening, y: Pictures)
    requires Happens(x, h, y) && x.delivered + x.screen.raw == x.accepted
    ensures y.delivered + y.screen.raw == y.accepted
  {
    match h {
      case Delivers(b, fails) => DeliversKeepsOrder(x, b, fails, y);
      case Calls(id, call) => CallsKeepsOrder(x, id, call, y);
      case Changes(_) =>
    }
  }

  lemma CallsKeepsOrder(x: Pictures, id: int, call: Call, y: Pictures)
    requires Happens(x, Calls(id, call), y) && x.delivered + x.screen.raw == x.accepted
    ensures y.delivered + y.screen.raw == y.accepted
  {
    if HasClient(x.screen.clients, id) {
      if call.ReadsNext? {
        ReadTakesFront(x.screen, id);
        hide Read;
        Requeued(x.delivered, Got(x.screen, id, call), y.screen.raw);
      } else {
        assert x.delivered + [] == x.delivered;
      }
    }
  }

  lemma Requeued(a: seq<Picture>, b: seq<Picture>, c: seq<Picture>)
    ensures (a + b) + c == a + (b + c) && [] + c == c
  {}

  lemma DeliversKeepsOrder(x: Pictures, b: Option<Buffer>, fails: set<nat>, y: Pictures)
    requires Happens(x, Delivers(b, fails), y) && x.delivered + x.screen.raw == x.accepted
    ensures y.delivered + y.screen.raw == y.accepted
  {
    DeliveryQueues(x.screen, b, fails);
    hide Captured;
    if Taken(x.screen, b) {
      var clients, room := x.screen.clients, 60 - |x.screen.raw|;
      var m: nat :| AreServed(clients, fails, m)
                    && y.accepted == x.accepted + Entries(clients, m, room, b.value.picture);
      var n: nat :| AreServed(clients, fails, n)
                    && y.screen.raw == x.screen.raw + Entries(clients, n, room, b.value.picture);
      AcceptedOnce(clients, fails, m, n);
      hide AreServed, Entries;
      var e := Entries(clients, n, room, b.value.picture);
      assert x.delivered + (x.screen.raw + e) == (x.delivered + x.screen.raw) + e;
    }
  }

  /** Over every run: the pictures read so far, and after them those queued, are the pictures accepted, in order. */
  lemma {:induction false} PicturesInOrder(xs: seq<Pictures>, hs: seq<Happening>, n: nat)
    requires IsRun(xs, hs) && n < |xs| && xs[0].screen.raw == xs[0].accepted && xs[0].delivered == []
    ensures xs[n].delivered + xs[n].screen.raw == xs[n].accepted
  {
    if n > 0 {
      PicturesInOrder(xs, hs, n - 1);
      HappensKeepsOrder(xs[n - 1], hs[n - 1], xs[n]);
    }
  }

  /** A run goes on whatever happens next. */
  lemma RunGoesOn(x: Pictures, h: Happening) returns (y: Pictures)
    ensures Happens(x, h, y)
  {
    match h {
      case Delivers(b, fails) =>
        y := x.(screen := Captured(x.screen, b, fails));
        if Taken(x.screen, b) {
          var n := Served(x.screen.clients, fails);
          ServedAre(x.screen.clients, fails, 0);
          y := y.(accepted := x.accepted + Entries(x.screen.clients, n, 60 - |x.screen.raw|, b.value.picture));
        }
      case Calls(id, call) =>
        y := x;
        if HasClient(x.screen.clients, id) {
          y := Pictures(Called(x.screen, id, call),
                        if call.Stops? && KindOf(x.screen.clients, id) == RawData then x.delivered else x.accepted,
                        x.delivered + Got(x.screen, id, call));
        }
      case Changes(change) => y := x.(screen := x.screen.(clients := Changed(x.screen.clients, change)));
    }
  }
}
