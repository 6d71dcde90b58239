/** The slots of the subtitle server's clients: the slot of a client that died is given to the next one. */
module SubtitleClients {
  import opened Basics

  /** A callback object, by identity. */
  type Callback = int

  type Slots = seq<Option<Callback>>

  // ----- The steps -----

  /** The first slot without a client, or the number of slots. */
  function FirstFree(s: Slots): (i: nat)
    ensures i <= |s| && (i < |s| ==> s[i].None?) && forall j :: 0 <= j < i ==> s[j].Some?
  {
    if s == [] || s[0].None? then 0 else 1 + FirstFree(s[1..])
  }

  function Registered(s: Slots, callback: Option<Callback>): Slots {
    if callback.None? then s
    else if FirstFree(s) < |s| then s[FirstFree(s) := callback] else s + [callback]
  }

  function Died(s: Slots, cookie: nat): Slots
    requires cookie < |s|
  {
    s[cookie := None]
  }

  /** The live clients in the order of their slots. */
  function Clients(s: Slots): seq<Callback> {
    if s == [] then []
    else Clients(s[..|s| - 1]) + if s[|s| - 1].Some? then [s[|s| - 1].value] else []
  }

  /** The map under the keys 0, 1, ... */
  ghost predicate Holds(m: map<int, Option<Callback>>, s: Slots) {
    (forall k :: k in m <==> 0 <= k < |s|) && forall k :: 0 <= k < |s| ==> m[k] == s[k]
  }

  // ----- The server -----

  class Server {
    var clients: map<int, Option<Callback>>
    ghost var slots: Slots
    /** The clients notified so far. */
    var notified: seq<Callback>

    ghost predicate Valid()
      reads this
    {
      Holds(clients, slots) && |clients| == |slots|
    }

    constructor ()
      ensures Valid() && slots == [] && notified == []
    {
      clients, slots, notified := map[], [], [];
    }

    method SendEvent()
      requires Valid()
      modifies this`notified
      ensures notified == old(notified) + Clients(slots)
    {
      var clientSize := |clients|;
      for i := 0 to clientSize
        invariant notified == old(notified) + Clients(slots[..i])
      {
        assert slots[..i + 1][..i] == slots[..i];
        if clients[i].Some? {
          notified := notified + [clients[i].value];
        }
      }
      assert slots[..clientSize] == slots;
    }

    method SetCallback(callback: Option<Callback>) returns (cookie: int)
      requires Valid()
      modifies this`clients, this`slots
      ensures Valid() && slots == Registered(old(slots), callback)
      ensures callback.None? ==> cookie == -1
      ensures callback.Some? ==> 0 <= cookie < |slots| && slots[cookie] == callback && cookie == FirstFree(old(slots))
    {
      cookie := -1;
      if callback.Some? {
        var clientSize := |clients|;
        var i := 0;
        while i < clientSize
          invariant 0 <= i <= clientSize == |slots| && clients == old(clients)
          invariant forall j :: 0 <= j < i ==> slots[j].Some?
        {
          if clients[i].None? {
            cookie := i;
            clients := clients[i := callback];
            break;
          }
          i := i + 1;
        }
        FirstFreeIs(slots, i);
        if cookie < 0 {
          cookie := clientSize;
          clients := clients[clientSize := callback];
        }
        slots := Registered(slots, callback);
      }
    }

    method HandleServiceDeath(cookie: nat)
      requires Valid() && cookie < |slots| && slots[cookie].Some?
      modifies this`clients, this`slots
      ensures Valid() && slots == Died(old(slots), cookie)
    {
      clients := clients[cookie := None];
      slots := slots[cookie := None];
    }
  }

  lemma {:induction false} FirstFreeIs(s: Slots, i: nat)
    requires i <= |s| && (i < |s| ==> s[i].None?) && forall j :: 0 <= j < i ==> s[j].Some?
    ensures FirstFree(s) == i
  {
    if i > 0 {
      FirstFreeIs(s[1..], i - 1);
    }
  }

  // ----- Runs -----

  datatype Op = Register(callback: Callback) | Die(cookie: nat)

  /** A death is reported for a live cookie; other reports do not occur. */
  function Step(s: Slots, op: Op): Slots {
    match op
    case Register(c) => Registered(s, Some(c))
    case Die(k) => if k < |s| && s[k].Some? then Died(s, k) else s
  }

  function Run(ops: seq<Op>): Slots {
    if ops == [] then [] else Step(Run(ops[..|ops| - 1]), ops[|ops| - 1])
  }

  /** The greatest number of clients alive at once so far. */
  function Peak(ops: seq<Op>): nat {
    if ops == [] then 0
    else
      var before := Peak(ops[..|ops| - 1]);
      var now := |Clients(Run(ops))|;
      if now > before then now else before
  }

  lemma {:induction false} ClientsAppend(s: Slots, t: Slots)
    ensures Clients(s + t) == Clients(s) + Clients(t)
  {
    if t == [] {
      assert s + t == s;
    } else {
      var n := |t| - 1;
      ClientsAppend(s, t[..n]);
      assert (s + t)[..|s + t| - 1] == s + t[..n];
    }
  }

  /** Filling or clearing a slot adds or removes exactly its client. */
  lemma ClientsAround(s: Slots, k: nat)
    requires k < |s|
    ensures Clients(s) == Clients(s[..k]) + (if s[k].Some? then [s[k].value] else []) + Clients(s[k + 1..])
  {
    var front, rest := s[..k], s[k + 1..];
    OneSlot(s[k]);
    hide Clients;
    SlotsSplit(s, k);
    ClientsAppend(front + [s[k]], rest);
    ClientsAppend(front, [s[k]]);
  }

  lemma SlotsSplit(s: Slots, k: nat)
    requires k < |s|
    ensures s == s[..k] + [s[k]] + s[k + 1..]
  {}

  lemma OneSlot(slot: Option<Callback>)
    ensures Clients([slot]) == if slot.Some? then [slot.value] else []
  {
    assert [slot][..0] == [];
  }

  lemma {:induction false} AllAlive(s: Slots)
    requires forall j :: 0 <= j < |s| ==> s[j].Some?
    ensures |Clients(s)| == |s|
  {
    if s != [] {
      AllAlive(s[..|s| - 1]);
    }
  }

  lemma RegisterCounts(s: Slots, c: Callback)
    ensures var t := Registered(s, Some(c));
            var was := |Clients(s)|;
            |Clients(t)| == was + 1 && |t| == if was == |s| then |s| + 1 else |s|
  {
    var i := FirstFree(s);
    if i < |s| {
      ClientsAround(s, i);
      ClientsAround(s[i := Some(c)], i);
      assert s[i := Some(c)][..i] == s[..i] && s[i := Some(c)][i + 1..] == s[i + 1..];
      ClientsBounded(s[..i]);
      ClientsBounded(s[i + 1..]);
    } else {
      AllAlive(s);
      ClientsAppend(s, [Some(c)]);
      assert [Some(c)][..0] == [];
    }
  }

  lemma DeathCounts(s: Slots, k: nat)
    requires k < |s| && s[k].Some?
    ensures |Clients(Died(s, k))| == |Clients(s)| - 1
  {
    ClientsAround(s, k);
    ClientsAround(s[k := None], k);
    assert s[k := None][..k] == s[..k] && s[k := None][k + 1..] == s[k + 1..];
  }

  lemma {:induction false} ClientsBounded(s: Slots)
    ensures |Clients(s)| <= |s|
  {
    if s != [] {
      ClientsBounded(s[..|s| - 1]);
    }
  }

  /** Over every run, the number of slots is the greatest number of clients that were alive at once. */
  lemma {:induction false} SlotsArePeak(ops: seq<Op>)
    ensures |Run(ops)| == Peak(ops)
  {
    if ops != [] {
      var s := Run(ops[..|ops| - 1]);
      SlotsArePeak(ops[..|ops| - 1]);
      ClientsBounded(s);
      match ops[|ops| - 1] {
        case Register(c) => RegisterCounts(s, c);
        case Die(k) => if k < |s| && s[k].Some? { DeathCounts(s, k); }
      }
    }
  }

  /** The slot of a live client changes only when that client's death is reported; a new client gets a slot of
      its own, in which there was no live client. */
  lemma LiveSlotsAreKept(s: Slots, op: Op, k: nat)
    requires k < |s| && s[k].Some?
    ensures var t := Step(s, op);
            k < |t| && t[k] == (if op.Die? && op.cookie == k then None else s[k])
    ensures op.Register? ==>
              FirstFree(s) != k && FirstFree(s) < |Step(s, op)| && Step(s, op)[FirstFree(s)] == Some(op.callback)
  {}

  /** An event reaches a client once for every slot it is alive in. */
  lemma {:induction false} NotifiedOnce(s: Slots, c: Callback)
    ensures multiset(Clients(s))[c] == multiset(s)[Some(c)]
  {
    if s != [] {
      var n := |s| - 1;
      NotifiedOnce(s[..n], c);
      assert s == s[..n] + [s[n]];
      assert multiset(s) == multiset(s[..n]) + multiset{s[n]};
    }
  }
}
