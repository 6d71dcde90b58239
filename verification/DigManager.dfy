/** The data-integrity guard: it reboots a device whose /data is read-only, a bounded number of times. */
module DigManager {

  const INTERVAL_IN_BOOT := 1
  const INTERVAL_AFTER_BOOT := 60
  const CHECK_SYSTEM_COUNT := 5

  /** The value of the power-control property; it says reboot or shutdown in every case but Idle. */
  datatype Power = Idle | Reboot | RecoveryWipe | RecoveryRestore | Other

  datatype Report = DataReadOnly | DataCrash | SystemChanged

  datatype Config = Config(abUpdate: bool, dataRoCountMax: int, supportSysBak: bool)

  /** When, within a round, someone else asks for a reboot or shutdown. */
  datatype Moment = BeforeCache | BeforeData | BeforeSystem | BeforeSleep | Never

  /** What becomes of the count file when it is written: it holds the new count, it cannot be opened and stays as
      it is, or it is opened but left empty, which reads as 0. */
  datatype Store = Written | Kept | Emptied

  /** What one round of the worker finds: the boot completed, the initial mount of /data failed, /cache was
      found unusable and was formatted, /data is read-only, a system file changed, the recovery command
      can be written, the count file can be read, what writing it does, and when someone else asks for a reboot
      or shutdown. */
  datatype Round = Round(completed: bool, mountFailed: bool, cacheFormatted: bool, dataRo: bool,
                         systemChanged: bool, commandWritable: bool, countReadable: bool, countStore: Store,
                         powerDown: Moment)

  /** One boot; `count` is the content of the count file, which outlives the boot. */
  datatype Boot = Boot(count: int, completed: bool, interval: nat, checkCount: nat, power: Power, reports: seq<Report>)

  function PowerOn(count: int): Boot {
    Boot(count, false, INTERVAL_IN_BOOT, CHECK_SYSTEM_COUNT, Idle, [])
  }

  // ----- One round -----

  /** A count file that cannot be read counts as 0. */
  function CountRead(b: Boot, r: Round): int {
    if r.countReadable then b.count else 0
  }

  function CountStored(b: Boot, r: Round, count: int): int {
    match r.countStore
    case Written => count
    case Kept => b.count
    case Emptied => 0
  }

  function AfterCompletion(b: Boot, r: Round): Boot {
    if !b.completed && r.completed then
      b.(completed := true, interval := INTERVAL_AFTER_BOOT, count := CountStored(b, r, 0),
         reports := b.reports + if r.mountFailed then [DataCrash] else [])
    else b
  }

  /** The count file is on /cache. */
  function AfterCache(c: Config, b: Boot, r: Round): Boot {
    if !c.abUpdate && r.cacheFormatted && b.power.Idle? then b.(count := 0) else b
  }

  function AfterDataRo(c: Config, b: Boot, r: Round): Boot {
    if !r.dataRo || !b.power.Idle? then b
    else if b.completed then b.(reports := b.reports + [DataReadOnly])
    else
      var count := CountRead(b, r);
      if count < c.dataRoCountMax then b.(count := CountStored(b, r, count + 1), power := Reboot)
      else
        var reset := b.(count := CountStored(b, r, 0));
        if !c.abUpdate && r.commandWritable then reset.(power := RecoveryWipe) else reset
  }

  function AfterSystemCheck(c: Config, b: Boot, r: Round): Boot {
    if !c.supportSysBak then b
    else if b.checkCount != CHECK_SYSTEM_COUNT then b.(checkCount := b.checkCount + 1)
    else if !r.systemChanged || !b.power.Idle? then b.(checkCount := 1)
    else if b.completed then b.(checkCount := 1, reports := b.reports + [SystemChanged])
    else if !c.abUpdate && r.commandWritable then b.(checkCount := 1, power := RecoveryRestore)
    else b.(checkCount := 1)
  }

  /** A request by someone else, if this is its moment. */
  function AfterMoment(b: Boot, r: Round, m: Moment): Boot {
    if r.powerDown == m && b.power.Idle? then b.(power := Other) else b
  }

  function AfterRound(c: Config, b: Boot, r: Round): Boot {
    var b1 := AfterCache(c, AfterMoment(AfterCompletion(b, r), r, BeforeCache), r);
    var b2 := AfterDataRo(c, AfterMoment(b1, r, BeforeData), r);
    var b3 := AfterSystemCheck(c, AfterMoment(b2, r, BeforeSystem), r);
    AfterMoment(b3, r, BeforeSleep)
  }

  /** The worker goes on until a reboot is under way. */
  function Work(c: Config, b: Boot, rounds: seq<Round>): Boot
    decreases rounds
  {
    if rounds == [] then b
    else
      var b' := AfterRound(c, b, rounds[0]);
      if b'.power.Idle? then Work(c, b', rounds[1..]) else b'
  }

  /** Consecutive boots of one device. */
  function Boots(c: Config, count: int, boots: seq<seq<Round>>): (r: seq<Boot>)
    ensures |r| == |boots|
    decreases boots
  {
    if boots == [] then []
    else
      var b := Work(c, PowerOn(count), boots[0]);
      [b] + Boots(c, b.count, boots[1..])
  }

  // ----- The worker -----

  class Manager {
    const config: Config
    var bootCompleted: bool
    var checkInterval: nat
    var checkSystemCount: nat
    var powerctl: Power
    var reports: seq<Report>
    /** What the count file holds; an empty or missing one is taken for 0. */
    var dataRoCount: int

    ghost function View(): Boot
      reads this
    {
      Boot(dataRoCount, bootCompleted, checkInterval, checkSystemCount, powerctl, reports)
    }

    constructor (c: Config, count: int)
      ensures config == c && View() == PowerOn(count)
    {
      config, dataRoCount, bootCompleted, powerctl, reports := c, count, false, Idle, [];
      checkInterval, checkSystemCount := INTERVAL_IN_BOOT, CHECK_SYSTEM_COUNT;
    }

    predicate IsRebooting()
      reads this
    {
      !powerctl.Idle?
    }

    method CheckData(r: Round)
      modifies this`dataRoCount, this`powerctl, this`reports
      ensures View() == AfterDataRo(config, old(View()), r)
    {
      if r.dataRo {
        HandleDataRo(r);
      }
    }

    method GetDataRoCount(r: Round) returns (count: int)
      ensures count == CountRead(View(), r)
    {
      count := 0;
      if r.countReadable {
        count := dataRoCount;
      }
    }

    method SetDataRoCount(r: Round, count: int)
      modifies this`dataRoCount
      ensures dataRoCount == CountStored(old(View()), r, count)
    {
      match r.countStore {
        case Written => dataRoCount := count;
        case Kept =>
        case Emptied => dataRoCount := 0;
      }
    }

    method HandleDataRo(r: Round)
      requires r.dataRo
      modifies this`dataRoCount, this`powerctl, this`reports
      ensures View() == AfterDataRo(config, old(View()), r)
    {
      if IsRebooting() {
        return;
      }
      if !bootCompleted {
        var count := GetDataRoCount(r);
        if count < config.dataRoCountMax {
          SetDataRoCount(r, count + 1);
          powerctl := Reboot;
        } else {
          SetDataRoCount(r, 0);
          if !config.abUpdate {
            DoRebootRecovery(r, RecoveryWipe);
          }
        }
      } else {
        reports := reports + [DataReadOnly];
      }
    }

    method DoRebootRecovery(r: Round, command: Power)
      modifies this`powerctl
      ensures powerctl == if r.commandWritable then command else old(powerctl)
    {
      if !r.commandWritable {
        return;
      }
      powerctl := command;
    }

    method HandleSysChksumError(r: Round)
      modifies this`powerctl, this`reports
      ensures var b := old(View());
              View() == if !b.power.Idle? then b
                        else if b.completed then b.(reports := b.reports + [SystemChanged])
                        else if !config.abUpdate && r.commandWritable then b.(power := RecoveryRestore)
                        else b
    {
      if IsRebooting() {
        return;
      }
      if !bootCompleted {
        if !config.abUpdate {
          DoRebootRecovery(r, RecoveryRestore);
        }
      } else {
        reports := reports + [SystemChanged];
      }
    }

    method CheckBoot(r: Round)
      modifies this
      ensures View() == AfterCompletion(old(View()), r)
    {
      if !bootCompleted {
        if r.completed {
          bootCompleted := true;
          checkInterval := INTERVAL_AFTER_BOOT;
          SetDataRoCount(r, 0);
          reports := reports + if r.mountFailed then [DataCrash] else [];
        }
      }
    }

    method CheckCache(r: Round)
      modifies this`dataRoCount
      ensures View() == AfterCache(config, old(View()), r)
    {
      if !config.abUpdate {
        if r.cacheFormatted && !IsRebooting() {
          dataRoCount := 0;
        }
      }
    }

    method CheckSystem(r: Round)
      modifies this
      ensures View() == AfterSystemCheck(config, old(View()), r)
    {
      if config.supportSysBak {
        var due := checkSystemCount == CHECK_SYSTEM_COUNT;
        checkSystemCount := checkSystemCount + 1;
        if due {
          checkSystemCount := 1;
          if r.systemChanged {
            HandleSysChksumError(r);
          }
        }
      }
    }

    /** The body of the worker's loop. */
    method CheckOnce(r: Round)
      modifies this
      ensures View() == AfterRound(config, old(View()), r)
    {
      hide AfterMoment, AfterCompletion, AfterCache, AfterDataRo, AfterSystemCheck;
      CheckBoot(r);
      Outside(r, BeforeCache);
      CheckCache(r);
      Outside(r, BeforeData);
      CheckData(r);
      Outside(r, BeforeSystem);
      CheckSystem(r);
      Outside(r, BeforeSleep);
    }

    /** What others do to the power property, if this is the moment. */
    method Outside(r: Round, m: Moment)
      modifies this`powerctl
      ensures View() == AfterMoment(old(View()), r, m)
    {
      if r.powerDown == m && powerctl.Idle? {
        powerctl := Other;
      }
    }

    method WorkThread(rounds: seq<Round>)
      modifies this
      ensures View() == Work(config, old(View()), rounds)
    {
      var i := 0;
      assert rounds[0..] == rounds;
      while i < |rounds|
        invariant 0 <= i <= |rounds|
        invariant Work(config, old(View()), rounds) == Work(config, View(), rounds[i..])
      {
        assert rounds[i..][1..] == rounds[i + 1..];
        CheckOnce(rounds[i]);
        if IsRebooting() {
          return;
        }
        i := i + 1;
      }
    }
  }

  // ----- The count is bounded -----

  lemma {:induction false} WorkKeepsBound(c: Config, b: Boot, rounds: seq<Round>)
    requires 0 <= b.count <= c.dataRoCountMax
    ensures 0 <= Work(c, b, rounds).count <= c.dataRoCountMax
    decreases rounds
  {
    if rounds != [] {
      WorkKeepsBound(c, AfterRound(c, b, rounds[0]), rounds[1..]);
    }
  }

  /** Over every run of boots, whatever is observed, the stored count stays between 0 and the maximum. */
  lemma {:induction false} CountIsBounded(c: Config, count: int, boots: seq<seq<Round>>)
    requires 0 <= count <= c.dataRoCountMax
    ensures forall i :: 0 <= i < |boots| ==> 0 <= Boots(c, count, boots)[i].count <= c.dataRoCountMax
    decreases boots
  {
    if boots != [] {
      WorkKeepsBound(c, PowerOn(count), boots[0]);
      CountIsBounded(c, Work(c, PowerOn(count), boots[0]).count, boots[1..]);
    }
  }

  // ----- Boots that find /data read-only -----

  function NextCheck(c: Config, checkCount: nat): nat {
    if !c.supportSysBak then checkCount else if checkCount == CHECK_SYSTEM_COUNT then 1 else checkCount + 1
  }

  /** The boot finds /data read-only before anything else ends or completes it: no completion, no formatted
      /cache, no request by someone else before that moment, no recovery for a changed system file in an earlier
      round where the check is due. Then the count is read and stored, and with the count at its maximum the recovery
      command is writable. */
  ghost predicate Failing(c: Config, checkCount: nat, atMaximum: bool, rounds: seq<Round>)
    decreases rounds
  {
    rounds != [] &&
    var r := rounds[0];
    && !r.completed && !r.cacheFormatted
    && if r.dataRo then
         && r.powerDown !in {BeforeCache, BeforeData} && r.countReadable
         && (if atMaximum then r.commandWritable && r.countStore != Kept else r.countStore == Written)
       else
         && r.powerDown == Never
         && !(c.supportSysBak && checkCount == CHECK_SYSTEM_COUNT && r.systemChanged && r.commandWritable)
         && Failing(c, NextCheck(c, checkCount), atMaximum, rounds[1..])
  }

  /** Each of the boots fails, given the count that it finds. */
  ghost predicate FailingBoots(c: Config, count: int, boots: seq<seq<Round>>)
    decreases boots
  {
    boots == [] || (
      && Failing(c, CHECK_SYSTEM_COUNT, count >= c.dataRoCountMax, boots[0])
      && FailingBoots(c, Work(c, PowerOn(count), boots[0]).count, boots[1..]))
  }

  lemma {:induction false} FailingBoot(c: Config, b: Boot, rounds: seq<Round>)
    requires Failing(c, b.checkCount, b.count >= c.dataRoCountMax, rounds)
    requires !c.abUpdate && !b.completed && b.power.Idle?
    ensures var w := Work(c, b, rounds);
            if b.count < c.dataRoCountMax then w.power == Reboot && w.count == b.count + 1
            else w.power == RecoveryWipe && w.count == 0
    decreases rounds
  {
    if !rounds[0].dataRo {
      FailingBoot(c, AfterRound(c, b, rounds[0]), rounds[1..]);
    }
  }

  lemma MultipleSize(q: int, m: int)
    requires m > 0
    ensures q >= 1 ==> q * m >= m
    ensures q <= -1 ==> q * m <= -m
    ensures (q - 1) * m == q * m - m
  {}

  lemma {:induction false} FailingBootsCycleAt(c: Config, count: int, boots: seq<seq<Round>>, i: nat, q: int, r: int)
    requires !c.abUpdate && 0 <= count <= c.dataRoCountMax && i < |boots|
    requires FailingBoots(c, count, boots)
    requires 0 <= r <= c.dataRoCountMax && count + i == q * (c.dataRoCountMax + 1) + r
    ensures var b := Boots(c, count, boots)[i];
            if r == c.dataRoCountMax then b.power == RecoveryWipe && b.count == 0
            else b.power == Reboot && b.count == r + 1
    decreases i
  {
    hide Failing, Work;
    var max := c.dataRoCountMax;
    FailingBoot(c, PowerOn(count), boots[0]);
    if i == 0 {
      MultipleSize(q, max + 1);
    } else {
      var next := Work(c, PowerOn(count), boots[0]).count;
      assert Boots(c, count, boots)[i] == Boots(c, next, boots[1..])[i - 1];
      MultipleSize(q, max + 1);
      if count == max {
        FailingBootsCycleAt(c, next, boots[1..], i - 1, q - 1, r);
      } else {
        FailingBootsCycleAt(c, next, boots[1..], i - 1, q, r);
      }
    }
  }

  /** On a device without A/B updates, boots that keep failing ask for plain reboots, and every time the count
      has reached the maximum for a wipe instead: boot number i wipes exactly when (count + i) % (max + 1) == max. */
  lemma FailingBootsCycle(c: Config, count: int, boots: seq<seq<Round>>, i: nat)
    requires !c.abUpdate && 0 <= count <= c.dataRoCountMax && i < |boots|
    requires FailingBoots(c, count, boots)
    ensures var b := Boots(c, count, boots)[i];
            var phase := (count + i) % (c.dataRoCountMax + 1);
            if phase == c.dataRoCountMax then b.power == RecoveryWipe && b.count == 0
            else b.power == Reboot && b.count == phase + 1
  {
    hide FailingBoots, Boots;
    var m := c.dataRoCountMax + 1;
    assert count + i == ((count + i) / m) * m + (count + i) % m;
    FailingBootsCycleAt(c, count, boots, i, (count + i) / m, (count + i) % m);
  }

  /** From count 0: exactly the maximal number of plain reboots, and then one request to wipe. */
  lemma PlainRebootsThenWipe(c: Config, boots: seq<seq<Round>>)
    requires !c.abUpdate && 0 <= c.dataRoCountMax && |boots| == c.dataRoCountMax + 1
    requires FailingBoots(c, 0, boots)
    ensures forall i :: 0 <= i < |boots| ==>
              Boots(c, 0, boots)[i].power == if i < c.dataRoCountMax then Reboot else RecoveryWipe
    ensures Boots(c, 0, boots)[c.dataRoCountMax].count == 0
  {
    var max := c.dataRoCountMax;
    forall i | 0 <= i < |boots|
      ensures Boots(c, 0, boots)[i].power == (if i < max then Reboot else RecoveryWipe)
      ensures i == max ==> Boots(c, 0, boots)[i].count == 0
    {
      FailingBootsCycleAt(c, 0, boots, i, 0, i);
    }
  }

  // ----- What resets the count, and what does not -----

  /** A boot that completes leaves the count at 0, unless the count file could not be opened in the round in which
      it completed, and asks for no reboot of its own. */
  lemma {:induction false} CompletedBootResets(c: Config, b: Boot, rounds: seq<Round>)
    requires b.completed ==> b.count == 0
    requires b.power.Idle? || b.power.Other?
    requires forall i :: 0 <= i < |rounds| && rounds[i].completed ==> rounds[i].countStore != Kept
    ensures var w := Work(c, b, rounds);
            w.completed ==> w.count == 0 && (w.power.Idle? || w.power.Other?)
    decreases rounds
  {
    if rounds != [] {
      var n := AfterRound(c, b, rounds[0]);
      if n.power.Idle? {
        CompletedBootResets(c, n, rounds[1..]);
      }
    }
  }

  function PlainReboots(boots: seq<Boot>): nat {
    if boots == [] then 0 else (if boots[0].power == Reboot then 1 else 0) + PlainReboots(boots[1..])
  }

  /** How storage may fail in a run: /cache is formatted, the recovery command cannot be written, the count file
      cannot be read, cannot be opened for writing, or is left empty. */
  datatype Faults = Faults(formats: bool, commandFails: bool, readFails: bool, keeps: bool, empties: bool)

  const NO_FAULTS := Faults(false, false, false, false, false)

  predicate StorageAllows(rounds: seq<Round>, f: Faults) {
    forall i :: 0 <= i < |rounds| ==> RoundAllows(rounds[i], f)
  }

  predicate RoundAllows(r: Round, f: Faults) {
    && (r.cacheFormatted ==> f.formats) && (!r.commandWritable ==> f.commandFails)
    && (!r.countReadable ==> f.readFails) && (r.countStore == Kept ==> f.keeps)
    && (r.countStore == Emptied ==> f.empties)
  }

  predicate StorageWorks(rounds: seq<Round>) {
    StorageAllows(rounds, NO_FAULTS)
  }

  /** No boot completed, and none asked for a wipe. */
  predicate NoneEnded(boots: seq<Boot>) {
    forall b :: b in boots ==> !b.completed && b.power != RecoveryWipe
  }

  lemma {:induction false} WorkCounts(c: Config, b: Boot, rounds: seq<Round>)
    requires !c.abUpdate && StorageWorks(rounds) && !b.completed && b.power.Idle?
    ensures var w := Work(c, b, rounds);
            w.completed || w.power == RecoveryWipe || w.count == b.count + if w.power == Reboot then 1 else 0
    decreases rounds
  {
    if rounds != [] {
      var n := AfterRound(c, b, rounds[0]);
      assert StorageWorks(rounds[1..]);
      if n.power.Idle? && !n.completed {
        WorkCounts(c, n, rounds[1..]);
      } else if n.power.Idle? {
        WorkStaysCompleted(c, n, rounds[1..]);
      }
    }
  }

  lemma {:induction false} WorkStaysCompleted(c: Config, b: Boot, rounds: seq<Round>)
    requires b.completed
    ensures Work(c, b, rounds).completed
    decreases rounds
  {
    if rounds != [] {
      WorkStaysCompleted(c, AfterRound(c, b, rounds[0]), rounds[1..]);
    }
  }

  /** In any run, as long as no boot completes and no wipe is requested, every plain reboot is counted: there
      are at most as many of them as the maximum leaves room for. */
  lemma {:induction false} PlainRebootsAreCounted(c: Config, count: int, boots: seq<seq<Round>>)
    requires !c.abUpdate && 0 <= count <= c.dataRoCountMax
    requires forall k :: 0 <= k < |boots| ==> StorageWorks(boots[k])
    requires NoneEnded(Boots(c, count, boots))
    ensures PlainReboots(Boots(c, count, boots)) <= c.dataRoCountMax - count
    decreases boots
  {
    if boots != [] {
      var b := Work(c, PowerOn(count), boots[0]);
      var bs := Boots(c, count, boots);
      assert bs[0] == b && b in bs && bs[1..] == Boots(c, b.count, boots[1..]);
      WorkCounts(c, PowerOn(count), boots[0]);
      WorkKeepsBound(c, PowerOn(count), boots[0]);
      PlainRebootsAreCounted(c, b.count, boots[1..]);
    }
  }

  /** A device with A/B updates is never sent to recovery. */
  lemma {:induction false} AbNeverRecovers(c: Config, b: Boot, rounds: seq<Round>)
    requires c.abUpdate && !b.power.RecoveryWipe? && !b.power.RecoveryRestore?
    ensures var w := Work(c, b, rounds); !w.power.RecoveryWipe? && !w.power.RecoveryRestore?
    decreases rounds
  {
    if rounds != [] {
      AbNeverRecovers(c, AfterRound(c, b, rounds[0]), rounds[1..]);
    }
  }

  /** A round that finds /data read-only, with every fault there may be. */
  function StuckRound(f: Faults): Round {
    Round(false, false, f.formats, true, false, !f.commandFails, !f.readFails,
          if f.keeps then Kept else if f.empties then Emptied else Written, Never)
  }

  /** Boots of two such rounds. */
  function Stuck(n: nat, f: Faults): seq<seq<Round>> {
    if n == 0 then [] else [[StuckRound(f), StuckRound(f)]] + Stuck(n - 1, f)
  }

  /** A count from which such boots reboot: any, if it is stored, and 0 otherwise. */
  predicate Loose(c: Config, f: Faults, count: int) {
    0 <= count <= c.dataRoCountMax && (f.keeps || f.empties ==> count == 0)
  }

  lemma StuckBoot(c: Config, count: int, f: Faults)
    requires 0 < c.dataRoCountMax && (c.abUpdate || f != NO_FAULTS) && Loose(c, f, count)
    ensures var r := StuckRound(f);
            var w := Work(c, PowerOn(count), [r, r]);
            w.power == Reboot && !w.completed && Loose(c, f, w.count)
  {
    var r := StuckRound(f);
    assert [r, r][1..] == [r];
    var b := AfterRound(c, PowerOn(count), r);
    if b.power.Idle? {
      assert AfterRound(c, b, r).power == Reboot;
      assert Work(c, b, [r]) == AfterRound(c, b, r);
    }
  }

  /** With A/B updates, or with any of the faults in every boot, a device whose /data stays read-only is rebooted
      plainly without end. */
  lemma {:induction false} UnboundedOtherwise(c: Config, count: int, n: nat, f: Faults)
    requires 0 < c.dataRoCountMax && (c.abUpdate || f != NO_FAULTS) && Loose(c, f, count)
    ensures var bs := Boots(c, count, Stuck(n, f)); PlainReboots(bs) == n && NoneEnded(bs)
    decreases n
  {
    hide Work, Boots, NoneEnded, PlainReboots, StuckRound, PowerOn, Loose;
    if n == 0 {
      NoBoots(c, count);
    } else {
      var boots := Stuck(n, f);
      var b := Work(c, PowerOn(count), boots[0]);
      StuckBoot(c, count, f);
      UnboundedOtherwise(c, b.count, n - 1, f);
      assert boots[1..] == Stuck(n - 1, f);
      OneMoreBoot(c, count, boots);
    }
  }

  lemma NoBoots(c: Config, count: int)
    ensures PlainReboots(Boots(c, count, [])) == 0 && NoneEnded(Boots(c, count, []))
  {}

  lemma OneMoreBoot(c: Config, count: int, boots: seq<seq<Round>>)
    requires boots != []
    ensures var b := Work(c, PowerOn(count), boots[0]);
            var bs, rest := Boots(c, count, boots), Boots(c, b.count, boots[1..]);
            && PlainReboots(bs) == (if b.power == Reboot then 1 else 0) + PlainReboots(rest)
            && (!b.completed && b.power != RecoveryWipe && NoneEnded(rest) ==> NoneEnded(bs))
  {
    hide Work;
    var b := Work(c, PowerOn(count), boots[0]);
    var bs := Boots(c, count, boots);
    assert bs[0] == b && bs[1..] == Boots(c, b.count, boots[1..]);
  }

  lemma {:induction false} StuckIsAllowed(n: nat, f: Faults)
    ensures forall rs :: rs in Stuck(n, f) ==> StorageAllows(rs, f)
  {
    if n > 0 {
      StuckIsAllowed(n - 1, f);
    }
  }

  lemma {:induction false} NoRebootAtZero(c: Config, b: Boot, rounds: seq<Round>)
    requires c.dataRoCountMax == 0 && b.count == 0 && b.power != Reboot
    ensures var w := Work(c, b, rounds); w.count == 0 && w.power != Reboot
    decreases rounds
  {
    if rounds != [] {
      NoRebootAtZero(c, AfterRound(c, b, rounds[0]), rounds[1..]);
    }
  }

  lemma {:induction false} NoRebootsAtZero(c: Config, boots: seq<seq<Round>>)
    requires c.dataRoCountMax == 0
    ensures PlainReboots(Boots(c, 0, boots)) == 0
    decreases boots
  {
    if boots != [] {
      hide Work;
      NoRebootAtZero(c, PowerOn(0), boots[0]);
      NoRebootsAtZero(c, boots[1..]);
      assert Boots(c, 0, boots)[1..] == Boots(c, 0, boots[1..]);
    }
  }

  /** In every run in which storage fails at most in the given ways, as long as no boot completes and no wipe is
      requested, plain reboots stay within what the maximum leaves room for. */
  ghost predicate RebootsBounded(c: Config, f: Faults) {
    forall count: int, boots: seq<seq<Round>> :: WithinBound(c, count, boots, f)
  }

  ghost predicate WithinBound(c: Config, count: int, boots: seq<seq<Round>>, f: Faults) {
    0 <= count <= c.dataRoCountMax && (forall rs :: rs in boots ==> StorageAllows(rs, f))
    && NoneEnded(Boots(c, count, boots))
    ==> PlainReboots(Boots(c, count, boots)) <= c.dataRoCountMax - count
  }

  /** The exact condition of the bound: the device never reboots plainly at all, or it has no A/B updates, its
      /cache is not formatted, the recovery command can be written, and the count file can be read and written. */
  lemma RebootsBoundedIff(c: Config, f: Faults)
    requires 0 <= c.dataRoCountMax
    ensures RebootsBounded(c, f) <==> c.dataRoCountMax == 0 || (!c.abUpdate && f == NO_FAULTS)
  {
    hide Boots, NoneEnded, PlainReboots, Stuck, StorageAllows;
    if c.dataRoCountMax == 0 {
      forall count: int, boots: seq<seq<Round>> ensures WithinBound(c, count, boots, f) {
        NoRebootsAtZero(c, boots);
      }
    } else if !c.abUpdate && f == NO_FAULTS {
      forall count: int, boots: seq<seq<Round>> ensures WithinBound(c, count, boots, f) {
        if 0 <= count <= c.dataRoCountMax && (forall rs :: rs in boots ==> StorageAllows(rs, f))
           && NoneEnded(Boots(c, count, boots)) {
          PlainRebootsAreCounted(c, count, boots);
        }
      }
    } else {
      var n := c.dataRoCountMax + 1;
      UnboundedOtherwise(c, 0, n, f);
      StuckIsAllowed(n, f);
      assert !WithinBound(c, 0, Stuck(n, f), f);
    }
  }

  // ----- The system check -----

  /** A round that changes nothing but the counter of the system check. */
  predicate Quiet(r: Round) {
    !r.completed && !r.cacheFormatted && !r.dataRo && !r.systemChanged && r.powerDown == Never
  }

  /** With a backup partition, the system files are checked in the first round and in every fifth after it: in
      round number k, where the counter stands at its limit, a changed file sends the device to recovery. */
  lemma {:induction false} CheckedEveryFifth(c: Config, b: Boot, rounds: seq<Round>, changed: Round)
    requires c.supportSysBak && !c.abUpdate && !b.completed && b.power.Idle?
    requires 1 <= b.checkCount <= CHECK_SYSTEM_COUNT
    requires forall i :: 0 <= i < |rounds| ==> Quiet(rounds[i])
    requires !changed.completed && !changed.cacheFormatted && !changed.dataRo && changed.powerDown == Never
    requires changed.systemChanged && changed.commandWritable
    ensures (Work(c, b, rounds + [changed]).power == RecoveryRestore)
            <==> (b.checkCount + |rounds|) % CHECK_SYSTEM_COUNT == 0
    decreases rounds
  {
    var all := rounds + [changed];
    if rounds == [] {
      assert all == [changed] && all[1..] == [];
    } else {
      assert all[0] == rounds[0] && all[1..] == rounds[1..] + [changed];
      CheckedEveryFifth(c, AfterRound(c, b, rounds[0]), rounds[1..], changed);
    }
  }
  // ----- Reports -----

  /** What one round reports: the failed mount when the boot completes; from then on a read-only /data, and a changed
      system file where the check is due, unless a reboot is under way. */
  lemma RoundReports(c: Config, b: Boot, r: Round)
    ensures var done := b.completed || r.completed;
            AfterRound(c, b, r).reports
            == b.reports
               + (if r.completed && !b.completed && r.mountFailed then [DataCrash] else [])
               + (if done && r.dataRo && b.power.Idle? && r.powerDown !in {BeforeCache, BeforeData} then [DataReadOnly]
                  else [])
               + (if done && c.supportSysBak && b.checkCount == 5 && r.systemChanged && b.power.Idle?
                     && r.powerDown in {BeforeSleep, Never} then [SystemChanged] else [])
  {
    hide AfterCompletion, AfterDataRo, AfterSystemCheck;
    var b0 := AfterCompletion(b, r);
    CompletionReports(b, r);
    var b1 := AfterCache(c, AfterMoment(b0, r, BeforeCache), r);
    var b1' := AfterMoment(b1, r, BeforeData);
    DataReports(c, b1', r);
    var b2 := AfterMoment(AfterDataRo(c, b1', r), r, BeforeSystem);
    SystemReports(c, b2, r);
  }

  lemma CompletionReports(b: Boot, r: Round)
    ensures var n := AfterCompletion(b, r);
            && n.reports == b.reports + (if r.completed && !b.completed && r.mountFailed then [DataCrash] else [])
            && n.completed == (b.completed || r.completed) && n.power == b.power && n.checkCount == b.checkCount
  {
    assert b.reports + [] == b.reports;
  }

  lemma DataReports(c: Config, b: Boot, r: Round)
    ensures var n := AfterDataRo(c, b, r);
            && n.reports == b.reports + (if b.completed && r.dataRo && b.power.Idle? then [DataReadOnly] else [])
            && n.completed == b.completed && n.checkCount == b.checkCount && (b.completed ==> n.power == b.power)
  {
    assert b.reports + [] == b.reports;
  }

  lemma SystemReports(c: Config, b: Boot, r: Round)
    ensures var n := AfterSystemCheck(c, b, r);
            n.reports == b.reports + if b.completed && c.supportSysBak && b.checkCount == 5 && r.systemChanged
                                        && b.power.Idle? then [SystemChanged] else []
  {
    assert b.reports + [] == b.reports;
  }

  function ReadOnlyRounds(rounds: seq<Round>): nat {
    if rounds == [] then 0 else (if rounds[0].dataRo then 1 else 0) + ReadOnlyRounds(rounds[1..])
  }

  /** The rounds that find a changed system file where the check is due, with the counter at `k` to begin with. */
  function ChangedRounds(rounds: seq<Round>, k: nat): nat {
    if rounds == [] then 0
    else (if k % 5 == 0 && rounds[0].systemChanged then 1 else 0) + ChangedRounds(rounds[1..], k + 1)
  }

  lemma {:induction false} CheckCountDecides(rounds: seq<Round>, k: nat, l: nat)
    requires k % 5 == l % 5
    ensures ChangedRounds(rounds, k) == ChangedRounds(rounds, l)
  {
    if rounds != [] {
      CheckCountDecides(rounds[1..], k + 1, l + 1);
    }
  }

  /** A boot that has completed reports a read-only /data once in every round that finds it, and a changed system file
      once in every round that is due and finds one; it reports nothing else and stays on. */
  lemma {:induction false} CompletedBootReports(c: Config, b: Boot, rounds: seq<Round>)
    requires b.completed && b.power.Idle? && 1 <= b.checkCount <= 5
    requires forall r :: r in rounds ==> r.powerDown == Never
    ensures var was, w := multiset(b.reports), multiset(Work(c, b, rounds).reports);
            && w[DataReadOnly] == was[DataReadOnly] + ReadOnlyRounds(rounds)
            && w[SystemChanged]
               == was[SystemChanged] + (if c.supportSysBak then ChangedRounds(rounds, b.checkCount) else 0)
            && w[DataCrash] == was[DataCrash] && Work(c, b, rounds).power.Idle?
    decreases rounds
  {
    if rounds != [] {
      hide AfterRound;
      var r := rounds[0];
      var n := AfterRound(c, b, r);
      assert r in rounds;
      QuietReports(c, b, r);
      QuietCounter(c, b, r);
      CompletedBootReports(c, n, rounds[1..]);
      if c.supportSysBak {
        CheckCountDecides(rounds[1..], n.checkCount, b.checkCount + 1);
      }
    }
  }

  lemma QuietReports(c: Config, b: Boot, r: Round)
    requires b.completed && b.power.Idle? && 1 <= b.checkCount <= 5 && r.powerDown == Never
    ensures var was, now := multiset(b.reports), multiset(AfterRound(c, b, r).reports);
            && now[DataReadOnly] == was[DataReadOnly] + (if r.dataRo then 1 else 0)
            && now[SystemChanged]
               == was[SystemChanged] + (if c.supportSysBak && b.checkCount % 5 == 0 && r.systemChanged then 1 else 0)
            && now[DataCrash] == was[DataCrash]
  {
    hide AfterRound;
    var changed := c.supportSysBak && b.checkCount == 5 && r.systemChanged;
    QuietRound(c, b, r, changed);
    TwoAdded(b.reports, AfterRound(c, b, r).reports, r.dataRo, DataReadOnly, changed, SystemChanged);
  }

  lemma QuietRound(c: Config, b: Boot, r: Round, changed: bool)
    requires b.completed && b.power.Idle? && r.powerDown == Never
    requires changed == (c.supportSysBak && b.checkCount == 5 && r.systemChanged)
    ensures AfterRound(c, b, r).reports
            == b.reports + [] + (if r.dataRo then [DataReadOnly] else []) + (if changed then [SystemChanged] else [])
  {
    RoundReports(c, b, r);
    hide AfterRound;
  }

  lemma TwoAdded(before: seq<Report>, after: seq<Report>, p: bool, x: Report, q: bool, y: Report)
    requires x != y && after == before + [] + (if p then [x] else []) + (if q then [y] else [])
    ensures var m := multiset(after);
            && m[x] == multiset(before)[x] + (if p then 1 else 0) && m[y] == multiset(before)[y] + (if q then 1 else 0)
            && forall z :: z != x && z != y ==> m[z] == multiset(before)[z]
  {
    assert before + [] == before;
  }

  lemma QuietCounter(c: Config, b: Boot, r: Round)
    requires b.completed && b.power.Idle? && 1 <= b.checkCount <= 5 && r.powerDown == Never
    ensures var n := AfterRound(c, b, r);
            && n.completed && n.power.Idle? && 1 <= n.checkCount <= 5
            && (c.supportSysBak ==> n.checkCount % 5 == (b.checkCount + 1) % 5)
  {}

  /** Before it completes, a boot reports nothing. */
  lemma {:induction false} NothingReportedBefore(c: Config, b: Boot, rounds: seq<Round>)
    requires !b.completed && forall r :: r in rounds ==> !r.completed
    ensures Work(c, b, rounds).reports == b.reports && !Work(c, b, rounds).completed
    decreases rounds
  {
    if rounds != [] {
      assert rounds[0] in rounds;
      NothingReportedBefore(c, AfterRound(c, b, rounds[0]), rounds[1..]);
    }
  }

  /** The worker sleeps a second between its rounds, and a minute once the boot has completed. */
  lemma {:induction false} IntervalIs(c: Config, b: Boot, rounds: seq<Round>)
    requires b.interval == if b.completed then 60 else 1
    ensures var w := Work(c, b, rounds); w.interval == if w.completed then 60 else 1
    decreases rounds
  {
    if rounds != [] {
      RoundInterval(c, b, rounds[0]);
      hide AfterRound;
      IntervalIs(c, AfterRound(c, b, rounds[0]), rounds[1..]);
    }
  }

  lemma RoundInterval(c: Config, b: Boot, r: Round)
    requires b.interval == if b.completed then 60 else 1
    ensures var n := AfterRound(c, b, r); n.interval == if n.completed then 60 else 1
  {}
}
