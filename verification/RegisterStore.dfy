/** The configuration registers and their non-volatile copies, on values: what a boot,
    a save, a factory reset and a write request do, and what every sequence of them
    keeps. */
module RegisterStore {
  import opened CTypes
  import opened RegisterMap

  datatype Limit = NoLimit | Signed | Unsigned

  /** One row of the register table. */
  datatype Row = Row(initial: uint16, min: uint16, max: uint16, writable: bool, saved: bool, limit: Limit)

  const BLANK: Row := Row(0, 0, 0, false, false, NoLimit)

  type Table = t: seq<Row> | |t| == NUM_BUF witness seq(NUM_BUF, i => BLANK)

  type Ram = r: seq<uint16> | |r| == NUM_BUF witness seq(NUM_BUF, i => 0)

  /** The RAM registers and the stored items by register number. */
  datatype Store = Store(ram: Ram, cells: map<nat, uint16>)

  /** Limit_Check. */
  predicate LimitOk(row: Row, v: uint16) {
    match row.limit
    case NoLimit => true
    case Signed => ToInt16(row.min) <= ToInt16(v) <= ToInt16(row.max)
    case Unsigned => row.min <= v <= row.max
  }

  ghost predicate DefaultsOk(t: Table) {
    forall i | 0 <= i < NUM_BUF && t[i].saved :: LimitOk(t[i], t[i].initial)
  }

  const VERSION: uint16 := 101

  /** What reset leaves in RAM: the version number, then zeros. */
  function ResetRam(): Ram {
    seq(NUM_BUF, i => if i == 0 then VERSION else 0)
  }

  // One register at boot.

  /** The value register i holds after a boot. */
  function BootValue(row: Row, cells: map<nat, uint16>, i: nat): uint16 {
    var v := if i in cells then cells[i] else row.initial;
    if LimitOk(row, v) then v else row.initial
  }

  /** The updates a boot makes to the stored item of register i. */
  function BootUpdates(row: Row, cells: map<nat, uint16>, i: nat): seq<(nat, uint16)> {
    var v := if i in cells then cells[i] else row.initial;
    (if i in cells then [] else [(i, row.initial)])
    + (if LimitOk(row, v) then [] else [(i, row.initial)])
  }

  /** The updates of a boot for the first n registers, in order. */
  function BootLog(t: Table, cells: map<nat, uint16>, n: nat): seq<(nat, uint16)>
    requires n <= NUM_BUF
  {
    if n == 0 then []
    else BootLog(t, cells, n - 1) + (if t[n - 1].saved then BootUpdates(t[n - 1], cells, n - 1) else [])
  }

  // The operations.

  /** The stored items after updating the saved registers among start .. start + n to
      the given values. */
  function StoreRange(t: Table, cells: map<nat, uint16>, values: Ram, start: nat, n: nat): map<nat, uint16>
    requires start + n <= NUM_BUF
    decreases n, cells
  {
    if n == 0 then cells
    else StoreOne(t, StoreRange(t, cells, values, start, n - 1), values, start + n - 1)
  }

  function StoreOne(t: Table, cells: map<nat, uint16>, values: Ram, k: nat): map<nat, uint16>
    requires k < NUM_BUF
  {
    if t[k].saved then cells[k := values[k]] else cells
  }

  /** Item by item. */
  lemma {:induction false} StoreRangeAt(t: Table, cells: map<nat, uint16>, values: Ram, start: nat, n: nat)
    requires start + n <= NUM_BUF
    ensures var r := StoreRange(t, cells, values, start, n);
      && (forall k :: k in r <==> k in cells || (start <= k < start + n && t[k].saved))
      && (forall k | k in r :: r[k] == if start <= k < start + n && t[k].saved then values[k] else cells[k])
    decreases n
  {
    if n == 0 {
    } else {
      StoreRangeAt(t, cells, values, start, n - 1);
    }
  }

  function BootRam(t: Table, s: Store): Ram {
    seq(NUM_BUF, i requires 0 <= i < NUM_BUF =>
      if t[i].saved then BootValue(t[i], s.cells, i) else s.ram[i])
  }

  function DefaultRam(t: Table, ram: Ram): Ram {
    seq(NUM_BUF, i requires 0 <= i < NUM_BUF => if t[i].saved then t[i].initial else ram[i])
  }

  /** mh_Buf_Init. */
  function Booted(t: Table, s: Store): Store {
    Store(BootRam(t, s), StoreRange(t, s.cells, BootRam(t, s), 0, NUM_BUF))
  }

  /** mh_Write_Eeprom on count registers from start. */
  function Saved(t: Table, s: Store, start: nat, count: nat): Store
    requires start + count <= NUM_BUF
  {
    Store(s.ram, StoreRange(t, s.cells, s.ram, start, count))
  }

  /** mh_Factory. */
  function Reset(t: Table, s: Store): Store {
    Store(DefaultRam(t, s.ram), StoreRange(t, s.cells, DefaultRam(t, s.ram), 0, NUM_BUF))
  }

  /** Whether a write request for these registers passes its checks. */
  predicate Accepts(t: Table, start: nat, values: seq<uint16>) {
    && start + |values| <= NUM_BUF
    && forall i | start <= i < start + |values| :: t[i].writable && LimitOk(t[i], values[i - start])
  }

  /** A write request: all registers or none. */
  function Written(t: Table, s: Store, start: nat, values: seq<uint16>): Store {
    if Accepts(t, start, values)
    then Store(s.ram[..start] + values + s.ram[start + |values|..], s.cells)
    else s
  }

  /** What happens to the store.  In the last three the power fails when the loop has done
      that many registers, and comes back: the device boots from what is stored by then. */
  datatype Op =
    | Boot
    | Save(start: nat, count: nat)
    | Factory
    | Write(first: nat, values: seq<uint16>)
    | Publish(reg: nat, value: uint16)
    | CutBoot(done: nat)
    | CutSave(start: nat, count: nat, done: nat)
    | CutFactory(done: nat)

  /** The callers keep saves inside the table, and publish only measured registers. */
  predicate OpOk(t: Table, op: Op) {
    match op
    case Save(start, count) => start + count <= NUM_BUF
    case Publish(reg, _) => reg < NUM_BUF && !t[reg].saved
    case CutBoot(done) => done <= NUM_BUF
    case CutSave(start, count, done) => done <= count && start + count <= NUM_BUF
    case CutFactory(done) => done <= NUM_BUF
    case _ => true
  }

  /** The device comes up: RAM is reset, then booted from the stored items. */
  function PowerUp(t: Table, cells: map<nat, uint16>): Store {
    Booted(t, Store(ResetRam(), cells))
  }

  function Apply(t: Table, s: Store, op: Op): Store
    requires OpOk(t, op)
  {
    match op
    case Boot => PowerUp(t, s.cells)
    case Save(start, count) => Saved(t, s, start, count)
    case Factory => Reset(t, s)
    case Write(first, values) => Written(t, s, first, values)
    case Publish(reg, value) => Store(s.ram[reg := value], s.cells)
    case CutBoot(done) =>
      PowerUp(t, StoreRange(t, s.cells, BootRam(t, Store(ResetRam(), s.cells)), 0, done))
    case CutSave(start, _, done) => PowerUp(t, StoreRange(t, s.cells, s.ram, start, done))
    case CutFactory(done) => PowerUp(t, StoreRange(t, s.cells, DefaultRam(t, s.ram), 0, done))
  }

  ghost predicate OpsOk(t: Table, ops: seq<Op>) {
    forall k | 0 <= k < |ops| :: OpOk(t, ops[k])
  }

  function Run(t: Table, s: Store, ops: seq<Op>): Store
    requires OpsOk(t, ops)
  {
    if ops == [] then s
    else Apply(t, Run(t, s, ops[..|ops| - 1]), ops[|ops| - 1])
  }

  // Invariants.

  /** Every saved register has a stored item within limits. */
  ghost predicate StoredSound(t: Table, cells: map<nat, uint16>) {
    forall i: nat | i < NUM_BUF && t[i].saved :: i in cells && LimitOk(t[i], cells[i])
  }

  /** And it is within limits in RAM. */
  ghost predicate Sound(t: Table, s: Store) {
    StoredSound(t, s.cells) && forall i: nat | i < NUM_BUF && t[i].saved :: LimitOk(t[i], s.ram[i])
  }

  ghost predicate Agree(t: Table, s: Store) {
    forall i: nat | i < NUM_BUF && t[i].saved :: i in s.cells && s.cells[i] == s.ram[i]
  }

  /** A boot from any memory contents, missing or out of limits, ends sound and with RAM
      equal to the stored items; in-limit items are not changed. */
  lemma BootEstablishes(t: Table, s: Store)
    requires DefaultsOk(t)
    ensures Sound(t, Booted(t, s)) && Agree(t, Booted(t, s))
    ensures forall i: nat | i < NUM_BUF && t[i].saved && i in s.cells && LimitOk(t[i], s.cells[i]) ::
      Booted(t, s).cells[i] == s.cells[i]
    ensures forall i | i in s.cells && !(i < NUM_BUF && t[i].saved) ::
      i in Booted(t, s).cells && Booted(t, s).cells[i] == s.cells[i]
  {
    StoreRangeAt(t, s.cells, BootRam(t, s), 0, NUM_BUF);
  }

  /** What every register holds after a boot: a saved one its item, or its default if the
      item is missing or out of limits; any other one what it held before. */
  lemma BootRestores(t: Table, s: Store, i: nat)
    requires i < NUM_BUF
    ensures Booted(t, s).ram[i] ==
            if !t[i].saved then s.ram[i]
            else if i in s.cells && LimitOk(t[i], s.cells[i]) then s.cells[i]
            else t[i].initial
  {
  }

  /** The stored items after making the given updates in order. */
  function Replay(cells: map<nat, uint16>, log: seq<(nat, uint16)>): map<nat, uint16> {
    if log == [] then cells else Replay(cells, log[..|log| - 1])[log[|log| - 1].0 := log[|log| - 1].1]
  }

  lemma ReplayOne(cells: map<nat, uint16>, before: seq<(nat, uint16)>, i: nat, v: uint16)
    ensures Replay(cells, before + [(i, v)]) == Replay(cells, before)[i := v]
  {
    var log := before + [(i, v)];
    assert log[..|log| - 1] == before && log[|log| - 1] == (i, v);
  }

  /** Whether the item of register i is missing or out of limits. */
  predicate NeedsDefault(row: Row, cells: map<nat, uint16>, i: nat) {
    i !in cells || !LimitOk(row, cells[i])
  }

  lemma UpdatesExactly(row: Row, cells: map<nat, uint16>, k: nat, i: nat, v: uint16)
    ensures (i, v) in BootUpdates(row, cells, k) <==> i == k && v == row.initial && NeedsDefault(row, cells, k)
  {
  }

  lemma InConcat<T>(a: seq<T>, b: seq<T>, u: T)
    ensures u in a + b <==> u in a || u in b
  {
  }

  /** A boot updates exactly the saved registers whose items are missing or out of limits,
      every time to the default. */
  lemma {:induction false} LogExactly(t: Table, cells: map<nat, uint16>, n: nat, i: nat, v: uint16)
    requires n <= NUM_BUF
    ensures (i, v) in BootLog(t, cells, n)
            <==> i < n && t[i].saved && v == t[i].initial && NeedsDefault(t[i], cells, i)
    decreases n
  {
    if n == 0 {
    } else {
      LogExactly(t, cells, n - 1, i, v);
      if t[n - 1].saved {
        UpdatesExactly(t[n - 1], cells, n - 1, i, v);
        InConcat(BootLog(t, cells, n - 1), BootUpdates(t[n - 1], cells, n - 1), (i, v));
      }
    }
  }

  /** One update, or the same twice, after others. */
  lemma ReplaySame(cells: map<nat, uint16>, before: seq<(nat, uint16)>, i: nat, v: uint16)
    ensures Replay(cells, before + [(i, v)]) == Replay(cells, before)[i := v]
    ensures Replay(cells, before + [(i, v), (i, v)]) == Replay(cells, before)[i := v]
  {
    ReplayOne(cells, before, i, v);
    ReplayOne(cells, before + [(i, v)], i, v);
    assert before + [(i, v), (i, v)] == before + [(i, v)] + [(i, v)];
  }

  lemma UpdatesAre(row: Row, cells: map<nat, uint16>, i: nat)
    ensures var u := (i, row.initial);
      if NeedsDefault(row, cells, i)
      then
        && (BootUpdates(row, cells, i) == [u] || BootUpdates(row, cells, i) == [u, u])
        && BootValue(row, cells, i) == row.initial
      else BootUpdates(row, cells, i) == [] && BootValue(row, cells, i) == cells[i]
  {
  }

  /** The updates of one register after others. */
  lemma UpdatesReplay(row: Row, cells: map<nat, uint16>, before: seq<(nat, uint16)>, i: nat)
    requires var now := Replay(cells, before);
      (i in now <==> i in cells) && (i in now ==> now[i] == cells[i])
    ensures Replay(cells, before + BootUpdates(row, cells, i)) == Replay(cells, before)[i := BootValue(row, cells, i)]
  {
    UpdatesAre(row, cells, i);
    ReplaySame(cells, before, i, row.initial);
    if !NeedsDefault(row, cells, i) {
      var now := Replay(cells, before);
      assert before + BootUpdates(row, cells, i) == before && now[i := cells[i]] == now;
    }
  }

  /** And these updates, in order, are what takes the old items to the new ones. */
  lemma {:induction false} LogReplays(t: Table, s: Store, n: nat)
    requires n <= NUM_BUF
    ensures Replay(s.cells, BootLog(t, s.cells, n)) == StoreRange(t, s.cells, BootRam(t, s), 0, n)
    decreases n
  {
    if n == 0 {
    } else {
      var before := BootLog(t, s.cells, n - 1);
      LogReplays(t, s, n - 1);
      StoreRangeAt(t, s.cells, BootRam(t, s), 0, n - 1);
      if t[n - 1].saved {
        UpdatesReplay(t[n - 1], s.cells, before, n - 1);
      } else {
        assert BootLog(t, s.cells, n) == before;
      }
    }
  }

  /** A boot from sound stored items changes none of them, and updates none. */
  lemma SoundBootIsSilent(t: Table, s: Store)
    requires StoredSound(t, s.cells)
    ensures Booted(t, s).cells == s.cells
    ensures BootLog(t, s.cells, NUM_BUF) == []
  {
    StoreRangeAt(t, s.cells, BootRam(t, s), 0, NUM_BUF);
    SilentLog(t, s.cells, NUM_BUF);
  }

  lemma {:induction false} SilentLog(t: Table, cells: map<nat, uint16>, n: nat)
    requires StoredSound(t, cells) && n <= NUM_BUF
    ensures BootLog(t, cells, n) == []
  {
    if n == 0 {
    } else {
      SilentLog(t, cells, n - 1);
    }
  }

  /** After any part of a save or a reset the stored items are still sound. */
  lemma PartKeepsStoredSound(t: Table, cells: map<nat, uint16>, values: Ram, start: nat, n: nat)
    requires StoredSound(t, cells) && start + n <= NUM_BUF
    requires forall i: nat | i < NUM_BUF && t[i].saved :: LimitOk(t[i], values[i])
    ensures StoredSound(t, StoreRange(t, cells, values, start, n))
  {
    StoreRangeAt(t, cells, values, start, n);
  }

  /** Storing a part first makes no difference to storing the whole. */
  lemma StoreAgain(t: Table, cells: map<nat, uint16>, values: Ram, done: nat, n: nat)
    requires done <= n <= NUM_BUF
    ensures var part := StoreRange(t, cells, values, 0, done);
      StoreRange(t, part, values, 0, n) == StoreRange(t, cells, values, 0, n)
  {
    var part := StoreRange(t, cells, values, 0, done);
    StoreRangeAt(t, cells, values, 0, done);
    StoreRangeAt(t, cells, values, 0, n);
    StoreRangeAt(t, part, values, 0, n);
  }

  /** A register boots with the same value from its own boot value. */
  lemma BootAgain(t: Table, cells: map<nat, uint16>, ram: Ram, done: nat)
    requires done <= NUM_BUF && ram == BootRam(t, Store(ResetRam(), cells))
    ensures BootRam(t, Store(ResetRam(), StoreRange(t, cells, ram, 0, done))) == ram
  {
    StoreRangeAt(t, cells, ram, 0, done);
  }

  /** A boot that the power failure cuts short, from any memory, leaves the next one the
      same work: both end as if the first had not happened. */
  lemma CutBootIsBoot(t: Table, cells: map<nat, uint16>, done: nat)
    requires done <= NUM_BUF
    ensures PowerUp(t, StoreRange(t, cells, BootRam(t, Store(ResetRam(), cells)), 0, done)) == PowerUp(t, cells)
  {
    var ram := BootRam(t, Store(ResetRam(), cells));
    BootAgain(t, cells, ram, done);
    StoreAgain(t, cells, ram, done, NUM_BUF);
  }

  /** Every operation keeps a store sound. */
  lemma ApplyKeepsSound(t: Table, s: Store, op: Op)
    requires DefaultsOk(t) && Sound(t, s) && OpOk(t, op)
    ensures Sound(t, Apply(t, s, op))
  {
    match op
    case Save(start, count) => PartKeepsStoredSound(t, s.cells, s.ram, start, count);
    case Factory => PartKeepsStoredSound(t, s.cells, DefaultRam(t, s.ram), 0, NUM_BUF);
    case Write(_, _) =>
    case Publish(_, _) =>
    case _ => PowerUpSound(t, s, op);
  }

  lemma PowerUpSound(t: Table, s: Store, op: Op)
    requires DefaultsOk(t) && OpOk(t, op) && (op.Boot? || op.CutBoot? || op.CutSave? || op.CutFactory?)
    ensures Sound(t, Apply(t, s, op))
  {
    match op
    case Boot => BootEstablishes(t, Store(ResetRam(), s.cells));
    case CutBoot(done) =>
      CutBootIsBoot(t, s.cells, done);
      BootEstablishes(t, Store(ResetRam(), s.cells));
    case CutSave(start, _, done) => BootEstablishes(t, Store(ResetRam(), StoreRange(t, s.cells, s.ram, start, done)));
    case CutFactory(done) =>
      BootEstablishes(t, Store(ResetRam(), StoreRange(t, s.cells, DefaultRam(t, s.ram), 0, done)));
  }

  lemma {:induction false} RunKeepsSound(t: Table, s: Store, ops: seq<Op>)
    requires DefaultsOk(t) && Sound(t, s) && OpsOk(t, ops)
    ensures Sound(t, Run(t, s, ops))
    decreases |ops|
  {
    if ops == [] {
    } else {
      RunKeepsSound(t, s, ops[..|ops| - 1]);
      ApplyKeepsSound(t, Run(t, s, ops[..|ops| - 1]), ops[|ops| - 1]);
    }
  }

  // What a later boot restores.

  /** The last value a run stored for register i: the RAM value at the last save that
      got to it, the default after a factory reset that did, else what was stored before. */
  function LastStored(t: Table, s: Store, ops: seq<Op>, i: nat): uint16
    requires OpsOk(t, ops) && i in s.cells && i < NUM_BUF
    decreases |ops|
  {
    if ops == [] then s.cells[i]
    else
      var before := ops[..|ops| - 1];
      match ops[|ops| - 1]
      case Save(start, count) =>
        if start <= i < start + count then Run(t, s, before).ram[i] else LastStored(t, s, before, i)
      case Factory => t[i].initial
      case CutSave(start, _, done) =>
        if start <= i < start + done then Run(t, s, before).ram[i] else LastStored(t, s, before, i)
      case CutFactory(done) => if i < done then t[i].initial else LastStored(t, s, before, i)
      case _ => LastStored(t, s, before, i)
  }

  /** A boot from sound items leaves them alone. */
  lemma SoundPowerUp(t: Table, cells: map<nat, uint16>)
    requires StoredSound(t, cells)
    ensures PowerUp(t, cells).cells == cells
  {
    SoundBootIsSilent(t, Store(ResetRam(), cells));
  }

  /** What one operation does to the stored item of a saved register. */
  lemma ApplyStores(t: Table, s: Store, op: Op, i: nat)
    requires DefaultsOk(t) && Sound(t, s) && OpOk(t, op) && i < NUM_BUF && t[i].saved
    ensures i in Apply(t, s, op).cells
    ensures Apply(t, s, op).cells[i] ==
            match op
            case Save(start, count) => if start <= i < start + count then s.ram[i] else s.cells[i]
            case Factory => t[i].initial
            case CutSave(start, _, done) => if start <= i < start + done then s.ram[i] else s.cells[i]
            case CutFactory(done) => if i < done then t[i].initial else s.cells[i]
            case _ => s.cells[i]
  {
    match op
    case Boot => SoundPowerUp(t, s.cells);
    case Save(start, count) => StoreRangeAt(t, s.cells, s.ram, start, count);
    case Factory => StoreRangeAt(t, s.cells, DefaultRam(t, s.ram), 0, NUM_BUF);
    case CutBoot(done) =>
      CutBootIsBoot(t, s.cells, done);
      SoundPowerUp(t, s.cells);
    case CutSave(start, _, done) => PartComesBack(t, s.cells, s.ram, start, done, i);
    case CutFactory(done) => PartComesBack(t, s.cells, DefaultRam(t, s.ram), 0, done, i);
    case _ =>
  }

  lemma PartComesBack(t: Table, cells: map<nat, uint16>, values: Ram, start: nat, n: nat, i: nat)
    requires StoredSound(t, cells) && start + n <= NUM_BUF && i < NUM_BUF && t[i].saved
    requires forall i: nat | i < NUM_BUF && t[i].saved :: LimitOk(t[i], values[i])
    ensures var after := PowerUp(t, StoreRange(t, cells, values, start, n)).cells;
      i in after && after[i] == if start <= i < start + n then values[i] else cells[i]
  {
    PartKeepsStoredSound(t, cells, values, start, n);
    SoundPowerUp(t, StoreRange(t, cells, values, start, n));
    StoreRangeAt(t, cells, values, start, n);
  }

  lemma {:induction false} RunStores(t: Table, s: Store, ops: seq<Op>, i: nat)
    requires DefaultsOk(t) && Sound(t, s) && OpsOk(t, ops) && i < NUM_BUF && t[i].saved
    ensures i in Run(t, s, ops).cells && Run(t, s, ops).cells[i] == LastStored(t, s, ops, i)
    decreases |ops|
  {
    if ops == [] {
    } else {
      var before := ops[..|ops| - 1];
      RunStores(t, s, before, i);
      RunKeepsSound(t, s, before);
      ApplyStores(t, Run(t, s, before), ops[|ops| - 1], i);
    }
  }

  /** Persistence over whole runs.  Start from any memory contents and boot; then any
      sequence of write requests, saves, factory resets, measurements and further boots,
      completed or cut short by power failures; then boot again.  The last boot updates no
      stored item, every saved register comes back as last stored, and it is within its
      limits. */
  lemma Persistence(t: Table, s: Store, ops: seq<Op>, i: nat)
    requires DefaultsOk(t) && OpsOk(t, ops) && i < NUM_BUF && t[i].saved
    ensures var first := Booted(t, s);
      var end := Run(t, first, ops);
      var again := Apply(t, end, Boot);
      && i in first.cells
      && BootLog(t, end.cells, NUM_BUF) == [] && again.cells == end.cells
      && again.ram[i] == LastStored(t, first, ops, i)
      && LimitOk(t[i], again.ram[i])
  {
    var first := Booted(t, s);
    BootEstablishes(t, s);
    var end := Run(t, first, ops);
    RunKeepsSound(t, first, ops);
    RunStores(t, first, ops, i);
    SoundBootIsSilent(t, Store(ResetRam(), end.cells));
  }

  /** Whether an operation may change the stored item of register i. */
  predicate Stores(op: Op, i: nat) {
    match op
    case Save(start, count) => start <= i < start + count
    case Factory => true
    case CutSave(start, _, done) => start <= i < start + done
    case CutFactory(done) => i < done
    case _ => false
  }

  /** Boots, completed or not, write requests and measurements never do, nor do saves and
      resets that leave it out or do not get to it. */
  lemma StoresNothing(start: nat, count: nat, done: nat, values: seq<uint16>, value: uint16, i: nat)
    ensures !Stores(Boot, i) && !Stores(CutBoot(done), i)
    ensures !Stores(Write(start, values), i) && !Stores(Publish(start, value), i)
    ensures i < start || start + count <= i ==> !Stores(Save(start, count), i)
    ensures i < start || start + done <= i ==> !Stores(CutSave(start, count, done), i)
    ensures done <= i ==> !Stores(CutFactory(done), i)
  {
  }

  lemma {:induction false} LastStoredUnchanged(t: Table, s: Store, ops: seq<Op>, later: seq<Op>, i: nat)
    requires OpsOk(t, ops) && OpsOk(t, later) && i in s.cells && i < NUM_BUF
    requires forall k | 0 <= k < |later| :: !Stores(later[k], i)
    ensures OpsOk(t, ops + later) && LastStored(t, s, ops + later, i) == LastStored(t, s, ops, i)
    decreases |later|
  {
    if later == [] {
      assert ops + later == ops;
    } else {
      var n := |later| - 1;
      LastStoredUnchanged(t, s, ops, later[..n], i);
      assert (ops + later)[..|ops + later| - 1] == ops + later[..n];
      assert (ops + later)[|ops + later| - 1] == later[n] && !Stores(later[n], i);
    }
  }

  /** Round trip: a register written with an accepted value and saved comes back with
      that value at the next boot, whatever happens between that does not save it again
      or reset to factory settings. */
  lemma SavedValueComesBack(t: Table, s: Store, first: nat, values: seq<uint16>, start: nat, count: nat,
                            later: seq<Op>, i: nat)
    requires DefaultsOk(t) && Sound(t, s) && i < NUM_BUF && t[i].saved
    requires Accepts(t, first, values) && first <= i < first + |values|
    requires start + count <= NUM_BUF && start <= i < start + count
    requires OpsOk(t, later) && forall k | 0 <= k < |later| :: !Stores(later[k], i)
    ensures OpsOk(t, [Write(first, values), Save(start, count)] + later)
    ensures Apply(t, Run(t, s, [Write(first, values), Save(start, count)] + later), Boot).ram[i]
         == values[i - first]
  {
    var ops := [Write(first, values), Save(start, count)];
    assert ops[..1] == [Write(first, values)] && ops[..1][..0] == [];
    assert Run(t, s, ops[..1]) == Written(t, s, first, values);
    assert LastStored(t, s, ops, i) == values[i - first];
    LastStoredUnchanged(t, s, ops, later, i);
    RunKeepsSound(t, s, ops + later);
    RunStores(t, s, ops + later, i);
  }

  /** After a factory reset every saved register boots with its default. */
  lemma FactoryComesBack(t: Table, s: Store, i: nat)
    requires DefaultsOk(t) && Sound(t, s) && i < NUM_BUF && t[i].saved
    ensures Apply(t, Apply(t, s, Factory), Boot).ram[i] == t[i].initial
  {
    ApplyStores(t, s, Factory, i);
  }

  /** And a reset gives them, and no other register, the default in RAM and in memory. */
  lemma ResetIsLocal(t: Table, s: Store, i: nat)
    requires i < NUM_BUF
    ensures var after := Reset(t, s);
      if t[i].saved
      then after.ram[i] == t[i].initial && i in after.cells && after.cells[i] == t[i].initial
      else
        && after.ram[i] == s.ram[i]
        && (i in after.cells <==> i in s.cells) && (i in s.cells ==> after.cells[i] == s.cells[i])
  {
    StoreRangeAt(t, s.cells, DefaultRam(t, s.ram), 0, NUM_BUF);
  }

  /** A write request is all or nothing.  If every register it names exists, can be written
      and has its value within limits, they take the values and no other register changes. */
  lemma WriteAccepted(t: Table, s: Store, first: nat, values: seq<uint16>, i: nat)
    requires i < NUM_BUF && first + |values| <= NUM_BUF
    requires forall k | first <= k < first + |values| :: t[k].writable && LimitOk(t[k], values[k - first])
    ensures Written(t, s, first, values).cells == s.cells
    ensures Written(t, s, first, values).ram[i] ==
            if first <= i < first + |values| then values[i - first] else s.ram[i]
  {
    var ram := s.ram[..first] + values + s.ram[first + |values|..];
    assert Written(t, s, first, values).ram == ram;
  }

  /** If one of them does not, nothing changes. */
  lemma WriteRefused(t: Table, s: Store, first: nat, values: seq<uint16>, k: nat)
    requires first <= k < first + |values|
    requires k < NUM_BUF ==> !t[k].writable || !LimitOk(t[k], values[k - first])
    ensures Written(t, s, first, values) == s
  {
  }

  /** A save stores the RAM values of the saved registers in its range, and nothing else. */
  lemma SaveIsLocal(t: Table, s: Store, start: nat, count: nat, i: nat)
    requires start + count <= NUM_BUF
    ensures var after := Saved(t, s, start, count);
      && after.ram == s.ram
      && if start <= i < start + count && t[i].saved
         then i in after.cells && after.cells[i] == s.ram[i]
         else (i in after.cells <==> i in s.cells) && (i in s.cells ==> after.cells[i] == s.cells[i])
  {
    StoreRangeAt(t, s.cells, s.ram, start, count);
  }

  /** A measurement shows in its register and nowhere else. */
  lemma PublishIsLocal(t: Table, s: Store, reg: nat, value: uint16, i: nat)
    requires reg < NUM_BUF && !t[reg].saved && i < NUM_BUF
    ensures OpOk(t, Publish(reg, value))
    ensures Apply(t, s, Publish(reg, value)).ram[i] == if i == reg then value else s.ram[i]
    ensures Apply(t, s, Publish(reg, value)).cells == s.cells
  {
  }

  /** The runs of this module are free: boots, resets and write requests of any kind, saves
      of any range of the table, and power failures at any point of them. */
  lemma RunsAreFree(t: Table, first: nat, values: seq<uint16>, start: nat, count: nat, done: nat)
    ensures OpOk(t, Boot) && OpOk(t, Factory) && OpOk(t, Write(first, values))
    ensures start + count <= NUM_BUF ==> OpOk(t, Save(start, count))
    ensures done <= count && start + count <= NUM_BUF ==> OpOk(t, CutSave(start, count, done))
    ensures done <= NUM_BUF ==> OpOk(t, CutBoot(done)) && OpOk(t, CutFactory(done))
  {
  }
}
