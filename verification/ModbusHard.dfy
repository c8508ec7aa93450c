/** The loops over the register table in modbus_hard.c, in place over the RAM registers
    and the non-volatile items, proved against RegisterStore. */
module ModbusHard {
  import opened CTypes
  import opened RegisterMap
  import opened RegisterStore

  /** The non-volatile memory: items by number, and the updates made so far. */
  class Memory {
    var cells: map<nat, uint16>
    var log: seq<(nat, uint16)>

    constructor (cells: map<nat, uint16>)
      ensures this.cells == cells && log == []
    {
      this.cells := cells;
      log := [];
    }

    /** user_mem_read_reg16: a missing item leaves the register as it was. */
    method ReadReg16(id: nat, reg: uint16) returns (found: bool, v: uint16)
      ensures found <==> id in cells
      ensures v == if found then cells[id] else reg
    {
      found := id in cells;
      v := if found then cells[id] else reg;
    }

    /** user_mem_update_reg16, successful. */
    method UpdateReg16(id: nat, v: uint16)
      modifies this
      ensures cells == old(cells)[id := v] && log == old(log) + [(id, v)]
    {
      cells := cells[id := v];
      log := log + [(id, v)];
    }
  }

  /** When the loops come to register i its item is still the old one. */
  lemma ItemUntouched(t: Table, cells: map<nat, uint16>, values: Ram, i: nat)
    requires i < NUM_BUF
    ensures var r := StoreRange(t, cells, values, 0, i);
      (i in r <==> i in cells) && (i in r ==> r[i] == cells[i])
  {
    StoreRangeAt(t, cells, values, 0, i);
  }

  class Registers {
    const table: Table
    const mbBufMain: array<uint16>
    const memory: Memory
    var eepSaving: bool

    constructor (table: Table, memory: Memory)
      ensures this.table == table && this.memory == memory && fresh(mbBufMain)
      ensures mbBufMain.Length == NUM_BUF && mbBufMain[..] == ResetRam()
    {
      this.table := table;
      this.memory := memory;
      eepSaving := false;
      mbBufMain := new uint16[NUM_BUF](i => if i == 0 then VERSION else 0);
    }

    function Contents(): Store
      requires mbBufMain.Length == NUM_BUF
      reads mbBufMain, memory
    {
      Store(mbBufMain[..], memory.cells)
    }

    /** mh_Buf_Init: RAM and items become those of Booted, by exactly the updates of
        BootLog, in that order. */
    method BufInit()
      requires mbBufMain.Length == NUM_BUF
      modifies mbBufMain, memory
      ensures Contents() == Booted(table, old(Contents()))
      ensures memory.log == old(memory.log) + BootLog(table, old(memory.cells), NUM_BUF)
    {
      ghost var cells, ram := memory.cells, BootRam(table, Contents());
      var i: nat := 0;
      while i < NUM_BUF
        invariant i <= NUM_BUF
        invariant memory.log == old(memory.log) + BootLog(table, cells, i)
        invariant forall j | i <= j < NUM_BUF :: mbBufMain[j] == old(mbBufMain[j])
        invariant forall j | 0 <= j < i :: mbBufMain[j] == ram[j]
        invariant memory.cells == StoreRange(table, cells, ram, 0, i)
      {
        ItemUntouched(table, cells, ram, i);
        if table[i].saved {
          BootRegister(i);
        }
        i := i + 1;
      }
    }

    /** The body of that loop for a saved register. */
    method BootRegister(i: nat)
      requires mbBufMain.Length == NUM_BUF && i < NUM_BUF
      modifies mbBufMain, memory
      ensures mbBufMain[i] == BootValue(table[i], old(memory.cells), i)
      ensures forall j | 0 <= j < NUM_BUF && j != i :: mbBufMain[j] == old(mbBufMain[j])
      ensures memory.cells == old(memory.cells)[i := mbBufMain[i]]
      ensures memory.log == old(memory.log) + BootUpdates(table[i], old(memory.cells), i)
    {
      var found, v := memory.ReadReg16(i, mbBufMain[i]);
      mbBufMain[i] := v;
      if !found {
        mbBufMain[i] := table[i].initial;
        memory.UpdateReg16(i, mbBufMain[i]);
      }
      if !LimitOk(table[i], mbBufMain[i]) {
        mbBufMain[i] := table[i].initial;
        memory.UpdateReg16(i, mbBufMain[i]);
      }
    }

    /** mh_Write_Eeprom: the saved registers of the range are stored, nothing else
        changes, and the store is free again. */
    method WriteEeprom(start: nat, count: uint8)
      requires mbBufMain.Length == NUM_BUF && start + count <= NUM_BUF
      modifies memory, this`eepSaving
      ensures Contents() == Saved(table, old(Contents()), start, count)
      ensures !eepSaving
    {
      ghost var cells, ram := memory.cells, Contents().ram;
      var i := 0;
      while i < count
        invariant 0 <= i <= count
        invariant mbBufMain[..] == ram && memory.cells == StoreRange(table, cells, ram, start, i)
      {
        var reg := i + start;
        if table[reg].saved {
          memory.UpdateReg16(reg, mbBufMain[reg]);
        }
        i := i + 1;
      }
      eepSaving := false;
    }

    /** mh_Factory: every saved register gets its default in both places. */
    method Factory()
      requires mbBufMain.Length == NUM_BUF
      modifies mbBufMain, memory
      ensures Contents() == Reset(table, old(Contents()))
    {
      ghost var ram := DefaultRam(table, mbBufMain[..]);
      var i: nat := 0;
      while i < NUM_BUF
        invariant i <= NUM_BUF
        invariant forall j | i <= j < NUM_BUF :: mbBufMain[j] == old(mbBufMain[j])
        invariant forall j | 0 <= j < i :: mbBufMain[j] == ram[j]
        invariant memory.cells == StoreRange(table, old(memory.cells), ram, 0, i)
      {
        if table[i].saved {
          mbBufMain[i] := table[i].initial;
          memory.UpdateReg16(i, mbBufMain[i]);
        }
        i := i + 1;
      }
    }
  }
}
