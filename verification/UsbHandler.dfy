/** The two branches of uart_usb_interrupt_handler in place over the shared structure,
    proved to be the Rx and Tx steps of FrameOwnership. */
module UsbHandler {
  import opened CTypes
  import opened FrameOwnership

  class MbUsb {
    var mbIndex: uint8
    var mbState: MbState
    var eepSaving: bool
    var responseSize: nat
    const buff: array<uint8>
    var queued: nat
    var txEnabled: bool

    constructor (size: nat)
      requires size >= CHUNK
      ensures fresh(buff) && buff.Length == size && Shows(Init(buff[..]))
    {
      buff := new uint8[size](_ => 0);
      mbIndex, mbState, eepSaving, responseSize, queued, txEnabled := 0, Idle, false, 0, 0, false;
    }

    /** The structure holds the shared variables of a machine state. */
    ghost predicate Shows(s: State)
      reads this, buff
    {
      && mbIndex == s.index && mbState == s.mb && eepSaving == s.eepSaving
      && responseSize == s.responseSize && buff[..] == s.buffer
      && queued == s.queue && txEnabled == s.txEnabled
    }

    /** All_Idle_Check. */
    predicate AllIdle()
      reads this
    {
      !eepSaving && mbState == Idle
    }

    /** The branch of the handler for arrived bytes. */
    method RxReady(buf: seq<uint8>, ghost s: State)
      requires |buf| <= CHUNK <= buff.Length && Shows(s)
      modifies this, buff
      ensures Shows(Next(true, s, Rx(buf)))
      ensures if old(AllIdle()) && |buf| >= 4
              then
                && mbState == Pars && mbIndex == |buf| && queued == old(queued) + 1
                && buff[..] == buf + old(buff[..])[|buf|..]
              else
                && mbState == old(mbState) && mbIndex == old(mbIndex) && queued == old(queued)
                && buff[..] == old(buff[..])
      ensures eepSaving == old(eepSaving) && responseSize == old(responseSize) && txEnabled == old(txEnabled)
    {
      if AllIdle() {
        if |buf| >= MB_FRAME_MIN {
          mbIndex := |buf|;
          mbState := Pars;
          Copy(buf);
          queued := queued + 1;
        }
      }
    }

    /** memcpy into the frame buffer. */
    method Copy(buf: seq<uint8>)
      requires |buf| <= buff.Length
      modifies buff
      ensures buff[..] == Overwrite(old(buff[..]), buf)
    {
      var i := 0;
      while i < |buf|
        invariant 0 <= i <= |buf|
        invariant forall k | 0 <= k < i :: buff[k] == buf[k]
        invariant forall k | i <= k < buff.Length :: buff[k] == old(buff[k])
      {
        buff[i] := buf[i];
        i := i + 1;
      }
      assert buff[..] == Overwrite(old(buff[..]), buf);
    }

    /** uart_fifo_fill: the driver takes as many of the bytes as it has room for. */
    method FifoFill(size: nat, room: nat) returns (filled: Bytes)
      requires size <= buff.Length
      ensures filled == buff[..if size <= room then size else room]
    {
      var wroteLen := if size <= room then size else room;
      filled := buff[..wroteLen];
    }

    /** The branch for a ready transmitter, which does not look at the count that the driver
        returns.  What the driver took is returned. */
    method TxReady(txReady: bool, room: nat, ghost s: State) returns (filled: Bytes)
      requires CHUNK <= buff.Length && Shows(s) && Inv(s)
      requires txReady ==> txEnabled
      modifies this
      ensures if txReady && s.mb == Send
              then
                && Enabled(true, s, Tx(room)) && Shows(Next(true, s, Tx(room)))
                && Next(true, s, Tx(room)).sent == s.sent + [filled]
              else Shows(s) && filled == []
      ensures if txReady && old(mbState) == Send
              then mbState == Idle && !txEnabled && filled <= buff[..responseSize]
                   && |filled| == if responseSize <= room then responseSize else room
              else mbState == old(mbState) && txEnabled == old(txEnabled) && filled == []
      ensures eepSaving == old(eepSaving) && responseSize == old(responseSize) && queued == old(queued)
    {
      filled := [];
      if txReady && mbState == Send {
        filled := FifoFill(responseSize, room);
        txEnabled := false;
        mbState := Idle;
      }
    }
  }
}
