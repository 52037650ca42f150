/** The acquisition state machine of application/app.c: what GPS interrupts, data interrupts and the start and stop
    commands do to the shared variables, the data socket and the open SD file. Handlers are atomic. */
module Acquisition {
  import opened Basics

  newtype byte = x: int | 0 <= x < 256

  const BRAM_SIZE: nat := 65536
  const PACKAGE_SIZE: nat := 32768

  /** One mapped buffer, as it stands when a data interrupt arrives. */
  type Block = b: seq<byte> | |b| == BRAM_SIZE witness seq(BRAM_SIZE, _ => 0)

  /** s_puiConfigBuf, 87 words of 4 bytes: what an SD file starts with. */
  type Header = h: seq<byte> | |h| == 348 witness seq(348, _ => 0)

  /** ready, flag (32 bits), total and length (64 bits) are s_ucIsReady, s_uiFlag, s_ulTotalLen and
      s_ulSampleLength; `sends` is all that went to the data socket, `file` what the open SD file holds. */
  datatype State = State(ready: bool, flag: u32, total: u64, length: u64, savePC: int, header: Header,
                         sends: seq<seq<byte>>, file: Option<seq<byte>>)

  datatype Event =
    | Gps(got: bool)
    | Data(got: bool, a: Block, b: Block)
    | Start(length: u64, savePC: int, header: Header)
    | Stop

  function Init(): State { State(false, 0, 0, 0, 0, seq(348, _ => 0), [], None) }

  /** What is left to deliver, in unsigned 64-bit arithmetic. */
  function Left(s: State): u64 { if s.total <= s.length then s.length - s.total else U64 + s.length - s.total }

  /** The sends of one data interrupt. */
  function Chunks(left: nat, blk: Block): seq<seq<byte>> {
    if left <= PACKAGE_SIZE then [blk[..left]]
    else if left <= BRAM_SIZE then [blk[..PACKAGE_SIZE], blk[PACKAGE_SIZE..left]]
    else [blk[..PACKAGE_SIZE], blk[PACKAGE_SIZE..]]
  }

  /** The SD file gets the same bytes in one write. */
  function Written(left: nat, blk: Block): seq<byte> { if left <= BRAM_SIZE then blk[..left] else blk }

  function Deliver(s: State, left: nat, blk: Block): State {
    if s.savePC == 0 then s.(file := if s.file.Some? then Some(s.file.value + Written(left, blk)) else None)
    else s.(sends := s.sends + Chunks(left, blk))
  }

  function Step(s: State, e: Event): State {
    match e
    case Gps(got) =>
      if !got then s
      else s.(ready := true, flag := 0, total := 0, file := if s.savePC == 0 then Some(s.header) else s.file)
    case Data(got, a, b) =>
      if !got || !s.ready then s
      else
        var flag := (s.flag + 1) % U32;
        var s' := Deliver(s.(flag := flag), Left(s), if flag % 2 == 1 then a else b);
        if Left(s) <= BRAM_SIZE then s'.(ready := false)
        else s'.(total := (s.total + BRAM_SIZE) % U64)
    case Start(l, pc, h) => s.(length := l, savePC := pc, header := h, flag := 0)
    case Stop => s.(ready := false, flag := 0, file := if s.savePC == 0 then None else s.file)
  }

  function Run(s: State, es: seq<Event>): State {
    if es == [] then s else Step(Run(s, es[..|es| - 1]), es[|es| - 1])
  }

  /** The handlers as they are: static variables updated in place. */
  class Board {
    var ready: bool
    var flag: u32
    var total: u64
    var length: u64
    var savePC: int
    var header: Header
    var sends: seq<seq<byte>>
    var file: Option<seq<byte>>

    function View(): State
      reads this
    {
      State(ready, flag, total, length, savePC, header, sends, file)
    }

    constructor ()
      ensures View() == Init()
    {
      ready, flag, total, length, savePC, header, sends, file := false, 0, 0, 0, 0, seq(348, _ => 0), [], None;
    }

    /** One round of MesgThread: `got` when the interrupt's read returned 1. The file can be opened. */
    method MesgThread(got: bool)
      modifies this
      ensures View() == Step(old(View()), Gps(got))
      ensures got ==> ready && flag == 0 && total == 0
    {
      if got {
        ready := true;
        flag := 0;
        total := 0;
        if savePC == 0 {
          if file.Some? {
            file := None;
          }
          file := Some([]);
          file := Some(file.value + header);
          assert [] + header == header;
        }
      }
    }

    method Send(x: seq<byte>)
      modifies this`sends
      ensures sends == old(sends) + [x]
    {
      sends := sends + [x];
    }

    method FWrite(x: seq<byte>)
      requires file.Some?
      modifies this`file
      ensures file == Some(old(file.value) + x)
    {
      file := Some(file.value + x);
    }

    /** The loop that sends a whole buffer in two packages. */
    method SendWhole(addr: Block)
      modifies this`sends
      ensures sends == old(sends) + [addr[..PACKAGE_SIZE], addr[PACKAGE_SIZE..]]
    {
      ghost var packages := [addr[..PACKAGE_SIZE], addr[PACKAGE_SIZE..]];
      var i := 0;
      while i < 2
        invariant 0 <= i <= 2
        invariant sends == old(sends) + packages[..i]
      {
        assert addr[i * PACKAGE_SIZE..(i + 1) * PACKAGE_SIZE] == packages[i];
        Send(addr[i * PACKAGE_SIZE..(i + 1) * PACKAGE_SIZE]);
        i := i + 1;
      }
      assert packages[..2] == packages;
    }

    /** DeliverData_s. Writing to the SD card needs the file the last GPS interrupt opened. */
    method DeliverData_s(got: bool, a: Block, b: Block)
      requires got && ready && savePC == 0 ==> file.Some?
      modifies this
      ensures View() == Step(old(View()), Data(got, a, b))
    {
      if got && ready {
        flag := (flag + 1) % U32;
        var addr := if flag % 2 == 1 then a else b;
        var left: u64 := if total <= length then length - total else U64 + length - total;
        if left <= PACKAGE_SIZE {
          if savePC == 0 {
            FWrite(addr[..left]);
          } else {
            Send(addr[..left]);
          }
          ready := false;
        } else if left <= BRAM_SIZE {
          if savePC == 0 {
            FWrite(addr[..left]);
          } else {
            Send(addr[..PACKAGE_SIZE]);
            Send(addr[PACKAGE_SIZE..PACKAGE_SIZE + (left - PACKAGE_SIZE)]);
            assert sends == old(sends) + Chunks(left, addr);
          }
          ready := false;
        } else {
          if savePC == 0 {
            assert addr[..BRAM_SIZE] == addr;
            FWrite(addr[..BRAM_SIZE]);
          } else {
            SendWhole(addr);
          }
          total := (total + BRAM_SIZE) % U64;
        }
      }
    }

    /** AcqStart: Configuration stores what it read, then the flag is cleared. */
    method AcqStart(sampleLength: u64, savePosition: int, config: Header)
      modifies this
      ensures View() == Step(old(View()), Start(sampleLength, savePosition, config))
      ensures flag == 0 && ready == old(ready) && total == old(total)
      ensures length == sampleLength && savePC == savePosition && header == config
    {
      savePC := savePosition;
      header := config;
      length := sampleLength;
      flag := 0;
    }

    method AcqStop()
      modifies this
      ensures View() == Step(old(View()), Stop)
      ensures !ready && flag == 0 && (savePC == 0 ==> file.None?)
    {
      ready := false;
      flag := 0;
      if savePC == 0 {
        if file.Some? {
          file := None;
        }
      }
    }
  }
}
