/** The mock CAN hardware plugin: a driver that only remembers whether it is
    open. It sends nothing and receives nothing. */
module Mock {
  import opened Bits

  datatype Option<T> = None | Some(value: T)

  /** A classical CAN frame as handed to and from a hardware plugin. */
  datatype HardwareInterfaceCanFrame = HardwareInterfaceCanFrame(
    timestampUs: nat,
    identifier: nat,
    channel: nat,
    data: seq<Byte>,
    dataLength: nat,
    isExtendedFrame: bool)

  /** The calls a hardware plugin accepts. */
  datatype DriverCall =
    | Open
    | Close
    | QueryValid
    | ReadFrame
    | WriteFrame(frame: HardwareInterfaceCanFrame)

  predicate SetsFlag(call: DriverCall)
  {
    call.Open? || call.Close?
  }

  /** The validity flag after one call on a driver whose flag was `valid`:
      `open` and `close` set it, every other call leaves it alone. */
  function ValidAfterCall(valid: bool, call: DriverCall): (r: bool)
    ensures SetsFlag(call) ==> r == call.Open?
    ensures !SetsFlag(call) ==> r == valid
  {
    match call
    case Open => true
    case Close => false
    case _ => valid
  }

  /** The validity flag after a sequence of calls, first to last. Calls other
      than `open` and `close` never change it. */
  function ValidAfterCalls(valid: bool, calls: seq<DriverCall>): (r: bool)
    ensures (forall i :: 0 <= i < |calls| ==> !SetsFlag(calls[i])) ==> r == valid
  {
    if calls == [] then valid
    else ValidAfterCall(ValidAfterCalls(valid, calls[..|calls| - 1]), calls[|calls| - 1])
  }

  lemma {:induction false} ValidAfterCallsAppend(valid: bool, a: seq<DriverCall>, b: seq<DriverCall>)
    ensures ValidAfterCalls(valid, a + b) == ValidAfterCalls(ValidAfterCalls(valid, a), b)
    decreases |b|
  {
    if b == [] {
      assert a + b == a;
    } else {
      assert (a + b)[..|a + b| - 1] == a + b[..|b| - 1];
      ValidAfterCallsAppend(valid, a, b[..|b| - 1]);
    }
  }

  /** Whatever happened before, the driver is valid exactly when the last
      `open` or `close` was an `open`; in particular both are idempotent. */
  lemma LastOpenOrCloseDecides(valid: bool, before: seq<DriverCall>, call: DriverCall, after: seq<DriverCall>)
    requires SetsFlag(call)
    requires forall i :: 0 <= i < |after| ==> !SetsFlag(after[i])
    ensures ValidAfterCalls(valid, before + [call] + after) == call.Open?
  {
    ValidAfterCallsAppend(valid, before + [call], after);
    ValidAfterCallsAppend(valid, before, [call]);
    assert [call][..0] == [];
  }

  class MockCanDriver {
    /** Whether the driver is open. */
    var valid: bool

    /** `MockCanDriver::new`: a driver starts closed. */
    constructor ()
      ensures !valid
    {
      valid := false;
    }

    /** `is_valid`: reports the flag and changes nothing. */
    method IsValid() returns (r: bool)
      ensures r == valid
    {
      r := valid;
    }

    /** `close`: the driver is invalid afterwards, whatever it was before. */
    method Close()
      modifies this
      ensures !valid
      ensures valid == ValidAfterCall(old(valid), DriverCall.Close)
    {
      valid := false;
    }

    /** `open`: the driver is valid afterwards, whatever it was before. */
    method Open()
      modifies this
      ensures valid
      ensures valid == ValidAfterCall(old(valid), DriverCall.Open)
    {
      valid := true;
    }

    /** `read_frame`: there is never a frame to read; nothing changes. */
    method ReadFrame() returns (frame: Option<HardwareInterfaceCanFrame>)
      ensures frame == None
    {
      frame := None;
    }

    /** `write_frame`: every frame is accepted, valid or not, open or not;
        nothing changes. */
    method WriteFrame(canFrame: HardwareInterfaceCanFrame) returns (sent: bool)
      ensures sent
    {
      sent := true;
    }
  }
}
