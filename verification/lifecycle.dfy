/**
 * The lifecycle of the PCSX2 IPC server: the `m_state` flag of `SocketIPC`, which is
 * Stopped when the object is created and is switched by `Start` and `Stop`, each of which
 * does nothing when the server is already in the state it asks for.
 */
module Lifecycle {

  /** The `State` enumeration. */
  datatype State = Started | Stopped

  class SocketIPC {
    /** `m_state`: whether the socket thread is running. */
    var state: State
    /** How many times the socket thread has been launched and cancelled. */
    ghost var launches: nat
    ghost var halts: nat

    /** The constructor: the field starts Stopped; if opening and binding the socket
        succeeded (`listening`) it ends by calling `Start`, otherwise it returns early and
        the server stays Stopped. */
    constructor (listening: bool)
      ensures state == (if listening then Started else Stopped)
      ensures launches == (if listening then 1 else 0) && halts == 0
    {
      state := Stopped;
      launches, halts := 0, 0;
      new;
      if listening {
        Start();
      }
    }

    /** `Start`: starts the socket thread; does nothing if already started. */
    method Start()
      modifies this
      ensures state == Started
      ensures old(state) == Started ==> launches == old(launches)
      ensures old(state) == Stopped ==> launches == old(launches) + 1
      ensures halts == old(halts)
    {
      if state == Stopped {
        state := Started;
        launches := launches + 1;
      }
    }

    /** `Stop`: stops the socket thread; does nothing if already stopped. */
    method Stop()
      modifies this
      ensures state == Stopped
      ensures old(state) == Stopped ==> halts == old(halts)
      ensures old(state) == Started ==> halts == old(halts) + 1
      ensures launches == old(launches)
    {
      if state == Started {
        state := Stopped;
        halts := halts + 1;
      }
    }
  }
}
