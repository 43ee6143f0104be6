/** The status of a task: what the intrinsics that lifted code calls record in it. */
module TaskStatus {
  import opened Options

  datatype Status = Runnable | Resumable | Error | Exited

  datatype Location =
    | NotYetStarted
    | AtJumpTarget
    | AtCallTarget
    | AtReturnTarget
    | AtError
    | AfterHyperCall
    | BeforeUnhandledHyperCall
    | AtUnsupportedInstruction
    | AtExit

  datatype FaultKind = OnRead | OnWrite | OnExecute

  datatype ValueType = Integer | FloatingPoint | Instruction

  datatype Fault = Fault(kind: FaultKind, valueType: ValueType, size: nat, address: nat)

  /** A task as a value. */
  datatype TaskState = TaskState(
    pc: nat, status: Status, statusOnResume: Status, location: Location, lastPc: nat, fault: Option<Fault>)
  {
    function Stopped(why: Status): TaskState {
      this.(status := why, statusOnResume := why)
    }

    /** Only the first fault is recorded. */
    function WithFault(fault: Fault): TaskState {
      if this.fault.None? then this.(fault := Some(fault)).Stopped(Error) else this
    }

    function AtLocation(pc: nat, location: Location): TaskState {
      var t := this.(pc := pc, location := location);
      match location
      case AtError => t.Stopped(Error)
      case BeforeUnhandledHyperCall => t.Stopped(Error)
      case AtUnsupportedInstruction => t.Stopped(Error)
      case AtExit => t.Stopped(Exited)
      case _ => t
    }

    function Paused(): TaskState {
      this.(statusOnResume := status, status := if status == Runnable then Resumable else status)
    }

    function Resumed(): TaskState {
      this.(status := statusOnResume)
    }

    /** A fault is put in place of whatever fault there is, and the saved status is left alone. */
    function NotExecutable(): TaskState {
      this.(status := Error, fault := Some(Fault(OnExecute, Instruction, 1, pc)))
    }

    /** The lifted function that was entered at `entry` has returned. */
    function Finished(entry: nat): TaskState {
      var failed := fault.Some? || location == AtError || location == BeforeUnhandledHyperCall;
      this.(lastPc := entry, status := if failed then Error else Runnable)
    }
  }

  function InitialTask(pc: nat): TaskState {
    TaskState(pc, Runnable, Runnable, NotYetStarted, 0, None)
  }
}
