/**
  Helpers the client supplies on the netstandard2.0 target, where the base
  library lacks them: a task-status test, byte-span search and the offset of
  a position inside a segmented read-only sequence.
 */
module NetStandard {
  import opened Wrappers
  import opened Numerics

  // Tasks

  /** The lifecycle states of a task. */
  datatype TaskStatus =
    | Created
    | WaitingForActivation
    | WaitingToRun
    | Running
    | WaitingForChildrenToComplete
    | RanToCompletion
    | Canceled
    | Faulted

  /** A task has completed once it reached one of its three final states. */
  predicate IsCompleted(s: TaskStatus) {
    s == RanToCompletion || s == Canceled || s == Faulted
  }

  /** True for a present task that has not run to completion: pending, canceled or faulted. */
  function IsNotCompletedSuccessfully(task: Option<TaskStatus>): (r: bool)
    ensures r <==> task.Some? && task.value != RanToCompletion
    ensures task.None? ==> !r
  {
    match task
    case None => false
    case Some(s) => !IsCompleted(s) || s == Canceled || s == Faulted
  }

  // Spans

  /** Scans the span front to back and stops at the first element equal to `value`. */
  method Contains(span: seq<byte>, value: byte) returns (found: bool)
    ensures found <==> exists i :: 0 <= i < |span| && span[i] == value
  {
    var i := 0;
    while i < |span|
      invariant 0 <= i <= |span|
      invariant forall j :: 0 <= j < i ==> span[j] != value
    {
      if span[i] == value {
        return true;
      }
      i := i + 1;
    }
    return false;
  }

  // Read-only sequences

  /** A segment of a multi-segment sequence; `id` is the segment object's identity. */
  datatype Segment = Segment(id: nat, memoryLength: nat, runningIndex: int)

  /** The object a position refers to: a segment, or the array or other memory backing a single-segment sequence. */
  datatype Obj = SegmentObj(segment: Segment) | OtherObj(id: nat)

  /** A position: an optional object and a signed 32-bit integer. */
  datatype Position = Position(obj: Option<Obj>, integer: int32)

  /**
    A read-only sequence: its start and end positions, and `chain`, the
    segments met when following `Next` from the start segment until `null`.
   */
  datatype ReadOnlySequence = ReadOnlySequence(start: Position, end: Position, chain: seq<Segment>)

  predicate SingleSegment(s: ReadOnlySequence) {
    s.start.obj == s.end.obj
  }

  /** The walk along `Next` from the start segment: the index of the first segment equal to `target`, if any. */
  function FindSegment(chain: seq<Segment>, target: Segment): (r: Option<nat>)
    ensures r.None? <==> target !in chain
    ensures r.Some? ==> r.value < |chain| && chain[r.value] == target && target !in chain[..r.value]
  {
    if |chain| == 0 then None
    else if chain[0] == target then Some(0)
    else
      match FindSegment(chain[1..], target)
      case None => None
      case Some(i) => Some(i + 1)
  }

  /** The exceptions `GetOffset` can raise. */
  datatype OffsetError = ArgumentOutOfRange | InvalidCast

  /**
    The position's offset from the beginning of the segment chain. A position
    with no object stands for the sequence start. A single-segment sequence
    returns the position's index unchecked; a multi-segment one rejects a
    position object that is not a segment (cast failure), then an index
    beyond the segment's memory, then a start object that is not a
    segment (cast failure) or is null (the walk finds nothing), then a segment
    the walk from the start does not reach, and otherwise adds the index to
    the segment's running index.
   */
  function GetOffset(s: ReadOnlySequence, p: Position): (r: Result<int, OffsetError>)
    ensures SingleSegment(s) ==>
      r == Success(ToUInt32(if p.obj.None? then s.start.integer else p.integer))
    ensures !SingleSegment(s) && p.obj.Some? ==>
      match p.obj.value
      case OtherObj(_) => r == Failure(InvalidCast)
      case SegmentObj(seg) =>
        if seg.memoryLength < ToUInt32(p.integer) then r == Failure(ArgumentOutOfRange)
        else
          match s.start.obj
          case None => r == Failure(ArgumentOutOfRange)
          case Some(OtherObj(_)) => r == Failure(InvalidCast)
          case Some(SegmentObj(_)) =>
            if seg !in s.chain then r == Failure(ArgumentOutOfRange)
            else r == Success(seg.runningIndex + ToUInt32(p.integer))
  {
    var obj := if p.obj.None? then s.start.obj else p.obj;
    var index := ToUInt32(if p.obj.None? then s.start.integer else p.integer);
    if s.start.obj == s.end.obj then
      Success(index)
    else
      match obj
      case None => Failure(ArgumentOutOfRange) // start and position both null: the source dereferences null here instead
      case Some(OtherObj(_)) => Failure(InvalidCast)
      case Some(SegmentObj(seg)) =>
        if seg.memoryLength - index < 0 then
          Failure(ArgumentOutOfRange)
        else
          match s.start.obj
          case None => Failure(ArgumentOutOfRange) // the walk starts at null and ends at once
          case Some(OtherObj(_)) => Failure(InvalidCast)
          case Some(SegmentObj(_)) =>
            match FindSegment(s.chain, seg)
            case None => Failure(ArgumentOutOfRange)
            case Some(i) => Success(s.chain[i].runningIndex + index)
  }

  /** A position without an object is read as the sequence start, whatever its integer. */
  lemma NullPositionIsStart(s: ReadOnlySequence, p: Position)
    requires p.obj.None?
    ensures GetOffset(s, p) == GetOffset(s, s.start)
  {
  }
}
