/**
 * The base of the AniDB UDP commands: a response slot guarded by an
 * executed flag. Reading the response before `Execute` is an error;
 * storing a response never touches the flag.
 */
module Udp {
  import opened Wrappers

  /** `CommandNotExecutedException`. */
  datatype Error = CommandNotExecuted

  /** The guard's state: the `HasEexecuted` flag and the stored `_response` (null is `None`). */
  datatype UdpCommand<T> = UdpCommand(executed: bool, response: Option<T>)

  /** A newly built command: not executed, nothing stored. */
  function Fresh<T>(): (r: UdpCommand<T>)
    ensures GetResponse(r) == Failure(CommandNotExecuted)
  {
    UdpCommand(false, None)
  }

  /** The `Response` getter. */
  function GetResponse<T>(c: UdpCommand<T>): (r: Result<Option<T>, Error>)
    ensures r.Failure? <==> !c.executed
  {
    if !c.executed then Failure(CommandNotExecuted) else Success(c.response)
  }

  /** The `Response` setter: stores the value, whatever the flag. */
  function SetResponse<T>(c: UdpCommand<T>, v: Option<T>): (r: UdpCommand<T>)
    ensures r.executed == c.executed
    ensures c.executed ==> GetResponse(r) == Success(v)
    ensures !c.executed ==> GetResponse(r) == Failure(CommandNotExecuted) && GetResponse(Execute(r)) == Success(v)
  {
    UdpCommand(c.executed, v)
  }

  /** `Execute`: sets the flag and nothing else. */
  function Execute<T>(c: UdpCommand<T>): (r: UdpCommand<T>)
    ensures r.executed && r.response == c.response
    ensures GetResponse(r) == Success(c.response)
  {
    UdpCommand(true, c.response)
  }

  /** A second `Execute` changes nothing. */
  lemma ExecuteIdempotent<T>(c: UdpCommand<T>)
    ensures Execute(Execute(c)) == Execute(c)
  {
  }

  /** One use of the command from outside: store a response, execute, or read. */
  datatype Op<T> = Store(value: Option<T>) | Exec | Read

  function Step<T>(c: UdpCommand<T>, op: Op<T>): UdpCommand<T> {
    match op
    case Store(v) => SetResponse(c, v)
    case Exec => Execute(c)
    case Read => c
  }

  /** The state after a history of uses, applied in order. */
  function Run<T>(c: UdpCommand<T>, ops: seq<Op<T>>): UdpCommand<T>
    decreases |ops|
  {
    if ops == [] then c else Run(Step(c, ops[0]), ops[1..])
  }

  /** The value of the last `Store` of a history, or `d` when there is none. */
  function LastStored<T>(ops: seq<Op<T>>, d: Option<T>): (r: Option<T>)
    ensures (forall i :: 0 <= i < |ops| ==> !ops[i].Store?) ==> r == d
    ensures r != d ==> exists i :: 0 <= i < |ops| && ops[i] == Store(r)
  {
    if ops == [] then d
    else if ops[|ops| - 1].Store? then ops[|ops| - 1].value
    else LastStored(ops[..|ops| - 1], d)
  }

  lemma {:induction false} LastStoredCons<T>(op: Op<T>, ops: seq<Op<T>>, d: Option<T>)
    ensures LastStored([op] + ops, d) == LastStored(ops, if op.Store? then op.value else d)
    decreases |ops|
  {
    if ops != [] {
      var t := [op] + ops;
      assert t[..|t| - 1] == [op] + ops[..|ops| - 1];
      LastStoredCons(op, ops[..|ops| - 1], d);
    }
  }

  /**
   * The guard over a whole history: the flag is set exactly when it was set
   * before or the history executes, and the stored response is the last one
   * stored.
   */
  lemma {:induction false} RunHistory<T>(c: UdpCommand<T>, ops: seq<Op<T>>)
    ensures Run(c, ops).executed <==> c.executed || Exec in ops
    ensures Run(c, ops).response == LastStored(ops, c.response)
    decreases |ops|
  {
    if ops != [] {
      var next := Step(c, ops[0]);
      RunHistory(next, ops[1..]);
      assert ops == [ops[0]] + ops[1..];
      LastStoredCons(ops[0], ops[1..], c.response);
    }
  }

  /**
   * What a read returns after a history of uses of a new command: the
   * `CommandNotExecutedException` until the first `Execute`, after it the
   * last response stored (null if none), whether stored before or after
   * executing.
   */
  lemma ReadAfterHistory<T>(ops: seq<Op<T>>)
    ensures GetResponse(Run(Fresh(), ops)) ==
      if Exec in ops then Success(LastStored(ops, None)) else Failure(CommandNotExecuted)
  {
    RunHistory(Fresh(), ops);
  }
}
