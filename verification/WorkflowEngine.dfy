/** The engine and logger objects, whose methods carry out exactly the specified run. */
module WorkflowEngine {
  import opened Wrappers
  import opened WorkflowTypes
  import opened WorkflowRun

  /** Writes one row per started node and the list of finished steps. */
  class WorkflowLogger {
    var stepCounter: nat
    var rows: seq<Row>
    var executionPath: seq<PathEntry>

    ghost predicate Valid()
      reads this
    {
      stepCounter == |rows|
    }

    constructor ()
      ensures Valid() && rows == [] && executionPath == []
    {
      stepCounter, rows, executionPath := 0, [], [];
    }

    method StartNode(node: Node) returns (logId: nat)
      requires Valid()
      modifies this
      ensures Valid() && logId == old(|rows|)
      ensures rows == old(rows) + [Row(node.id, node.kind, Running)] && executionPath == old(executionPath)
    {
      stepCounter := stepCounter + 1;
      logId := |rows|;
      rows := rows + [Row(node.id, node.kind, Running)];
    }

    method CompleteNode(logId: nat)
      requires Valid() && logId < |rows|
      modifies this
      ensures Valid() && rows == old(rows)[logId := old(rows)[logId].(status := Success)]
      ensures executionPath == old(executionPath) + [PathEntry(old(rows)[logId].nodeId, Success)]
    {
      rows := rows[logId := rows[logId].(status := Success)];
      executionPath := executionPath + [PathEntry(rows[logId].nodeId, Success)];
    }

    method FailNode(logId: nat)
      requires Valid() && logId < |rows|
      modifies this
      ensures Valid() && rows == old(rows)[logId := old(rows)[logId].(status := Failed)]
      ensures executionPath == old(executionPath) + [PathEntry(old(rows)[logId].nodeId, Failed)]
    {
      rows := rows[logId := rows[logId].(status := Failed)];
      executionPath := executionPath + [PathEntry(rows[logId].nodeId, Failed)];
    }

    method GetNodesExecuted() returns (count: nat)
      requires Valid()
      ensures count == |rows|
    {
      return stepCounter;
    }
  }

  datatype ExecutionStatus = ExecutionSuccess | ExecutionFailed(cause: Cause)

  class Engine {
    const config: Config
    const maxSteps: nat
    const maxDurationMs: int
    const logger: WorkflowLogger
    var aborted: bool
    var stepsExecuted: nat
    var logs: seq<LogEntry>

    ghost predicate Valid()
      reads this, logger
    {
      logger.Valid()
    }

    ghost function Snapshot(): State
      reads this, logger
    {
      State(aborted, stepsExecuted, logger.rows, logger.executionPath, logs)
    }

    ghost function Caps(): Caps {
      Limits(maxSteps, maxDurationMs)
    }

    constructor (config: Config, maxSteps: nat, maxDurationMs: int)
      ensures Valid() && Snapshot() == INITIAL && fresh(logger)
      ensures this.config == config && Caps() == Limits(maxSteps, maxDurationMs)
    {
      this.config, this.maxSteps, this.maxDurationMs := config, maxSteps, maxDurationMs;
      aborted, stepsExecuted, logs := false, 0, [];
      logger := new WorkflowLogger();
    }

    /** Marks the node of row `logId` finished, in the run's own log and in the logger. */
    method Finish(logId: nat, status: RowStatus)
      requires Valid() && logId < |logger.rows| && status != Running
      modifies this`logs, logger
      ensures Valid() && Snapshot() == Mark(old(Snapshot()), logId, status)
    {
      logs := logs + [Logged(PathEntry(logger.rows[logId].nodeId, status))];
      if status == Success {
        logger.CompleteNode(logId);
      } else {
        logger.FailNode(logId);
      }
    }

    method ExecuteFromNode(w: World, nodeId: NodeId, ghost stack: seq<Frame>)
      returns (thrown: Option<Cause>, ghost outcome: Outcome)
      requires Valid() && Callable(config, stack, nodeId)
      modifies this, logger
      ensures Valid()
      ensures RunNode(config, w, Caps(), stack, nodeId, old(Snapshot())) == Run(Snapshot(), outcome)
      ensures thrown == match outcome case Done => None case Threw(cause, _) => Some(cause)
      decreases Fuel(config, Caps(), stack, Snapshot()), 0, 1
    {
      if aborted {
        return None, Done;
      }
      if w.clock(stepsExecuted) - w.startedAt > maxDurationMs {
        return Some(TimeCap), Threw(TimeCap, stack);
      }
      stepsExecuted := stepsExecuted + 1;
      if stepsExecuted > maxSteps {
        return Some(StepCap), Threw(StepCap, stack);
      }
      var node := FindNode(config.nodes, nodeId);
      if node.None? {
        logs := logs + [NodeMissing(nodeId)];
        return None, Done;
      }
      thrown, outcome := ExecuteFound(w, node.value, stack);
    }

    method ExecuteFound(w: World, node: Node, ghost stack: seq<Frame>)
      returns (thrown: Option<Cause>, ghost outcome: Outcome)
      requires Valid() && Callable(config, stack, node.id)
      modifies this, logger
      ensures Valid()
      ensures RunFound(config, w, Caps(), stack, node, old(Snapshot())) == Run(Snapshot(), outcome)
      ensures thrown == match outcome case Done => None case Threw(cause, _) => Some(cause)
      decreases Fuel(config, Caps(), stack, Snapshot()), 2, 0
    {
      ghost var frame := Frame(node.id, |logger.rows|);
      var logId := logger.StartNode(node);
      var result := w.results(logId, node.id);
      if result.Raised? {
        Finish(logId, Failed);
        return Some(NodeError), Threw(NodeError, stack + [frame]);
      }
      Finish(logId, Success);
      if node.kind.ControlEnd? {
        aborted := true;
        return None, Done;
      }
      var nextNodeIds := RouteTargets(config, node, result.value);
      RouteCallable(config, stack, frame, node, result.value);
      thrown, outcome := ExecuteAll(w, nextNodeIds, stack + [frame]);
      if thrown.Some? {
        Finish(logId, Failed);
      }
    }

    /** The loop over the next nodes; it stops at the first throw. */
    method ExecuteAll(w: World, nextNodeIds: seq<NodeId>, ghost stack: seq<Frame>)
      returns (thrown: Option<Cause>, ghost outcome: Outcome)
      requires Valid() && AllCallable(config, stack, nextNodeIds)
      modifies this, logger
      ensures Valid()
      ensures RunList(config, w, Caps(), stack, nextNodeIds, old(Snapshot())) == Run(Snapshot(), outcome)
      ensures thrown == match outcome case Done => None case Threw(cause, _) => Some(cause)
      decreases Fuel(config, Caps(), stack, Snapshot()), 1, 0
    {
      thrown, outcome := None, Done;
      for i := 0 to |nextNodeIds|
        invariant Valid() && thrown == None && outcome == Done && old(stepsExecuted) <= stepsExecuted
        invariant RunList(config, w, Caps(), stack, nextNodeIds, old(Snapshot()))
               == RunList(config, w, Caps(), stack, nextNodeIds[i..], Snapshot())
      {
        assert nextNodeIds[i..][0] == nextNodeIds[i] && nextNodeIds[i..][1..] == nextNodeIds[i + 1..];
        thrown, outcome := ExecuteFromNode(w, nextNodeIds[i], stack);
        if thrown.Some? {
          return;
        }
      }
    }

    method Execute(w: World) returns (status: ExecutionStatus)
      requires Valid() && Snapshot() == INITIAL
      modifies this, logger
      ensures Valid() && Snapshot() == WorkflowRun.Execute(config, w, Caps()).st
      ensures status == match WorkflowRun.Execute(config, w, Caps()).outcome
                        case Done => ExecutionSuccess
                        case Threw(cause, _) => ExecutionFailed(cause)
    {
      var triggerNode := FindTrigger(config.nodes);
      if triggerNode.None? {
        return ExecutionFailed(NoTrigger);
      }
      TriggerCallable(config, triggerNode.value);
      var thrown, _ := ExecuteFromNode(w, triggerNode.value.id, []);
      status := if thrown.Some? then ExecutionFailed(thrown.value) else ExecutionSuccess;
    }
  }
}
