/** The agent's mutable state and the methods that change it (agent/main.py), each
    proved to be one step of `Lifecycle` or `AppiumRefs`. */
module Agent {
  import opened Common
  import opened Text
  import Lifecycle
  import AppiumRefs

  datatype Message =
    | ResultAck(id: int, token: Option<string>)
    | StartTest(startId: Option<int>, token: Option<string>, version: Option<string>)
    | StopTest(id: int)
    | Other

  /** How the wait for the server ended, once it was counted. */
  datatype Wait = Ready | Failed | Cancelled

  function MismatchText(own: string, theirs: string): string {
    "协议版本不兼容: Agent 支持 " + own + "，Worker 下发 " + theirs
  }

  class AgentApp {
    const protocol: string
    var runtimes: map<int, bool>
    var pendingResults: map<int, Lifecycle.Payload>
    var finishedExecutions: seq<int>
    var finishedIds: set<int>
    var appiumRefs: int
    var serverUp: bool
    ghost var holders: set<int>

    constructor (protocol: string)
      ensures State() == Lifecycle.Fresh && Count() == AppiumRefs.Fresh && this.protocol == protocol
    {
      this.protocol := protocol;
      runtimes, pendingResults, finishedExecutions, finishedIds := map[], map[], [], {};
      appiumRefs, serverUp, holders := 0, false, {};
    }

    ghost function State(): Lifecycle.State
      reads this
    {
      Lifecycle.State(runtimes, finishedExecutions, finishedIds, pendingResults)
    }

    ghost function Count(): AppiumRefs.State
      reads this
    {
      AppiumRefs.State(appiumRefs, serverUp, holders)
    }

    /** The event a message amounts to. */
    ghost function Meaning(m: Message): Lifecycle.Event {
      match m
      case ResultAck(id, token) => Lifecycle.Ack(id, token)
      case StartTest(None, _, _) => Lifecycle.Transport
      case StartTest(Some(id), token, version) =>
        Lifecycle.Start(id, token, if version.None? || version.value == protocol then None
                                   else Some(MismatchText(protocol, version.value)))
      case StopTest(id) => Lifecycle.Stop(id)
      case Other => Lifecycle.Transport
    }

    /** `_remember_finished_execution`. */
    method RememberFinished(id: int)
      modifies `finishedExecutions, `finishedIds
      ensures State() == Lifecycle.Remember(old(State()), id)
    {
      if id in finishedIds {
        return;
      }
      if |finishedExecutions| >= Lifecycle.MEMORY {
        finishedIds := finishedIds - {finishedExecutions[0]};
        finishedExecutions := finishedExecutions[1..];
      }
      finishedExecutions := finishedExecutions + [id];
      finishedIds := finishedIds + {id};
    }

    /** `_send_execution_result_safe`: whether the send succeeds changes nothing. */
    method SendResultSafe(id: int, payload: Lifecycle.Payload)
      modifies `pendingResults, `finishedExecutions, `finishedIds
      ensures State() == Lifecycle.Step(old(State()), Lifecycle.Result(id, payload))
    {
      pendingResults := pendingResults[id := payload];
      RememberFinished(id);
    }

    /** `on_message`. */
    method OnMessage(m: Message)
      modifies this
      ensures State() == Lifecycle.Step(old(State()), Meaning(m))
      ensures Count() == old(Count())
    {
      match m
      case ResultAck(id, token) =>
        if id in pendingResults && pendingResults[id].token == token {
          pendingResults := pendingResults - {id};
        }
      case StartTest(startId, token, version) =>
        if startId.Some? {
          var id := startId.value;
          if version.Some? && version.value != protocol {
            SendResultSafe(id, Lifecycle.Payload(token, "error", Some(MismatchText(protocol, version.value))));
          } else if id !in runtimes && id !in finishedIds {
            runtimes := runtimes[id := false];
          }
        }
      case StopTest(id) =>
        if id in runtimes {
          runtimes := runtimes[id := true];
        }
      case Other =>
    }

    /** The end of `_run_execution`, and the callback after it. */
    method LeaveRuntimes(id: int)
      modifies `runtimes
      ensures State() == Lifecycle.Step(old(State()), Lifecycle.Leave(id))
    {
      runtimes := runtimes - {id};
    }

    /** The end of `stop_all_executions`. */
    method ClearRuntimes()
      modifies `runtimes
      ensures State() == Lifecycle.Step(old(State()), Lifecycle.Shutdown)
    {
      runtimes := map[];
    }

    /** `_ensure_appium`: `counted` says whether the start went through, `nowUp` what
        an aborted start left behind. */
    method EnsureAppium(task: int, counted: bool, nowUp: bool, wait: Wait)
      requires 0 <= appiumRefs
      modifies `appiumRefs, `serverUp, `holders
      ensures Count() == AppiumRefs.Step(old(Count()),
                if !counted then AppiumRefs.Aborted(task, nowUp)
                else if wait.Failed? then AppiumRefs.ReadyFailed(task) else AppiumRefs.Acquired(task))
    {
      if appiumRefs == 0 {
        serverUp := if counted then true else nowUp;
      }
      if !counted {
        return;
      }
      appiumRefs := appiumRefs + 1;
      if wait.Failed? {
        appiumRefs := Max(0, appiumRefs - 1);
      } else {
        holders := holders + {task};
      }
    }

    /** `_release_appium`. */
    method ReleaseAppium(task: int)
      modifies `appiumRefs, `serverUp, `holders
      ensures Count() == AppiumRefs.Step(old(Count()), AppiumRefs.Released(task))
    {
      appiumRefs := Max(0, appiumRefs - 1);
      holders := holders - {task};
      if appiumRefs == 0 {
        serverUp := false;
      }
    }
  }
}
