/**
 * The log-upload members of the plugin object in their imperative form, each section proved against
 * LogUploadProtocol. The value of logUploadAsync(), -1 or a positive pid, is a parameter.
 */
module LogUploader {
  import opened LogUploadProtocol

  class UploadLogs {
    var uploadLogsPid: int
    ghost var forked: seq<int>
    ghost var reaped: seq<int>
    ghost var lost: seq<int>
    ghost var notices: seq<Notice>
    /** The states of the system manager that mean success and abort. */
    const successState: int
    const abortedState: int

    ghost function State(): Uploads
      reads this
    {
      Uploads(uploadLogsPid, forked, reaped, lost, notices)
    }

    constructor (successState: int, abortedState: int)
      ensures State() == NO_UPLOADS
      ensures this.successState == successState && this.abortedState == abortedState
    {
      this.successState, this.abortedState := successState, abortedState;
      uploadLogsPid := NO_PID;
      forked, reaped, lost, notices := [], [], [], [];
    }

    method Dispatch(status: Status)
      modifies `notices
      ensures notices == old(notices) + [Notice(uploadLogsPid, status)]
    {
      notices := notices + [Notice(uploadLogsPid, status)];
    }

    method WaitForChild()
      modifies `reaped
      ensures reaped == old(reaped) + [uploadLogsPid]
    {
      reaped := reaped + [uploadLogsPid];
    }

    /** Returns true and sets the caller's success flag only when there was an upload to abort. */
    method AbortLogUpload() returns (aborted: bool)
      modifies this
      ensures State() == Abort(old(State()))
      ensures aborted <==> old(uploadLogsPid) != NO_PID
    {
      if uploadLogsPid != NO_PID {
        WaitForChild();
        ghost var child := uploadLogsPid;
        uploadLogsPid := NO_PID;
        notices := notices + [Notice(child, UploadAborted)];
        return true;
      }
      return false;
    }

    /** The last section of UploadLogsAsync. */
    method StoreChild(child: int)
      modifies this
      ensures State() == Fork(old(State()), child)
    {
      if child != NO_PID {
        forked := forked + [child];
      }
      if uploadLogsPid != NO_PID {
        lost := lost + [uploadLogsPid];
      }
      uploadLogsPid := child;
    }

    /** All three sections in a row; undisturbed, the previous child is reaped and none is lost. */
    method UploadLogsAsync(child: int) returns (success: bool)
      requires child == NO_PID || child > 0
      modifies this
      ensures State() == Fork(Abort(old(State())), child)
      ensures old(Conserved(State())) ==> Conserved(State())
      ensures lost == old(lost) && uploadLogsPid == child
      ensures success
    {
      if Conserved(State()) {
        CompleteConserves(State(), UploadAborted);
        ForkConserves(Abort(State()), child);
      }
      var seen := uploadLogsPid;
      if seen != NO_PID {
        var _ := AbortLogUpload();
      }
      StoreChild(child);
      success := true;
    }

    method OnLogUpload(newState: int)
      modifies this
      ensures State() == Complete(old(State()),
                                  if newState == successState then UploadSuccess
                                  else if newState == abortedState then UploadAborted
                                  else UploadFailure)
    {
      if uploadLogsPid != NO_PID {
        Dispatch(if newState == successState then UploadSuccess
                 else if newState == abortedState then UploadAborted else UploadFailure);
        WaitForChild();
        uploadLogsPid := NO_PID;
      }
    }

    /** The part of the power-state handler that touches uploads. */
    method OnSystemPowerStateChanged(current: string, next: string, uploadBeforeDeepSleep: bool, child: int)
      requires child == NO_PID || child > 0
      modifies this
      ensures State() ==
              if next == "LIGHT_SLEEP" || next == "STANDBY" then
                if current == "ON" && uploadBeforeDeepSleep then Fork(Abort(old(State())), child) else old(State())
              else if next == "DEEP_SLEEP" then Abort(old(State()))
              else old(State())
      ensures lost == old(lost)
      ensures next == "DEEP_SLEEP" ==> uploadLogsPid == NO_PID
    {
      if next == "LIGHT_SLEEP" || next == "STANDBY" {
        if current == "ON" && uploadBeforeDeepSleep {
          var _ := UploadLogsAsync(child);
        }
      } else if next == "DEEP_SLEEP" {
        var seen := uploadLogsPid;
        if seen != NO_PID {
          var _ := AbortLogUpload();
        }
      }
    }
  }
}
