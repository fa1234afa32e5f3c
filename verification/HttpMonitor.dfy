/** The monitor queue, the two status words and the restart timer of main/http_server.c. */
module HttpMonitor {
  import opened FirmwareTypes
  import opened OtaUpload

  const QUEUE_LENGTH: nat := 3

  const OTA_UPDATE_PENDING := 0
  const OTA_UPDATE_SUCCESSFUL := 1
  const OTA_UPDATE_FAILED := -1

  datatype WifiStatus = NoStatus | Connecting | ConnectFailed | ConnectSuccess

  datatype Message = WifiConnectInit | WifiConnectSuccess | WifiConnectFail | OtaSuccessful | OtaFailed

  predicate IsWifi(m: Message) {
    m.WifiConnectInit? || m.WifiConnectSuccess? || m.WifiConnectFail?
  }

  function WifiOf(m: Message): WifiStatus
    requires IsWifi(m)
  {
    match m
    case WifiConnectInit => Connecting
    case WifiConnectSuccess => ConnectSuccess
    case WifiConnectFail => ConnectFailed
  }

  /** The message the upload handler sends, if it gets that far. */
  function MessageOf(r: Result): Option<Message> {
    match r
    case Finished(flashed) => Some(if flashed then OtaSuccessful else OtaFailed)
    case _ => None
  }

  /** The monitor's state; sent and processed are the history of the queue. */
  datatype State = State(queue: seq<Message>, sent: seq<Message>, processed: seq<Message>,
                         wifi: WifiStatus, fw: int, armed: nat, restarted: bool)

  const START := State([], [], [], NoStatus, OTA_UPDATE_PENDING, 0, false)

  function Send(s: State, m: Message): State {
    s.(queue := s.queue + [m], sent := s.sent + [m])
  }

  function Process(s: State): State
    requires s.queue != []
  {
    var m := s.queue[0];
    var t := s.(queue := s.queue[1..], processed := s.processed + [m]);
    match m
    case OtaSuccessful => t.(fw := OTA_UPDATE_SUCCESSFUL, armed := s.armed + 1)
    case OtaFailed => t.(fw := OTA_UPDATE_FAILED)
    case _ => t.(wifi := WifiOf(m))
  }

  // ------------------------------------------------------------ the imperative monitor

  class Monitor {
    var queue: seq<Message>
    var wifi: WifiStatus
    var fw: int
    var armed: nat
    var restarted: bool
    ghost var sent: seq<Message>
    ghost var processed: seq<Message>

    constructor ()
      ensures Now() == START
    {
      queue, sent, processed := [], [], [];
      wifi, fw, armed, restarted := NoStatus, OTA_UPDATE_PENDING, 0, false;
    }

    ghost function Now(): State
      reads this
    {
      State(queue, sent, processed, wifi, fw, armed, restarted)
    }

    /** The send blocks until the queue has room; this is the moment it goes through. */
    method SendMessage(m: Message)
      requires |queue| < QUEUE_LENGTH
      modifies this
      ensures Now() == Send(old(Now()), m)
    {
      queue := queue + [m];
      sent := sent + [m];
    }

    /** The end of the upload handler: it reports success or failure, unless it gave up earlier. */
    method ReportUpload(r: Result)
      requires r.Finished? ==> |queue| < QUEUE_LENGTH
      modifies this
      ensures Now() == match MessageOf(r) case Some(m) => Send(old(Now()), m) case None => old(Now())
    {
      if r.Finished? {
        if r.flashed {
          SendMessage(OtaSuccessful);
        } else {
          SendMessage(OtaFailed);
        }
      }
    }

    method ResetTimer()
      modifies this`armed
      ensures armed == old(armed) + if fw == OTA_UPDATE_SUCCESSFUL then 1 else 0
    {
      if fw == OTA_UPDATE_SUCCESSFUL {
        armed := armed + 1;
      }
    }

    method ProcessMessage()
      requires queue != []
      modifies this
      ensures Now() == Process(old(Now()))
    {
      var m := queue[0];
      queue := queue[1..];
      processed := processed + [m];
      match m
      case WifiConnectInit => wifi := Connecting;
      case WifiConnectSuccess => wifi := ConnectSuccess;
      case WifiConnectFail => wifi := ConnectFailed;
      case OtaSuccessful =>
        fw := OTA_UPDATE_SUCCESSFUL;
        ResetTimer();
      case OtaFailed => fw := OTA_UPDATE_FAILED;
    }
  }

  // ------------------------------------------------------------ runs

  datatype Event =
    | WifiSends(message: Message)
    | UploadEnds(body: Bytes, script: seq<Network>, beginOk: bool, endOk: bool, bootOk: bool)
    | MonitorReceives
    | TimerFires

  ghost function ResultOf(e: Event): Result
    requires e.UploadEnds?
  {
    Outcome(e.body, e.script, e.beginOk, e.endOk, e.bootOk)
  }

  /** Sends wait for room, the monitor for a message, and a timer only fires if started. Runs keep to
      uploads whose meaning C defines. */
  ghost predicate Enabled(s: State, e: Event) {
    && !s.restarted
    && match e
       case WifiSends(m) => IsWifi(m) && |s.queue| < QUEUE_LENGTH
       case UploadEnds(_, _, _, _, _) =>
         !ResultOf(e).Undefined? && (ResultOf(e).Finished? ==> |s.queue| < QUEUE_LENGTH)
       case MonitorReceives => s.queue != []
       case TimerFires => s.armed > 0
  }

  ghost function Step(s: State, e: Event): State
    requires Enabled(s, e)
  {
    match e
    case WifiSends(m) => Send(s, m)
    case UploadEnds(_, _, _, _, _) =>
      (match MessageOf(ResultOf(e)) case Some(m) => Send(s, m) case None => s)
    case MonitorReceives => Process(s)
    case TimerFires => s.(restarted := true)
  }

  /** The state after a run from the initial state; None if some event was not enabled. */
  ghost function Exec(es: seq<Event>): Option<State>
    decreases |es|
  {
    if es == [] then Some(START)
    else
      var e := es[|es| - 1];
      match Exec(es[..|es| - 1])
      case Some(s) => if Enabled(s, e) then Some(Step(s, e)) else None
      case None => None
  }

  // What a history of messages means, independently of how it was processed.

  function Successes(ms: seq<Message>): nat {
    if ms == [] then 0
    else Successes(ms[..|ms| - 1]) + if ms[|ms| - 1].OtaSuccessful? then 1 else 0
  }

  function LastWifi(ms: seq<Message>): WifiStatus {
    if ms == [] then NoStatus
    else if IsWifi(ms[|ms| - 1]) then WifiOf(ms[|ms| - 1])
    else LastWifi(ms[..|ms| - 1])
  }

  function LastFw(ms: seq<Message>): int {
    if ms == [] then OTA_UPDATE_PENDING
    else if IsWifi(ms[|ms| - 1]) then LastFw(ms[..|ms| - 1])
    else if ms[|ms| - 1].OtaSuccessful? then OTA_UPDATE_SUCCESSFUL else OTA_UPDATE_FAILED
  }

  ghost predicate GoodUpload(e: Event) {
    e.UploadEnds? && HeaderArrives(e.body, e.script) && e.beginOk && e.endOk && e.bootOk
  }

  ghost predicate Inv(es: seq<Event>, s: State) {
    && s.sent == s.processed + s.queue
    && |s.queue| <= QUEUE_LENGTH
    && s.wifi == LastWifi(s.processed)
    && s.fw == LastFw(s.processed)
    && s.armed == Successes(s.processed)
    && (OtaSuccessful in s.sent ==> exists e :: e in es && GoodUpload(e))
    && (s.restarted ==> s.armed > 0)
  }

  lemma HistoryGrows(ms: seq<Message>, m: Message)
    ensures Successes(ms + [m]) == Successes(ms) + if m.OtaSuccessful? then 1 else 0
    ensures LastWifi(ms + [m]) == if IsWifi(m) then WifiOf(m) else LastWifi(ms)
    ensures LastFw(ms + [m]) == match m
                                case OtaSuccessful => OTA_UPDATE_SUCCESSFUL
                                case OtaFailed => OTA_UPDATE_FAILED
                                case _ => LastFw(ms)
  {
  }

  lemma ProcessKeeps(s: State)
    requires s.queue != [] && s.sent == s.processed + s.queue
    requires s.wifi == LastWifi(s.processed) && s.fw == LastFw(s.processed) && s.armed == Successes(s.processed)
    ensures var t := Process(s);
      && t.sent == t.processed + t.queue
      && t.wifi == LastWifi(t.processed) && t.fw == LastFw(t.processed) && t.armed == Successes(t.processed)
  {
    HistoryGrows(s.processed, s.queue[0]);
    assert s.processed + s.queue == s.processed + [s.queue[0]] + s.queue[1..];
  }

  lemma SendKeeps(es: seq<Event>, s: State, e: Event, m: Message)
    requires Inv(es, s) && !s.restarted && |s.queue| < QUEUE_LENGTH
    requires m.OtaSuccessful? ==> GoodUpload(e)
    ensures Inv(es + [e], Send(s, m))
  {
  }

  lemma HistoryKeeps(es: seq<Event>, s: State, e: Event)
    requires Inv(es, s)
    ensures Inv(es + [e], s)
  {
  }

  lemma StepKeeps(es: seq<Event>, s: State, e: Event)
    requires Inv(es, s) && Enabled(s, e)
    ensures Inv(es + [e], Step(s, e))
  {
    HistoryKeeps(es, s, e);
    match e
    case WifiSends(m) => SendKeeps(es, s, e, m);
    case UploadEnds(_, _, _, _, _) =>
      var r := ResultOf(e);
      if r.Finished? {
        assert r.flashed ==> GoodUpload(e);
        SendKeeps(es, s, e, MessageOf(r).value);
      }
    case MonitorReceives => ProcessKeeps(s);
    case TimerFires =>
  }

  lemma {:induction false} RunInvariant(es: seq<Event>, s: State)
    requires Exec(es) == Some(s)
    ensures Inv(es, s)
    decreases |es|
  {
    if es != [] {
      var front, e := es[..|es| - 1], es[|es| - 1];
      RunInvariant(front, Exec(front).value);
      StepKeeps(front, Exec(front).value, e);
      assert es == front + [e];
    }
  }

  /** Messages are processed in the order sent, none lost, and each status word is the one the last
      message of its kind announced. */
  lemma StatusFollowsSends(es: seq<Event>, s: State)
    requires Exec(es) == Some(s)
    ensures s.processed <= s.sent && |s.sent| - |s.processed| <= 3
    ensures s.wifi == LastWifi(s.processed) && s.fw == LastFw(s.processed)
  {
    RunInvariant(es, s);
  }

  lemma {:induction false} LastOfKind(before: seq<Message>, m: Message, after: seq<Message>)
    ensures var ms := before + [m] + after;
      && ((m.OtaSuccessful? || m.OtaFailed?) && (forall n | n in after :: !n.OtaSuccessful? && !n.OtaFailed?)
          ==> LastFw(ms) == if m.OtaSuccessful? then 1 else -1)
      && (!m.OtaSuccessful? && !m.OtaFailed? && (forall n | n in after :: n.OtaSuccessful? || n.OtaFailed?)
          ==> LastWifi(ms) == match m
                              case WifiConnectInit => Connecting
                              case WifiConnectSuccess => ConnectSuccess
                              case _ => ConnectFailed)
    decreases |after|
  {
    var ms := before + [m] + after;
    if after == [] {
      HistoryGrows(before, m);
      assert ms == before + [m];
    } else {
      var front, n := after[..|after| - 1], after[|after| - 1];
      assert ms == before + [m] + front + [n] && n in after;
      HistoryGrows(before + [m] + front, n);
      LastOfKind(before, m, front);
    }
  }

  /** The status words in their values: 1 after a successful update and -1 after a failed one, and for the
      connection what the last message about it said, whatever was processed since of the other kind. */
  lemma StatusWords(es: seq<Event>, s: State, before: seq<Message>, m: Message, after: seq<Message>)
    requires Exec(es) == Some(s) && s.processed == before + [m] + after
    ensures m.OtaSuccessful? && (forall n | n in after :: !n.OtaSuccessful? && !n.OtaFailed?) ==> s.fw == 1
    ensures m.OtaFailed? && (forall n | n in after :: !n.OtaSuccessful? && !n.OtaFailed?) ==> s.fw == -1
    ensures m.WifiConnectInit? && (forall n | n in after :: n.OtaSuccessful? || n.OtaFailed?) ==> s.wifi == Connecting
    ensures m.WifiConnectSuccess? && (forall n | n in after :: n.OtaSuccessful? || n.OtaFailed?) ==> s.wifi == ConnectSuccess
    ensures m.WifiConnectFail? && (forall n | n in after :: n.OtaSuccessful? || n.OtaFailed?) ==> s.wifi == ConnectFailed
  {
    StatusFollowsSends(es, s);
    LastOfKind(before, m, after);
  }

  lemma {:induction false} NoneOfKind(ms: seq<Message>)
    ensures (forall n | n in ms :: !n.OtaSuccessful? && !n.OtaFailed?) ==> LastFw(ms) == 0
    ensures (forall n | n in ms :: n.OtaSuccessful? || n.OtaFailed?) ==> LastWifi(ms) == NoStatus
  {
    if ms != [] {
      NoneOfKind(ms[..|ms| - 1]);
      assert ms[|ms| - 1] in ms;
    }
  }

  /** Before any message of their kind is processed the words are 0 and no status. */
  lemma WordsAtFirst(es: seq<Event>, s: State)
    requires Exec(es) == Some(s)
    ensures (forall n | n in s.processed :: !n.OtaSuccessful? && !n.OtaFailed?) ==> s.fw == 0
    ensures (forall n | n in s.processed :: n.OtaSuccessful? || n.OtaFailed?) ==> s.wifi == NoStatus
  {
    StatusFollowsSends(es, s);
    NoneOfKind(s.processed);
  }

  lemma {:induction false} SuccessesCount(ms: seq<Message>)
    ensures Successes(ms) > 0 <==> OtaSuccessful in ms
  {
    if ms != [] {
      SuccessesCount(ms[..|ms| - 1]);
      assert ms == ms[..|ms| - 1] + [ms[|ms| - 1]];
    }
  }

  /** Restart safety: a timer is armed exactly when a success message has been processed, and a timer
      can be armed, or the device restarted, only after an upload whose header arrived and whose
      begin, end and boot-partition calls all succeeded. */
  lemma RestartOnlyAfterGoodUpload(es: seq<Event>, s: State)
    requires Exec(es) == Some(s)
    ensures s.armed > 0 <==> OtaSuccessful in s.processed
    ensures s.restarted || s.armed > 0 ==> exists e :: e in es && GoodUpload(e)
  {
    RunInvariant(es, s);
    SuccessesCount(s.processed);
    if s.armed > 0 {
      assert OtaSuccessful in s.processed ==> OtaSuccessful in s.sent;
    }
  }

  /** Nothing disarms a timer: once one is armed, every run that goes on from there keeps it, and it can
      fire at any moment until it has restarted the device. */
  lemma {:induction false} ArmedForGood(es: seq<Event>, s: State, more: seq<Event>, t: State)
    requires Exec(es) == Some(s) && s.armed > 0
    requires Exec(es + more) == Some(t)
    ensures t.armed >= s.armed
    ensures t.restarted || Exec(es + more + [TimerFires]) == Some(t.(restarted := true))
    decreases |more|
  {
    if more == [] {
      assert es + more == es;
    } else {
      var front := more[..|more| - 1];
      ExecSnoc(es + front, more[|more| - 1]);
      assert es + more == es + front + [more[|more| - 1]];
      var u := Exec(es + front).value;
      ArmedForGood(es, s, front, u);
      NeverDisarmed(u, more[|more| - 1]);
    }
    ExecSnoc(es + more, TimerFires);
  }

  /** After any run that has not restarted the device, the timer can restart it while the status word says
      that the update failed exactly if some success has been processed, and the last firmware message
      processed was a failure. */
  lemma FalseRestartExactly(es: seq<Event>, s: State)
    requires Exec(es) == Some(s) && !s.restarted
    ensures Exec(es + [TimerFires]) == Some(s.(restarted := true)) && s.fw == OTA_UPDATE_FAILED
      <==> OtaSuccessful in s.processed && LastFw(s.processed) == OTA_UPDATE_FAILED
  {
    ExecSnoc(es, TimerFires);
    StatusFollowsSends(es, s);
    RestartOnlyAfterGoodUpload(es, s);
  }

  lemma NeverDisarmed(s: State, e: Event)
    requires Enabled(s, e)
    ensures Step(s, e).armed >= s.armed
  {
  }

  lemma ExecSnoc(es: seq<Event>, e: Event)
    ensures Exec(es + [e])
         == match Exec(es)
            case Some(s) => if Enabled(s, e) then Some(Step(s, e)) else None
            case None => None
  {
    assert (es + [e])[..|es|] == es;
  }

  lemma ExecUpload(es: seq<Event>, s: State, e: Event, m: Message)
    requires Exec(es) == Some(s) && !s.restarted && s.queue == []
    requires e.UploadEnds? && MessageOf(ResultOf(e)) == Some(m)
    ensures Exec(es + [e]) == Some(Send(s, m))
  {
    ExecSnoc(es, e);
    assert Enabled(s, e);
  }

  lemma ExecReceive(es: seq<Event>, s: State)
    requires Exec(es) == Some(s) && !s.restarted && s.queue != []
    ensures Exec(es + [MonitorReceives]) == Some(Process(s))
  {
    ExecSnoc(es, MonitorReceives);
  }

  /** Whenever an upload succeeds and a later one fails before the timer fires, the device restarts
      while its status word says that the update failed. */
  lemma RestartAfterFailed(good: Event, bad: Event)
    requires good.UploadEnds? && ResultOf(good) == Finished(true)
    requires bad.UploadEnds? && ResultOf(bad) == Finished(false)
    ensures var end := Exec([good] + [MonitorReceives] + [bad] + [MonitorReceives] + [TimerFires]);
      end.Some? && end.value.restarted && end.value.fw == OTA_UPDATE_FAILED
  {
    assert [] + [good] == [good];
    var s := Send(START, OtaSuccessful);
    ExecUpload([], START, good, OtaSuccessful);
    ExecReceive([good], s);
    ExecUpload([good] + [MonitorReceives], Process(s), bad, OtaFailed);
    ExecReceive([good] + [MonitorReceives] + [bad], Send(Process(s), OtaFailed));
    ExecSnoc([good] + [MonitorReceives] + [bad] + [MonitorReceives], TimerFires);
  }

  /** There are such uploads: the same four bytes twice, esp_ota_end succeeding and then failing. */
  lemma RestartsAfterFailedUpdate()
    ensures var upload := (endOk: bool) => UploadEnds([13, 10, 13, 10], [], true, endOk, true);
      var end := Exec([upload(true)] + [MonitorReceives] + [upload(false)] + [MonitorReceives] + [TimerFires]);
      end.Some? && end.value.restarted && end.value.fw == OTA_UPDATE_FAILED
  {
    var body := [13, 10, 13, 10];
    assert DelimiterAt(body, 0);
    ChunkingIndependent(body, [], [], 0);
    RestartAfterFailed(UploadEnds(body, [], true, true, true), UploadEnds(body, [], true, false, true));
  }
}
