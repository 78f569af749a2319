/** The sketch itself: received packets, commands, replies and relays. */
module GateController {
  import opened Words
  import opened LeaseClock
  import opened ReplyProtocol
  import opened RelayTimer
  import opened Framing

  // ----- Relays -----

  /** The relay globals.  A pin is true when driven HIGH, which releases the relay. */
  datatype Relays = Relays(
    up: Timer, down: Timer, trigger: Timer,
    upHigh: bool, downHigh: bool, triggerHigh: bool, dc5vHigh: bool, dc12vHigh: bool)

  /** After `SetPinMode`: the trigger pin is left at the LOW an output starts with. */
  const POWER_UP: Relays := Relays(IDLE, IDLE, IDLE, true, true, false, true, true)

  datatype Kind = DeviceInfo | Confirmation | GateUp | GateDown | GetFrame | PowerOn | PowerOff | Save | Other

  /** What a command does to the relays, at true time `now`. */
  function Obey(r: Relays, k: Kind, now: nat): Relays {
    match k
    case GateUp => r.(up := Started(r.up, now), upHigh := false)
    case GateDown => r.(down := Started(r.down, now), downHigh := false)
    case GetFrame => r.(trigger := Started(r.trigger, now), triggerHigh := false)
    case PowerOn => r.(dc5vHigh := false, dc12vHigh := false)
    case PowerOff => r.(dc5vHigh := true, dc12vHigh := true)
    case _ => r
  }

  /** `RelayProc` serves one running timer: gate up before gate down before trigger. */
  function Serve(r: Relays, now1: nat, now2: nat): Relays {
    if r.up.active then
      var (t, fires) := Polled(r.up, now1, now2);
      r.(up := t, upHigh := r.upHigh || fires)
    else if r.down.active then
      var (t, fires) := Polled(r.down, now1, now2);
      r.(down := t, downHigh := r.downHigh || fires)
    else
      var (t, fires) := Polled(r.trigger, now1, now2);
      r.(trigger := t, triggerHigh := r.triggerHigh || fires)
  }

  /** The gate flags hold exactly when their relays are driven LOW. */
  predicate GatesAgree(r: Relays) {
    (r.up.active <==> !r.upHigh) && (r.down.active <==> !r.downHigh)
  }

  predicate TriggerAgrees(r: Relays) {
    r.trigger.active <==> !r.triggerHigh
  }

  datatype RelayEvent = Ordered(k: Kind, now: nat) | Served(now1: nat, now2: nat)

  function RelayStep(r: Relays, e: RelayEvent): Relays {
    match e
    case Ordered(k, now) => Obey(r, k, now)
    case Served(now1, now2) => Serve(r, now1, now2)
  }

  function RelayRun(r: Relays, es: seq<RelayEvent>): Relays
    decreases |es|
  {
    if es == [] then r else RelayRun(RelayStep(r, es[0]), es[1..])
  }

  lemma ObeyKeepsGates(r: Relays, k: Kind, now: nat)
    requires GatesAgree(r)
    ensures GatesAgree(Obey(r, k, now))
  {
  }

  /** In every reachable state of the sketch the gate flags and pins agree. */
  lemma {:induction false} GatesAlwaysAgree(r: Relays, es: seq<RelayEvent>)
    requires GatesAgree(r)
    ensures GatesAgree(RelayRun(r, es))
    decreases |es|
  {
    if es != [] { GatesAlwaysAgree(RelayStep(r, es[0]), es[1..]); }
  }

  /** Timers that do not run have no offset left over. */
  predicate CleanWhenIdle(r: Relays) {
    && (!r.up.active ==> r.up.offset == 0)
    && (!r.down.active ==> r.down.offset == 0)
    && (!r.trigger.active ==> r.trigger.offset == 0)
  }

  /** So it is in every reachable state of the sketch. */
  lemma {:induction false} AlwaysCleanWhenIdle(r: Relays, es: seq<RelayEvent>)
    requires CleanWhenIdle(r)
    ensures CleanWhenIdle(RelayRun(r, es))
    decreases |es|
  {
    if es != [] { AlwaysCleanWhenIdle(RelayStep(r, es[0]), es[1..]); }
  }

  /** Passes of `loop` in which no command comes. */
  function ServedAt(ps: seq<Poll>): (es: seq<RelayEvent>)
    ensures |es| == |ps| && forall i :: 0 <= i < |ps| ==> es[i] == Served(ps[i].now1, ps[i].now2)
  {
    seq(|ps|, i requires 0 <= i < |ps| => Served(ps[i].now1, ps[i].now2))
  }

  function AfterPolls(r: Relays, ps: seq<Poll>): Relays { RelayRun(r, ServedAt(ps)) }

  lemma AfterPollsStep(r: Relays, ps: seq<Poll>)
    requires ps != []
    ensures AfterPolls(r, ps) == AfterPolls(Serve(r, ps[0].now1, ps[0].now2), ps[1..])
  {
    assert ServedAt(ps)[1..] == ServedAt(ps[1..]);
  }

  /** A running gate-up timer releases its relay at the first poll that finds it due, and
      not before, whatever the other timers do. */
  lemma {:induction false} UpIsReleasedWhenDue(r: Relays, from: nat, offset: u32, now: nat, ps: seq<Poll>)
    requires Runs(r.up, from, offset, now) && !r.upHigh && PollsOf(from, now, ps)
    ensures AfterPolls(r, ps).upHigh <==> FirstDue(from, offset, ps) < |ps|
    decreases |ps|
  {
    if ps != [] {
      AfterPollsStep(r, ps);
      PollDecides(r.up, from, offset, now, ps[0]);
      var r' := Serve(r, ps[0].now1, ps[0].now2);
      if RelayTimer.Due(from, offset, ps[0]) {
        UpStaysReleased(r', ps[1..]);
      } else {
        UpIsReleasedWhenDue(r', from, offset, ps[0].now2, ps[1..]);
      }
    }
  }

  lemma {:induction false} UpStaysReleased(r: Relays, ps: seq<Poll>)
    requires !r.up.active
    ensures AfterPolls(r, ps).upHigh == r.upHigh && !AfterPolls(r, ps).up.active
    decreases |ps|
  {
    if ps != [] {
      AfterPollsStep(r, ps);
      UpStaysReleased(Serve(r, ps[0].now1, ps[0].now2), ps[1..]);
    }
  }

  /** So does a running gate-down timer while gate up does not run. */
  lemma {:induction false} DownIsReleasedWhenDue(r: Relays, from: nat, offset: u32, now: nat, ps: seq<Poll>)
    requires Runs(r.down, from, offset, now) && !r.downHigh && !r.up.active && PollsOf(from, now, ps)
    ensures AfterPolls(r, ps).downHigh <==> FirstDue(from, offset, ps) < |ps|
    decreases |ps|
  {
    if ps != [] {
      AfterPollsStep(r, ps);
      PollDecides(r.down, from, offset, now, ps[0]);
      var r' := Serve(r, ps[0].now1, ps[0].now2);
      if RelayTimer.Due(from, offset, ps[0]) {
        DownStaysReleased(r', ps[1..]);
      } else {
        DownIsReleasedWhenDue(r', from, offset, ps[0].now2, ps[1..]);
      }
    }
  }

  lemma {:induction false} DownStaysReleased(r: Relays, ps: seq<Poll>)
    requires !r.up.active && !r.down.active
    ensures AfterPolls(r, ps).downHigh == r.downHigh
    decreases |ps|
  {
    if ps != [] {
      AfterPollsStep(r, ps);
      DownStaysReleased(Serve(r, ps[0].now1, ps[0].now2), ps[1..]);
    }
  }

  /** And the trigger's while neither gate runs. */
  lemma {:induction false} TriggerIsReleasedWhenDue(r: Relays, from: nat, offset: u32, now: nat, ps: seq<Poll>)
    requires Runs(r.trigger, from, offset, now) && !r.triggerHigh && !r.up.active && !r.down.active
    requires PollsOf(from, now, ps)
    ensures AfterPolls(r, ps).triggerHigh <==> FirstDue(from, offset, ps) < |ps|
    decreases |ps|
  {
    if ps != [] {
      AfterPollsStep(r, ps);
      PollDecides(r.trigger, from, offset, now, ps[0]);
      var r' := Serve(r, ps[0].now1, ps[0].now2);
      if RelayTimer.Due(from, offset, ps[0]) {
        AllStayReleased(r', ps[1..]);
      } else {
        TriggerIsReleasedWhenDue(r', from, offset, ps[0].now2, ps[1..]);
      }
    }
  }

  lemma {:induction false} AllStayReleased(r: Relays, ps: seq<Poll>)
    requires !r.up.active && !r.down.active && !r.trigger.active
    ensures AfterPolls(r, ps) == r
    decreases |ps|
  {
    if ps != [] {
      AfterPollsStep(r, ps);
      AllStayReleased(Serve(r, ps[0].now1, ps[0].now2), ps[1..]);
    }
  }

  /** After a command at true time `from` and the first `n` of those passes. */
  function Commanded(r: Relays, k: Kind, from: nat, ps: seq<Poll>, n: nat): Relays
    requires n <= |ps|
  {
    AfterPolls(RelayStep(r, Ordered(k, from)), ps[..n])
  }

  /** Ordered at true time `from`, the relay is driven LOW, and HIGH again exactly from the
      first poll after the delay on. */
  ghost predicate UpAsMeant(r: Relays, from: nat, ps: seq<Poll>) {
    forall n :: 0 <= n <= |ps| ==>
      (Commanded(r, GateUp, from, ps, n).upHigh <==> FirstMeant(from, ps) < n)
  }

  ghost predicate DownAsMeant(r: Relays, from: nat, ps: seq<Poll>) {
    forall n :: 0 <= n <= |ps| ==>
      (Commanded(r, GateDown, from, ps, n).downHigh <==> FirstMeant(from, ps) < n)
  }

  ghost predicate TriggerAsMeant(r: Relays, from: nat, ps: seq<Poll>) {
    forall n :: 0 <= n <= |ps| ==>
      (Commanded(r, GetFrame, from, ps, n).triggerHigh <==> FirstMeant(from, ps) < n)
  }

  /** In every reachable state GATE UP, ordered while its timer does not run, holds the
      relay as long as meant exactly if the deadline is polled before the wrap or lies
      beyond it; so does GATE DOWN while gate up is idle too, and GETFRAME while both are. */
  lemma IdleTimersFireAsMeantIff(es: seq<RelayEvent>, from: nat, ps: seq<Poll>)
    requires PollsOf(from, from, ps)
    ensures var r, k := RelayRun(POWER_UP, es), FirstMeant(from, ps);
      var good := k == |ps| || ps[k].now1 < RoundEnd(from) || Straddles(from);
      && (!r.up.active ==> (UpAsMeant(r, from, ps) <==> good))
      && (!r.up.active && !r.down.active ==> (DownAsMeant(r, from, ps) <==> good))
      && (!r.up.active && !r.down.active && !r.trigger.active ==> (TriggerAsMeant(r, from, ps) <==> good))
  {
    AlwaysCleanWhenIdle(POWER_UP, es);
    var r := RelayRun(POWER_UP, es);
    FirstMeantIsDueIff(from, ps);
    forall n | 0 <= n <= |ps|
      ensures !r.up.active ==>
        (Commanded(r, GateUp, from, ps, n).upHigh <==> FirstDue(from, 0, ps) < n)
      ensures !r.up.active && !r.down.active ==>
        (Commanded(r, GateDown, from, ps, n).downHigh <==> FirstDue(from, 0, ps) < n)
      ensures !r.up.active && !r.down.active && !r.trigger.active ==>
        (Commanded(r, GetFrame, from, ps, n).triggerHigh <==> FirstDue(from, 0, ps) < n)
    {
      ReleasedBy(r, from, ps, n);
    }
    var n := Max(FirstDue(from, 0, ps), FirstMeant(from, ps));
    ReleasedBy(r, from, ps, n);
  }

  /** The three relays after `n` polls. */
  lemma ReleasedBy(r: Relays, from: nat, ps: seq<Poll>, n: nat)
    requires PollsOf(from, from, ps) && CleanWhenIdle(r) && n <= |ps|
    ensures !r.up.active ==>
      (Commanded(r, GateUp, from, ps, n).upHigh <==> FirstDue(from, 0, ps) < n)
    ensures !r.up.active && !r.down.active ==>
      (Commanded(r, GateDown, from, ps, n).downHigh <==> FirstDue(from, 0, ps) < n)
    ensures !r.up.active && !r.down.active && !r.trigger.active ==>
      (Commanded(r, GetFrame, from, ps, n).triggerHigh <==> FirstDue(from, 0, ps) < n)
  {
    PollsOfPrefix(from, from, ps, n);
    FirstDuePrefix(from, 0, ps, n);
    if !r.up.active {
      UpIsReleasedWhenDue(RelayStep(r, Ordered(GateUp, from)), from, 0, from, ps[..n]);
      if !r.down.active {
        DownIsReleasedWhenDue(RelayStep(r, Ordered(GateDown, from)), from, 0, from, ps[..n]);
        if !r.trigger.active {
          TriggerIsReleasedWhenDue(RelayStep(r, Ordered(GetFrame, from)), from, 0, from, ps[..n]);
        }
      }
    }
  }

  /** The trigger's do not at power-up; they do for ever from the first GETFRAME on,
      and not before. */
  lemma {:induction false} TriggerAgreesIff(es: seq<RelayEvent>)
    ensures TriggerAgrees(RelayRun(POWER_UP, es)) <==>
      exists i :: 0 <= i < |es| && es[i].Ordered? && es[i].k == GetFrame
  {
    TriggerAgreesFrom(POWER_UP, es);
  }

  lemma {:induction false} TriggerAgreesFrom(r: Relays, es: seq<RelayEvent>)
    requires TriggerAgrees(r) || !r.trigger.active
    ensures TriggerAgrees(RelayRun(r, es)) <==>
      TriggerAgrees(r) || exists i :: 0 <= i < |es| && es[i].Ordered? && es[i].k == GetFrame
    decreases |es|
  {
    if es != [] {
      var e, tail := es[0], es[1..];
      TriggerAgreesFrom(RelayStep(r, e), tail);
      if i :| 0 <= i < |es| && es[i].Ordered? && es[i].k == GetFrame {
        if i > 0 { assert tail[i - 1] == es[i]; }
      }
      if j :| 0 <= j < |tail| && tail[j].Ordered? && tail[j].k == GetFrame {
        assert es[j + 1] == tail[j];
      }
    }
  }

  /** While the gate-up timer runs at every pass, the gate-down relay is not served,
      however long its own delay has been over. */
  lemma {:induction false} GateUpStarvesGateDown(r: Relays, es: seq<RelayEvent>)
    requires forall i :: 0 <= i < |es| ==>
      if es[i].Ordered? then es[i].k != GateDown else RelayRun(r, es[..i]).up.active
    ensures RelayRun(r, es).down == r.down && RelayRun(r, es).downHigh == r.downHigh
    decreases |es|
  {
    if es != [] {
      var e, tail := es[0], es[1..];
      assert es[..0] == [];
      var r' := RelayStep(r, e);
      forall i | 0 <= i < |tail|
        ensures if tail[i].Ordered? then tail[i].k != GateDown else RelayRun(r', tail[..i]).up.active
      {
        assert tail[i] == es[i + 1] && es[..i + 1][1..] == tail[..i];
      }
      GateUpStarvesGateDown(r', tail);
    }
  }

  // ----- Commands -----

  function Ascii(s: string): (b: seq<byte>)
    ensures |b| == |s|
  {
    seq(|s|, i requires 0 <= i < |s| => s[i] as int % 0x100)
  }

  /** `strcmp(buff, word) == 0`. */
  predicate Is(buff: Buffer, word: string)
    requires |word| < 24
  {
    buff[..|word|] == Ascii(word) && buff[|word|] == 0
  }

  /** `strncmp(buff, word, strlen(word)) == 0`. */
  predicate Begins(buff: Buffer, word: string)
    requires |word| < 24
  {
    buff[..|word|] == Ascii(word)
  }

  /** Device number, addresses and remote host, to be stored in EEPROM. */
  predicate IsSetting(b: Buffer) {
    || Begins(b, "NO") || Begins(b, "MC") || Begins(b, "LI") || Begins(b, "SM")
    || Begins(b, "GW") || Begins(b, "DS") || Begins(b, "RH") || Begins(b, "RP")
  }

  /** The order of the comparisons in `ProcPacket` and `commandProc`. */
  function Classify(b: Buffer): Kind {
    if Is(b, "GETDEVICEINFO") then DeviceInfo
    else if Begins(b, "ACK_R") then Confirmation
    else if IsSetting(b) then Save
    else if Is(b, "GATE UP") then GateUp
    else if Is(b, "GATE DOWN") then GateDown
    else if Is(b, "GETFRAME") then GetFrame
    else if Is(b, "POWER ON") then PowerOn
    else if Is(b, "POWER OFF") then PowerOff
    else Other
  }

  /** What a buffer asks for, once it is found complete. */
  function KindOf(buff: Buffer, beyond: seq<byte>): Kind {
    Classify(Received(CommandIn(buff, beyond)))
  }

  lemma PaddedCommand(b: Buffer, command: seq<byte>)
    requires |command| <= 24 && b[..|command|] == command
    requires forall i :: |command| <= i < 24 ==> b[i] == 0
    ensures b == Received(command)
  {
    assert forall i :: 0 <= i < |command| ==> b[i] == b[..|command|][i];
  }

  /** Two words that differ inside `b` cannot both begin it. */
  lemma DiffersAt(b: Buffer, word: string, i: nat)
    requires |word| < 24 && i < |word| && b[i] != word[i] as int % 0x100
    ensures !Begins(b, word) && !Is(b, word)
  {
    assert Ascii(word)[i] == word[i] as int % 0x100;
    assert b[..|word|][i] == b[i];
  }

  lemma ReceivedIs(word: string)
    requires |word| < 24
    ensures var b := Received(Ascii(word));
      && Is(b, word) && Begins(b, word) && b[|word|] == 0
      && forall i :: 0 <= i < |word| ==> b[i] == word[i] as int % 0x100
  {
    var b := Received(Ascii(word));
    assert b[..|word|] == Ascii(word);
  }

  lemma NoSetting(b: Buffer)
    requires b[0] == 71 && (b[1] == 65 || b[1] == 69)
    ensures !IsSetting(b) && !Begins(b, "ACK_R")
  {
    DiffersAt(b, "ACK_R", 0);
    DiffersAt(b, "NO", 0); DiffersAt(b, "MC", 0); DiffersAt(b, "LI", 0); DiffersAt(b, "SM", 0);
    DiffersAt(b, "GW", 1); DiffersAt(b, "DS", 0); DiffersAt(b, "RH", 0); DiffersAt(b, "RP", 0);
  }

  lemma NoSettingP(b: Buffer)
    requires b[0] == 80
    ensures !IsSetting(b) && !Begins(b, "ACK_R")
  {
    DiffersAt(b, "ACK_R", 0);
    DiffersAt(b, "NO", 0); DiffersAt(b, "MC", 0); DiffersAt(b, "LI", 0); DiffersAt(b, "SM", 0);
    DiffersAt(b, "GW", 0); DiffersAt(b, "DS", 0); DiffersAt(b, "RH", 0); DiffersAt(b, "RP", 0);
  }

  /** The words that are commands as a whole. */
  datatype WordOf = WordOf(word: string, kind: Kind)

  const COMMANDS: seq<WordOf> := [
    WordOf("GETDEVICEINFO", DeviceInfo), WordOf("GATE UP", GateUp), WordOf("GATE DOWN", GateDown),
    WordOf("GETFRAME", GetFrame), WordOf("POWER ON", PowerOn), WordOf("POWER OFF", PowerOff)]

  lemma CommandIsClassified(i: nat)
    requires i < |COMMANDS|
    ensures Classify(Received(Ascii(COMMANDS[i].word))) == COMMANDS[i].kind
  {
    match i
    case 0 => InfoAndUp();
    case 1 => InfoAndUp();
    case 2 => DownWord();
    case 3 => FrameWord();
    case _ => PowerWords();
  }

  lemma InfoAndUp()
    ensures Classify(Received(Ascii("GETDEVICEINFO"))) == DeviceInfo
    ensures Classify(Received(Ascii("GATE UP"))) == GateUp
  {
    ReceivedIs("GETDEVICEINFO");
    ReceivedIs("GATE UP");
    var b := Received(Ascii("GATE UP"));
    DiffersAt(b, "GETDEVICEINFO", 1);
    NoSetting(b);
  }

  lemma DownWord()
    ensures Classify(Received(Ascii("GATE DOWN"))) == GateDown
  {
    ReceivedIs("GATE DOWN");
    var b := Received(Ascii("GATE DOWN"));
    DiffersAt(b, "GETDEVICEINFO", 1);
    NoSetting(b);
    DiffersAt(b, "GATE UP", 5);
  }

  lemma FrameWord()
    ensures Classify(Received(Ascii("GETFRAME"))) == GetFrame
  {
    ReceivedIs("GETFRAME");
    var b := Received(Ascii("GETFRAME"));
    DiffersAt(b, "GETDEVICEINFO", 3);
    NoSetting(b);
    DiffersAt(b, "GATE UP", 1);
    DiffersAt(b, "GATE DOWN", 1);
  }

  lemma PowerWords()
    ensures Classify(Received(Ascii("POWER ON"))) == PowerOn
    ensures Classify(Received(Ascii("POWER OFF"))) == PowerOff
  {
    ReceivedIs("POWER ON");
    ReceivedIs("POWER OFF");
    NotAGate(Received(Ascii("POWER ON")));
    NotAGate(Received(Ascii("POWER OFF")));
    DiffersAt(Received(Ascii("POWER OFF")), "POWER ON", 7);
  }

  lemma NotAGate(b: Buffer)
    requires b[0] == 80
    ensures !Is(b, "GETDEVICEINFO") && !Is(b, "GATE UP") && !Is(b, "GATE DOWN") && !Is(b, "GETFRAME")
    ensures !IsSetting(b) && !Begins(b, "ACK_R")
  {
    DiffersAt(b, "GETDEVICEINFO", 0); DiffersAt(b, "GATE UP", 0); DiffersAt(b, "GATE DOWN", 0);
    DiffersAt(b, "GETFRAME", 0);
    NoSettingP(b);
  }

  /** A buffer is a setting exactly if it begins with one of NO, MC, LI, SM, GW, DS, RH and RP. */
  lemma SettingsAreSavedIff(b: Buffer)
    ensures Classify(b) == Save <==>
      (b[0], b[1]) in {(78, 79), (77, 67), (76, 73), (83, 77), (71, 87), (68, 83), (82, 72), (82, 80)}
  {
    SettingIff(b);
    if IsSetting(b) { NeitherInfoNorAck(b); }
  }

  lemma SettingIff(b: Buffer)
    ensures IsSetting(b) <==>
      (b[0], b[1]) in {(78, 79), (77, 67), (76, 73), (83, 77), (71, 87), (68, 83), (82, 72), (82, 80)}
  {
    FirstLetters(b);
    TwoLetters(b, "GW"); TwoLetters(b, "DS"); TwoLetters(b, "RH"); TwoLetters(b, "RP");
  }

  lemma FirstLetters(b: Buffer)
    ensures Begins(b, "NO") || Begins(b, "MC") || Begins(b, "LI") || Begins(b, "SM") <==>
      (b[0], b[1]) in {(78, 79), (77, 67), (76, 73), (83, 77)}
  {
    TwoLetters(b, "NO"); TwoLetters(b, "MC"); TwoLetters(b, "LI"); TwoLetters(b, "SM");
  }

  lemma NeitherInfoNorAck(b: Buffer)
    requires b[0] != 65 && (b[0] != 71 || b[1] != 69)
    ensures !Is(b, "GETDEVICEINFO") && !Begins(b, "ACK_R")
  {
    DiffersAt(b, "GETDEVICEINFO", if b[0] != 71 then 0 else 1);
    DiffersAt(b, "ACK_R", 0);
  }

  lemma TwoLetters(b: Buffer, word: string)
    requires |word| == 2
    ensures Begins(b, word) <==> b[0] == word[0] as int % 0x100 && b[1] == word[1] as int % 0x100
  {
    assert b[..2] == [b[0], b[1]] && Ascii(word) == [word[0] as int % 0x100, word[1] as int % 0x100];
  }

  /** A packet with this word in a frame, behind up to `23 - |word| - 2` bytes other than zero. */
  function Packet(before: seq<byte>, word: string): Buffer {
    Received(before + Frame(Ascii(word)) + [])
  }

  /** Every command in a frame is understood as such, whatever came before it. */
  lemma CommandIsUnderstood(before: seq<byte>, i: nat)
    requires i < |COMMANDS| && |before| + |COMMANDS[i].word| + 2 <= 23 && 0 !in before
    ensures ETX in Packet(before, COMMANDS[i].word)
    ensures KindOf(Packet(before, COMMANDS[i].word), []) == COMMANDS[i].kind
  {
    var word := Ascii(COMMANDS[i].word);
    var start := before + Frame(word);
    var rest := (Received(start + []) + [])[|start|..];
    assert rest[0] == 0;
    assert CString(rest) == [];
    PrintableWord(i);
    FrameRoundTrip(before, word, [], []);
    CommandIsClassified(i);
  }

  lemma PrintableWord(i: nat)
    requires i < |COMMANDS|
    ensures forall k :: 0 <= k < |Ascii(COMMANDS[i].word)| ==> Ascii(COMMANDS[i].word)[k] >= 32
  {
  }

  /** An ACK_R is understood whatever follows it in its frame. */
  lemma AckIsUnderstood(tail: seq<byte>)
    requires |tail| <= 16 && forall i :: 0 <= i < |tail| ==> tail[i] > 3
    ensures KindOf(Received([] + Frame(Ascii("ACK_R") + tail) + []), []) == Confirmation
  {
    var word := Ascii("ACK_R") + tail;
    var rest := (Received([] + Frame(word) + []) + [])[|[] + Frame(word)|..];
    assert CString(rest) == [];
    assert forall k :: 0 <= k < |word| ==> word[k] > 3;
    FrameRoundTrip([], word, [], []);
    var b := Received(word);
    assert b[..5] == Ascii("ACK_R");
    DiffersAt(b, "GETDEVICEINFO", 0);
  }

  /** What the commands do to the pins, where true is HIGH, which releases a relay, and to
      the timers; the others do nothing to them. */
  lemma CommandsDrivePins(r: Relays, now: nat)
    ensures var m: u32 := now % 0x1_0000_0000;
      && Obey(r, GateUp, now) == r.(upHigh := false, up := r.up.(active := true, start := m))
      && Obey(r, GateDown, now) == r.(downHigh := false, down := r.down.(active := true, start := m))
      && Obey(r, GetFrame, now) == r.(triggerHigh := false, trigger := r.trigger.(active := true, start := m))
      && Obey(r, PowerOn, now) == r.(dc5vHigh := false, dc12vHigh := false)
      && Obey(r, PowerOff, now) == r.(dc5vHigh := true, dc12vHigh := true)
    ensures forall k :: k in {DeviceInfo, Confirmation, Save, Other} ==> Obey(r, k, now) == r
  {
  }

  function React(r: Reply, k: Kind, m: u32): Reply {
    if k == DeviceInfo then OnInfo(r, m) else if k == Confirmation then OnAckR(r) else OnCommand(r, m)
  }

  /** That is a step of the reply protocol. */
  lemma ReactIsStep(s: ReplyProtocol.Run, k: Kind, t: nat)
    ensures React(s.reply, k, Millis(t)) ==
      Step(s, if k == DeviceInfo then InfoRequest(t) else if k == Confirmation then AckR(t)
              else ReplyProtocol.Command(t)).reply
  {
  }

  class GateController {
    const recvRealBuff: array<byte>
    var reply: Reply
    var up: Timer
    var down: Timer
    var trigger: Timer
    var upHigh: bool
    var downHigh: bool
    var triggerHigh: bool
    var dc5vHigh: bool
    var dc12vHigh: bool
    var saved: seq<seq<byte>>
    var repliesSent: nat

    ghost function State(): Relays
      reads this
    {
      Relays(up, down, trigger, upHigh, downHigh, triggerHigh, dc5vHigh, dc12vHigh)
    }

    /** Between packets the command buffer is clear and the gates agree. */
    ghost predicate Valid()
      reads this, recvRealBuff
    {
      && recvRealBuff.Length == 24 && (forall i :: 0 <= i < 24 ==> recvRealBuff[i] == 0)
      && GatesAgree(State())
    }

    constructor ()
      ensures Valid() && State() == POWER_UP && fresh(recvRealBuff)
      ensures reply == Initial(0).reply && repliesSent == 0
    {
      recvRealBuff := new byte[24](_ => 0);
      reply, repliesSent, saved := Reply(0, true, 0, 0, 0), 0, [];
      up, down, trigger := IDLE, IDLE, IDLE;
      upHigh, downHigh, triggerHigh, dc5vHigh, dc12vHigh := true, true, false, true, true;
    }

    /** The command arrives in a cleared buffer. */
    method TakeCommand(buff: Buffer, beyond: seq<byte>) returns (command: Buffer)
      requires recvRealBuff.Length == 24 && (forall i :: 0 <= i < 24 ==> recvRealBuff[i] == 0)
      modifies recvRealBuff
      ensures command == Received(CommandIn(buff, beyond))
    {
      ghost var c := GetCommand(buff, beyond, recvRealBuff);
      command := recvRealBuff[..];
      PaddedCommand(command, c);
    }

    method Dispatch(command: Buffer, t1: nat, t2: nat)
      modifies this`reply, this`up, this`down, this`trigger, this`upHigh, this`downHigh, this`triggerHigh,
               this`dc5vHigh, this`dc12vHigh, this`saved
      ensures reply == React(old(reply), Classify(command), Millis(t2))
      ensures State() == Obey(old(State()), Classify(command), t1)
      ensures saved == old(saved) + if Classify(command) == Save then [command] else []
    {
      if Is(command, "GETDEVICEINFO") {
        reply := reply.(sendCount := 2);
        ReplyInit(t2);
      } else if Begins(command, "ACK_R") {
        reply := reply.(sendCount := 0, acked := true);
      } else {
        CommandProc(command, t1);
        reply := reply.(sendCount := 0);
        ReplyInit(t2);
      }
    }

    method ReplyInit(now: nat)
      modifies this`reply
      ensures reply == Init(old(reply), Millis(now))
    {
      reply := reply.(previous := Wrap32(Millis(now) - REPLY_PERIOD), reqCount := 0, offset := 0, acked := false);
    }

    method ClearBuffer()
      requires recvRealBuff.Length == 24
      modifies recvRealBuff
      ensures forall i :: 0 <= i < 24 ==> recvRealBuff[i] == 0
    {
      for i := 0 to 24
        invariant forall k :: 0 <= k < i ==> recvRealBuff[k] == 0
      {
        recvRealBuff[i] := 0;
      }
    }

    /** `commandProc`; the settings commands only record what they would store. */
    method CommandProc(b: Buffer, now: nat)
      requires !Is(b, "GETDEVICEINFO") && !Begins(b, "ACK_R")
      modifies this`up, this`down, this`trigger, this`upHigh, this`downHigh, this`triggerHigh,
               this`dc5vHigh, this`dc12vHigh, this`saved
      ensures State() == Obey(old(State()), Classify(b), now)
      ensures saved == old(saved) + if Classify(b) == Save then [b] else []
    {
      if IsSetting(b) {
        saved := saved + [b];
      } else if Is(b, "GATE UP") {
        upHigh := false;
        up := up.(start := Millis(now), active := true);
      } else if Is(b, "GATE DOWN") {
        downHigh := false;
        down := down.(start := Millis(now), active := true);
      } else if Is(b, "GETFRAME") {
        triggerHigh := false;
        trigger := trigger.(start := Millis(now), active := true);
      } else if Is(b, "POWER ON") {
        dc5vHigh, dc12vHigh := false, false;
      } else if Is(b, "POWER OFF") {
        dc5vHigh, dc12vHigh := true, true;
      }
    }

    /** A complete packet, from `getCommand` to `clearBuffer`. */
    method Execute(buff: Buffer, beyond: seq<byte>, t1: nat, t2: nat)
      requires Valid()
      modifies this`reply, this`up, this`down, this`trigger, this`upHigh, this`downHigh, this`triggerHigh,
               this`dc5vHigh, this`dc12vHigh, this`saved, recvRealBuff
      ensures Valid()
      ensures reply == React(old(reply), KindOf(buff, beyond), Millis(t2))
      ensures State() == Obey(old(State()), KindOf(buff, beyond), t1)
      ensures saved == old(saved) +
        if KindOf(buff, beyond) == Save then [Received(CommandIn(buff, beyond))] else []
    {
      var command := TakeCommand(buff, beyond);
      Dispatch(command, t1, t2);
      ObeyKeepsGates(old(State()), KindOf(buff, beyond), t1);
      ClearBuffer();
    }

    /** `ProcPacket`, with the clock read at `t1` by the command and at `t2` by
        `ReplyInit`. */
    method ProcPacket(buff: Buffer, beyond: seq<byte>, t1: nat, t2: nat)
      requires Valid()
      modifies this, recvRealBuff
      ensures Valid() && repliesSent == old(repliesSent)
      ensures if ETX in buff then
          && reply == React(old(reply), KindOf(buff, beyond), Millis(t2))
          && State() == Obey(old(State()), KindOf(buff, beyond), t1)
          && saved == old(saved) +
               if KindOf(buff, beyond) == Save then [Received(CommandIn(buff, beyond))] else []
        else
          reply == old(reply) && State() == old(State()) && saved == old(saved)
    {
      var complete := IsComplete(buff);
      if complete {
        Execute(buff, beyond, t1, t2);
      }
    }

    /** `SendReply`. */
    method SendReply() returns (sent: bool)
      modifies this`reply, this`repliesSent
      ensures (reply, sent) == Send(old(reply))
      ensures repliesSent == old(repliesSent) + if sent then 1 else 0
    {
      if reply.sendCount < MAX_ACK_SEND {
        reply := reply.(sendCount := reply.sendCount + 1);
        repliesSent := repliesSent + 1;
        sent := true;
      } else {
        reply := reply.(acked := true, sendCount := 0);
        sent := false;
      }
    }

    /** The reply block of `loop`. */
    method ReplyBlock(now1: nat, now2: nat, now3: nat) returns (sent: bool)
      requires Valid()
      modifies this`reply, this`repliesSent
      ensures Valid() && State() == old(State())
      ensures (reply, sent) == ReplyProtocol.Poll(old(reply), Millis(now1), Millis(now2), Millis(now3))
      ensures repliesSent == old(repliesSent) + if sent then 1 else 0
    {
      sent := false;
      if !reply.acked {
        if reply.reqCount < REPLY_MAX_REQ - 1 {
          if Millis(now1) < reply.previous {
            reply := reply.(offset := Wrap32(0xFFFF_FFFE - reply.previous), previous := 0);
          }
          if Wrap32(Millis(now2) - reply.previous) > Wrap32(REPLY_PERIOD - reply.offset) {
            reply := reply.(offset := 0, previous := Millis(now3));
            sent := SendReply();
            reply := reply.(reqCount := reply.reqCount + 1);
          }
        }
      }
    }

    /** One timer of `RelayProc`. */
    static method PollTimer(t0: Timer, now1: nat, now2: nat) returns (t: Timer, fires: bool)
      requires t0.active
      ensures (t, fires) == Polled(t0, now1, now2)
    {
      t := t0;
      if Millis(now1) < t.start {
        t := t.(offset := Wrap32(0xFFFF_FFFE - t.start), start := 0);
      }
      fires := Wrap32(Millis(now2) - t.start) > Wrap32(DELAY - t.offset);
      if fires {
        t := Timer(false, 0, 0);
      }
    }

    /** The relay block of `loop` and `RelayProc`. */
    method RelayBlock(now1: nat, now2: nat)
      requires Valid()
      modifies this`up, this`down, this`trigger, this`upHigh, this`downHigh, this`triggerHigh
      ensures Valid() && State() == Serve(old(State()), now1, now2)
    {
      var fires;
      if up.active {
        up, fires := PollTimer(up, now1, now2);
        if fires { upHigh := true; }
      } else if down.active {
        down, fires := PollTimer(down, now1, now2);
        if fires { downHigh := true; }
      } else if trigger.active {
        trigger, fires := PollTimer(trigger, now1, now2);
        if fires { triggerHigh := true; }
      }
    }
  }
}
