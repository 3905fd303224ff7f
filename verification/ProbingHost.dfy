/** The mDNS host of one interface in memory, with the timers and the history that its functions work on. */
module ProbingHost {
  import opened Bytes
  import opened Probing

  lemma CompleteRests(h: Host, sent: bool, now: nat)
    requires h.phase.Complete?
    ensures ProbeAndAnnounce(h, sent, now) == h
  {
  }

  class Responder {
    var phase: Phase
    var sentNum: nat
    var limited: bool
    const times: array<nat>
    var index: nat
    var conflicts: nat
    /** Due times of the pending `mdns_probe_and_announce` timers. */
    var pending: seq<nat>
    var log: seq<Entry>

    ghost function Value(): Host
      reads this, times
    {
      Host(phase, sentNum, limited, times[..], index, conflicts, pending, log)
    }

    ghost predicate Valid()
      reads this, times
    {
      Shaped(Value())
    }

    constructor ()
      ensures Valid() && fresh(times) && Value() == Begin(0).host
    {
      phase, sentNum, limited, index, conflicts, pending, log := Off, 0, false, 0, 0, [], [];
      times := new nat[CONFLICTS](_ => 0);
      new;
      assert times[..] == seq(CONFLICTS, i => 0);
    }

    method CancelTimer()
      modifies this`pending
      ensures pending == Untimeout(old(pending))
    {
      if pending != [] {
        pending := pending[1..];
      }
    }

    /** `mdns_conflict_save_time`. */
    method SaveConflictTime(now: nat)
      requires Valid()
      modifies this`limited, this`index, this`conflicts, this`log, times
      ensures Valid() && Value() == SaveConflict(old(Value()), now)
    {
      conflicts := (conflicts + 1) % U8_SIZE;
      times[index] := now % U32_SIZE;
      if conflicts >= CONFLICTS {
        var index2 := (index + 1) % CONFLICTS;
        var diff := (times[index] - times[index2]) % U32_SIZE;
        if diff < CONFLICT_WINDOW {
          limited := true;
        }
      }
      index := (index + 1) % CONFLICTS;
      log := log + [Conflicted(now)];
    }

    /** `mdns_probe_conflict`. */
    method OnProbeConflict(now: nat)
      requires Valid()
      modifies this`limited, this`index, this`conflicts, this`log, this`pending, times
      ensures Valid() && Value() == ProbeConflict(old(Value()), now)
    {
      SaveConflictTime(now);
      CancelTimer();
    }

    /** `mdns_resp_restart_delay`. */
    method RestartDelay(delay: nat, now: nat)
      requires Valid()
      modifies this`phase, this`sentNum, this`pending, this`log
      ensures Valid() && Value() == Restart(old(Value()), delay, now)
    {
      CancelTimer();
      sentNum := 0;
      phase := ProbeWait;
      if limited {
        pending := pending + [now + CONFLICT_TIMEOUT];
      } else {
        pending := pending + [now + delay];
      }
      log := log + [Restarted(now, limited)];
    }

    /** `mdns_resp_announce`. */
    method AnnounceAll(now: nat)
      requires Valid()
      modifies this`log
      ensures Valid() && Value() == Announce(old(Value()), now)
    {
      if phase.Announcing? || phase.Complete? {
        log := log + [Announced(now)];
      }
    }

    /** The probing branch of `mdns_probe_and_announce`. */
    method ProbeOnce(sent: bool, now: nat)
      requires Valid() && (phase.Off? || phase.ProbeWait? || phase.Probing?)
      modifies this`phase, this`sentNum, this`pending, this`log
      ensures Valid() && Value() == ProbeAndAnnounce(old(Value()), sent, now)
      ensures log == old(log) + if sent then [Probed(now)] else []
    {
      if sent {
        phase := Probing.Phase.Probing;
        sentNum := (sentNum + 1) % U8_SIZE;
        log := log + [Probed(now)];
      }
      if sentNum >= PROBE_COUNT {
        phase := AnnounceWait;
        sentNum := 0;
      }
      if sentNum > 0 && limited {
        pending := pending + [now + CONFLICT_TIMEOUT];
      } else {
        pending := pending + [now + PROBE_DELAY];
      }
    }

    /** The announcing branch of `mdns_probe_and_announce`. */
    method AnnounceOnce(now: nat)
      requires Valid() && (phase.AnnounceWait? || phase.Announcing?)
      modifies this`phase, this`sentNum, this`limited, this`pending, this`log
      ensures Valid() && forall sent :: Value() == ProbeAndAnnounce(old(Value()), sent, now)
      ensures old(phase).Announcing? || old(sentNum) == 0 ==> log == old(log) + [Announced(now)]
    {
      if sentNum == 0 {
        phase := Announcing;
        limited := false;
      }
      AnnounceAll(now);
      sentNum := (sentNum + 1) % U8_SIZE;
      if sentNum >= ANNOUNCE_COUNT {
        phase := Complete;
        sentNum := 0;
      } else {
        pending := pending + [now + ANNOUNCE_DELAY];
      }
    }

    /** `mdns_probe_and_announce`, called when its timer is due. */
    method OnTimer(sent: bool, now: nat)
      requires Valid() && pending != [] && pending[0] <= now
      modifies this`phase, this`sentNum, this`limited, this`pending, this`log
      ensures Valid() && State(Value(), now) == Step(State(old(Value()), now), Fire(sent))
      ensures old(phase).Announcing? || (old(phase).AnnounceWait? && old(sentNum) == 0) ==>
                log == old(log) + [Announced(now)]
      ensures old(phase).ProbeWait? || old(phase).Probing? ==> log == old(log) + if sent then [Probed(now)] else []
    {
      hide ProbeAndAnnounce;
      ghost var h := Value();
      pending := pending[1..];
      assert Value() == h.(pending := h.pending[1..]);
      match phase
      case Off | ProbeWait | Probing => ProbeOnce(sent, now);
      case AnnounceWait | Announcing => AnnounceOnce(now);
      case Complete => CompleteRests(Value(), sent, now);
    }

    /** A response with one of our names, while probing or afterwards (`mdns_handle_response`). */
    method OnConflictingAnswer(delay: nat, now: nat)
      requires Valid()
      modifies this, times
      ensures Valid() && State(Value(), now) == Step(State(old(Value()), now), ConflictingAnswer(delay))
      ensures old(phase).Announcing? || old(phase).Complete? ==>
                phase.ProbeWait? && log == old(log) + [Restarted(now, limited)]
                && pending == Untimeout(old(pending)) + [now + if limited then 5000 else delay]
    {
      if phase.Probing? || phase.AnnounceWait? {
        OnProbeConflict(now);
      } else if phase.Announcing? || phase.Complete? {
        RestartDelay(delay, now);
      }
    }

    /**
      `mdns_handle_question`: tiebreaking for a probe, whose outcome is given, and the gate in
      front of the answer.
     */
    method OnQuestion(isProbe: bool, loses: bool, now: nat) returns (answered: bool)
      requires Valid()
      modifies this, times
      ensures Valid()
      ensures State(Value(), now) ==
              Step(Step(State(old(Value()), now), IncomingProbe(isProbe && loses)), IncomingQuestion)
      ensures answered <==> old(phase).Announcing? || old(phase).Complete?
    {
      if phase.Probing? || phase.AnnounceWait? {
        if isProbe && loses {
          SaveConflictTime(now);
          RestartDelay(TIEBREAK_DELAY, now);
        }
      }
      if !phase.Complete? && !phase.Announcing? {
        return false;
      }
      log := log + [Answered(now)];
      return true;
    }
  }
}
