/**
 The UDPing client: src/clientsession.cc and the send loop of src/client.cc.

 Clock readings and random GUIDs are inputs.  Three fields of a sent packet are auxiliary: the place of
 its port in the list (`slot`), its `index` in the unbounded sequence of that port, and the `epoch` of
 the GUID it carries.
 */
module Clients {
  import opened SeqWindow
  import opened MacLists

  type Guid = string

  datatype Sent = Sent(port: int, mac: Mac, guid: Guid, seqNum: SeqNum, slot: nat, index: nat, epoch: nat)

  // ---------- Rollover ----------

  /** A session's rollover state: the interval it last saw, 0 before any, and how often it rolled over. */
  datatype Clock = Clock(last: nat, epoch: nat)

  /** The start of the measurement interval of `now`: intervals begin at 0, and one after the other. */
  function Bucket(now: nat, interval: int): nat
    requires interval > 0
  {
    if now < interval then 0
    else Bucket(now - interval, interval) + interval
  }

  /** It is the multiple of the interval at or before `now`, and the next one is after it. */
  lemma {:induction false} BucketMeaning(now: nat, interval: int)
    requires interval > 0
    ensures Bucket(now, interval) == now - now % interval == interval * (now / interval)
    ensures Bucket(now, interval) <= now < Bucket(now, interval) + interval
  {
    if now < interval {
      DivModUnique(now, interval, 0, now);
    } else {
      BucketMeaning(now - interval, interval);
      ShiftedQuotient(now - interval, interval);
    }
  }

  lemma ShiftedQuotient(x: int, m: int)
    requires m > 0
    ensures (x + m) / m == x / m + 1 && (x + m) % m == x % m && m * ((x + m) / m) == m * (x / m) + m
  {
    assert m * (x / m + 1) == m * (x / m) + m;
    DivModUnique(x + m, m, x / m + 1, x % m);
  }

  lemma SameBucketIff(a: nat, b: nat, interval: int)
    requires interval > 0
    ensures Bucket(a, interval) == Bucket(b, interval) <==> a / interval == b / interval
  {
    BucketMeaning(a, interval);
    BucketMeaning(b, interval);
    DivModUnique(Bucket(a, interval), interval, a / interval, 0);
    DivModUnique(Bucket(b, interval), interval, b / interval, 0);
  }

  function Roll(c: Clock, now: nat, interval: int): Clock
    requires interval > 0
  {
    var cur := Bucket(now, interval);
    var last := if c.last == 0 then cur else c.last;
    if cur == last then Clock(last, c.epoch) else Clock(cur, c.epoch + 1)
  }

  function ClockAfter(times: seq<nat>, interval: int): Clock
    requires interval > 0
  {
    if times == [] then Clock(0, 0)
    else Roll(ClockAfter(times[..|times| - 1], interval), times[|times| - 1], interval)
  }

  /** The epoch of the `k`-th send of a port whose rollovers happen at `times`. */
  function EpochAt(times: seq<nat>, interval: int, k: nat): nat
    requires interval > 0 && k < |times|
  {
    ClockAfter(times[..k + 1], interval).epoch
  }

  ghost predicate Monotone(times: seq<nat>) {
    forall i, j | 0 <= i <= j < |times| :: times[i] <= times[j]
  }

  // ---------- Sessions ----------

  /** Where the next-hop cursor stands after `sent` packets: past the end at first. */
  function Cursor(sent: nat, m: nat): nat
    requires m > 0
  {
    if sent == 0 then m else (sent - 1) % m
  }

  class ClientSession {
    const port: int
    const interval: int
    const dstMacList: MacList
    var seqNum: SeqNum
    var guid: Guid
    var lastRollover: nat
    /** Auxiliary: its place in the list, how many packets it has sent, and how often it rolled over. */
    const slot: nat
    var sent: nat
    var epoch: nat
    /** The clock readings of its rollovers, and the GUIDs it has used. */
    ghost var times: seq<nat>
    ghost var guids: seq<Guid>

    ghost predicate Valid()
      reads this, dstMacList
    {
      RolloverValid() && SendValid()
    }

    ghost predicate RolloverValid()
      reads `lastRollover, `epoch, `times, `guids, `guid
    {
      && interval > 0
      && Clock(lastRollover, epoch) == ClockAfter(times, interval)
      && epoch == |guids| - 1 && guid == guids[epoch]
    }

    ghost predicate SendValid()
      reads `seqNum, `sent, dstMacList
    {
      && dstMacList.owner == slot && dstMacList.Valid() && dstMacList.numMacs > 0
      && seqNum == Wrap(sent)
      && dstMacList.curMac == Cursor(sent, dstMacList.numMacs)
    }

    /** A session that has not sent yet. */
    ghost predicate IsNew(port: int, macs: seq<Mac>, interval: int, guid: Guid)
      reads this, dstMacList
    {
      && this.port == port && this.interval == interval && dstMacList.macs == macs
      && times == [] && guids == [guid] && sent == 0
    }

    constructor (port: int, dstMacs: string, interval: int, guid: Guid, slot: nat)
      requires interval > 0 && dstMacs != "" && Parse(dstMacs).Some?
      ensures Valid() && fresh(dstMacList) && this.slot == slot
      ensures IsNew(port, Parse(dstMacs).value, interval, guid)
    {
      this.port, this.interval, this.slot := port, interval, slot;
      dstMacList := new MacList(dstMacs, slot);
      lastRollover := 0;
      seqNum := 0;
      this.guid := guid;
      times, guids, sent, epoch := [], [guid], 0, 0;
    }

    /** The rollover test at `now`, and the reset that follows when it holds. */
    method RolloverAndReset(now: nat, newGuid: Guid)
      requires Valid()
      modifies `lastRollover, `epoch, `times, `guids, `guid
      ensures Valid() && times == old(times) + [now]
      ensures guids == if epoch == old(epoch) then old(guids) else old(guids) + [newGuid]
    {
      var rolled := Rollover(now);
      if rolled {
        Reset(newGuid);
      }
      times := times + [now];
      assert times[..|times| - 1] == old(times);
    }

    method Rollover(now: nat) returns (rolled: bool)
      requires interval > 0
      modifies this`lastRollover
      ensures forall epoch: nat :: Roll(Clock(old(lastRollover), epoch), now, interval)
                                   == Clock(lastRollover, if rolled then epoch + 1 else epoch)
    {
      var curTime := now;
      curTime := curTime - curTime % interval;
      BucketMeaning(now, interval);
      if lastRollover == 0 {
        lastRollover := curTime;
      }
      if curTime == lastRollover {
        return false;
      }
      lastRollover := curTime;
      return true;
    }

    method Reset(newGuid: Guid)
      modifies this`guid, this`guids, this`epoch
      ensures guid == newGuid && guids == old(guids) + [newGuid] && epoch == old(epoch) + 1
    {
      guid := newGuid;
      epoch := epoch + 1;
      guids := guids + [newGuid];
    }

    /** `sendPingPacket` and the `increment` that follows it. */
    method SendAndIncrement() returns (p: Sent)
      requires Valid()
      modifies this`seqNum, this`sent, dstMacList`curMac
      ensures Valid() && sent == old(sent) + 1
      ensures p == Sent(port, dstMacList.macs[old(sent) % dstMacList.numMacs], guid, Wrap(old(sent)), slot, old(sent),
                        epoch)
    {
      CursorStep(sent, dstMacList.numMacs);
      var mac := dstMacList.NextMac();
      assert dstMacList.curMac == sent % dstMacList.numMacs;
      p := Sent(port, mac.value, guid, seqNum, slot, sent, epoch);
      Increment();
      WrapNext(sent);
      sent := sent + 1;
    }

    method Increment()
      modifies this`seqNum
      ensures seqNum == Wrap(old(seqNum) + 1)
    {
      seqNum := Wrap(seqNum + 1);
    }
  }

  lemma WrapNext(n: nat)
    ensures Wrap(Wrap(n) + 1) == Wrap(n + 1)
  {
  }

  lemma CursorStep(sent: nat, m: nat)
    requires m > 0
    ensures Cursor(sent + 1, m) == sent % m == if Cursor(sent, m) + 1 >= m then 0 else Cursor(sent, m) + 1
  {
    if sent > 0 {
      var r, q := (sent - 1) % m, (sent - 1) / m;
      assert sent == m * q + (r + 1);
      if r + 1 < m {
        DivModUnique(sent, m, q, r + 1);
      } else {
        assert m * q + m == m * (q + 1);
        DivModUnique(sent, m, q + 1, 0);
      }
    }
  }

  lemma DivModUnique(x: int, m: int, q: int, r: int)
    requires m > 0 && x == m * q + r && 0 <= r < m
    ensures x / m == q && x % m == r
  {
    var q', r' := x / m, x % m;
    assert x == m * q' + r';
    if q < q' { MulStep(m, q, q'); }
    if q' < q { MulStep(m, q', q); }
  }

  lemma MulStep(m: int, a: int, b: int)
    requires m > 0 && a < b
    ensures m * a + m <= m * b
    decreases b - a
  {
    if b > a + 1 {
      MulStep(m, a, b - 1);
    }
    assert m * b == m * (b - 1) + m;
  }

  class ClientSessionList {
    const sessions: seq<ClientSession>
    var curSession: nat
    ghost const Repr: set<object>

    ghost predicate Valid()
      reads this, Repr
    {
      && this !in Repr && curSession < |sessions|
      && (forall j | 0 <= j < |sessions| :: sessions[j] in Repr && sessions[j].dstMacList in Repr)
      && (forall j | 0 <= j < |sessions| :: sessions[j].slot == j && sessions[j].Valid())
    }

    /** One session for each port; `guids` are the GUIDs first generated. */
    constructor (ports: seq<int>, dstMacs: string, interval: int, guids: seq<Guid>)
      requires ports != [] && |guids| == |ports| && interval > 0 && dstMacs != "" && Parse(dstMacs).Some?
      ensures Valid() && fresh(Repr) && curSession == 0 && |sessions| == |ports|
      ensures forall j | 0 <= j < |ports| :: sessions[j].IsNew(ports[j], Parse(dstMacs).value, interval, guids[j])
    {
      var list: seq<ClientSession> := [];
      ghost var repr: set<object> := {};
      while |list| < |ports|
        invariant |list| <= |ports| && fresh(repr)
        invariant forall j | 0 <= j < |list| ::
                    && list[j] in repr && list[j].dstMacList in repr && list[j].slot == j && list[j].Valid()
                    && list[j].IsNew(ports[j], Parse(dstMacs).value, interval, guids[j])
      {
        var s := new ClientSession(ports[|list|], dstMacs, interval, guids[|list|], |list|);
        repr := repr + {s, s.dstMacList};
        list := list + [s];
      }
      sessions := list;
      Repr := repr;
      curSession := 0;
    }

    /** The body of the send loop. */
    method SendNext(now: nat, drawn: Guid) returns (p: Sent)
      requires Valid()
      modifies this, Repr
      ensures Valid() && curSession == if old(curSession) + 1 == |sessions| then 0 else old(curSession) + 1
      ensures forall j | 0 <= j < |sessions| && j != old(curSession) ::
                unchanged(sessions[j]) && unchanged(sessions[j].dstMacList)
      ensures sessions[old(curSession)].dstMacList.macs == old(sessions[curSession].dstMacList.macs)
      ensures var s := sessions[old(curSession)];
              && s.sent == old(s.sent) + 1 && s.times == old(s.times) + [now]
              && old(s.epoch) == ClockAfter(old(s.times), s.interval).epoch
              && s.guids == (if s.epoch == old(s.epoch) then old(s.guids) else old(s.guids) + [drawn])
              && old(s.sent) % |s.dstMacList.macs| < |s.dstMacList.macs|
              && p == Sent(s.port, s.dstMacList.macs[old(s.sent) % |s.dstMacList.macs|], s.guids[s.epoch],
                           Wrap(old(s.sent)), old(curSession), old(s.sent), s.epoch)
              && s.epoch < |s.guids| && s.epoch == ClockAfter(s.times, s.interval).epoch
    {
      var session := GetNextSession();
      session.RolloverAndReset(now, drawn);
      p := session.SendAndIncrement();
    }

    method GetNextSession() returns (next: ClientSession)
      requires curSession < |sessions|
      modifies this`curSession
      ensures next == sessions[old(curSession)]
      ensures curSession == if old(curSession) + 1 == |sessions| then 0 else old(curSession) + 1
    {
      next := sessions[curSession];
      curSession := curSession + 1;
      if curSession == |sessions| {
        curSession := 0;
      }
    }
  }

  // ---------- Rollover intervals and GUID epochs ----------

  lemma ClockStep(times: seq<nat>, interval: int, k: nat)
    requires interval > 0 && k < |times|
    ensures ClockAfter(times[..k + 1], interval) == Roll(ClockAfter(times[..k], interval), times[k], interval)
  {
    assert times[..k + 1][..k] == times[..k];
  }

  /** An epoch is left only for the next one, so the epochs cut a port's sequence into consecutive runs. */
  lemma EpochsConsecutive(times: seq<nat>, interval: int, k: nat)
    requires interval > 0 && k + 1 < |times|
    ensures EpochAt(times, interval, k) <= EpochAt(times, interval, k + 1) <= EpochAt(times, interval, k) + 1
  {
    ClockStep(times, interval, k + 1);
  }

  lemma {:induction false} EpochsAscend(times: seq<nat>, interval: int, i: nat, j: nat)
    requires interval > 0 && i <= j < |times|
    ensures EpochAt(times, interval, i) <= EpochAt(times, interval, j)
    decreases j
  {
    if i < j {
      EpochsAscend(times, interval, i, j - 1);
      EpochsConsecutive(times, interval, j - 1);
    }
  }

  /** What the clock remembers is the interval of the last reading, once the readings leave interval 0. */
  lemma {:induction false} LastIsBucket(times: seq<nat>, interval: int, k: nat)
    requires interval > 0 && 0 < k <= |times| && Monotone(times)
    ensures ClockAfter(times[..k], interval).last == Bucket(times[k - 1], interval)
    decreases k
  {
    ClockStep(times, interval, k - 1);
    if k > 1 { LastIsBucket(times, interval, k - 1); }
  }

  lemma BucketZero(now: nat, interval: int)
    requires interval > 0
    ensures Bucket(now, interval) == 0 <==> now < interval
  {
    BucketMonotone(0, now, interval);
    if now >= interval { BucketMonotone(0, now - interval, interval); }
  }

  lemma {:induction false} BucketMonotone(a: nat, b: nat, interval: int)
    requires interval > 0 && a <= b
    ensures Bucket(a, interval) <= Bucket(b, interval)
    decreases b
  {
    if b >= interval {
      BucketMonotone(if a < interval then 0 else a - interval, b - interval, interval);
    }
  }

  /** From one send to the next the epoch changes exactly when the interval does, except on leaving the
      interval that starts at 0, which the code takes for "not yet set". */
  lemma EpochStepIff(times: seq<nat>, interval: int, k: nat)
    requires interval > 0 && Monotone(times) && k + 1 < |times|
    ensures EpochAt(times, interval, k + 1) == EpochAt(times, interval, k)
            <==> Bucket(times[k], interval) == Bucket(times[k + 1], interval) || Bucket(times[k], interval) == 0
  {
    ClockStep(times, interval, k + 1);
    LastIsBucket(times, interval, k + 1);
  }

  lemma {:induction false} SameEpochIff(times: seq<nat>, interval: int, i: nat, j: nat)
    requires interval > 0 && Monotone(times) && i <= j < |times| && Bucket(times[i], interval) > 0
    ensures EpochAt(times, interval, i) == EpochAt(times, interval, j)
            <==> Bucket(times[i], interval) == Bucket(times[j], interval)
    decreases j
  {
    if i < j {
      SameEpochIff(times, interval, i, j - 1);
      EpochStepIff(times, interval, j - 1);
      EpochsAscend(times, interval, i, j - 1);
      EpochsConsecutive(times, interval, j - 1);
      BucketMonotone(times[i], times[j - 1], interval);
      BucketMonotone(times[j - 1], times[j], interval);
    }
  }

  ghost predicate EpochsAreIntervals(times: seq<nat>, interval: int)
    requires interval > 0
  {
    forall i, j | 0 <= i <= j < |times| ::
      EpochAt(times, interval, i) == EpochAt(times, interval, j) <==> times[i] / interval == times[j] / interval
  }

  lemma {:induction false} EpochZero(times: seq<nat>, interval: int, j: nat)
    requires interval > 0 && Monotone(times) && j < |times| && times[j] < interval
    ensures EpochAt(times, interval, j) == 0
    decreases j
  {
    ClockStep(times, interval, j);
    BucketZero(times[j], interval);
    if j > 0 {
      EpochZero(times, interval, j - 1);
      LastIsBucket(times, interval, j);
      BucketZero(times[j - 1], interval);
    }
  }

  /** Two packets share a GUID epoch exactly when they were sent in the same interval, for every pair, if
      and only if the clock starts at or after one interval, or never leaves the first. */
  lemma EpochsAreIntervalsIff(times: seq<nat>, interval: int)
    requires interval > 0 && Monotone(times) && times != []
    ensures EpochsAreIntervals(times, interval) <==> times[0] >= interval || times[|times| - 1] < interval
  {
    if times[0] >= interval {
      forall i, j | 0 <= i <= j < |times|
        ensures EpochAt(times, interval, i) == EpochAt(times, interval, j)
                <==> times[i] / interval == times[j] / interval
      {
        BucketZero(times[i], interval);
        SameEpochIff(times, interval, i, j);
        SameBucketIff(times[i], times[j], interval);
      }
    } else if times[|times| - 1] < interval {
      forall i, j | 0 <= i <= j < |times|
        ensures EpochAt(times, interval, i) == EpochAt(times, interval, j)
                && times[i] / interval == times[j] / interval
      {
        EpochZero(times, interval, i);
        EpochZero(times, interval, j);
        BucketZero(times[i], interval);
        BucketZero(times[j], interval);
        SameBucketIff(times[i], times[j], interval);
      }
    } else {
      var k := FirstAfter(times, interval);
      EpochStepIff(times, interval, k);
      BucketZero(times[k], interval);
      BucketZero(times[k + 1], interval);
      SameBucketIff(times[k], times[k + 1], interval);
      assert 0 <= k <= k + 1 < |times|;
    }
  }

  lemma FirstAfter(times: seq<nat>, interval: int) returns (k: nat)
    requires times != [] && times[0] < interval <= times[|times| - 1]
    ensures k + 1 < |times| && times[k] < interval <= times[k + 1]
  {
    k := 0;
    while times[k + 1] < interval
      invariant k + 1 < |times| && times[k] < interval
      decreases |times| - k
    {
      k := k + 1;
    }
  }
}
