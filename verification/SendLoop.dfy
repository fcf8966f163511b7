/**
 The send loop of src/client.cc: which port, next hop, number and GUID each send has.
 */
module SendLoops {
  import opened Options
  import opened SeqWindow
  import opened MacLists
  import opened Clients

  // ---------- The send schedule ----------

  /** The number, among all sends, of the `k`-th of port `j` of `p`. */
  function SendNumber(p: nat, j: nat, k: nat): nat {
    if k == 0 then j else SendNumber(p, j, k - 1) + p
  }

  lemma {:induction false} SendNumberIs(p: nat, j: nat, k: nat)
    ensures SendNumber(p, j, k) == k * p + j
  {
    if k > 0 {
      SendNumberIs(p, j, k - 1);
      assert k * p == (k - 1) * p + p;
    }
  }

  lemma SendNumberOf(p: nat, i: nat)
    requires p > 0
    ensures SendNumber(p, i % p, i / p) == i
  {
    SendNumberIs(p, i % p, i / p);
  }

  lemma {:induction false} SendNumbersAscend(p: nat, j: nat, k: nat, l: nat)
    requires p > 0 && k <= l
    ensures SendNumber(p, j, k) <= SendNumber(p, j, l) && (k < l ==> SendNumber(p, j, k) < SendNumber(p, j, l))
    decreases l
  {
    if k < l { SendNumbersAscend(p, j, k, l - 1); }
  }

  lemma {:induction false} SendNumbersDiffer(p: nat, j: nat, k: nat, j': nat, l: nat)
    requires j < p && j' < p
    ensures SendNumber(p, j, k) == SendNumber(p, j', l) <==> j == j' && k == l
  {
    if k > 0 && l > 0 {
      SendNumbersDiffer(p, j, k - 1, j', l - 1);
    } else {
      SendNumbersAscend(p, j, 0, k);
      SendNumbersAscend(p, j', 0, l);
      if k > 0 { SendNumbersAscend(p, j, 1, k); }
      if l > 0 { SendNumbersAscend(p, j', 1, l); }
    }
  }

  /** How many of the first `i` sends were of port `j`. */
  function SendsOf(i: nat, p: nat, j: nat): nat
    requires p > 0
  {
    i / p + if j < i % p then 1 else 0
  }

  lemma SendsStep(i: nat, p: nat, j: nat)
    requires p > 0 && j < p
    ensures SendsOf(i + 1, p, j) == SendsOf(i, p, j) + if j == i % p then 1 else 0
    ensures j == i % p ==> SendsOf(i, p, j) == i / p && (i / p) * p + j == i
    ensures (i + 1) % p == if i % p + 1 == p then 0 else i % p + 1
  {
    var q, r := i / p, i % p;
    assert i == p * q + r;
    if r + 1 < p {
      DivModUnique(i + 1, p, q, r + 1);
    } else {
      assert p * q + p == p * (q + 1);
      DivModUnique(i + 1, p, q + 1, 0);
    }
  }

  /** Any P * M consecutive sends use each pair of a port and a next hop exactly once. */
  lemma ScheduleCoversOnce(start: nat, p: nat, m: nat, port: nat, hop: nat)
    requires port < p && hop < m
    ensures exists i :: start <= i < start + p * m && Uses(i, p, m, port, hop)
    ensures forall i, j | start <= i < start + p * m && start <= j < start + p * m
                          && Uses(i, p, m, port, hop) && Uses(j, p, m, port, hop) :: i == j
  {
    CoverExists(start, p, m, port, hop);
    forall i: nat, j: nat | start <= i < start + p * m && start <= j < start + p * m
                  && Uses(i, p, m, port, hop) && Uses(j, p, m, port, hop)
      ensures i == j
    {
      if i < j { CoverUnique(i, j, p, m, port, hop); }
      if j < i { CoverUnique(j, i, p, m, port, hop); }
    }
  }

  ghost predicate Uses(i: nat, p: nat, m: nat, port: nat, hop: nat)
    requires p > 0 && m > 0
  {
    i % p == port && i / p % m == hop
  }

  /** Send number of a port and hop in the `round`-th pass over all pairs. */
  lemma UsesAt(round: nat, p: nat, m: nat, port: nat, hop: nat)
    requires port < p && hop < m
    ensures Uses((round * m + hop) * p + port, p, m, port, hop)
  {
    var k := round * m + hop;
    DivModUnique(k * p + port, p, k, port);
    DivModUnique(k, m, round, hop);
  }

  lemma CoverExists(start: nat, p: nat, m: nat, port: nat, hop: nat)
    requires port < p && hop < m
    ensures exists i :: start <= i < start + p * m && Uses(i, p, m, port, hop)
  {
    OffsetInside(p, m, port, hop);
    var round := NextRound(start, p * m, p * hop + port);
    RoundNumber(round, p, m, port, hop);
    UsesAt(round, p, m, port, hop);
  }

  lemma OffsetInside(p: nat, m: nat, port: nat, hop: nat)
    requires port < p && hop < m
    ensures p * hop + port < p * m
  {
    MulStep(p, hop, m);
  }

  /** The first number from `start` on that leaves `offset` modulo `w`. */
  lemma NextRound(start: nat, w: nat, offset: nat) returns (round: nat)
    requires offset < w
    ensures start <= w * round + offset < start + w
  {
    var q, r := start / w, start % w;
    assert start == w * q + r;
    round := if offset < r then q + 1 else q;
    assert w * (q + 1) == w * q + w;
  }

  lemma RoundNumber(round: nat, p: nat, m: nat, port: nat, hop: nat)
    ensures (round * m + hop) * p + port == p * m * round + (p * hop + port)
  {
    assert (round * m + hop) * p == round * m * p + hop * p;
    assert round * m * p == p * m * round by {
      assert round * (m * p) == round * m * p;
    }
  }

  lemma CoverUnique(i: nat, j: nat, p: nat, m: nat, port: nat, hop: nat)
    requires p > 0 && m > 0 && i < j && Uses(i, p, m, port, hop) && Uses(j, p, m, port, hop)
    ensures j >= i + p * m
  {
    SameResidue(i, j, p);
    SameResidue(i / p, j / p, m);
    MulGap(p, i / p, j / p, m);
  }

  lemma MulGap(p: nat, a: nat, b: nat, m: nat)
    requires p > 0 && a + m <= b
    ensures p * a + p * m <= p * b
  {
    if a + m < b { MulStep(p, a + m, b); }
    assert p * (a + m) == p * a + p * m;
  }

  lemma SameResidue(i: nat, j: nat, p: nat)
    requires p > 0 && i < j && i % p == j % p
    ensures i / p < j / p && i + p <= j && j - i == p * (j / p) - p * (i / p)
  {
    assert i == p * (i / p) + i % p && j == p * (j / p) + j % p;
    if j / p < i / p { MulStep(p, j / p, i / p); }
    if i / p < j / p { MulStep(p, i / p, j / p); }
  }

  // ---------- What the loop is given ----------

  /** The configuration, a clock reading for each send, and the GUIDs generated: each port's `first`, and
      for each send the one that a rollover then would take. */
  datatype Inputs = Inputs(
    ports: seq<int>, macs: seq<Mac>, interval: int, times: seq<nat>, first: seq<Guid>, drawn: seq<Guid>)
  {
    predicate Valid() {
      ports != [] && macs != [] && interval > 0 && |first| == |ports| && |drawn| == |times|
    }

    /** No GUID is generated twice. */
    ghost predicate AllDistinct() {
      && Distinct(first) && Distinct(drawn)
      && forall i, k | 0 <= i < |first| && 0 <= k < |drawn| :: first[i] != drawn[k]
    }

    /** The clock readings of the first `n` sends of port `j`. */
    function PortTimes(j: nat, n: nat): (ts: seq<nat>)
      ensures |ts| == n
      decreases n
    {
      if n == 0 then []
      else PortTimes(j, n - 1) + [Time(SendNumber(|ports|, j, n - 1))]
    }

    function Time(i: nat): nat {
      if i < |times| then times[i] else 0
    }

    function Draw(i: nat): Guid {
      if i < |drawn| then drawn[i] else ""
    }

    /** The rollover state of port `j` after `n` sends. */
    function PortClock(j: nat, n: nat): Clock
      requires interval > 0
      decreases n
    {
      if n == 0 then Clock(0, 0) else Roll(PortClock(j, n - 1), Time(SendNumber(|ports|, j, n - 1)), interval)
    }

    function Epoch(j: nat, n: nat): nat
      requires interval > 0
    {
      PortClock(j, n).epoch
    }

    /** The GUIDs port `j` has had after `n` sends, by epoch. */
    function Guids(j: nat, n: nat): seq<Guid>
      requires interval > 0 && j < |first|
      decreases n
    {
      if n == 0 then [first[j]]
      else Guids(j, n - 1)
           + if Epoch(j, n) == Epoch(j, n - 1) then [] else [Draw(SendNumber(|ports|, j, n - 1))]
    }
  }

  // ---------- The GUIDs of a port ----------

  lemma EpochStep(inp: Inputs, j: nat, n: nat)
    requires inp.interval > 0
    ensures inp.Epoch(j, n) <= inp.Epoch(j, n + 1) <= inp.Epoch(j, n) + 1
    ensures n == 0 ==> inp.Epoch(j, n + 1) == 0
  {
  }

  /** It is what the port's own clock readings make of it. */
  lemma {:induction false} PortClockIs(inp: Inputs, j: nat, n: nat)
    requires inp.interval > 0
    ensures inp.PortClock(j, n) == ClockAfter(inp.PortTimes(j, n), inp.interval)
    decreases n
  {
    if n > 0 {
      PortClockIs(inp, j, n - 1);
      var ts := inp.PortTimes(j, n);
      assert ts[..n - 1] == inp.PortTimes(j, n - 1);
    }
  }

  lemma {:induction false} PortEpochsAscend(inp: Inputs, j: nat, m: nat, n: nat)
    requires inp.interval > 0 && m <= n
    ensures inp.Epoch(j, m) <= inp.Epoch(j, n)
    decreases n
  {
    if m < n {
      PortEpochsAscend(inp, j, m, n - 1);
      EpochStep(inp, j, n - 1);
    }
  }

  lemma {:induction false} GuidsCount(inp: Inputs, j: nat, n: nat)
    requires inp.interval > 0 && j < |inp.first|
    ensures |inp.Guids(j, n)| == inp.Epoch(j, n) + 1
    decreases n
  {
    if n > 0 {
      GuidsCount(inp, j, n - 1);
      EpochStep(inp, j, n - 1);
    }
  }

  lemma {:induction false} GuidStays(inp: Inputs, j: nat, m: nat, n: nat, e: nat)
    requires inp.interval > 0 && j < |inp.first| && m <= n && e < |inp.Guids(j, m)|
    ensures e < |inp.Guids(j, n)| && inp.Guids(j, n)[e] == inp.Guids(j, m)[e]
    decreases n
  {
    if m < n { GuidStays(inp, j, m, n - 1, e); }
  }

  /** Port `j` enters epoch `e` with its `k`-th send, for which `g` was drawn. */
  ghost predicate EntersWith(inp: Inputs, j: nat, e: nat, k: int, g: Guid)
    requires inp.interval > 0
  {
    k > 0 && inp.Epoch(j, k) < e == inp.Epoch(j, k + 1) && g == inp.Draw(SendNumber(|inp.ports|, j, k))
  }

  /** `g` is what port `j` has in epoch `e`: its first GUID in epoch 0, and in a later epoch the one drawn at
      the send, among its first `n`, with which it entered that epoch. */
  ghost predicate IsDrawn(inp: Inputs, j: nat, e: nat, n: nat, g: Guid)
    requires inp.interval > 0 && j < |inp.first|
  {
    if e == 0 then g == inp.first[j] else exists k :: k < n && EntersWith(inp, j, e, k, g)
  }

  lemma {:induction false} GuidOfEpoch(inp: Inputs, j: nat, n: nat, e: nat)
    requires inp.interval > 0 && j < |inp.first| && e < |inp.Guids(j, n)|
    ensures IsDrawn(inp, j, e, n, inp.Guids(j, n)[e])
    decreases n
  {
    if n > 0 {
      var g := inp.Guids(j, n)[e];
      if e < |inp.Guids(j, n - 1)| {
        GuidOfEpoch(inp, j, n - 1, e);
        if e > 0 {
          var k :| k < n - 1 && EntersWith(inp, j, e, k, g);
        }
      } else {
        GuidsCount(inp, j, n - 1);
        GuidsCount(inp, j, n);
        EpochStep(inp, j, n - 1);
        assert EntersWith(inp, j, e, n - 1, g);
      }
    }
  }

  lemma DrawsDiffer(inp: Inputs, j: nat, k: nat, l: nat, n: nat)
    requires inp.Valid() && j < |inp.ports| && inp.AllDistinct() && k < n && l < n && k != l
    requires SendNumber(|inp.ports|, j, n - 1) < |inp.drawn|
    ensures inp.Draw(SendNumber(|inp.ports|, j, k)) != inp.Draw(SendNumber(|inp.ports|, j, l))
    ensures inp.Draw(SendNumber(|inp.ports|, j, l)) != inp.first[j]
  {
    SendNumbersAscend(|inp.ports|, j, k, n - 1);
    SendNumbersAscend(|inp.ports|, j, l, n - 1);
    if k < l { SendNumbersAscend(|inp.ports|, j, k, l); } else { SendNumbersAscend(|inp.ports|, j, l, k); }
  }

  lemma GuidsDiffer(inp: Inputs, j: nat, n: nat, d: nat, e: nat)
    requires inp.Valid() && j < |inp.ports| && inp.AllDistinct() && n > 0
    requires SendNumber(|inp.ports|, j, n - 1) < |inp.drawn| && d < e < |inp.Guids(j, n)|
    ensures inp.Guids(j, n)[d] != inp.Guids(j, n)[e]
  {
    GuidOfEpoch(inp, j, n, d);
    GuidOfEpoch(inp, j, n, e);
    var l :| l < n && EntersWith(inp, j, e, l, inp.Guids(j, n)[e]);
    if d == 0 {
      DrawsDiffer(inp, j, 0, l, n);
    } else {
      var k :| k < n && EntersWith(inp, j, d, k, inp.Guids(j, n)[d]);
      DrawsDiffer(inp, j, k, l, n);
    }
  }

  /** While no GUID is generated twice, no two epochs of a port share one. */
  lemma PortGuidsDistinct(inp: Inputs, j: nat, n: nat)
    requires inp.Valid() && j < |inp.ports| && inp.AllDistinct()
    requires n > 0 ==> SendNumber(|inp.ports|, j, n - 1) < |inp.drawn|
    ensures Distinct(inp.Guids(j, n))
  {
    forall d, e | 0 <= d < e < |inp.Guids(j, n)| ensures inp.Guids(j, n)[d] != inp.Guids(j, n)[e] {
      GuidsDiffer(inp, j, n, d, e);
    }
  }

  // ---------- The log ----------

  /** The packet carries the GUID its port had in its epoch. */
  ghost predicate FromTable(s: Sent, guids: seq<Guid>) {
    s.epoch < |guids| && s.guid == guids[s.epoch]
  }

  /** What the `i`-th send carries, from its number alone. */
  ghost predicate Scheduled(s: Sent, i: nat, inp: Inputs)
    requires inp.Valid()
  {
    var p := |inp.ports|;
    && s.slot == i % p && s.port == inp.ports[s.slot]
    && s.mac == inp.macs[i / p % |inp.macs|]
    && s.index == i / p && s.seqNum == Wrap(i / p)
  }

  /** The epoch of the send is that of its port, by the clock readings of the port so far, and the GUID is
      what its port has in that epoch. */
  ghost predicate Identified(s: Sent, inp: Inputs)
    requires inp.Valid() && s.slot < |inp.ports|
  {
    && s.epoch == inp.Epoch(s.slot, s.index + 1) && FromTable(s, inp.Guids(s.slot, s.index + 1))
    && IsDrawn(inp, s.slot, s.epoch, s.index + 1, s.guid)
  }

  ghost predicate LogEntry(s: Sent, i: nat, inp: Inputs)
    requires inp.Valid()
  {
    Scheduled(s, i, inp) && Identified(s, inp)
  }

  ghost predicate Entries(log: seq<Sent>, inp: Inputs)
    requires inp.Valid()
  {
    log == [] || (Entries(log[..|log| - 1], inp) && LogEntry(log[|log| - 1], |log| - 1, inp))
  }

  lemma {:induction false} EntryAt(log: seq<Sent>, inp: Inputs, i: nat)
    requires inp.Valid() && Entries(log, inp) && i < |log|
    ensures LogEntry(log[i], i, inp)
  {
    if i < |log| - 1 { EntryAt(log[..|log| - 1], inp, i); }
  }

  lemma EntriesSnoc(log: seq<Sent>, sent: Sent, inp: Inputs)
    requires inp.Valid() && Entries(log, inp) && LogEntry(sent, |log|, inp)
    ensures Entries(log + [sent], inp)
  {
    assert (log + [sent])[..|log|] == log;
  }

  lemma IdentifiedFromTable(s: Sent, inp: Inputs)
    requires inp.Valid() && s.slot < |inp.ports| && s.epoch == inp.Epoch(s.slot, s.index + 1)
    requires FromTable(s, inp.Guids(s.slot, s.index + 1))
    ensures Identified(s, inp)
  {
    GuidOfEpoch(inp, s.slot, s.index + 1, s.epoch);
  }

  /** While no GUID is generated twice, two sends carry the same one if and only if they are of one port
      and one epoch. */
  lemma SameGuidIff(log: seq<Sent>, inp: Inputs, i: nat, k: nat)
    requires inp.Valid() && inp.AllDistinct() && Entries(log, inp) && i < |log| && k < |log| <= |inp.drawn|
    ensures log[i].guid == log[k].guid <==> log[i].slot == log[k].slot && log[i].epoch == log[k].epoch
  {
    NumberedEntry(log, inp, i);
    NumberedEntry(log, inp, k);
    if log[i].guid == log[k].guid { SameDraw(log[i], log[k], inp); }
    if log[i].slot == log[k].slot && log[i].epoch == log[k].epoch { SameEntry(log[i], log[k], inp); }
  }

  lemma SameEntry(a: Sent, b: Sent, inp: Inputs)
    requires inp.Valid() && a.slot == b.slot < |inp.ports| && a.epoch == b.epoch
    requires Identified(a, inp) && Identified(b, inp)
    ensures a.guid == b.guid
  {
    if a.index <= b.index {
      GuidStays(inp, a.slot, a.index + 1, b.index + 1, a.epoch);
    } else {
      GuidStays(inp, a.slot, b.index + 1, a.index + 1, a.epoch);
    }
  }

  lemma NumberedEntry(log: seq<Sent>, inp: Inputs, i: nat)
    requires inp.Valid() && Entries(log, inp) && i < |log| <= |inp.drawn|
    ensures log[i].slot < |inp.ports| && SendNumber(|inp.ports|, log[i].slot, log[i].index) < |inp.drawn|
    ensures Identified(log[i], inp)
  {
    EntryAt(log, inp, i);
    SendNumberOf(|inp.ports|, i);
  }

  lemma SameDraw(a: Sent, b: Sent, inp: Inputs)
    requires inp.Valid() && inp.AllDistinct() && a.guid == b.guid && a.slot < |inp.ports| && b.slot < |inp.ports|
    requires SendNumber(|inp.ports|, a.slot, a.index) < |inp.drawn| && Identified(a, inp)
    requires SendNumber(|inp.ports|, b.slot, b.index) < |inp.drawn| && Identified(b, inp)
    ensures a.slot == b.slot && a.epoch == b.epoch
  {
    var k := DrawnAt(a, inp);
    var l := DrawnAt(b, inp);
    if a.epoch > 0 && b.epoch > 0 { SendNumbersDiffer(|inp.ports|, a.slot, k, b.slot, l); }
  }

  lemma DrawnAt(s: Sent, inp: Inputs) returns (k: nat)
    requires inp.Valid() && s.slot < |inp.ports| && Identified(s, inp)
    requires SendNumber(|inp.ports|, s.slot, s.index) < |inp.drawn|
    ensures SendNumber(|inp.ports|, s.slot, k) < |inp.drawn|
    ensures if s.epoch == 0 then s.guid == inp.first[s.slot]
            else s.guid == inp.drawn[SendNumber(|inp.ports|, s.slot, k)] && s.epoch == inp.Epoch(s.slot, k + 1)
  {
    k := s.index;
    if s.epoch > 0 {
      k :| k < s.index + 1 && EntersWith(inp, s.slot, s.epoch, k, s.guid);
      SendNumbersAscend(|inp.ports|, s.slot, k, s.index);
    }
  }

  // ---------- The loop ----------

  /** Where every session stands before the `i`-th send. */
  ghost predicate Progress(list: ClientSessionList, i: nat, inp: Inputs)
    requires list.Valid() && inp.Valid()
    reads list, list.Repr
  {
    var p := |inp.ports|;
    && |list.sessions| == p && list.curSession == i % p
    && forall j | 0 <= j < p :: Stands(list.sessions[j], j, SendsOf(i, p, j), inp)
  }

  /** A session of port `j` that has sent `n` packets. */
  ghost predicate Stands(s: ClientSession, j: nat, n: nat, inp: Inputs)
    requires inp.Valid() && j < |inp.ports|
    reads s, s.dstMacList
  {
    && s.port == inp.ports[j] && s.interval == inp.interval && s.dstMacList.macs == inp.macs
    && s.sent == n && s.times == inp.PortTimes(j, n) && s.guids == inp.Guids(j, n)
  }

  /** A new list is ready for its first send. */
  method StartClient(ports: seq<int>, dstMacs: string, interval: int, first: seq<Guid>, ghost inp: Inputs)
    returns (list: ClientSessionList)
    requires inp.Valid() && dstMacs != "" && Parse(dstMacs) == Some(inp.macs)
    requires ports == inp.ports && interval == inp.interval && first == inp.first
    ensures fresh(list) && list.Valid() && fresh(list.Repr)
    ensures Progress(list, 0, inp)
  {
    list := new ClientSessionList(ports, dstMacs, interval, first);
    DivModUnique(0, |ports|, 0, 0);
    assert forall j | 0 <= j < |ports| :: list.sessions[j].IsNew(ports[j], inp.macs, interval, first[j]);
  }

  /** The endless loop, for as many sends as there are clock readings. */
  method SendLoop(list: ClientSessionList, times: seq<nat>, drawn: seq<Guid>, ghost inp: Inputs)
    returns (log: seq<Sent>)
    requires inp.Valid() && times == inp.times && drawn == inp.drawn
    requires list.Valid() && Progress(list, 0, inp)
    modifies list, list.Repr
    ensures |log| == |times| && Entries(log, inp)
  {
    log := [];
    while |log| < |times|
      invariant |log| <= |times| && list.Valid()
      invariant Progress(list, |log|, inp) && Entries(log, inp)
    {
      var sent := SendOne(list, |log|, times[|log|], drawn[|log|], inp);
      EntriesSnoc(log, sent, inp);
      log := log + [sent];
    }
  }

  /** The `i`-th send. */
  method SendOne(list: ClientSessionList, ghost i: nat, now: nat, drawn: Guid, ghost inp: Inputs)
    returns (sent: Sent)
    requires inp.Valid() && i < |inp.times| && now == inp.times[i] && drawn == inp.drawn[i] && list.Valid()
    requires Progress(list, i, inp)
    modifies list, list.Repr
    ensures list.Valid() && Progress(list, i + 1, inp)
    ensures LogEntry(sent, i, inp)
  {
    ghost var p, k, n := |inp.ports|, i % |inp.ports|, i / |inp.ports|;
    SendNumberOf(p, i);
    SendsStep(i, p, k);
    assert Stands(list.sessions[k], k, SendsOf(i, p, k), inp);
    sent := SendFrom(list, now, drawn, inp, k, n);
    forall j | 0 <= j < p ensures Stands(list.sessions[j], j, SendsOf(i + 1, p, j), inp) {
      SendsStep(i, p, j);
      if j != k { assert old(Stands(list.sessions[j], j, SendsOf(i, p, j), inp)); }
    }
  }

  /** The `n`-th send of port `k`. */
  method SendFrom(list: ClientSessionList, now: nat, drawn: Guid, ghost inp: Inputs, ghost k: nat, ghost n: nat)
    returns (sent: Sent)
    requires inp.Valid() && list.Valid() && |list.sessions| == |inp.ports| && list.curSession == k
    requires Stands(list.sessions[k], k, n, inp)
    requires now == inp.Time(SendNumber(|inp.ports|, k, n)) && drawn == inp.Draw(SendNumber(|inp.ports|, k, n))
    modifies list, list.Repr
    ensures list.Valid() && list.curSession == if k + 1 == |list.sessions| then 0 else k + 1
    ensures Stands(list.sessions[k], k, n + 1, inp)
    ensures forall j | 0 <= j < |list.sessions| && j != k ::
              unchanged(list.sessions[j]) && unchanged(list.sessions[j].dstMacList)
    ensures sent.slot == k && sent.port == inp.ports[k] && sent.mac == inp.macs[n % |inp.macs|]
    ensures sent.index == n && sent.seqNum == Wrap(n) && Identified(sent, inp)
  {
    ghost var s := list.sessions[k];
    ghost var times, epoch := s.times, ClockAfter(s.times, s.interval).epoch;
    sent := list.SendNext(now, drawn);
    NextState(inp, k, n, times, s.times, epoch, sent.epoch, s.guids);
    IdentifiedFromTable(sent, inp);
  }

  lemma NextState(inp: Inputs, k: nat, n: nat, times: seq<nat>, times': seq<nat>, epoch: nat, epoch': nat,
                  guids': seq<Guid>)
    requires inp.interval > 0 && k < |inp.first|
    requires times == inp.PortTimes(k, n) && times' == times + [inp.Time(SendNumber(|inp.ports|, k, n))]
    requires epoch == ClockAfter(times, inp.interval).epoch && epoch' == ClockAfter(times', inp.interval).epoch
    requires guids' == if epoch' == epoch then inp.Guids(k, n)
                       else inp.Guids(k, n) + [inp.Draw(SendNumber(|inp.ports|, k, n))]
    ensures times' == inp.PortTimes(k, n + 1) && epoch' == inp.Epoch(k, n + 1) && guids' == inp.Guids(k, n + 1)
  {
    EpochIs(inp, k, n, times);
    EpochIs(inp, k, n + 1, times');
  }

  lemma EpochIs(inp: Inputs, k: nat, n: nat, times: seq<nat>)
    requires inp.interval > 0 && times == inp.PortTimes(k, n)
    ensures inp.Epoch(k, n) == ClockAfter(times, inp.interval).epoch
  {
    PortClockIs(inp, k, n);
  }
}
