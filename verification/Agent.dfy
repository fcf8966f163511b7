/**
 The reconcile loop of agent/udping_agent: the children map is driven to match a target list.

 A child's parameters are a map from names to values; forking is the choice of a process id not used
 before, and killing or reaping a child is its removal from the map.
 */
module Agents {

  /** The keys of a parameter dictionary; `Other` are those only the launched programs look at. */
  datatype Key =
    | MeshMechanism | MeshName | LocalHostname | LocalIp | PeerHostname | PeerIp
    | Other(name: string)

  type Params = map<Key, string>

  type Signature = string

  /** Which of the launch functions started a child. */
  datatype Kind = PingSender | UdpingServer | UdpingClient

  datatype Child = Child(params: Params, kind: Kind, pid: nat)

  // ---------- Signatures and targets ----------

  /** The keys `synchronize` looks up in every target. */
  predicate WellFormed(params: Params) {
    && MeshMechanism in params && MeshName in params
    && LocalHostname in params && LocalIp in params
    && PeerHostname in params && PeerIp in params
  }

  const BLANK: Params :=
    map[MeshMechanism := "", MeshName := "", LocalHostname := "", LocalIp := "", PeerHostname := "", PeerIp := ""]

  type Target = t: Params | WellFormed(t) witness BLANK

  predicate HasMechanism(params: Params) {
    MeshMechanism in params
  }

  function SignatureOf(params: Target): Signature {
    params[MeshMechanism] + ":" + params[MeshName] + "." + params[LocalHostname] + ":" + params[LocalIp]
    + "." + params[PeerHostname] + ":" + params[PeerIp]
  }

  function ServerSignature(params: Target): Signature {
    "udping_server:" + params[MeshName]
  }

  function ServerParams(params: Target): (p: Params)
    ensures HasMechanism(p)
  {
    map[MeshMechanism := "udping", MeshName := params[MeshName], LocalIp := params[LocalIp]]
  }

  /** The `targetChildren` dictionary: one entry for each target, and a server for each udping mesh. */
  function TargetChildren(targets: seq<Target>): (m: map<Signature, Params>)
    ensures forall s | s in m :: HasMechanism(m[s])
  {
    if targets == [] then map[]
    else
      var t := targets[|targets| - 1];
      var m := TargetChildren(targets[..|targets| - 1])[SignatureOf(t) := t];
      if t[MeshMechanism] == "udping" then m[ServerSignature(t) := ServerParams(t)] else m
  }

  /** The mechanisms `synchronize` knows how to launch. */
  predicate Known(params: Params)
    requires HasMechanism(params)
  {
    params[MeshMechanism] == "ping" || params[MeshMechanism] == "udping"
  }

  predicate IsPrefix(p: string, s: string) {
    |p| <= |s| && s[..|p|] == p
  }

  /** The launch function chosen for a known mechanism. */
  function KindFor(signature: Signature, params: Params): Kind
    requires HasMechanism(params)
  {
    if params[MeshMechanism] == "ping" then PingSender
    else if IsPrefix("udping_server", signature) then UdpingServer
    else UdpingClient
  }

  /** A parameter both have, with different values. */
  predicate Differs(child: Params, params: Params) {
    exists k | k in params :: k in child && child[k] != params[k]
  }

  // ---------- What a synchronisation promises ----------

  ghost predicate Wanted(targets: map<Signature, Params>, s: Signature)
    requires forall t | t in targets :: HasMechanism(targets[t])
  {
    s in targets && Known(targets[s])
  }

  /** Every child was launched by a known mechanism, with the launch function for it. */
  ghost predicate Launchable(children: map<Signature, Child>) {
    forall s | s in children ::
      && HasMechanism(children[s].params) && Known(children[s].params)
      && children[s].kind == KindFor(s, children[s].params)
  }

  ghost predicate Kept(before: map<Signature, Child>, targets: map<Signature, Params>, s: Signature) {
    s in before && s in targets && !Differs(before[s].params, targets[s])
  }

  /** The outcome of one `synchronize` over the targets: which children are killed, which launched, and
      what is left running.  Process ids from `firstPid` on had not been given out before. */
  ghost predicate Synchronized(before: map<Signature, Child>, targets: map<Signature, Params>,
                               after: map<Signature, Child>, killed: set<Signature>, launched: set<Signature>,
                               firstPid: nat)
    requires forall t | t in targets :: HasMechanism(targets[t])
  {
    && (forall s :: s in after <==> Wanted(targets, s))
    && (forall s :: s in killed <==> s in before && !Kept(before, targets, s))
    && (forall s :: s in launched <==> Wanted(targets, s) && !Kept(before, targets, s))
    && (forall s | Kept(before, targets, s) :: s in after && after[s] == before[s])
    && (forall s | s in launched :: s in after && after[s].pid >= firstPid
          && after[s] == Child(targets[s], KindFor(s, targets[s]), after[s].pid))
  }

  /** The children whose process has terminated. */
  function Orphans(children: map<Signature, Child>, exited: set<nat>): set<Signature> {
    set s | s in children && children[s].pid in exited
  }

  /** All orphans have been forgotten but those among the signatures `left` to visit. */
  ghost predicate OrphansForgotten(start: map<Signature, Child>, orphans: set<Signature>, left: set<Signature>,
                                   children: map<Signature, Child>, reaped: nat) {
    children == start - (orphans - left) && reaped == |orphans - left|
  }

  lemma VisitOrphan(start: map<Signature, Child>, orphans: set<Signature>, left: set<Signature>,
                    children: map<Signature, Child>, reaped: nat, s: Signature)
    requires s in left && OrphansForgotten(start, orphans, left, children, reaped)
    ensures if s in orphans then OrphansForgotten(start, orphans, left - {s}, children - {s}, reaped + 1)
            else OrphansForgotten(start, orphans, left - {s}, children, reaped)
  {
    var gone, gone' := orphans - left, orphans - (left - {s});
    if s in orphans {
      assert gone' == gone + {s};
    } else {
      assert gone' == gone;
    }
  }

  lemma RemovedSize(children: map<Signature, Child>, gone: set<Signature>)
    requires gone <= children.Keys
    ensures |children - gone| == |children| - |gone|
  {
    assert (children - gone).Keys == children.Keys - gone;
    assert |(children - gone).Keys| == |children - gone| && |children.Keys| == |children|;
  }

  predicate Agrees(children: map<Signature, Child>, s: Signature, params: Params) {
    s in children && !Differs(children[s].params, params)
  }

  /** What one target makes of the children; a launched one gets `pid`. */
  predicate Outcome(before: map<Signature, Child>, s: Signature, params: Params, after: map<Signature, Child>, pid: nat)
    requires HasMechanism(params)
  {
    && (Agrees(before, s, params) ==> Known(params))
    && after == (if Agrees(before, s, params) then before
                 else if Known(params) then before[s := Child(params, KindFor(s, params), pid)]
                 else before - {s})
  }

  class Agent {
    var children: map<Signature, Child>
    /** The next process id to be given out, all smaller ones having been used; and what the current
        synchronisation has done. */
    var nextPid: nat
    ghost var killed: set<Signature>
    ghost var launched: set<Signature>

    ghost predicate Valid()
      reads this
    {
      && Launchable(children)
      && (forall s | s in children :: children[s].pid < nextPid)
      && (forall s, t | s in children && t in children && children[s].pid == children[t].pid :: s == t)
    }

    constructor ()
      ensures Valid() && children == map[]
    {
      children, nextPid, killed, launched := map[], 1, {}, {};
    }

    /** The parent's half of the three launch functions, after `fork` has returned a new process id. */
    method Launch(signature: Signature, params: Params, kind: Kind)
      requires Valid() && signature !in children && HasMechanism(params) && Known(params)
      requires kind == KindFor(signature, params)
      modifies this
      ensures Valid() && children == old(children)[signature := Child(params, kind, old(nextPid))]
      ensures nextPid == old(nextPid) + 1 && launched == old(launched) + {signature} && killed == old(killed)
    {
      children := children[signature := Child(params, kind, nextPid)];
      nextPid := nextPid + 1;
      launched := launched + {signature};
    }

    method KillChild(signature: Signature)
      requires Valid() && signature in children
      modifies this
      ensures Valid() && children == old(children) - {signature}
      ensures nextPid == old(nextPid) && killed == old(killed) + {signature} && launched == old(launched)
    {
      children := children - {signature};
      killed := killed + {signature};
    }

    /** `checkForOrphans`: `exited` tells which process ids have terminated. */
    method CheckForOrphans(exited: set<nat>) returns (reaped: nat)
      requires Valid()
      modifies this`children
      ensures Valid() && children == old(children) - Orphans(old(children), exited)
      ensures forall s :: s in children <==> s in old(children) && old(children)[s].pid !in exited
      ensures reaped == |old(children)| - |children|
    {
      reaped := ForgetExited(exited);
      RemovedSize(old(children), Orphans(old(children), exited));
    }

    method ForgetExited(exited: set<nat>) returns (reaped: nat)
      modifies this`children
      ensures children == old(children) - Orphans(old(children), exited)
      ensures reaped == |Orphans(old(children), exited)|
    {
      var signatures := children.Keys;
      ghost var start, orphans := children, Orphans(children, exited);
      reaped := 0;
      while signatures != {}
        invariant signatures <= children.Keys && OrphansForgotten(start, orphans, signatures, children, reaped)
        decreases signatures
      {
        var s :| s in signatures;
        VisitOrphan(start, orphans, signatures, children, reaped, s);
        if children[s].pid in exited {
          children := children - {s};
          reaped := reaped + 1;
        }
        signatures := signatures - {s};
      }
      assert orphans - signatures == orphans;
    }

    /** One entry of the first loop: a changed child is killed, a missing one launched. */
    method Reconcile(signature: Signature, params: Params)
      requires Valid() && HasMechanism(params)
      modifies this
      ensures Valid() && old(nextPid) <= nextPid
      ensures Outcome(old(children), signature, params, children, old(nextPid))
      ensures var kept := Agrees(old(children), signature, params);
              && killed == old(killed) + (if signature in old(children) && !kept then {signature} else {})
              && launched == old(launched) + (if Known(params) && !kept then {signature} else {})
    {
      if signature in children {
        var child := children[signature].params;
        if Differs(child, params) {
          KillChild(signature);
        }
      }
      if signature !in children {
        LaunchMissing(signature, params);
      }
    }

    /** The mechanism, and for udping the signature, say which of the three launch functions is called. */
    method LaunchMissing(signature: Signature, params: Params)
      requires Valid() && signature !in children && HasMechanism(params)
      modifies this
      ensures Valid() && old(nextPid) <= nextPid && killed == old(killed)
      ensures children == if Known(params)
                          then old(children)[signature := Child(params, KindFor(signature, params), old(nextPid))]
                          else old(children)
      ensures launched == old(launched) + if Known(params) then {signature} else {}
    {
      if params[MeshMechanism] == "ping" {
        Launch(signature, params, PingSender);
      } else if params[MeshMechanism] == "udping" {
        if IsPrefix("udping_server", signature) {
          Launch(signature, params, UdpingServer);
        } else {
          Launch(signature, params, UdpingClient);
        }
      }
    }

    method BuildTargets(targetList: seq<Target>) returns (targetChildren: map<Signature, Params>)
      ensures targetChildren == TargetChildren(targetList)
    {
      targetChildren := map[];
      for i := 0 to |targetList|
        invariant targetChildren == TargetChildren(targetList[..i])
      {
        var params := targetList[i];
        assert targetList[..i + 1][..i] == targetList[..i];
        targetChildren := targetChildren[SignatureOf(params) := params];
        if params[MeshMechanism] == "udping" {
          targetChildren := targetChildren[ServerSignature(params) := ServerParams(params)];
        }
      }
      assert targetList[..|targetList|] == targetList;
    }

    method Synchronize(targetList: seq<Target>)
      requires Valid()
      modifies this
      ensures Valid()
      ensures Synchronized(old(children), TargetChildren(targetList), children, killed, launched, old(nextPid))
      ensures RunsTargets(targetList, children)
    {
      killed, launched := {}, {};
      var targetChildren := BuildTargets(targetList);
      ReconcileAll(targetChildren);
      ghost var mid, k := children, killed;
      KillUnwanted(targetChildren);
      UnwantedKilled(old(children), targetChildren, mid, k, launched, old(nextPid), children, killed);
      TargetsRun(old(children), targetList, children, killed, launched, old(nextPid));
    }

    method ReconcileAll(targetChildren: map<Signature, Params>)
      requires Valid() && killed == {} && launched == {}
      requires forall t | t in targetChildren :: HasMechanism(targetChildren[t])
      modifies this
      ensures Valid()
      ensures Reconciled(old(children), targetChildren, targetChildren.Keys, children, killed, launched, old(nextPid))
    {
      var todo := targetChildren.Keys;
      ghost var done: set<Signature> := {};
      while todo != {}
        invariant Valid() && todo <= targetChildren.Keys && old(nextPid) <= nextPid
        invariant done == targetChildren.Keys - todo
        invariant Reconciled(old(children), targetChildren, done, children, killed, launched, old(nextPid))
        decreases todo
      {
        var signature :| signature in todo;
        ghost var mid, k, l, n := children, killed, launched, nextPid;
        Reconcile(signature, targetChildren[signature]);
        ReconciledStep(old(children), targetChildren, done, signature, mid, k, l,
                       children, killed, launched, old(nextPid), n);
        done := done + {signature};
        todo := todo - {signature};
      }
      assert done == targetChildren.Keys;
    }

    /** The last loop: children that are no target are killed. */
    method KillUnwanted(targetChildren: map<Signature, Params>)
      requires Valid()
      modifies this
      ensures Valid() && launched == old(launched)
      ensures children == old(children) - (old(children).Keys - targetChildren.Keys)
      ensures killed == old(killed) + (old(children).Keys - targetChildren.Keys)
    {
      var signatures := children.Keys;
      ghost var removed: set<Signature> := {};
      while signatures != {}
        invariant Valid() && signatures <= children.Keys && launched == old(launched)
        invariant removed == old(children).Keys - targetChildren.Keys - signatures
        invariant children == old(children) - removed && killed == old(killed) + removed
        decreases signatures
      {
        var signature :| signature in signatures;
        signatures := signatures - {signature};
        if signature !in targetChildren {
          KillChild(signature);
          removed := removed + {signature};
        }
      }
    }
  }

  lemma UnwantedKilled(before: map<Signature, Child>, targets: map<Signature, Params>,
                       mid: map<Signature, Child>, k: set<Signature>, launched: set<Signature>, firstPid: nat,
                       after: map<Signature, Child>, killed: set<Signature>)
    requires forall t | t in targets :: HasMechanism(targets[t])
    requires Reconciled(before, targets, targets.Keys, mid, k, launched, firstPid)
    requires after == mid - (mid.Keys - targets.Keys)
    requires killed == k + (mid.Keys - targets.Keys)
    ensures Synchronized(before, targets, after, killed, launched, firstPid)
  {
  }

  /** Which children the first loop has left, killed and launched after the targets `done`. */
  ghost predicate ReconciledKeys(before: map<Signature, Child>, targets: map<Signature, Params>, done: set<Signature>,
                                 after: map<Signature, Child>, killed: set<Signature>, launched: set<Signature>)
    requires forall t | t in targets :: HasMechanism(targets[t])
  {
    && done <= targets.Keys
    && (forall s :: s in after <==> if s in done then Wanted(targets, s) else s in before)
    && (forall s :: s in killed <==> s in done && s in before && !Kept(before, targets, s))
    && (forall s :: s in launched <==> s in done && Wanted(targets, s) && !Kept(before, targets, s))
  }

  /** And what they are. */
  ghost predicate ReconciledValues(before: map<Signature, Child>, targets: map<Signature, Params>,
                                   after: map<Signature, Child>, launched: set<Signature>, firstPid: nat)
    requires forall t | t in targets :: HasMechanism(targets[t])
  {
    forall s | s in after ::
      if s in launched
      then s in targets && after[s].pid >= firstPid
           && after[s] == Child(targets[s], KindFor(s, targets[s]), after[s].pid)
      else s in before && after[s] == before[s]
  }

  /** The first loop after the targets `done`. */
  ghost predicate Reconciled(before: map<Signature, Child>, targets: map<Signature, Params>, done: set<Signature>,
                             after: map<Signature, Child>, killed: set<Signature>, launched: set<Signature>,
                             firstPid: nat)
    requires forall t | t in targets :: HasMechanism(targets[t])
  {
    && ReconciledKeys(before, targets, done, after, killed, launched)
    && ReconciledValues(before, targets, after, launched, firstPid)
    && (forall s | s in done && Kept(before, targets, s) :: s in after)
  }

  lemma ReconciledStep(before: map<Signature, Child>, targets: map<Signature, Params>, done: set<Signature>,
                       s: Signature, mid: map<Signature, Child>, k: set<Signature>, l: set<Signature>,
                       after: map<Signature, Child>, k': set<Signature>, l': set<Signature>, firstPid: nat, pid: nat)
    requires forall t | t in targets :: HasMechanism(targets[t])
    requires Reconciled(before, targets, done, mid, k, l, firstPid) && s in targets && s !in done && firstPid <= pid
    requires Outcome(mid, s, targets[s], after, pid)
    requires k' == k + (if s in mid && !Agrees(mid, s, targets[s]) then {s} else {})
    requires l' == l + (if Known(targets[s]) && !Agrees(mid, s, targets[s]) then {s} else {})
    ensures Reconciled(before, targets, done + {s}, after, k', l', firstPid)
  {
    UntouchedYet(before, targets, done, s, mid, k, l, firstPid);
    ReconciledKeysStep(before, targets, done, s, mid, k, l, after, k', l', pid);
    assert ReconciledValues(before, targets, after, l', firstPid);
  }

  /** A target still to come has its child as it was. */
  lemma UntouchedYet(before: map<Signature, Child>, targets: map<Signature, Params>, done: set<Signature>, s: Signature,
                     mid: map<Signature, Child>, k: set<Signature>, l: set<Signature>, firstPid: nat)
    requires forall t | t in targets :: HasMechanism(targets[t])
    requires Reconciled(before, targets, done, mid, k, l, firstPid) && s !in done
    ensures s !in k && s !in l && (s in mid <==> s in before) && (s in mid ==> mid[s] == before[s])
  {
  }

  lemma ReconciledKeysStep(before: map<Signature, Child>, targets: map<Signature, Params>, done: set<Signature>,
                           s: Signature, mid: map<Signature, Child>, k: set<Signature>, l: set<Signature>,
                           after: map<Signature, Child>, k': set<Signature>, l': set<Signature>, pid: nat)
    requires forall t | t in targets :: HasMechanism(targets[t])
    requires ReconciledKeys(before, targets, done, mid, k, l) && s in targets && s !in done
    requires s !in k && s !in l && (s in mid <==> s in before) && (s in mid ==> mid[s] == before[s])
    requires Outcome(mid, s, targets[s], after, pid)
    requires k' == k + (if s in mid && !Agrees(mid, s, targets[s]) then {s} else {})
    requires l' == l + (if Known(targets[s]) && !Agrees(mid, s, targets[s]) then {s} else {})
    ensures ReconciledKeys(before, targets, done + {s}, after, k', l')
  {
  }

  // ---------- What runs, from the target list ----------

  /** The signatures a target asks for. */
  predicate Names(t: Target, s: Signature) {
    s == SignatureOf(t) || (t[MeshMechanism] == "udping" && s == ServerSignature(t))
  }

  /** Target `i` is the last to ask for `s`. */
  ghost predicate LastToName(targets: seq<Target>, i: int, s: Signature) {
    0 <= i < |targets| && Names(targets[i], s) && forall j | i < j < |targets| :: !Names(targets[j], s)
  }

  /** No parameter both have differs. */
  ghost predicate Agree(p: Params, q: Params) {
    forall k | k in p && k in q :: p[k] == q[k]
  }

  ghost predicate Runs(children: map<Signature, Child>, s: Signature, kind: Kind, params: Params) {
    s in children && children[s].kind == kind && Agree(children[s].params, params)
  }

  /** What target `i` has running, unless a later one asks for the same signature. */
  ghost predicate RunsTarget(targets: seq<Target>, i: int, children: map<Signature, Child>)
    requires 0 <= i < |targets|
  {
    var t := targets[i];
    var s, server := SignatureOf(t), ServerSignature(t);
    && (t[MeshMechanism] == "ping" && LastToName(targets, i, s) ==> Runs(children, s, PingSender, t))
    && (t[MeshMechanism] == "udping" && LastToName(targets, i, s) ==> Runs(children, s, UdpingClient, t))
    && (t[MeshMechanism] == "udping" && LastToName(targets, i, server) ==>
          Runs(children, server, UdpingServer,
               map[MeshMechanism := "udping", MeshName := t[MeshName], LocalIp := t[LocalIp]]))
  }

  predicate PingOrUdping(t: Target) {
    t[MeshMechanism] == "ping" || t[MeshMechanism] == "udping"
  }

  /** The children are the senders of the ping targets, the clients of the udping targets and the servers
      of their meshes, and no others. */
  ghost predicate RunsTargets(targets: seq<Target>, children: map<Signature, Child>) {
    && (forall i | 0 <= i < |targets| :: RunsTarget(targets, i, children))
    && (forall s | s in children :: exists i :: LastToName(targets, i, s) && PingOrUdping(targets[i]))
  }

  /** The parameters target `t` asks for under `s`. */
  function ParamsFor(t: Target, s: Signature): Params {
    if t[MeshMechanism] == "udping" && s == ServerSignature(t) then ServerParams(t) else t
  }

  /** The dictionary holds what the last target to ask for a signature asks for. */
  lemma {:induction false} TargetEntry(targets: seq<Target>, s: Signature)
    ensures s in TargetChildren(targets) <==> exists i :: LastToName(targets, i, s)
    ensures forall i | LastToName(targets, i, s) :: TargetChildren(targets)[s] == ParamsFor(targets[i], s)
  {
    if targets != [] {
      var front, n := targets[..|targets| - 1], |targets| - 1;
      TargetEntry(front, s);
      if Names(targets[n], s) {
        assert LastToName(targets, n, s);
      } else {
        forall i ensures LastToName(targets, i, s) <==> LastToName(front, i, s) {
          LastInFront(targets, i, s);
        }
      }
    }
  }

  lemma LastInFront(targets: seq<Target>, i: int, s: Signature)
    requires targets != [] && !Names(targets[|targets| - 1], s)
    ensures LastToName(targets, i, s) <==> LastToName(targets[..|targets| - 1], i, s)
  {
    var front := targets[..|targets| - 1];
    if LastToName(front, i, s) {
      forall j | i < j < |targets| ensures !Names(targets[j], s) {
        if j < |front| { assert targets[j] == front[j]; }
      }
    }
  }

  /** A signature starts with the mechanism and a colon, so it is no server's. */
  lemma ClientSignature(t: Target)
    requires t[MeshMechanism] == "udping" || t[MeshMechanism] == "ping"
    ensures !IsPrefix("udping_server", SignatureOf(t))
  {
    var m, s := t[MeshMechanism], SignatureOf(t);
    assert s[|m|] == ':';
    assert |s| >= 13 ==> s[..13][|m|] == ':';
  }

  lemma ServerIsServer(t: Target)
    ensures IsPrefix("udping_server", ServerSignature(t))
  {
    assert ServerSignature(t)[..13] == "udping_server";
  }

  /** A child that stays or is launched under `s` is of the kind, and agrees with the parameters, wanted. */
  lemma WantedRuns(before: map<Signature, Child>, targets: map<Signature, Params>, after: map<Signature, Child>,
                   killed: set<Signature>, launched: set<Signature>, firstPid: nat, s: Signature)
    requires forall t | t in targets :: HasMechanism(targets[t])
    requires Synchronized(before, targets, after, killed, launched, firstPid) && Wanted(targets, s)
    requires Launchable(before)
    ensures Runs(after, s, KindFor(s, targets[s]), targets[s])
  {
    if Kept(before, targets, s) {
      assert after[s] == before[s];
      assert Agree(before[s].params, targets[s]);
    } else {
      assert s in launched;
    }
  }

  /** Under `s` runs what target `i` asks for. */
  ghost predicate RunsUnder(targets: seq<Target>, after: map<Signature, Child>, i: int, s: Signature) {
    LastToName(targets, i, s) && Known(targets[i])
    ==> var params := ParamsFor(targets[i], s);
        HasMechanism(params) && Runs(after, s, KindFor(s, params), params)
  }

  lemma TargetRuns(before: map<Signature, Child>, targets: seq<Target>, after: map<Signature, Child>,
                   killed: set<Signature>, launched: set<Signature>, firstPid: nat, i: int, s: Signature)
    requires Synchronized(before, TargetChildren(targets), after, killed, launched, firstPid) && Launchable(before)
    ensures RunsUnder(targets, after, i, s)
  {
    if LastToName(targets, i, s) && Known(targets[i]) {
      TargetEntry(targets, s);
      WantedRuns(before, TargetChildren(targets), after, killed, launched, firstPid, s);
    }
  }

  lemma OneRuns(targets: seq<Target>, after: map<Signature, Child>, i: int)
    requires 0 <= i < |targets| && RunsUnder(targets, after, i, SignatureOf(targets[i]))
    requires RunsUnder(targets, after, i, ServerSignature(targets[i]))
    ensures RunsTarget(targets, i, after)
  {
    var t := targets[i];
    if Known(t) {
      ClientSignature(t);
      ServerIsServer(t);
    }
  }

  lemma ChildNamed(before: map<Signature, Child>, targets: seq<Target>, after: map<Signature, Child>,
                   killed: set<Signature>, launched: set<Signature>, firstPid: nat, s: Signature)
    requires Synchronized(before, TargetChildren(targets), after, killed, launched, firstPid) && s in after
    ensures exists i :: LastToName(targets, i, s) && PingOrUdping(targets[i])
  {
    assert Wanted(TargetChildren(targets), s);
    TargetEntry(targets, s);
    var i :| LastToName(targets, i, s);
    assert PingOrUdping(targets[i]);
  }

  lemma TargetsRun(before: map<Signature, Child>, targets: seq<Target>, after: map<Signature, Child>,
                   killed: set<Signature>, launched: set<Signature>, firstPid: nat)
    requires Synchronized(before, TargetChildren(targets), after, killed, launched, firstPid) && Launchable(before)
    ensures RunsTargets(targets, after)
  {
    forall i | 0 <= i < |targets| ensures RunsTarget(targets, i, after) {
      TargetRuns(before, targets, after, killed, launched, firstPid, i, SignatureOf(targets[i]));
      TargetRuns(before, targets, after, killed, launched, firstPid, i, ServerSignature(targets[i]));
      OneRuns(targets, after, i);
    }
    forall s | s in after ensures exists i :: LastToName(targets, i, s) && PingOrUdping(targets[i]) {
      ChildNamed(before, targets, after, killed, launched, firstPid, s);
    }
  }

  /** A child is killed if and only if no target asks for it, or the last that does gives one of its
      parameters another value. */
  lemma KilledIff(before: map<Signature, Child>, targets: seq<Target>, after: map<Signature, Child>,
                  killed: set<Signature>, launched: set<Signature>, firstPid: nat, s: Signature)
    requires Synchronized(before, TargetChildren(targets), after, killed, launched, firstPid) && s in before
    ensures s in killed
            <==> forall i | LastToName(targets, i, s) :: !Agree(before[s].params, ParamsFor(targets[i], s))
  {
    TargetEntry(targets, s);
    if s in TargetChildren(targets) {
      var i :| LastToName(targets, i, s);
      assert Kept(before, TargetChildren(targets), s) <==> Agree(before[s].params, ParamsFor(targets[i], s));
    }
  }

  // ---------- What a signature tells ----------

  lemma {:induction false} CutAt(c: char, a: string, x: string, b: string, y: string)
    requires c !in a && c !in b && a + [c] + x == b + [c] + y
    ensures a == b && x == y
  {
    var s := a + [c] + x;
    assert s[|a|] == c && s[|b|] == c;
    assert a == s[..|a|] && b == s[..|b|] && x == s[|a| + 1..] && y == s[|b| + 1..];
  }

  /** Four parts with dots between them. */
  ghost predicate IsDotted(ip: string, a: string, b: string, c: string, d: string) {
    '.' !in a && '.' !in b && '.' !in c && '.' !in d && ip == a + "." + b + "." + c + "." + d
  }

  lemma CutDotted(ip: string, a: string, b: string, c: string, d: string, x: string)
    requires IsDotted(ip, a, b, c, d)
    ensures ip + "." + x == a + ['.'] + (b + ['.'] + (c + ['.'] + (d + ['.'] + x)))
  {
  }

  lemma CutAfterIp(ip: string, x: string, ip': string, y: string)
    requires exists a, b, c, d :: IsDotted(ip, a, b, c, d)
    requires exists a, b, c, d :: IsDotted(ip', a, b, c, d)
    requires ip + "." + x == ip' + "." + y
    ensures ip == ip' && x == y
  {
    var a, b, c, d :| IsDotted(ip, a, b, c, d);
    var a', b', c', d' :| IsDotted(ip', a', b', c', d');
    CutDotted(ip, a, b, c, d, x);
    CutDotted(ip', a', b', c', d', y);
    CutAt('.', a, b + ['.'] + (c + ['.'] + (d + ['.'] + x)), a', b' + ['.'] + (c' + ['.'] + (d' + ['.'] + y)));
    CutAt('.', b, c + ['.'] + (d + ['.'] + x), b', c' + ['.'] + (d' + ['.'] + y));
    CutAt('.', c, d + ['.'] + x, c', d' + ['.'] + y);
    CutAt('.', d, x, d', y);
  }

  /** Separators are where the format has them: none in the mechanism, the mesh name and the host names, and
      three dots in the local address. */
  ghost predicate IsPlain(t: Target) {
    && ':' !in t[MeshMechanism] && '.' !in t[MeshName] && ':' !in t[LocalHostname] && ':' !in t[PeerHostname]
    && exists a, b, c, d :: IsDotted(t[LocalIp], a, b, c, d)
  }

  /** Targets with plain names have one signature only if they are of one mechanism, mesh, host and peer. */
  lemma SignatureTells(t: Target, u: Target)
    requires IsPlain(t) && IsPlain(u) && SignatureOf(t) == SignatureOf(u)
    ensures forall k | k in {MeshMechanism, MeshName, LocalHostname, LocalIp, PeerHostname, PeerIp} :: t[k] == u[k]
  {
    SignatureParts(t);
    SignatureParts(u);
    CutAt(':', t[MeshMechanism], AfterMechanism(t), u[MeshMechanism], AfterMechanism(u));
    CutAt('.', t[MeshName], AfterMesh(t), u[MeshName], AfterMesh(u));
    CutAt(':', t[LocalHostname], AfterHost(t), u[LocalHostname], AfterHost(u));
    CutAfterIp(t[LocalIp], t[PeerHostname] + [':'] + t[PeerIp], u[LocalIp], u[PeerHostname] + [':'] + u[PeerIp]);
    CutAt(':', t[PeerHostname], t[PeerIp], u[PeerHostname], u[PeerIp]);
  }

  function AfterHost(t: Target): string {
    t[LocalIp] + "." + (t[PeerHostname] + [':'] + t[PeerIp])
  }

  function AfterMesh(t: Target): string {
    t[LocalHostname] + [':'] + AfterHost(t)
  }

  function AfterMechanism(t: Target): string {
    t[MeshName] + ['.'] + AfterMesh(t)
  }

  lemma SignatureParts(t: Target)
    ensures SignatureOf(t) == t[MeshMechanism] + [':'] + AfterMechanism(t)
  {
  }

  function TargetOf(mechanism: string, mesh: string, host: string, ip: string, peer: string, peerIp: string): Target {
    map[MeshMechanism := mechanism, MeshName := mesh, LocalHostname := host, LocalIp := ip,
        PeerHostname := peer, PeerIp := peerIp]
  }

  /** With a dot in a mesh name two meshes can share a signature, and then only the later target runs. */
  lemma SignatureExamples()
    ensures SignatureOf(TargetOf("udping", "m", "a", "1.1.1.1", "b", "2.2.2.2")) == "udping:m.a:1.1.1.1.b:2.2.2.2"
    ensures ServerSignature(TargetOf("udping", "m", "a", "1.1.1.1", "b", "2.2.2.2")) == "udping_server:m"
    ensures SignatureOf(TargetOf("ping", "m.a", "b", "1.1.1.1", "c", "2.2.2.2"))
            == SignatureOf(TargetOf("ping", "m", "a.b", "1.1.1.1", "c", "2.2.2.2"))
  {
  }

  // ---------- Synchronising again ----------

  lemma LaunchedAgree(before: map<Signature, Child>, targets: map<Signature, Params>, after: map<Signature, Child>,
                      killed: set<Signature>, launched: set<Signature>, firstPid: nat, s: Signature)
    requires forall t | t in targets :: HasMechanism(targets[t])
    requires Synchronized(before, targets, after, killed, launched, firstPid) && s in after
    ensures Kept(after, targets, s)
  {
    assert Wanted(targets, s);
    if !Kept(before, targets, s) { assert s in launched; }
  }

  /** A second synchronisation with the same targets, after any children (none, or those reaped as
      orphans) have gone, kills nothing, launches exactly the missing ones, and leaves the others as
      they are, with their process ids. */
  lemma Resynchronize(before: map<Signature, Child>, targets: map<Signature, Params>,
                      mid: map<Signature, Child>, killed: set<Signature>, launched: set<Signature>, firstPid: nat,
                      gone: set<Signature>,
                      after: map<Signature, Child>, killed': set<Signature>, launched': set<Signature>, firstPid': nat)
    requires forall t | t in targets :: HasMechanism(targets[t])
    requires Synchronized(before, targets, mid, killed, launched, firstPid)
    requires gone <= mid.Keys
    requires Synchronized(mid - gone, targets, after, killed', launched', firstPid')
    ensures killed' == {} && launched' == gone && after.Keys == mid.Keys
    ensures forall s | s in mid && s !in gone :: after[s] == mid[s]
    ensures gone == {} ==> after == mid
  {
    forall s | s in mid ensures Kept(mid, targets, s) {
      LaunchedAgree(before, targets, mid, killed, launched, firstPid, s);
    }
    forall s | s in mid && s !in gone ensures Kept(mid - gone, targets, s) {
      assert Kept(mid, targets, s);
    }
    forall s ensures s in launched' <==> s in gone {
      if s in gone { assert Wanted(targets, s); }
    }
  }
}
