/**
 Teardown by tombstones.

 Rows that are to go are marked, the agents are told, and an agent's
 acknowledgement deletes them. Acknowledgements arrive in any order, repeated
 or stale, and list whatever the agent lists. First comes what no sequence of
 them can delete, then exactly when a sequence deletes a cluster.
 */
module Teardown {
  import opened Tables

  // --- What one acknowledgement changes ---

  /** Only the host's own pending memberships go. */
  ghost predicate MembersGo(s: Tables, t: Tables, h: string) {
    && (forall k :: k in t.members ==> k in s.members && t.members[k] == s.members[k])
    && (forall k :: k in s.members && k !in t.members ==> k.1 == h && !s.members[k].active)
  }

  /** Only the host's own pending VMs go. */
  ghost predicate VmsGo(s: Tables, t: Tables, h: string) {
    && (forall v :: v in t.vms ==> v in s.vms && t.vms[v] == s.vms[v])
    && (forall v :: v in s.vms && v !in t.vms ==> s.vms[v].host == h && s.vms[v].state == PendingTeardown)
  }

  /** Only clusters to which no row refers any longer go. */
  ghost predicate ClustersGo(s: Tables, t: Tables) {
    && (forall c :: c in t.clusters ==> c in s.clusters && t.clusters[c] == s.clusters[c])
    && (forall c :: c in s.clusters && c !in t.clusters ==> !Referenced(t, c))
  }

  /** A GPU is freed exactly with its VM. */
  ghost predicate GpusGo(s: Tables, t: Tables) {
    && (forall g <- t.gpus :: g in s.gpus && (g.vm in s.vms ==> g.vm in t.vms))
    && (forall g <- s.gpus :: g !in t.gpus ==> g.vm !in t.vms)
  }

  /** The addresses of a cluster go exactly with the cluster; those of one that is not there stay. */
  ghost predicate IpsGo(s: Tables, t: Tables) {
    && (forall a :: a in t.ips ==> a in s.ips && t.ips[a] == s.ips[a])
    && (forall a :: a in s.ips && s.ips[a].owner.OfCluster? ==>
          (a !in t.ips <==> s.ips[a].owner.cluster in s.clusters && s.ips[a].owner.cluster !in t.clusters))
  }

  /** `t` is `s` with some rows deleted, and only those an acknowledgement by `h` may delete. */
  ghost predicate OnlyPendingDeleted(s: Tables, t: Tables, h: string) {
    && t.hosts == s.hosts && t.disks == s.disks
    && MembersGo(s, t, h) && VmsGo(s, t, h) && ClustersGo(s, t) && GpusGo(s, t) && IpsGo(s, t)
  }

  lemma DeletedTransitive(s: Tables, t: Tables, u: Tables, h: string)
    requires OnlyPendingDeleted(s, t, h) && OnlyPendingDeleted(t, u, h)
    ensures OnlyPendingDeleted(s, u, h)
  {
  }

  lemma AckVmFreesIps(s: Tables, h: string, v: string)
    ensures IpsGo(s, AckVm(s, h, v))
  {
    assert AckVm(s, h, v).clusters == s.clusters && AckVm(s, h, v).ips == WithoutOwner(s.ips, OfVm(v));
  }

  lemma AckVmFreesGpus(s: Tables, h: string, v: string)
    ensures GpusGo(s, AckVm(s, h, v))
  {
  }

  lemma AckVmDeletes(s: Tables, h: string, v: string)
    ensures OnlyPendingDeleted(s, AckVm(s, h, v), h)
  {
    AckVmFreesIps(s, h, v);
    AckVmFreesGpus(s, h, v);
    var t := AckVm(s, h, v);
    assert t.members == s.members && t.clusters == s.clusters;
  }

  lemma AckClusterDeletes(s: Tables, h: string, c: string)
    requires c in s.clusters
    ensures OnlyPendingDeleted(s, AckCluster(s, h, c), h)
  {
    var t := DropPendingMember(s, h, c);
    DropMemberDeletes(s, h, c);
    DropDrainedDeletes(t, h, c);
    DeletedTransitive(s, t, DropDrained(t, c), h);
  }

  lemma DropMemberDeletes(s: Tables, h: string, c: string)
    ensures OnlyPendingDeleted(s, DropPendingMember(s, h, c), h)
  {
  }

  lemma DropDrainedFrees(s: Tables, c: string)
    requires c in s.clusters
    ensures IpsGo(s, DropDrained(s, c)) && GpusGo(s, DropDrained(s, c))
  {
    assert DropDrained(s, c).vms == s.vms && DropDrained(s, c).gpus == s.gpus;
  }

  lemma DropDrainedDeletes(s: Tables, h: string, c: string)
    requires c in s.clusters
    ensures OnlyPendingDeleted(s, DropDrained(s, c), h)
  {
    var t := DropDrained(s, c);
    DropDrainedFrees(s, c);
    assert t.members == s.members && t.vms == s.vms;
    assert ClustersGo(s, t) by { assert Referenced(t, c) <==> Referenced(s, c); }
  }

  lemma {:induction false} AckVmsDeletes(s: Tables, h: string, vms: seq<string>)
    ensures OnlyPendingDeleted(s, AckVms(s, h, vms), h)
    decreases |vms|
  {
    if vms != [] {
      var t := AckVm(s, h, vms[0]);
      AckVmDeletes(s, h, vms[0]);
      AckVmsDeletes(t, h, vms[1..]);
      DeletedTransitive(s, t, AckVms(t, h, vms[1..]), h);
    }
  }

  lemma AckVniDeletes(s: Tables, h: string, vni: nat)
    ensures OnlyPendingDeleted(s, AckVni(s, h, vni), h)
  {
    forall c | HasVni(s, c, vni) ensures OnlyPendingDeleted(s, AckCluster(s, h, c), h) {
      AckClusterDeletes(s, h, c);
    }
  }

  lemma {:induction false} AckVnisDeletes(s: Tables, h: string, vnis: seq<nat>)
    ensures OnlyPendingDeleted(s, AckVnis(s, h, vnis), h)
    decreases |vnis|
  {
    if vnis != [] {
      var t := AckVni(s, h, vnis[0]);
      AckVniDeletes(s, h, vnis[0]);
      AckVnisDeletes(t, h, vnis[1..]);
      DeletedTransitive(s, t, AckVnis(t, h, vnis[1..]), h);
    }
  }

  /**
   Whatever an acknowledgement lists, it deletes no active membership, no VM
   that is not pending on its host and no cluster that a row still refers to,
   and it frees no address of a cluster that stays.
   */
  lemma AckDeletesOnlyPending(s: Tables, h: string, vnis: seq<nat>, vms: seq<string>)
    ensures OnlyPendingDeleted(s, Ack(s, h, vnis, vms), h)
  {
    var t := AckVms(s, h, vms);
    AckVmsDeletes(s, h, vms);
    AckVnisDeletes(t, h, vnis);
    DeletedTransitive(s, t, AckVnis(t, h, vnis), h);
  }

  /** Deleting that way keeps every declared constraint, references included. */
  lemma DeletionKeepsSchema(s: Tables, t: Tables, h: string)
    requires Schema(s) && OnlyPendingDeleted(s, t, h)
    ensures Schema(t)
  {
    forall k | k in t.members ensures k.0 in t.clusters {
      assert Referenced(t, k.0);
    }
    forall v | v in t.vms ensures t.vms[v].cluster in t.clusters {
      assert Referenced(t, t.vms[v].cluster);
    }
  }

  // --- Draining a cluster ---

  datatype AckMsg = AckMsg(host: string, vnis: seq<nat>, vms: seq<string>)

  /** The tables after `acks` have arrived, in order. */
  ghost function After(s: Tables, acks: seq<AckMsg>): Tables
    decreases |acks|
  {
    if acks == [] then s
    else
      var last := acks[|acks| - 1];
      Ack(After(s, acks[..|acks| - 1]), last.host, last.vnis, last.vms)
  }

  /** `t` has rows of `s` only, unchanged. */
  ghost predicate Shrinks(s: Tables, t: Tables) {
    && (forall k :: k in t.members ==> k in s.members && t.members[k] == s.members[k])
    && (forall v :: v in t.vms ==> v in s.vms && t.vms[v] == s.vms[v])
    && (forall c :: c in t.clusters ==> c in s.clusters && t.clusters[c] == s.clusters[c])
    && (forall a :: a in t.ips ==> a in s.ips && t.ips[a] == s.ips[a])
  }

  lemma {:induction false} AfterShrinks(s: Tables, acks: seq<AckMsg>)
    ensures Shrinks(s, After(s, acks))
    decreases |acks|
  {
    if acks != [] {
      var last := acks[|acks| - 1];
      AfterShrinks(s, acks[..|acks| - 1]);
      AckDeletesOnlyPending(After(s, acks[..|acks| - 1]), last.host, last.vnis, last.vms);
    }
  }

  /** No sequence of acknowledgements deletes an active membership, a VM that is not pending, or a cluster still referred to. */
  lemma {:induction false} LiveRowsSurvive(s: Tables, acks: seq<AckMsg>)
    ensures forall k :: k in s.members && s.members[k].active ==> k in After(s, acks).members
    ensures forall v :: v in s.vms && s.vms[v].state != PendingTeardown ==> v in After(s, acks).vms
    ensures forall c :: c in s.clusters && Referenced(After(s, acks), c) ==> c in After(s, acks).clusters
    decreases |acks|
  {
    if acks != [] {
      var last, t := acks[|acks| - 1], After(s, acks[..|acks| - 1]);
      LiveRowsSurvive(s, acks[..|acks| - 1]);
      AfterShrinks(s, acks[..|acks| - 1]);
      AckDeletesOnlyPending(t, last.host, last.vnis, last.vms);
      forall c | Referenced(After(s, acks), c) ensures Referenced(t, c) {
      }
    }
  }

  /** An activation, of a new row or a pending one, holds against every acknowledgement that arrives after it. */
  lemma ActivatedRowSurvives(s: Tables, c: string, h: string, lo: nat, hi: nat, acks: seq<AckMsg>)
    requires EnsureActive(s, c, h, lo, hi).1.Ok?
    ensures var (t, r) := EnsureActive(s, c, h, lo, hi);
      && (c, h) in After(t, acks).members && After(t, acks).members[(c, h)] == Member(r.value, true)
      && (c in s.clusters ==> c in After(t, acks).clusters)
  {
    var t := EnsureActive(s, c, h, lo, hi).0;
    LiveRowsSurvive(t, acks);
    AfterShrinks(t, acks);
    assert (c, h) in After(t, acks).members && Referenced(After(t, acks), c);
  }

  /** The cluster is being torn down: its memberships and its VMs are all pending. */
  ghost predicate Retired(s: Tables, c: string) {
    && (forall k :: k in s.members && k.0 == c ==> !s.members[k].active)
    && (forall v :: v in s.vms && s.vms[v].cluster == c ==> s.vms[v].state == PendingTeardown)
  }

  /** If cluster `c` is there, `own` is its VNI and nobody else's; if it is not, nothing refers to it. */
  ghost predicate Identified(t: Tables, c: string, own: nat) {
    && UniqueClusters(t) && (c in t.clusters ==> HasVni(t, c, own))
    && (c !in t.clusters ==> !Referenced(t, c))
  }

  lemma DeletionKeepsIdentity(t: Tables, u: Tables, h: string, c: string, own: nat)
    requires OnlyPendingDeleted(t, u, h) && Identified(t, c, own)
    ensures Identified(u, c, own)
  {
    if Referenced(u, c) { assert Referenced(t, c); }
  }

  lemma AckVniIs(t: Tables, h: string, vni: nat, c: string)
    requires UniqueClusters(t) && HasVni(t, c, vni)
    ensures AckVni(t, h, vni) == AckCluster(t, h, c)
  {
  }

  /** No row but the host's own membership refers to the cluster. */
  ghost predicate OnlyHeldBy(t: Tables, c: string, h: string) {
    && (forall k :: k in t.members && k.0 == c ==> k.1 == h)
    && (forall v :: v in t.vms ==> t.vms[v].cluster != c)
  }

  lemma AckOwnVni(t: Tables, h: string, c: string, own: nat)
    requires Identified(t, c, own) && Retired(t, c)
    ensures var u := AckVni(t, h, own); (c, h) !in u.members && (OnlyHeldBy(t, c, h) ==> c !in u.clusters)
  {
    if c in t.clusters {
      AckVniIs(t, h, own, c);
    } else {
      AckVniDeletes(t, h, own);
      assert (c, h) in t.members ==> Referenced(t, c);
    }
  }

  /** Acknowledging the VNI drops the host's membership, and the cluster if nothing else is left of it. */
  lemma {:induction false} AckVnisOwn(t: Tables, h: string, vnis: seq<nat>, c: string, own: nat)
    requires Identified(t, c, own) && Retired(t, c) && own in vnis
    ensures var u := AckVnis(t, h, vnis); (c, h) !in u.members && (OnlyHeldBy(t, c, h) ==> c !in u.clusters)
    decreases |vnis|
  {
    var t1 := AckVni(t, h, vnis[0]);
    AckVniDeletes(t, h, vnis[0]);
    DeletionKeepsIdentity(t, t1, h, c, own);
    AckVnisDeletes(t1, h, vnis[1..]);
    if vnis[0] == own { AckOwnVni(t, h, c, own); } else { AckVnisOwn(t1, h, vnis[1..], c, own); }
  }

  lemma AckOtherVni(t: Tables, h: string, vni: nat, c: string, own: nat)
    requires Identified(t, c, own) && vni != own
    ensures var u := AckVni(t, h, vni);
      (c in t.clusters ==> c in u.clusters) && (forall g :: (c, g) in t.members ==> (c, g) in u.members)
  {
    if found :| HasVni(t, found, vni) {
      AckVniIs(t, h, vni, found);
      assert found != c;
    }
  }

  /** Other VNIs touch neither the cluster nor its memberships. */
  lemma {:induction false} AckVnisOther(t: Tables, h: string, vnis: seq<nat>, c: string, own: nat)
    requires Identified(t, c, own) && own !in vnis
    ensures var u := AckVnis(t, h, vnis);
      (c in t.clusters ==> c in u.clusters) && (forall g :: (c, g) in t.members ==> (c, g) in u.members)
    decreases |vnis|
  {
    if vnis != [] {
      var t1 := AckVni(t, h, vnis[0]);
      AckOtherVni(t, h, vnis[0], c, own);
      AckVniDeletes(t, h, vnis[0]);
      DeletionKeepsIdentity(t, t1, h, c, own);
      AckVnisOther(t1, h, vnis[1..], c, own);
    }
  }

  ghost predicate OwnsNone(t: Tables, o: Owner) {
    forall a :: a in t.ips ==> t.ips[a].owner != o
  }

  lemma {:induction false} AckVmsRemoves(t: Tables, h: string, vms: seq<string>, v: string)
    requires v in vms && (v in t.vms ==> t.vms[v].host == h && t.vms[v].state == PendingTeardown)
    ensures v !in AckVms(t, h, vms).vms && OwnsNone(AckVms(t, h, vms), OfVm(v))
    decreases |vms|
  {
    var u := AckVm(t, h, vms[0]);
    AckVmDeletes(t, h, vms[0]);
    if v == vms[0] {
      assert v !in u.vms && OwnsNone(u, OfVm(v));
      AckVmsDeletes(u, h, vms[1..]);
    } else {
      AckVmsRemoves(u, h, vms[1..], v);
    }
  }

  lemma {:induction false} AckVmsOnlyListed(t: Tables, h: string, vms: seq<string>, v: string)
    requires v in t.vms && v !in AckVms(t, h, vms).vms
    ensures v in vms && t.vms[v].host == h
    decreases |vms|
  {
    var t1 := AckVm(t, h, vms[0]);
    AckVmDeletes(t, h, vms[0]);
    if v in t1.vms { AckVmsOnlyListed(t1, h, vms[1..], v); }
  }

  lemma {:induction false} PrefixStep(s: Tables, acks: seq<AckMsg>, n: nat)
    requires n < |acks|
    ensures After(s, acks[..n + 1]) == Ack(After(s, acks[..n]), acks[n].host, acks[n].vnis, acks[n].vms)
  {
    assert acks[..n + 1][..n] == acks[..n];
  }

  /** The host listed the VM in one of the first `n` acknowledgements. */
  ghost predicate Listed(acks: seq<AckMsg>, n: nat, h: string, v: string)
    requires n <= |acks|
  {
    exists j :: 0 <= j < n && acks[j].host == h && v in acks[j].vms
  }

  /** The host listed the VNI in one of the first `n` acknowledgements. */
  ghost predicate Named(acks: seq<AckMsg>, n: nat, h: string, own: nat)
    requires n <= |acks|
  {
    exists j :: 0 <= j < n && acks[j].host == h && own in acks[j].vnis
  }

  /** A VM row of the cluster is there until its host lists it, and no longer. */
  ghost predicate VmsFollow(s: Tables, t: Tables, acks: seq<AckMsg>, n: nat, c: string)
    requires n <= |acks|
  {
    forall v :: v in s.vms && s.vms[v].cluster == c ==>
      (v in t.vms <==> !Listed(acks, n, s.vms[v].host, v)) && (v in t.vms || OwnsNone(t, OfVm(v)))
  }

  /** So is a membership until its host names the VNI. */
  ghost predicate MembersFollow(s: Tables, t: Tables, acks: seq<AckMsg>, n: nat, c: string, own: nat)
    requires n <= |acks|
  {
    forall h :: (c, h) in s.members ==> ((c, h) in t.members <==> !Named(acks, n, h, own))
  }

  /** The acknowledgement `n` names the VNI, when every host has named it and every VM is listed. */
  ghost predicate Completes(s: Tables, acks: seq<AckMsg>, n: nat, c: string, own: nat)
    requires n < |acks|
  {
    && own in acks[n].vnis
    && (forall h :: (c, h) in s.members ==> Named(acks, n + 1, h, own))
    && (forall v :: v in s.vms && s.vms[v].cluster == c ==> Listed(acks, n + 1, s.vms[v].host, v))
  }

  ghost predicate Completed(s: Tables, acks: seq<AckMsg>, n: nat, c: string, own: nat)
    requires n <= |acks|
  {
    exists m :: 0 <= m < n && Completes(s, acks, m, c, own)
  }

  /** Of cluster `c`, `t` has rows of `s` only, unchanged. */
  ghost predicate Echoes(s: Tables, t: Tables, c: string) {
    && (forall k :: k in t.members && k.0 == c ==> k in s.members && t.members[k] == s.members[k])
    && (forall v :: v in t.vms && t.vms[v].cluster == c ==> v in s.vms && t.vms[v] == s.vms[v])
    && (forall v :: v in s.vms && s.vms[v].cluster == c && v in t.vms ==> t.vms[v] == s.vms[v])
  }

  /** How far the first `n` acknowledgements have drained the cluster, from `s` to `t`. */
  ghost predicate DrainedTo(s: Tables, t: Tables, acks: seq<AckMsg>, n: nat, c: string, own: nat)
    requires n <= |acks|
  {
    && Echoes(s, t, c) && Identified(t, c, own)
    && VmsFollow(s, t, acks, n, c) && MembersFollow(s, t, acks, n, c, own)
    && (c in t.clusters <==> !Completed(s, acks, n, c, own))
    && (c in t.clusters || OwnsNone(t, OfCluster(c)))
  }

  lemma {:induction false} AckVmsKeepRest(t: Tables, h: string, vms: seq<string>)
    ensures AckVms(t, h, vms).members == t.members && AckVms(t, h, vms).clusters == t.clusters
    decreases |vms|
  {
    if vms != [] { AckVmsKeepRest(AckVm(t, h, vms[0]), h, vms[1..]); }
  }

  lemma AckVniKeepsVms(t: Tables, h: string, vni: nat)
    ensures AckVni(t, h, vni).vms == t.vms
  {
    forall c ensures AckCluster(t, h, c).vms == t.vms {
      assert DropPendingMember(t, h, c).vms == t.vms;
    }
  }

  lemma {:induction false} AckVnisKeepVms(t: Tables, h: string, vnis: seq<nat>)
    ensures AckVnis(t, h, vnis).vms == t.vms
    decreases |vnis|
  {
    if vnis != [] {
      AckVniKeepsVms(t, h, vnis[0]);
      AckVnisKeepVms(AckVni(t, h, vnis[0]), h, vnis[1..]);
    }
  }

  lemma VmFollows(s: Tables, t: Tables, acks: seq<AckMsg>, n: nat, c: string, v: string)
    requires n < |acks| && Retired(s, c) && Echoes(s, t, c) && VmsFollow(s, t, acks, n, c)
    requires v in s.vms && s.vms[v].cluster == c
    ensures var u := Ack(t, acks[n].host, acks[n].vnis, acks[n].vms);
      (v in u.vms <==> !Listed(acks, n + 1, s.vms[v].host, v)) && (v in u.vms || OwnsNone(u, OfVm(v)))
  {
    var h, vms := acks[n].host, acks[n].vms;
    var t1 := AckVms(t, h, vms);
    AckVmsDeletes(t, h, vms);
    AckVnisDeletes(t1, h, acks[n].vnis);
    AckVnisKeepVms(t1, h, acks[n].vnis);
    if s.vms[v].host == h && v in vms {
      AckVmsRemoves(t, h, vms, v);
      assert Listed(acks, n + 1, s.vms[v].host, v);
    } else {
      assert Listed(acks, n + 1, s.vms[v].host, v) <==> Listed(acks, n, s.vms[v].host, v);
      if v in t.vms && v !in t1.vms { AckVmsOnlyListed(t, h, vms, v); }
    }
  }

  /** Acknowledging VMs leaves a retired cluster retired, and its row and memberships as they are. */
  lemma {:induction false} VmsAcked(s: Tables, t: Tables, h: string, vms: seq<string>, c: string, own: nat)
    requires Retired(s, c) && Echoes(s, t, c) && Identified(t, c, own)
    ensures var t1 := AckVms(t, h, vms);
      Retired(t1, c) && Identified(t1, c, own) && t1.members == t.members && t1.clusters == t.clusters
  {
    AckVmsDeletes(t, h, vms);
    AckVmsKeepRest(t, h, vms);
    DeletionKeepsIdentity(t, AckVms(t, h, vms), h, c, own);
  }

  lemma MemberFollows(s: Tables, t: Tables, acks: seq<AckMsg>, n: nat, c: string, own: nat, g: string)
    requires n < |acks| && Retired(s, c) && Echoes(s, t, c) && Identified(t, c, own)
    requires MembersFollow(s, t, acks, n, c, own) && (c, g) in s.members
    ensures var u := Ack(t, acks[n].host, acks[n].vnis, acks[n].vms);
      (c, g) in u.members <==> !Named(acks, n + 1, g, own)
  {
    var h, vms, vnis := acks[n].host, acks[n].vms, acks[n].vnis;
    var t1 := AckVms(t, h, vms);
    VmsAcked(s, t, h, vms, c, own);
    AckVnisDeletes(t1, h, vnis);
    assert Named(acks, n + 1, g, own) <==> Named(acks, n, g, own) || (h == g && own in vnis);
    if own in vnis {
      AckVnisOwn(t1, h, vnis, c, own);
    } else {
      AckVnisOther(t1, h, vnis, c, own);
    }
  }

  lemma ClusterFollows(s: Tables, t: Tables, acks: seq<AckMsg>, n: nat, c: string, own: nat)
    requires n < |acks| && Retired(s, c) && Echoes(s, t, c) && Identified(t, c, own) && c in t.clusters
    requires MembersFollow(s, t, acks, n, c, own)
    requires var u := Ack(t, acks[n].host, acks[n].vnis, acks[n].vms);
      VmsFollow(s, u, acks, n + 1, c) && MembersFollow(s, u, acks, n + 1, c, own)
    ensures var u := Ack(t, acks[n].host, acks[n].vnis, acks[n].vms);
      c in u.clusters <==> !Completes(s, acks, n, c, own)
  {
    var h, vms, vnis := acks[n].host, acks[n].vms, acks[n].vnis;
    var t1 := AckVms(t, h, vms);
    var u := AckVnis(t1, h, vnis);
    AckVmsDeletes(t, h, vms);
    VmsAcked(s, t, h, vms, c, own);
    AckVnisDeletes(t1, h, vnis);
    if Completes(s, acks, n, c, own) {
      AckVnisKeepVms(t1, h, vnis);
      assert OnlyHeldBy(t1, c, h) by {
        forall k | k in t1.members && k.0 == c ensures k.1 == h {
          assert (c, k.1) in s.members && Named(acks, n + 1, k.1, own);
        }
      }
      AckVnisOwn(t1, h, vnis, c, own);
    } else if own !in vnis {
      AckVnisOther(t1, h, vnis, c, own);
    } else if c !in u.clusters {
      assert !Referenced(u, c);
      assert Completes(s, acks, n, c, own) by {
        forall g | (c, g) in s.members ensures Named(acks, n + 1, g, own) { assert (c, g) !in u.members; }
      }
    }
  }

  lemma DrainStep(s: Tables, t: Tables, acks: seq<AckMsg>, n: nat, c: string, own: nat)
    requires n < |acks| && Retired(s, c) && DrainedTo(s, t, acks, n, c, own)
    ensures DrainedTo(s, Ack(t, acks[n].host, acks[n].vnis, acks[n].vms), acks, n + 1, c, own)
  {
    var h := acks[n].host;
    var u := Ack(t, h, acks[n].vnis, acks[n].vms);
    AckDeletesOnlyPending(t, h, acks[n].vnis, acks[n].vms);
    DeletionKeepsIdentity(t, u, h, c, own);
    assert VmsFollow(s, u, acks, n + 1, c) by {
      forall v | v in s.vms && s.vms[v].cluster == c
        ensures (v in u.vms <==> !Listed(acks, n + 1, s.vms[v].host, v)) && (v in u.vms || OwnsNone(u, OfVm(v)))
      {
        VmFollows(s, t, acks, n, c, v);
      }
    }
    assert MembersFollow(s, u, acks, n + 1, c, own) by {
      forall g | (c, g) in s.members ensures (c, g) in u.members <==> !Named(acks, n + 1, g, own) {
        MemberFollows(s, t, acks, n, c, own, g);
      }
    }
    if c in t.clusters { ClusterFollows(s, t, acks, n, c, own); }
    assert Completed(s, acks, n + 1, c, own) <==> Completed(s, acks, n, c, own) || Completes(s, acks, n, c, own);
  }

  lemma {:induction false} DrainSteps(s: Tables, acks: seq<AckMsg>, n: nat, c: string, own: nat)
    requires UniqueClusters(s) && HasVni(s, c, own) && Retired(s, c) && n <= |acks|
    ensures DrainedTo(s, After(s, acks[..n]), acks, n, c, own)
  {
    if n == 0 {
      assert acks[..0] == [];
    } else {
      DrainSteps(s, acks, n - 1, c, own);
      DrainStep(s, After(s, acks[..n - 1]), acks, n - 1, c, own);
      PrefixStep(s, acks, n - 1);
    }
  }

  /** No row of the cluster is left, and no address of it or of its VMs. */
  ghost predicate NothingLeft(s: Tables, t: Tables, c: string) {
    && c !in t.clusters && !Referenced(t, c) && OwnsNone(t, OfCluster(c))
    && forall v :: v in s.vms && s.vms[v].cluster == c ==> OwnsNone(t, OfVm(v))
  }

  lemma DrainedLeavesNothing(s: Tables, t: Tables, acks: seq<AckMsg>, n: nat, c: string, own: nat)
    requires n <= |acks| && DrainedTo(s, t, acks, n, c, own) && c !in t.clusters
    ensures NothingLeft(s, t, c)
  {
    forall v | v in s.vms && s.vms[v].cluster == c ensures v !in t.vms {
      assert v in t.vms ==> Referenced(t, c);
    }
  }

  /**
   For all tables and whatever acknowledgements arrive, in whatever order: a
   cluster's row is gone exactly when the cluster was retired and one of them
   named its VNI at a time when all its hosts had named it and all its VMs had
   been listed by their hosts; then every address it or its VMs held is gone.
   */
  lemma {:induction false} ClusterIsGoneIff(s: Tables, acks: seq<AckMsg>, c: string, own: nat)
    requires UniqueClusters(s) && HasVni(s, c, own)
    ensures c !in After(s, acks).clusters <==> Retired(s, c) && Completed(s, acks, |acks|, c, own)
    ensures c !in After(s, acks).clusters ==> NothingLeft(s, After(s, acks), c)
  {
    if Retired(s, c) {
      assert acks[..|acks|] == acks;
      DrainSteps(s, acks, |acks|, c, own);
      if c !in After(s, acks).clusters { DrainedLeavesNothing(s, After(s, acks), acks, |acks|, c, own); }
    } else {
      LiveClusterStays(s, acks, c);
    }
  }

  lemma {:induction false} LiveClusterStays(s: Tables, acks: seq<AckMsg>, c: string)
    requires c in s.clusters && !Retired(s, c)
    ensures c in After(s, acks).clusters
  {
    var t := After(s, acks);
    LiveRowsSurvive(s, acks);
    AfterShrinks(s, acks);
    if k :| k in s.members && k.0 == c && s.members[k].active {
      assert k in t.members && Referenced(t, c);
    } else {
      var v :| v in s.vms && s.vms[v].cluster == c && s.vms[v].state != PendingTeardown;
      assert v in t.vms && Referenced(t, c);
    }
  }

  /** A pending membership goes when its own host names the cluster's VNI, whatever else is in the list. */
  lemma {:induction false} AckVnisDropPending(t: Tables, h: string, vnis: seq<nat>, c: string, own: nat)
    requires UniqueClusters(t) && HasVni(t, c, own) && own in vnis && (c, h) in t.members && !t.members[(c, h)].active
    ensures (c, h) !in AckVnis(t, h, vnis).members
    decreases |vnis|
  {
    var t1 := AckVni(t, h, vnis[0]);
    AckVniDeletes(t, h, vnis[0]);
    AckVnisDeletes(t1, h, vnis[1..]);
    if vnis[0] == own {
      AckVniIs(t, h, own, c);
    } else {
      AckOtherVni(t, h, vnis[0], c, own);
      AckVnisDropPending(t1, h, vnis[1..], c, own);
    }
  }

  /** A pending VM goes exactly with its own host's acknowledgement that lists it, and its addresses with it. */
  lemma PendingVmAcked(t: Tables, h: string, vnis: seq<nat>, vms: seq<string>, v: string)
    requires v in t.vms && t.vms[v].state == PendingTeardown
    ensures v !in Ack(t, h, vnis, vms).vms <==> t.vms[v].host == h && v in vms
    ensures v !in Ack(t, h, vnis, vms).vms ==> OwnsNone(Ack(t, h, vnis, vms), OfVm(v))
  {
    var u := AckVms(t, h, vms);
    AckVmsDeletes(t, h, vms);
    AckVnisDeletes(u, h, vnis);
    AckVnisKeepVms(u, h, vnis);
    if t.vms[v].host == h && v in vms {
      AckVmsRemoves(t, h, vms, v);
    } else if v !in u.vms {
      AckVmsOnlyListed(t, h, vms, v);
    }
  }

  lemma {:induction false} VmIsGoneAfter(s: Tables, acks: seq<AckMsg>, n: nat, v: string)
    requires n <= |acks| && v in s.vms && s.vms[v].state == PendingTeardown
    ensures v !in After(s, acks[..n]).vms <==> Listed(acks, n, s.vms[v].host, v)
    ensures v !in After(s, acks[..n]).vms ==> OwnsNone(After(s, acks[..n]), OfVm(v))
  {
    if n == 0 {
      assert acks[..0] == [];
    } else {
      var m := n - 1;
      var t, ack := After(s, acks[..m]), acks[m];
      VmIsGoneAfter(s, acks, m, v);
      AfterShrinks(s, acks[..m]);
      PrefixStep(s, acks, m);
      assert Listed(acks, n, s.vms[v].host, v) <==>
        Listed(acks, m, s.vms[v].host, v) || (ack.host == s.vms[v].host && v in ack.vms);
      if v in t.vms {
        PendingVmAcked(t, ack.host, ack.vnis, ack.vms, v);
      } else {
        AckDeletesOnlyPending(t, ack.host, ack.vnis, ack.vms);
      }
    }
  }

  /** A VM's row is gone exactly when it was pending and its own host listed it; then its addresses are gone too. */
  lemma {:induction false} VmIsGoneIff(s: Tables, acks: seq<AckMsg>, v: string)
    requires v in s.vms
    ensures v !in After(s, acks).vms <==> s.vms[v].state == PendingTeardown && Listed(acks, |acks|, s.vms[v].host, v)
    ensures v !in After(s, acks).vms ==> OwnsNone(After(s, acks), OfVm(v))
  {
    if s.vms[v].state == PendingTeardown {
      assert acks[..|acks|] == acks;
      VmIsGoneAfter(s, acks, |acks|, v);
    } else {
      LiveRowsSurvive(s, acks);
    }
  }

  /** Hosts that list their VMs no later than the VNI they belong to, and all name it, drain the cluster. */
  lemma {:induction false} VmsFirstDrains(s: Tables, acks: seq<AckMsg>, c: string, own: nat)
    requires UniqueClusters(s) && HasVni(s, c, own) && Retired(s, c)
    requires exists h :: (c, h) in s.members
    requires forall h :: (c, h) in s.members ==> Named(acks, |acks|, h, own)
    requires forall v :: v in s.vms && s.vms[v].cluster == c ==> (c, s.vms[v].host) in s.members
    requires forall i, v ::
      (0 <= i < |acks| && own in acks[i].vnis && v in s.vms && s.vms[v].cluster == c && s.vms[v].host == acks[i].host) ==>
        Listed(acks, i + 1, acks[i].host, v)
    ensures NothingLeft(s, After(s, acks), c)
  {
    var n := LastNaming(acks, |acks|, own);
    forall v | v in s.vms && s.vms[v].cluster == c ensures Listed(acks, n + 1, s.vms[v].host, v) {
      var i :| 0 <= i < |acks| && acks[i].host == s.vms[v].host && own in acks[i].vnis;
      assert Listed(acks, i + 1, acks[i].host, v);
    }
    assert Completes(s, acks, n, c, own);
    ClusterIsGoneIff(s, acks, c, own);
  }

  /** The last of the first `n` acknowledgements that names the VNI. */
  ghost function LastNaming(acks: seq<AckMsg>, n: nat, own: nat): (m: nat)
    requires n <= |acks| && exists j :: 0 <= j < n && own in acks[j].vnis
    ensures m < n && own in acks[m].vnis && forall j :: m < j < n ==> own !in acks[j].vnis
  {
    if own in acks[n - 1].vnis then n - 1 else LastNaming(acks, n - 1, own)
  }

  lemma SingleAcks(t: Tables, h: string, vni: nat, v: string)
    ensures Ack(t, h, [vni], []) == AckVni(t, h, vni) && Ack(t, h, [], [v]) == AckVm(t, h, v)
  {
    assert AckVms(t, h, []) == t;
    assert [vni][1..] == [] && [v][1..] == [];
    assert AckVnis(t, h, [vni]) == AckVnis(AckVni(t, h, vni), h, []);
    assert AckVms(t, h, [v]) == AckVms(AckVm(t, h, v), h, []);
  }

  /** The VNI named before the VM is listed: the VM row goes and the unreferenced cluster row stays behind. */
  lemma VniBeforeVmStrands(c: string, h: string, v: string, cluster: Cluster, vm: Vm)
    requires vm.cluster == c && vm.host == h && vm.state == PendingTeardown
    ensures var own := cluster.net.vni;
      var s := Tables(map[], map[c := cluster], map[(c, h) := Member(0, false)], map[v := vm], {}, map[], map[]);
      var acks := [AckMsg(h, [own], []), AckMsg(h, [], [v])];
      && Retired(s, c) && Named(acks, 2, h, own) && Listed(acks, 2, h, v)
      && c in After(s, acks).clusters && !Referenced(After(s, acks), c)
  {
    var own := cluster.net.vni;
    var s := Tables(map[], map[c := cluster], map[(c, h) := Member(0, false)], map[v := vm], {}, map[], map[]);
    var acks := [AckMsg(h, [own], []), AckMsg(h, [], [v])];
    assert (c, h) in s.members && acks[0].host == h && own in acks[0].vnis;
    var t := s.(members := map[]);
    assert AckVni(s, h, own) == t by {
      assert HasVni(s, c, own) && v in s.vms;
      AckVniIs(s, h, own, c);
      assert s.members - {(c, h)} == map[];
    }
    SingleAcks(s, h, own, v);
    SingleAcks(t, h, own, v);
    assert acks[..0] == [] && acks[..2] == acks;
    PrefixStep(s, acks, 0);
    PrefixStep(s, acks, 1);
  }

  lemma {:induction false} AckVmsFreesIff(s: Tables, h: string, vms: seq<string>, a: nat)
    requires a in s.ips && s.ips[a].owner.OfVm?
    ensures a in AckVms(s, h, vms).ips <==> s.ips[a].owner.vm !in vms
    decreases |vms|
  {
    if vms != [] {
      if s.ips[a].owner.vm == vms[0] {
        AckVmsDeletes(AckVm(s, h, vms[0]), h, vms[1..]);
      } else {
        AckVmsFreesIff(AckVm(s, h, vms[0]), h, vms[1..], a);
      }
    }
  }

  lemma AckVniKeepsVmAddress(t: Tables, h: string, vni: nat, a: nat)
    requires a in t.ips && t.ips[a].owner.OfVm?
    ensures a in AckVni(t, h, vni).ips
  {
    forall c ensures a in AckCluster(t, h, c).ips {
      assert DropPendingMember(t, h, c).ips == t.ips;
    }
  }

  lemma {:induction false} AckVnisKeepVmAddress(t: Tables, h: string, vnis: seq<nat>, a: nat)
    requires a in t.ips && t.ips[a].owner.OfVm?
    ensures a in AckVnis(t, h, vnis).ips
    decreases |vnis|
  {
    if vnis != [] {
      AckVniKeepsVmAddress(t, h, vnis[0], a);
      AckVniDeletes(t, h, vnis[0]);
      AckVnisKeepVmAddress(AckVni(t, h, vnis[0]), h, vnis[1..], a);
    }
  }

  /**
   An acknowledgement frees the addresses of every VM it lists, pending or
   not: a held address stays held exactly when its VM is not listed.
   */
  lemma VmKeepsAddressIff(s: Tables, h: string, vnis: seq<nat>, vms: seq<string>, a: nat)
    requires a in s.ips && s.ips[a].owner.OfVm?
    ensures a in Ack(s, h, vnis, vms).ips <==> s.ips[a].owner.vm !in vms
  {
    var t := AckVms(s, h, vms);
    AckVmsFreesIff(s, h, vms, a);
    AckVmsDeletes(s, h, vms);
    AckVnisDeletes(t, h, vnis);
    if a in t.ips { AckVnisKeepVmAddress(t, h, vnis, a); }
  }

  // --- How rows get to be pending ---

  /** A membership is retired exactly when no VM of the cluster on the host is left that is not itself pending. */
  lemma MemberRetiresIff(s: Tables, c: string, h: string)
    requires (c, h) in s.members && s.members[(c, h)].active
    ensures var t := MarkMemberPending(s, c, h);
      && t == s.(members := t.members) && t.members.Keys == s.members.Keys
      && (forall k :: k in s.members && k != (c, h) ==> t.members[k] == s.members[k])
      && (!t.members[(c, h)].active <==>
            forall v :: v in s.vms && s.vms[v].cluster == c && s.vms[v].host == h ==> s.vms[v].state == PendingTeardown)
  {
  }

  /** Retiring a cluster makes its own memberships inactive, and changes nothing else. */
  lemma ClusterRetiresIff(s: Tables, c: string)
    ensures var t := MarkClusterPending(s, c);
      && t == s.(members := t.members) && t.members.Keys == s.members.Keys
      && forall k :: k in s.members ==>
           t.members[k].ip == s.members[k].ip && (t.members[k].active <==> s.members[k].active && k.0 != c)
  {
  }

  /** A host that fails takes its VMs with it, except those stopped or failed already, and no others. */
  lemma HostFailureIff(s: Tables, h: string)
    ensures var t := MarkVmsFailed(s, h);
      && t == s.(vms := t.vms) && t.vms.Keys == s.vms.Keys
      && forall v :: v in s.vms ==>
           t.vms[v] == if s.vms[v].host == h && s.vms[v].state != Stopped then s.vms[v].(state := Failed) else s.vms[v]
  {
    assert MarkVmsFailed(s, h).vms.Keys == s.vms.Keys;
  }

  function MarkVms(s: Tables, vms: seq<string>): Tables
    decreases |vms|
  {
    if vms == [] then s else MarkVms(SetVmState(s, vms[0], PendingTeardown), vms[1..])
  }

  lemma {:induction false} MarkVmsMarks(s: Tables, vms: seq<string>, v: string)
    ensures MarkVms(s, vms) == s.(vms := MarkVms(s, vms).vms)
    ensures v in MarkVms(s, vms).vms <==> v in s.vms
    ensures v in s.vms ==> MarkVms(s, vms).vms[v] == if v in vms then s.vms[v].(state := PendingTeardown) else s.vms[v]
    decreases |vms|
  {
    if vms != [] {
      var t := SetVmState(s, vms[0], PendingTeardown);
      assert t == s.(vms := t.vms) && (v in t.vms <==> v in s.vms);
      MarkVmsMarks(t, vms[1..], v);
    }
  }

  /**
   Deleting a cluster marks every VM it lists, then every membership: that
   retires it, so the acknowledgements can drain it, and leaves the memberships
   of other clusters and the VMs it does not list as they are.
   */
  lemma {:induction false} DeletionRetires(s: Tables, c: string, vms: seq<string>)
    requires forall v :: v in s.vms && s.vms[v].cluster == c ==> v in vms
    ensures var t := MarkClusterPending(MarkVms(s, vms), c);
      && Retired(t, c) && t == s.(members := t.members, vms := t.vms)
      && (forall k :: k in s.members && k.0 != c ==> k in t.members && t.members[k] == s.members[k])
      && (forall v :: v in s.vms && v !in vms ==> v in t.vms && t.vms[v] == s.vms[v])
  {
    var t := MarkVms(s, vms);
    MarkVmsMarks(s, vms, "");
    ClusterRetiresIff(t, c);
    forall v | v in t.vms && t.vms[v].cluster == c ensures t.vms[v].state == PendingTeardown {
      MarkVmsMarks(s, vms, v);
    }
    forall v | v in s.vms && v !in vms ensures v in t.vms && t.vms[v] == s.vms[v] { MarkVmsMarks(s, vms, v); }
  }

  /** A host that fails while VMs are pending on it: they are no longer pending, and no acknowledgement deletes them. */
  lemma {:induction false} FailureStopsTeardown(s: Tables, h: string, acks: seq<AckMsg>, v: string)
    requires v in s.vms && s.vms[v].host == h && s.vms[v].state == PendingTeardown
    ensures v in After(MarkVmsFailed(s, h), acks).vms && Referenced(After(MarkVmsFailed(s, h), acks), s.vms[v].cluster)
  {
    var t := MarkVmsFailed(s, h);
    assert t.vms[v] == s.vms[v].(state := Failed);
    VmIsGoneIff(t, acks, v);
    AfterShrinks(t, acks);
  }
}
