/**
 Whose address a VM has.

 An address is given to a VM before its row is there, and a release or an
 acknowledgement that names the VM takes it back whether or not the row goes.
 So a row may outlive its claim. These lemmas say exactly when it does, and
 that rows which keep their claims never share an address.
 */
module VmAddresses {
  import opened Config
  import opened Tables
  import opened Teardown
  import opened Controller
  import opened Capacity
  import opened Addresses

  /** The step takes back every address of VM `v`. */
  predicate Names(step: Step, v: string) {
    step == IpsRelease(OfVm(v)) || (step.TombstoneAck? && v in step.vms)
  }

  /** No step from `lo` up to `hi` does. */
  ghost predicate Unnamed(steps: seq<Step>, lo: nat, hi: nat, v: string)
    requires hi <= |steps|
  {
    forall m :: lo <= m < hi ==> !Names(steps[m], v)
  }

  /** A step that names the VM takes its addresses out of the table, and no other step does. */
  lemma VmAddressStaysIff(ratio: Ratio, s: Tables, step: Step, a: nat)
    requires ratio.Valid() && Typed(step) && NoWrap(step) && a in s.ips && s.ips[a].owner.OfVm?
    ensures var t := Apply(ratio, s, step);
      (a in t.ips <==> !Names(step, s.ips[a].owner.vm)) && (a in t.ips ==> t.ips[a] == s.ips[a])
  {
    if a in Apply(ratio, s, step).ips { AddressesCome(ratio, s, step, a); }
    if OnlyVms(step) {
      VmStep(ratio, s, step);
    } else if step.TombstoneAck? {
      VmKeepsAddressIff(s, step.host, step.vnis, step.vms, a);
    }
  }

  function Claim(c: string, v: string): Holding {
    Holding(ClusterScope(c), OfVm(v))
  }

  /** Some step gave the address to the VM, and no step since has named the VM. */
  ghost predicate Claimed(tr: seq<Tables>, steps: seq<Step>, i: nat, c: string, v: string, a: nat)
    requires i <= |steps| < |tr|
  {
    exists j :: 0 <= j < i && Gave(tr, steps, j, c, v, a) && Unnamed(steps, j + 1, i, v)
  }

  /** Step `m` leads from one state of the trace to the next. */
  ghost predicate Evolves(ratio: Ratio, tr: seq<Tables>, steps: seq<Step>, m: nat)
    requires ratio.Valid() && m < |steps| < |tr|
  {
    Typed(steps[m]) && NoWrap(steps[m]) && tr[m + 1] == Apply(ratio, tr[m], steps[m])
  }

  lemma RunEvolves(cfg: NetworkConfig, ratio: Ratio, tr: seq<Tables>, steps: seq<Step>, m: nat)
    requires Carvable(cfg) && ratio.Valid() && ProperRun(cfg, ratio, tr, steps) && m < |steps|
    ensures Evolves(ratio, tr, steps, m)
  {
    assert Legal(cfg, tr, m, steps[m]) && Proper(tr[m], steps[m]);
  }

  lemma ClaimComes(ratio: Ratio, tr: seq<Tables>, steps: seq<Step>, i: nat, c: string, v: string, a: nat)
    requires ratio.Valid() && i < |steps| < |tr| && Evolves(ratio, tr, steps, i)
    requires Holds(tr[i + 1], a, Claim(c, v)) && a !in tr[i].ips
    ensures Gave(tr, steps, i, c, v, a)
  {
    AddressesCome(ratio, tr[i], steps[i], a);
  }

  lemma GivenIsHeld(ratio: Ratio, tr: seq<Tables>, steps: seq<Step>, i: nat, c: string, v: string, a: nat)
    requires ratio.Valid() && i < |steps| < |tr| && Evolves(ratio, tr, steps, i) && Gave(tr, steps, i, c, v, a)
    ensures Holds(tr[i + 1], a, Claim(c, v))
  {
  }

  lemma ClaimWasThere(ratio: Ratio, s: Tables, step: Step, c: string, v: string, a: nat)
    requires ratio.Valid() && Typed(step) && NoWrap(step) && a in s.ips && Holds(Apply(ratio, s, step), a, Claim(c, v))
    ensures Holds(s, a, Claim(c, v)) && !Names(step, v)
  {
    AddressesCome(ratio, s, step, a);
    VmAddressStaysIff(ratio, s, step, a);
  }

  lemma UnnamedNext(steps: seq<Step>, lo: nat, m: nat, v: string)
    requires lo <= m < |steps|
    ensures Unnamed(steps, lo, m + 1, v) <==> Unnamed(steps, lo, m, v) && !Names(steps[m], v)
  {
  }

  lemma StillClaimed(tr: seq<Tables>, steps: seq<Step>, m: nat, c: string, v: string, a: nat)
    requires m < |steps| < |tr| && Claimed(tr, steps, m, c, v, a) && !Names(steps[m], v)
    ensures Claimed(tr, steps, m + 1, c, v, a)
  {
    var j :| 0 <= j < m && Gave(tr, steps, j, c, v, a) && Unnamed(steps, j + 1, m, v);
    UnnamedNext(steps, j + 1, m, v);
  }

  lemma StillClaimedIff(tr: seq<Tables>, steps: seq<Step>, m: nat, c: string, v: string, a: nat)
    requires m < |steps| < |tr|
    ensures Claimed(tr, steps, m + 1, c, v, a) <==>
      Gave(tr, steps, m, c, v, a) || (Claimed(tr, steps, m, c, v, a) && !Names(steps[m], v))
  {
    if Gave(tr, steps, m, c, v, a) {
      assert Unnamed(steps, m + 1, m + 1, v);
    } else if Claimed(tr, steps, m + 1, c, v, a) {
      var j :| 0 <= j < m + 1 && Gave(tr, steps, j, c, v, a) && Unnamed(steps, j + 1, m + 1, v);
      UnnamedNext(steps, j + 1, m, v);
    } else if Claimed(tr, steps, m, c, v, a) && !Names(steps[m], v) {
      StillClaimed(tr, steps, m, c, v, a);
    }
  }

  /** A VM holds an address after a step exactly when the step gave it, or it held it and the step does not name it. */
  lemma HoldsNextIff(ratio: Ratio, tr: seq<Tables>, steps: seq<Step>, m: nat, c: string, v: string, a: nat)
    requires ratio.Valid() && m < |steps| < |tr| && Evolves(ratio, tr, steps, m)
    ensures Holds(tr[m + 1], a, Claim(c, v)) <==>
      Gave(tr, steps, m, c, v, a) || (Holds(tr[m], a, Claim(c, v)) && !Names(steps[m], v))
  {
    if Holds(tr[m + 1], a, Claim(c, v)) {
      if a in tr[m].ips { ClaimWasThere(ratio, tr[m], steps[m], c, v, a); } else { ClaimComes(ratio, tr, steps, m, c, v, a); }
    }
    if Gave(tr, steps, m, c, v, a) { GivenIsHeld(ratio, tr, steps, m, c, v, a); }
    if Holds(tr[m], a, Claim(c, v)) { VmAddressStaysIff(ratio, tr[m], steps[m], a); }
  }

  lemma {:induction false} HoldsIffClaimed(ratio: Ratio, tr: seq<Tables>, steps: seq<Step>, i: nat,
                                           c: string, v: string, a: nat)
    requires ratio.Valid() && i <= |steps| < |tr| && tr[0] == EMPTY
    requires forall m {:trigger Evolves(ratio, tr, steps, m)} :: 0 <= m < |steps| ==> Evolves(ratio, tr, steps, m)
    ensures Holds(tr[i], a, Claim(c, v)) <==> Claimed(tr, steps, i, c, v, a)
    decreases i
  {
    if i > 0 {
      HoldsIffClaimed(ratio, tr, steps, i - 1, c, v, a);
      HoldsNextIff(ratio, tr, steps, i - 1, c, v, a);
      StillClaimedIff(tr, steps, i - 1, c, v, a);
    }
  }

  /** In every state of a run: a VM holds an address exactly when it was given to it and no step since has named the VM. */
  lemma VmHoldsIff(cfg: NetworkConfig, ratio: Ratio, tr: seq<Tables>, steps: seq<Step>, i: nat, c: string, v: string, a: nat)
    requires Carvable(cfg) && ratio.Valid() && ProperRun(cfg, ratio, tr, steps) && i < |tr|
    ensures Holds(tr[i], a, Claim(c, v)) <==> Claimed(tr, steps, i, c, v, a)
  {
    forall m | 0 <= m < |steps| ensures Evolves(ratio, tr, steps, m) {
      RunEvolves(cfg, ratio, tr, steps, m);
    }
    HoldsIffClaimed(ratio, tr, steps, i, c, v, a);
  }

  // --- Rows that keep their claims ---

  ghost predicate Keeps(s: Tables, v: string) {
    v in s.vms ==> Holds(s, s.vms[v].ip, Claim(s.vms[v].cluster, v))
  }

  /**
   A VM that has a row is named only by an acknowledgement of its own host, and
   only while it is pending; a VM that can be inserted was given its address,
   and was not named since.
   */
  ghost predicate Tidy(ratio: Ratio, tr: seq<Tables>, steps: seq<Step>, i: nat)
    requires ratio.Valid() && i < |steps| < |tr|
  {
    var s, step := tr[i], steps[i];
    && (forall v :: v in s.vms && Names(step, v) ==>
          step.TombstoneAck? && step.host == s.vms[v].host && s.vms[v].state == PendingTeardown)
    && (step.VmInsert? && Insertable(s, ratio, step.vm, step.entry, step.pcis, step.rows) ==>
          Claimed(tr, steps, i, step.entry.cluster, step.vm, step.entry.ip))
  }

  /** A step that names a VM deletes its row exactly when the VM is pending and the step is its own host's acknowledgement. */
  lemma NamedRowGoesIff(ratio: Ratio, s: Tables, step: Step, v: string)
    requires ratio.Valid() && Typed(step) && v in s.vms && Names(step, v)
    ensures v !in Apply(ratio, s, step).vms <==>
      step.TombstoneAck? && step.host == s.vms[v].host && s.vms[v].state == PendingTeardown
  {
    if step.TombstoneAck? {
      AckDeletesOnlyPending(s, step.host, step.vnis, step.vms);
      AckVnisKeepVms(AckVms(s, step.host, step.vms), step.host, step.vnis);
      if step.host == s.vms[v].host && s.vms[v].state == PendingTeardown { AckVmsRemoves(s, step.host, step.vms, v); }
    }
  }

  ghost predicate AllTidy(ratio: Ratio, tr: seq<Tables>, steps: seq<Step>)
    requires ratio.Valid() && |steps| < |tr|
  {
    forall i :: 0 <= i < |steps| ==> Tidy(ratio, tr, steps, i)
  }

  lemma KeptRow(ratio: Ratio, s: Tables, step: Step, v: string)
    requires ratio.Valid() && Typed(step) && NoWrap(step) && v in s.vms && v in Apply(ratio, s, step).vms && Keeps(s, v)
    ensures Keeps(Apply(ratio, s, step), v) <==> !Names(step, v)
  {
    VmRowsCome(ratio, s, step, v);
    VmAddressStaysIff(ratio, s, step, s.vms[v].ip);
  }

  lemma TidyStepKeeps(cfg: NetworkConfig, ratio: Ratio, tr: seq<Tables>, steps: seq<Step>, i: nat, v: string)
    requires Carvable(cfg) && ratio.Valid() && ProperRun(cfg, ratio, tr, steps) && i < |steps|
    requires Tidy(ratio, tr, steps, i) && Keeps(tr[i], v)
    ensures Keeps(tr[i + 1], v)
  {
    var s, step := tr[i], steps[i];
    if v in tr[i + 1].vms {
      assert Legal(cfg, tr, i, step) && Proper(s, step);
      if v in s.vms {
        KeptRow(ratio, s, step, v);
        if Names(step, v) { NamedRowGoesIff(ratio, s, step, v); }
      } else {
        VmRowsCome(ratio, s, step, v);
        CommitIff(s, ratio, v, step.entry, step.pcis, step.rows);
        VmHoldsIff(cfg, ratio, tr, steps, i, step.entry.cluster, v, step.entry.ip);
      }
    }
  }

  lemma {:induction false} TidyRunKeeps(cfg: NetworkConfig, ratio: Ratio, tr: seq<Tables>, steps: seq<Step>, i: nat,
                                        v: string)
    requires Carvable(cfg) && ratio.Valid() && ProperRun(cfg, ratio, tr, steps) && AllTidy(ratio, tr, steps) && i < |tr|
    ensures Keeps(tr[i], v)
    decreases i
  {
    if i > 0 {
      TidyRunKeeps(cfg, ratio, tr, steps, i - 1, v);
      assert Tidy(ratio, tr, steps, i - 1);
      TidyStepKeeps(cfg, ratio, tr, steps, i - 1, v);
    }
  }

  lemma KeptRunIsTidy(cfg: NetworkConfig, ratio: Ratio, tr: seq<Tables>, steps: seq<Step>, i: nat)
    requires Carvable(cfg) && ratio.Valid() && ProperRun(cfg, ratio, tr, steps) && i < |steps|
    requires forall v :: Keeps(tr[i], v) && Keeps(tr[i + 1], v)
    ensures Tidy(ratio, tr, steps, i)
  {
    var s, t, step := tr[i], tr[i + 1], steps[i];
    assert Legal(cfg, tr, i, step) && Proper(s, step);
    forall v | v in s.vms && Names(step, v)
      ensures step.TombstoneAck? && step.host == s.vms[v].host && s.vms[v].state == PendingTeardown
    {
      assert Keeps(s, v) && Keeps(t, v);
      if v in t.vms { KeptRow(ratio, s, step, v); }
      NamedRowGoesIff(ratio, s, step, v);
    }
    if step.VmInsert? && Insertable(s, ratio, step.vm, step.entry, step.pcis, step.rows) {
      CommitIff(s, ratio, step.vm, step.entry, step.pcis, step.rows);
      assert Keeps(s, step.vm) && Keeps(t, step.vm);
      VmHoldsIff(cfg, ratio, tr, steps, i, step.entry.cluster, step.vm, step.entry.ip);
    }
  }

  /** Every VM row of every state of a run holds its address exactly when every step of the run is tidy. */
  lemma RowsKeepAddressesIff(cfg: NetworkConfig, ratio: Ratio, tr: seq<Tables>, steps: seq<Step>)
    requires Carvable(cfg) && ratio.Valid() && ProperRun(cfg, ratio, tr, steps)
    ensures (forall i, v :: 0 <= i < |tr| ==> Keeps(tr[i], v)) <==> AllTidy(ratio, tr, steps)
  {
    if AllTidy(ratio, tr, steps) {
      forall i, v | 0 <= i < |tr| ensures Keeps(tr[i], v) {
        TidyRunKeeps(cfg, ratio, tr, steps, i, v);
      }
    }
    if forall i, v :: 0 <= i < |tr| ==> Keeps(tr[i], v) {
      forall i | 0 <= i < |steps| ensures Tidy(ratio, tr, steps, i) {
        KeptRunIsTidy(cfg, ratio, tr, steps, i);
      }
    }
  }

  /** In a tidy run no two VM rows share an address, and none has the endpoint of a cluster or an address of a service block. */
  lemma TidyRowsAreApart(cfg: NetworkConfig, ratio: Ratio, tr: seq<Tables>, steps: seq<Step>, i: nat, v: string)
    requires Carvable(cfg) && ratio.Valid() && ProperRun(cfg, ratio, tr, steps) && AllTidy(ratio, tr, steps)
    requires i < |tr| && v in tr[i].vms
    ensures forall w :: w in tr[i].vms && w != v ==> tr[i].vms[w].ip != tr[i].vms[v].ip
    ensures forall c :: c in tr[i].clusters ==> tr[i].clusters[c].endpoint != tr[i].vms[v].ip
    ensures forall c :: c in tr[i].clusters && tr[i].clusters[c].block.Some? && tr[i].clusters[c].block.value.Valid() ==>
      !tr[i].clusters[c].block.value.Contains(tr[i].vms[v].ip)
  {
    TidyRunKeeps(cfg, ratio, tr, steps, i, v);
    forall w | w in tr[i].vms && w != v ensures tr[i].vms[w].ip != tr[i].vms[v].ip {
      TidyRunKeeps(cfg, ratio, tr, steps, i, w);
    }
    forall c | c in tr[i].clusters ensures Provisioned(tr[i], c, tr[i].clusters[c]) {
      ClustersStayProvisioned(cfg, ratio, tr, steps, i, c);
    }
  }
}
