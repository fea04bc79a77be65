/**
 The MDB generator that mirrors a Fleet Manager: a first message after every connect
 describes everything, the following ones only what changed.
 */
module FleetMirrors {
  import opened Basics
  import opened Machines

  datatype FleetMachine = FleetMachine(
    hostname: string, hostIpAddress: string, location: string,
    ownerGroups: Option<seq<string>>, ownerUsers: Option<seq<string>>, tags: Option<Tags>)

  datatype VmInfo = VmInfo(
    running: bool, ownerGroups: Option<seq<string>>, ownerUsers: Option<seq<string>>, tags: Option<Tags>)

  datatype Update = Update(
    changedMachines: seq<FleetMachine>,
    deletedMachines: seq<string>,
    changedVMs: map<string, VmInfo>,
    deletedVMs: seq<string>,
    vmToHypervisor: map<string, string>)

  datatype Mirror = Mirror(
    machines: map<string, FleetMachine>,       // by hostname
    vms: map<string, VmInfo>,                  // by address
    vmToHypervisor: map<string, string>)       // by address, the hypervisor's hostname

  const EMPTY := Mirror(map[], map[], map[])

  function PutMachines(t: map<string, FleetMachine>, l: seq<FleetMachine>): map<string, FleetMachine> {
    if l == [] then t else PutMachines(t, l[..|l| - 1])[l[|l| - 1].hostname := l[|l| - 1]]
  }

  function Names(l: seq<string>): set<string> {
    set k | k in l
  }

  function Hypervisors(u: Update): map<string, string> {
    map ip | ip in u.changedVMs :: Lookup(u.vmToHypervisor, ip)
  }

  /** The meaning of a message as a difference: put what changed, then remove what was deleted. */
  function Patch(s: Mirror, u: Update): Mirror {
    Mirror(PutMachines(s.machines, u.changedMachines) - Names(u.deletedMachines),
           (s.vms + u.changedVMs) - Names(u.deletedVMs),
           (s.vmToHypervisor + Hypervisors(u)) - Names(u.deletedVMs))
  }

  /** The hosts a message brings up to date. */
  function Mentioned(u: Update): set<string> {
    PutMachines(map[], u.changedMachines).Keys
  }

  /**
   What the code does with a message: put, delete what is named, and then what was known before
   an initial message and not mentioned in it. For VMs the old keys are those of one map only.
   */
  function Handle(s: Mirror, u: Update, initial: bool): Mirror {
    var hosts := (if initial then s.machines.Keys else {}) - Mentioned(u);
    var ips := (if initial then s.vms.Keys else {}) - u.changedVMs.Keys;
    Mirror(PutMachines(s.machines, u.changedMachines) - Names(u.deletedMachines) - hosts,
           (s.vms + u.changedVMs) - Names(u.deletedVMs) - ips,
           (s.vmToHypervisor + Hypervisors(u)) - Names(u.deletedVMs) - ips)
  }

  lemma {:induction false} PutMachinesKeys(t: map<string, FleetMachine>, l: seq<FleetMachine>, k: string)
    ensures k in PutMachines(map[], l) ==>
      k in PutMachines(t, l) && PutMachines(t, l)[k] == PutMachines(map[], l)[k]
    ensures k !in PutMachines(map[], l) ==> (k in PutMachines(t, l) <==> k in t)
    ensures k !in PutMachines(map[], l) && k in t ==> PutMachines(t, l)[k] == t[k]
  {
    if l != [] {
      PutMachinesKeys(t, l[..|l| - 1], k);
    }
  }

  /** Removing the old entries that were not replaced leaves what a fresh start would hold. */
  lemma ForgetOldMachines(t: map<string, FleetMachine>, l: seq<FleetMachine>, gone: set<string>)
    ensures (PutMachines(t, l) - gone) - (t.Keys - PutMachines(map[], l).Keys) == PutMachines(map[], l) - gone
  {
    forall k {
      PutMachinesKeys(t, l, k);
    }
  }

  lemma ForgetOld<V>(a: map<string, V>, b: map<string, V>, gone: set<string>)
    ensures ((a + b) - gone) - (a.Keys - b.Keys) == b - gone
  {
  }

  lemma OverlayOneMore<V>(a: map<string, V>, b: map<string, V>, todo: set<string>, k: string)
    requires k in todo && k in b
    ensures (a + (b - todo))[k := b[k]] == a + (b - (todo - {k}))
  {
  }

  lemma OverlayAll<V>(a: map<string, V>, b: map<string, V>)
    ensures a + (b - b.Keys) == a && a + (b - {}) == a + b
  {
  }

  lemma RemoveOneMore<V>(m: map<string, V>, names: seq<string>, i: nat)
    requires i < |names|
    ensures (m - Names(names[..i])) - {names[i]} == m - Names(names[..i + 1])
  {
    assert names[..i + 1] == names[..i] + [names[i]];
  }

  lemma RemoveAll<V>(m: map<string, V>, names: seq<string>)
    ensures m - Names(names[..0]) == m && m - Names(names[..|names|]) == m - Names(names)
  {
    assert names[..|names|] == names;
  }

  lemma RemoveSetOneMore<V>(m: map<string, V>, all: set<string>, todo: set<string>, k: string)
    requires k in todo && todo <= all
    ensures (m - (all - todo)) - {k} == m - (all - (todo - {k}))
  {
  }

  lemma RemoveSetAll<V>(m: map<string, V>, all: set<string>)
    ensures m - (all - all) == m && m - (all - {}) == m - all
  {
    assert all - {} == all;
  }

  class FleetMirror {
    var machines: map<string, FleetMachine>
    var vms: map<string, VmInfo>
    var vmToHypervisor: map<string, string>

    constructor ()
      ensures Valid() && View() == EMPTY
    {
      machines, vms, vmToHypervisor := map[], map[], map[];
    }

    ghost predicate Valid()
      reads this
    {
      vms.Keys == vmToHypervisor.Keys
    }

    ghost function View(): Mirror
      reads this
    {
      Mirror(machines, vms, vmToHypervisor)
    }

    /** A message of the Fleet Manager; the first one after a connect is the initial one. */
    method HandleUpdate(u: Update, initialUpdate: bool)
      requires Valid()
      modifies this
      ensures Valid() && View() == Handle(old(View()), u, initialUpdate)
    {
      var machinesToDelete: set<string>, vmsToDelete: set<string> := {}, {};
      if initialUpdate {
        machinesToDelete, vmsToDelete := machines.Keys, vms.Keys;
      }
      UpdateMachines(u, machinesToDelete);
      UpdateVMs(u, vmsToDelete);
      HandleKeepsKeys(old(View()), u, initialUpdate);
    }

    /** One connection: the messages until it breaks. */
    method GetUpdates(messages: seq<Update>)
      requires Valid()
      modifies this
      ensures Valid() && View() == Run(old(View()), Connection(messages))
    {
      var initialUpdate := true;
      for i := 0 to |messages|
        invariant Valid() && View() == Run(old(View()), Connection(messages)[..i])
        invariant initialUpdate == (i == 0)
      {
        HandleUpdate(messages[i], initialUpdate);
        initialUpdate := false;
        assert Connection(messages)[..i + 1][..i] == Connection(messages)[..i];
      }
      assert Connection(messages)[..|messages|] == Connection(messages);
    }

    /** Connecting again and again. */
    method Daemon(connections: seq<seq<Update>>)
      requires Valid()
      modifies this
      ensures Valid() && View() == Run(old(View()), AllMessages(connections))
    {
      for i := 0 to |connections|
        invariant Valid() && View() == Run(old(View()), AllMessages(connections[..i]))
      {
        GetUpdates(connections[i]);
        assert connections[..i + 1][..i] == connections[..i];
        RunAppend(old(View()), AllMessages(connections[..i]), Connection(connections[i]));
      }
      assert connections[..|connections|] == connections;
    }

    /** What the mirror contributes to the machine database; `join` is filepath.Join. */
    method Generate(join: (string, string) -> string) returns (out: seq<Machine>)
      ensures exists hosts, ips :: IsGenerated(View(), join, hosts, ips, out)
    {
      var s := Mirror(machines, vms, vmToHypervisor);
      out := MachinesOf(s, join);
      ghost var hosts, ips :| IsGenerated(s, join, hosts, ips, out);
      assert IsGenerated(View(), join, hosts, ips, out);
    }

    method UpdateMachines(u: Update, machinesToDelete: set<string>)
      modifies this`machines
      ensures machines ==
        PutMachines(old(machines), u.changedMachines) - Names(u.deletedMachines) - (machinesToDelete - Mentioned(u))
    {
      var rest := machinesToDelete;
      for i := 0 to |u.changedMachines|
        invariant machines == PutMachines(old(machines), u.changedMachines[..i])
        invariant rest == machinesToDelete - PutMachines(map[], u.changedMachines[..i]).Keys
      {
        assert u.changedMachines[..i + 1][..i] == u.changedMachines[..i];
        var machine := u.changedMachines[i];
        machines := machines[machine.hostname := machine];
        rest := rest - {machine.hostname};
      }
      assert u.changedMachines[..|u.changedMachines|] == u.changedMachines;
      RemoveMachines(u.deletedMachines);
      ghost var kept := machines;
      RemoveSetAll(kept, rest);
      var todo := rest;
      while todo != {}
        invariant todo <= rest && machines == kept - (rest - todo)
      {
        var h :| h in todo;
        RemoveSetOneMore(kept, rest, todo, h);
        machines := machines - {h};
        todo := todo - {h};
      }
    }

    method RemoveMachines(names: seq<string>)
      modifies this`machines
      ensures machines == old(machines) - Names(names)
    {
      RemoveAll(machines, names);
      for i := 0 to |names|
        invariant machines == old(machines) - Names(names[..i])
      {
        RemoveOneMore(old(machines), names, i);
        machines := machines - {names[i]};
      }
    }

    method UpdateVMs(u: Update, vmsToDelete: set<string>)
      modifies this`vms, this`vmToHypervisor
      ensures vms == (old(vms) + u.changedVMs) - Names(u.deletedVMs) - (vmsToDelete - u.changedVMs.Keys)
      ensures vmToHypervisor ==
        (old(vmToHypervisor) + Hypervisors(u)) - Names(u.deletedVMs) - (vmsToDelete - u.changedVMs.Keys)
    {
      PutVMs(u);
      RemoveNamedVMs(u.deletedVMs);
      RemoveVMs(vmsToDelete - u.changedVMs.Keys);
    }

    method PutVMs(u: Update)
      modifies this`vms, this`vmToHypervisor
      ensures vms == old(vms) + u.changedVMs
      ensures vmToHypervisor == old(vmToHypervisor) + Hypervisors(u)
    {
      ghost var hypervisors := Hypervisors(u);
      assert hypervisors.Keys == u.changedVMs.Keys;
      OverlayAll(vms, u.changedVMs);
      OverlayAll(vmToHypervisor, hypervisors);
      var todo := u.changedVMs.Keys;
      while todo != {}
        invariant todo <= u.changedVMs.Keys
        invariant vms == old(vms) + (u.changedVMs - todo)
        invariant vmToHypervisor == old(vmToHypervisor) + (hypervisors - todo)
      {
        var ip :| ip in todo;
        OverlayOneMore(old(vms), u.changedVMs, todo, ip);
        OverlayOneMore(old(vmToHypervisor), hypervisors, todo, ip);
        vmToHypervisor := vmToHypervisor[ip := Lookup(u.vmToHypervisor, ip)];
        vms := vms[ip := u.changedVMs[ip]];
        todo := todo - {ip};
      }
    }

    method RemoveNamedVMs(names: seq<string>)
      modifies this`vms, this`vmToHypervisor
      ensures vms == old(vms) - Names(names) && vmToHypervisor == old(vmToHypervisor) - Names(names)
    {
      RemoveAll(vms, names);
      RemoveAll(vmToHypervisor, names);
      for i := 0 to |names|
        invariant vms == old(vms) - Names(names[..i])
        invariant vmToHypervisor == old(vmToHypervisor) - Names(names[..i])
      {
        RemoveOneMore(old(vms), names, i);
        RemoveOneMore(old(vmToHypervisor), names, i);
        vmToHypervisor := vmToHypervisor - {names[i]};
        vms := vms - {names[i]};
      }
    }

    method RemoveVMs(addresses: set<string>)
      modifies this`vms, this`vmToHypervisor
      ensures vms == old(vms) - addresses && vmToHypervisor == old(vmToHypervisor) - addresses
    {
      RemoveSetAll(vms, addresses);
      RemoveSetAll(vmToHypervisor, addresses);
      var todo := addresses;
      while todo != {}
        invariant todo <= addresses
        invariant vms == old(vms) - (addresses - todo) && vmToHypervisor == old(vmToHypervisor) - (addresses - todo)
      {
        var ip :| ip in todo;
        RemoveSetOneMore(old(vms), addresses, todo, ip);
        RemoveSetOneMore(old(vmToHypervisor), addresses, todo, ip);
        vmToHypervisor := vmToHypervisor - {ip};
        vms := vms - {ip};
        todo := todo - {ip};
      }
    }
  }

  // ---------------------------------------------------------------- Generating machines

  function FromMachine(m: FleetMachine): Machine {
    var tags := TagsOf(m.tags);
    Machine(m.hostname, "", "", m.hostIpAddress, m.location, Lookup(tags, "RequiredImage"), Lookup(tags, "PlannedImage"),
            "DisableUpdates" in tags, "", m.ownerGroups, m.ownerUsers, m.tags, None)
  }

  /** A VM goes by its address; it is located at its hypervisor, if that is known. */
  function FromVm(s: Mirror, ip: string, join: (string, string) -> string): Machine
    requires ip in s.vms
  {
    var vm, host := s.vms[ip], Lookup(s.vmToHypervisor, ip);
    var tags := TagsOf(vm.tags);
    Machine("", "", "", ip,
            if host in s.machines then join(s.machines[host].location, s.machines[host].hostname) else "",
            Lookup(tags, "RequiredImage"), Lookup(tags, "PlannedImage"), "DisableUpdates" in tags,
            if Items(vm.ownerGroups) == [] then "" else Items(vm.ownerGroups)[0],
            vm.ownerGroups, vm.ownerUsers, vm.tags, None)
  }

  /** Images are those the tags name, if they do, and updates are disabled exactly by a tag for it, whatever its value. */
  predicate FollowsTags(m: Machine, tags: Tags) {
    && m.requiredImage == (if "RequiredImage" in tags then tags["RequiredImage"] else "")
    && m.plannedImage == (if "PlannedImage" in tags then tags["PlannedImage"] else "")
    && (m.disableUpdates <==> "DisableUpdates" in tags)
  }

  /** Machine m stands for a mirrored machine: under its name, address, location, owners and tags. */
  predicate DescribesMachine(m: Machine, f: FleetMachine) {
    && m.hostname == f.hostname && m.ipAddress == f.hostIpAddress && m.location == f.location
    && m.ownerGroup == "" && m.ownerGroups == f.ownerGroups && m.ownerUsers == f.ownerUsers
    && m.tags == f.tags && FollowsTags(m, TagsOf(f.tags))
    && m.dataSourceIdentifier == "" && m.dataSourceType == "" && m.awsMetadata.None?
  }

  /** Machine m stands for a VM: nameless at its address, located at its hypervisor if that is mirrored. */
  predicate DescribesVm(m: Machine, s: Mirror, ip: string, join: (string, string) -> string)
    requires ip in s.vms
  {
    var vm, host := s.vms[ip], if ip in s.vmToHypervisor then s.vmToHypervisor[ip] else "";
    && m.hostname == "" && m.ipAddress == ip
    && (if host in s.machines then m.location == join(s.machines[host].location, s.machines[host].hostname)
        else m.location == "")
    && (if vm.ownerGroups.Some? && |vm.ownerGroups.value| > 0 then m.ownerGroup == vm.ownerGroups.value[0]
        else m.ownerGroup == "")
    && m.ownerGroups == vm.ownerGroups && m.ownerUsers == vm.ownerUsers
    && m.tags == vm.tags && FollowsTags(m, TagsOf(vm.tags))
    && m.dataSourceIdentifier == "" && m.dataSourceType == "" && m.awsMetadata.None?
  }

  function Running(s: Mirror): set<string> {
    set ip | ip in s.vms && s.vms[ip].running
  }

  /** l lists s, each element once. */
  ghost predicate Enumerates(l: seq<string>, s: set<string>) {
    && (forall x :: x in l <==> x in s)
    && (forall i, j :: 0 <= i < j < |l| ==> l[i] != l[j])
  }

  ghost predicate ListsMachines(s: Mirror, hosts: seq<string>, out: seq<Machine>) {
    && Enumerates(hosts, s.machines.Keys) && |out| == |hosts|
    && forall i :: 0 <= i < |hosts| ==> hosts[i] in s.machines && DescribesMachine(out[i], s.machines[hosts[i]])
  }

  ghost predicate ListsVMs(s: Mirror, join: (string, string) -> string, ips: seq<string>, out: seq<Machine>) {
    && Enumerates(ips, Running(s)) && |out| == |ips|
    && forall i :: 0 <= i < |ips| ==> ips[i] in s.vms && DescribesVm(out[i], s, ips[i], join)
  }

  /** One machine for every mirrored machine and then for every running VM, each in some order. */
  ghost predicate IsGenerated(
    s: Mirror, join: (string, string) -> string, hosts: seq<string>, ips: seq<string>, out: seq<Machine>)
  {
    && |out| == |hosts| + |ips|
    && ListsMachines(s, hosts, out[..|hosts|])
    && ListsVMs(s, join, ips, out[|hosts|..])
  }

  method MachinesOf(s: Mirror, join: (string, string) -> string) returns (out: seq<Machine>)
    ensures exists hosts, ips :: IsGenerated(s, join, hosts, ips, out)
  {
    var fromMachines, hosts := OfMachines(s);
    var fromVMs, ips := OfVMs(s, join);
    out := fromMachines + fromVMs;
    assert out[..|hosts|] == fromMachines && out[|hosts|..] == fromVMs;
    assert IsGenerated(s, join, hosts, ips, out);
  }

  method OfMachines(s: Mirror) returns (out: seq<Machine>, ghost hosts: seq<string>)
    ensures ListsMachines(s, hosts, out)
  {
    out, hosts := [], [];
    var todo := s.machines.Keys;
    while todo != {}
      invariant todo <= s.machines.Keys && Enumerates(hosts, s.machines.Keys - todo) && |out| == |hosts|
      invariant forall i :: 0 <= i < |hosts| ==> hosts[i] in s.machines && DescribesMachine(out[i], s.machines[hosts[i]])
    {
      var h :| h in todo;
      EnumerateOneMore(hosts, s.machines.Keys - todo, h);
      assert s.machines.Keys - todo + {h} == s.machines.Keys - (todo - {h});
      out := out + [FromMachine(s.machines[h])];
      hosts := hosts + [h];
      todo := todo - {h};
    }
  }

  method OfVMs(s: Mirror, join: (string, string) -> string) returns (out: seq<Machine>, ghost ips: seq<string>)
    ensures ListsVMs(s, join, ips, out)
  {
    out, ips := [], [];
    var todo := s.vms.Keys;
    while todo != {}
      invariant todo <= s.vms.Keys && Enumerates(ips, Running(s) - todo) && |out| == |ips|
      invariant forall i :: 0 <= i < |ips| ==> ips[i] in s.vms && DescribesVm(out[i], s, ips[i], join)
    {
      var ip :| ip in todo;
      if s.vms[ip].running {
        EnumerateOneMore(ips, Running(s) - todo, ip);
        assert Running(s) - todo + {ip} == Running(s) - (todo - {ip});
        out := out + [FromVm(s, ip, join)];
        ips := ips + [ip];
      } else {
        assert Running(s) - todo == Running(s) - (todo - {ip});
      }
      todo := todo - {ip};
    }
  }

  lemma EnumerateOneMore(l: seq<string>, s: set<string>, x: string)
    requires Enumerates(l, s) && x !in s
    ensures Enumerates(l + [x], s + {x})
  {
    assert forall i :: 0 <= i < |l| ==> l[i] in l;
  }

  // ---------------------------------------------------------------- Runs

  datatype Message = Message(update: Update, initial: bool)

  /** What the mirror holds after a sequence of messages, over any number of connections. */
  function Run(s: Mirror, messages: seq<Message>): Mirror {
    if messages == [] then s else
    var last := messages[|messages| - 1];
    Handle(Run(s, messages[..|messages| - 1]), last.update, last.initial)
  }

  function Connection(updates: seq<Update>): seq<Message> {
    seq(|updates|, i requires 0 <= i < |updates| => Message(updates[i], i == 0))
  }

  function AllMessages(connections: seq<seq<Update>>): seq<Message> {
    if connections == [] then [] else
    AllMessages(connections[..|connections| - 1]) + Connection(connections[|connections| - 1])
  }

  lemma {:induction false} RunAppend(s: Mirror, a: seq<Message>, b: seq<Message>)
    ensures Run(s, a + b) == Run(Run(s, a), b)
  {
    if b == [] {
      assert a + b == a;
    } else {
      var n := |b| - 1;
      RunAppend(s, a, b[..n]);
      assert (a + b)[..|a + b| - 1] == a + b[..n];
    }
  }

  /** Every machine is filed under its own name, and every VM has a hypervisor entry and no other has. */
  ghost predicate Consistent(s: Mirror) {
    && s.vms.Keys == s.vmToHypervisor.Keys
    && forall h :: h in s.machines ==> s.machines[h].hostname == h
  }

  lemma HandleKeepsKeys(s: Mirror, u: Update, initial: bool)
    requires s.vms.Keys == s.vmToHypervisor.Keys
    ensures Handle(s, u, initial).vms.Keys == Handle(s, u, initial).vmToHypervisor.Keys
  {
    assert Hypervisors(u).Keys == u.changedVMs.Keys;
    assert (s.vms + u.changedVMs).Keys == (s.vmToHypervisor + Hypervisors(u)).Keys;
  }

  lemma {:induction false} PutKeepsNames(t: map<string, FleetMachine>, l: seq<FleetMachine>)
    requires forall h :: h in t ==> t[h].hostname == h
    ensures forall h :: h in PutMachines(t, l) ==> PutMachines(t, l)[h].hostname == h
  {
    if l != [] {
      PutKeepsNames(t, l[..|l| - 1]);
    }
  }

  lemma {:induction false} RunsStayConsistent(s: Mirror, messages: seq<Message>)
    requires Consistent(s)
    ensures Consistent(Run(s, messages))
  {
    if messages != [] {
      var last, before := messages[|messages| - 1], Run(s, messages[..|messages| - 1]);
      RunsStayConsistent(s, messages[..|messages| - 1]);
      HandleKeepsKeys(before, last.update, last.initial);
      PutKeepsNames(before.machines, last.update.changedMachines);
    }
  }

  // ---------------------------------------------------------------- What a message does, name by name

  /** The last of the machines of that name. */
  ghost predicate LastOf(l: seq<FleetMachine>, h: string, i: int) {
    0 <= i < |l| && l[i].hostname == h && forall j :: i < j < |l| ==> l[j].hostname != h
  }

  lemma LastOfOneMore(l: seq<FleetMachine>, h: string, n: nat)
    requires |l| == n + 1
    ensures l[n].hostname == h ==> LastOf(l, h, n) && forall i :: LastOf(l, h, i) ==> i == n
    ensures l[n].hostname != h ==> forall i :: LastOf(l, h, i) <==> LastOf(l[..n], h, i)
    ensures forall i :: LastOf(l[..n], h, i) ==> l[..n][i] == l[i]
  {
    assert forall j :: 0 <= j < n ==> l[..n][j] == l[j];
  }

  lemma {:induction false} PutMachinesAt(t: map<string, FleetMachine>, l: seq<FleetMachine>, h: string)
    ensures forall i :: LastOf(l, h, i) ==> h in PutMachines(t, l) && PutMachines(t, l)[h] == l[i]
    ensures (forall i :: !LastOf(l, h, i)) ==>
      (h in PutMachines(t, l) <==> h in t) && (h in t ==> PutMachines(t, l)[h] == t[h])
  {
    if l != [] {
      var n := |l| - 1;
      PutMachinesAt(t, l[..n], h);
      LastOfOneMore(l, h, n);
    }
  }

  /** A machine is mirrored as last changed, or as before if the message is not initial; but not if deleted. */
  lemma HandledMachine(s: Mirror, u: Update, initial: bool, h: string)
    ensures var t := Handle(s, u, initial).machines;
      && (h in u.deletedMachines ==> h !in t)
      && (h !in u.deletedMachines ==> forall i :: LastOf(u.changedMachines, h, i) ==> h in t && t[h] == u.changedMachines[i])
      && (h !in u.deletedMachines && (forall i :: !LastOf(u.changedMachines, h, i)) ==>
            if initial then h !in t else (h in t <==> h in s.machines) && (h in t ==> t[h] == s.machines[h]))
  {
    PutMachinesAt(s.machines, u.changedMachines, h);
    PutMachinesAt(map[], u.changedMachines, h);
  }

  /** A VM is mirrored as changed, at the hypervisor named for it, or as before if not initial; but not if deleted. */
  lemma HandledVm(s: Mirror, u: Update, initial: bool, ip: string)
    requires s.vms.Keys == s.vmToHypervisor.Keys
    ensures var t := Handle(s, u, initial);
      && (ip in u.deletedVMs ==> ip !in t.vms && ip !in t.vmToHypervisor)
      && (ip !in u.deletedVMs && ip in u.changedVMs ==>
            && ip in t.vms && t.vms[ip] == u.changedVMs[ip] && ip in t.vmToHypervisor
            && t.vmToHypervisor[ip] == if ip in u.vmToHypervisor then u.vmToHypervisor[ip] else "")
      && (ip !in u.deletedVMs && ip !in u.changedVMs ==>
            if initial then ip !in t.vms && ip !in t.vmToHypervisor
            else && (ip in t.vms <==> ip in s.vms) && (ip in t.vmToHypervisor <==> ip in s.vms)
                 && (ip in s.vms ==> t.vms[ip] == s.vms[ip] && t.vmToHypervisor[ip] == s.vmToHypervisor[ip]))
  {
    assert Hypervisors(u).Keys == u.changedVMs.Keys;
  }

  /** A later message is a difference. */
  lemma LaterPatches(s: Mirror, u: Update)
    ensures Handle(s, u, false) == Patch(s, u)
  {
    assert {} - Mentioned(u) == {} && {} - u.changedVMs.Keys == {};
  }

  /** After an initial message nothing is left of what was mirrored before. */
  lemma InitialReplaces(s: Mirror, u: Update)
    requires s.vms.Keys == s.vmToHypervisor.Keys
    ensures Handle(s, u, true) == Patch(EMPTY, u)
  {
    assert Hypervisors(u).Keys == u.changedVMs.Keys;
    ForgetOldMachines(s.machines, u.changedMachines, Names(u.deletedMachines));
    ForgetOld(s.vms, u.changedVMs, Names(u.deletedVMs));
    ForgetOld(s.vmToHypervisor, Hypervisors(u), Names(u.deletedVMs));
    assert map[] + u.changedVMs == u.changedVMs && map[] + Hypervisors(u) == Hypervisors(u);
  }

  lemma RunOne(s: Mirror, m: Message)
    ensures Run(s, [m]) == Handle(s, m.update, m.initial)
  {
    assert [m][..0] == [];
  }

  lemma InitialForgets(s: Mirror, m: Message)
    requires s.vms.Keys == s.vmToHypervisor.Keys && m.initial
    ensures Handle(s, m.update, m.initial) == Run(EMPTY, [m])
  {
    InitialReplaces(s, m.update);
    InitialReplaces(EMPTY, m.update);
    RunOne(EMPTY, m);
  }

  lemma RunLast(s: Mirror, messages: seq<Message>, i: nat, n: nat)
    requires |messages| == n + 1 && i <= n
    ensures Run(s, messages[i..]) == Handle(Run(s, messages[..n][i..]), messages[n].update, messages[n].initial)
  {
    var l := messages[i..];
    assert l[..|l| - 1] == messages[..n][i..];
    assert l[|l| - 1] == messages[n];
  }

  /** From any initial message on, the mirror depends on the messages since then only. */
  lemma {:induction false} ReconnectForgets(s: Mirror, messages: seq<Message>, i: nat)
    requires Consistent(s) && i < |messages| && messages[i].initial
    ensures Run(s, messages) == Run(EMPTY, messages[i..])
    decreases |messages|
  {
    var n := |messages| - 1;
    var front, last := messages[..n], messages[n];
    if i == n {
      ReconnectForgetsNow(s, front, last);
      assert messages[n..] == [last] && messages == front + [last];
    } else {
      ReconnectForgets(s, front, i);
      RunLast(EMPTY, messages, i, n);
    }
  }

  lemma ReconnectForgetsNow(s: Mirror, before: seq<Message>, m: Message)
    requires Consistent(s) && m.initial
    ensures Run(s, before + [m]) == Run(EMPTY, [m])
  {
    RunsStayConsistent(s, before);
    InitialForgets(Run(s, before), m);
    assert (before + [m])[..|before|] == before;
  }

  function Patches(s: Mirror, updates: seq<Update>): Mirror {
    if updates == [] then s else Patch(Patches(s, updates[..|updates| - 1]), updates[|updates| - 1])
  }

  lemma {:induction false} ConnectionIsPatches(s: Mirror, updates: seq<Update>)
    requires Consistent(s) && updates != []
    ensures Run(s, Connection(updates)) == Patches(EMPTY, updates)
  {
    var n := |updates| - 1;
    var messages := Connection(updates);
    assert messages[..n] == Connection(updates[..n]);
    if n == 0 {
      InitialReplaces(s, updates[0]);
      assert updates[..0] == [];
    } else {
      ConnectionIsPatches(s, updates[..n]);
      LaterPatches(Run(s, messages[..n]), updates[n]);
    }
  }

  /** Over any number of connections: the last one that got a message decides, starting from nothing. */
  lemma {:induction false} LastConnectionDecides(s: Mirror, connections: seq<seq<Update>>, i: nat)
    requires Consistent(s) && i < |connections| && connections[i] != []
    requires forall j :: i < j < |connections| ==> connections[j] == []
    ensures Run(s, AllMessages(connections)) == Patches(EMPTY, connections[i])
    decreases |connections|
  {
    var n := |connections| - 1;
    var front, before := connections[..n], AllMessages(connections[..n]);
    RunAppend(s, before, Connection(connections[n]));
    if i == n {
      RunsStayConsistent(s, before);
      ConnectionIsPatches(Run(s, before), connections[n]);
    } else {
      assert Connection(connections[n]) == [];
      LastConnectionDecides(s, front, i);
    }
  }
}
