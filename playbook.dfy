/**
 * The playbook and inventory builders of the task handlers. A playbook is a list
 * of plays; every play runs with gather_facts off and every step of it as root
 * (become: true, become_user: root), so those constant keys are not carried.
 * Writing the YAML files is left to the caller.
 */
module Playbooks {
  import opened Wrappers
  import opened Types
  import Strs
  import Seqs

  /** What a step does: the "shell", "yum" (state present) or "copy" key of the step. */
  datatype Action =
    | Shell(command: string)
    | YumPresent(packages: seq<string>)
    | Copy(src: string, dest: string)

  /** One step of a play; a missing "register" or "when" key is None, a missing "ignore_errors" false. */
  datatype Step = Step(name: string, ignoreErrors: bool, action: Action, register: Option<string>, when: Option<string>)

  /** A play on one inventory group, or one of the two fixed templates. */
  datatype Play =
    | Play(hosts: string, tasks: seq<Step>)
    | CopyScriptTemplate
    | RebootTemplate

  /** The two entries of a host in an inventory group. */
  datatype HostVars = HostVars(interpreter: string, address: string)

  /** An inventory: group name to the group's hosts by host name. */
  type Inventory = map<string, map<string, HostVars>>

  /** A host dict of the task info, as far as the builders read it. */
  datatype HostAddr = HostAddr(hostName: string, hostIp: string)

  /** One entry of a CVE task's basic info; a missing "host_info" is the empty list. */
  datatype FixItem = FixItem(cveId: Option<CveId>, hostInfo: seq<HostAddr>, reboot: bool)

  /** The settings a playbook builder is created with; `None` check items and `[]` behave alike. */
  datatype Builder = Builder(taskId: TaskId, checkItems: seq<string>, fixFunction: string)

  const PythonInterpreter := "/usr/bin/python3"
  const TotalHosts := "total_hosts"
  const RebootHosts := "reboot_hosts"

  // ---------------------------------------------------------------- get_cve_list

  /** The cve ids of the task info that are present, in order. */
  function CveIds(info: seq<FixItem>): seq<CveId>
  {
    Seqs.FilterMap(info, (e: FixItem) => e.cveId)
  }

  method GetCveList(info: seq<FixItem>) returns (cveList: seq<CveId>)
    ensures cveList == CveIds(info)
  {
    cveList := [];
    for i := 0 to |info|
      invariant cveList == CveIds(info[..i])
    {
      assert info[..i + 1][..i] == info[..i];
      var cveId := info[i].cveId;
      if cveId.Some? {
        cveList := cveList + [cveId.value];
      }
    }
    assert info[..|info|] == info;
  }

  /** get_cve_list keeps exactly the present ids: a CVE is listed iff some entry carries it. */
  lemma CveIdsExact(info: seq<FixItem>, c: CveId)
    ensures |CveIds(info)| <= |info|
    ensures c in CveIds(info) <==> exists i :: 0 <= i < |info| && info[i].cveId == Some(c)
  {
    var f := (e: FixItem) => e.cveId;
    var idx := Seqs.FilterMapIndices(info, f);
    if exists i :: 0 <= i < |info| && info[i].cveId == Some(c) {
      var i :| 0 <= i < |info| && info[i].cveId == Some(c);
      assert i in idx;
      var k :| 0 <= k < |idx| && idx[k] == i;
    }
    if c in CveIds(info) {
      var k :| 0 <= k < |CveIds(info)| && CveIds(info)[k] == c;
      assert f(info[idx[k]]) == Some(c);
    }
    forall k, l | 0 <= k < l < |idx| ensures idx[k] < idx[l] { }
    IncreasingBounded(idx, |info|);
  }

  /** A strictly increasing sequence of positions below n is no longer than n. */
  lemma {:induction false} IncreasingBounded(idx: seq<int>, n: nat)
    requires forall k :: 0 <= k < |idx| ==> 0 <= idx[k] < n
    requires forall k, l :: 0 <= k < l < |idx| ==> idx[k] < idx[l]
    ensures |idx| <= n
  {
    if idx != [] {
      var m := |idx| - 1;
      forall k | 0 <= k < m ensures 0 <= idx[..m][k] < idx[m] {
        assert idx[..m][k] == idx[k];
      }
      IncreasingBounded(idx[..m], idx[m]);
      assert |idx[..m]| == m && idx[m] < n;
    }
  }

  // ---------------------------------------------------------------- check items

  /** The variable a check play registers its result in. */
  function CheckRegister(item: string): string
  {
    "check_" + item + "_result"
  }

  /** One term of the check condition. */
  function CheckTerm(item: string): string
  {
    "check_" + item + "_result.rc == 0"
  }

  /** The `when` condition of the steps guarded by the checks. */
  function CheckCondition(items: seq<string>): string
  {
    Strs.Join(seq(|items|, i requires 0 <= i < |items| => CheckTerm(items[i])), " and ")
  }

  /** The play that runs one check item. */
  function CheckPlay(item: string): Play
  {
    Play(TotalHosts, [Step("check " + item, true, Shell("sh /tmp/check.sh " + item), Some(CheckRegister(item)), None)])
  }

  function CheckPlays(items: seq<string>): seq<Play>
  {
    seq(|items|, i requires 0 <= i < |items| => CheckPlay(items[i]))
  }

  /** add_check_items: one check play per item, in order, appended to the playbook. */
  method AddCheckItems(playbook: seq<Play>, checkItems: seq<string>) returns (r: seq<Play>)
    ensures r == playbook + CheckPlays(checkItems)
  {
    r := playbook;
    for i := 0 to |checkItems|
      invariant r == playbook + CheckPlays(checkItems[..i])
    {
      assert CheckPlays(checkItems[..i + 1]) == CheckPlays(checkItems[..i]) + [CheckPlay(checkItems[i])];
      r := r + [CheckPlay(checkItems[i])];
    }
    assert checkItems[..|checkItems|] == checkItems;
  }

  /**
   * The condition tests exactly the results the check plays register, in the
   * order of the plays: every check must have succeeded.
   */
  lemma ConditionTestsEveryCheck(items: seq<string>)
    ensures |CheckPlays(items)| == |items|
    ensures forall i :: 0 <= i < |items| ==>
      CheckPlays(items)[i].Play? && |CheckPlays(items)[i].tasks| == 1 &&
      CheckPlays(items)[i].tasks[0].name == "check " + items[i] &&
      CheckPlays(items)[i].tasks[0].register == Some(CheckRegister(items[i]))
    ensures CheckCondition(items) ==
      Strs.Join(seq(|items|, i requires 0 <= i < |items| => CheckPlays(items)[i].tasks[0].register.value + ".rc == 0"), " and ")
  {
    var a := seq(|items|, i requires 0 <= i < |items| => CheckTerm(items[i]));
    var b := seq(|items|, i requires 0 <= i < |items| => CheckPlays(items)[i].tasks[0].register.value + ".rc == 0");
    forall i | 0 <= i < |items| ensures a[i] == b[i] {
      assert CheckRegister(items[i]) + ".rc == 0" == CheckTerm(items[i]);
    }
    assert a == b;
  }

  /** One more check item adds " and " and its term at the end of the condition. */
  lemma CheckConditionSnoc(items: seq<string>, item: string)
    requires items != []
    ensures CheckCondition(items + [item]) == CheckCondition(items) + " and " + CheckTerm(item)
  {
    var a := seq(|items|, i requires 0 <= i < |items| => CheckTerm(items[i]));
    var b := seq(|items + [item]|, i requires 0 <= i < |items + [item]| => CheckTerm((items + [item])[i]));
    assert b == a + [CheckTerm(item)];
    Strs.JoinSnoc(a, " and ", CheckTerm(item));
  }

  /** create_check_task: nothing without check items, else the template and the check plays. */
  function CheckTask(b: Builder, template: Play): seq<Play>
  {
    if b.checkItems == [] then [] else [template] + CheckPlays(b.checkItems)
  }

  method CreateCheckTask(b: Builder, template: Play) returns (playbook: seq<Play>)
    ensures playbook == CheckTask(b, template)
  {
    playbook := [];
    if b.checkItems != [] {
      playbook := playbook + [template];
      playbook := AddCheckItems(playbook, b.checkItems);
    }
  }

  // ---------------------------------------------------------------- inventories

  function Group(inv: Inventory, g: string): map<string, HostVars>
  {
    if g in inv then inv[g] else map[]
  }

  /** The hosts of a list keyed by name, a later dict replacing an earlier one. */
  function HostGroup(info: seq<HostAddr>): map<string, HostVars>
  {
    if info == [] then map[]
    else
      var n := |info| - 1;
      HostGroup(info[..n])[info[n].hostName := HostVars(PythonInterpreter, info[n].hostIp)]
  }

  /** create_inventory: the single group "total_hosts". */
  method CreateInventory(info: seq<HostAddr>) returns (hosts: Inventory)
    ensures hosts == map[TotalHosts := HostGroup(info)]
  {
    var group: map<string, HostVars> := map[];
    for i := 0 to |info|
      invariant group == HostGroup(info[..i])
    {
      assert info[..i + 1][..i] == info[..i];
      group := group[info[i].hostName := HostVars(PythonInterpreter, info[i].hostIp)];
    }
    assert info[..|info|] == info;
    hosts := map[TotalHosts := group];
  }

  /** A host is in the group iff it is listed, with the address of its last listing. */
  lemma {:induction false} HostGroupExact(info: seq<HostAddr>, name: string)
    ensures name in HostGroup(info) <==> exists j :: 0 <= j < |info| && info[j].hostName == name
    ensures name in HostGroup(info) ==>
      exists j :: 0 <= j < |info| && info[j].hostName == name &&
        HostGroup(info)[name] == HostVars(PythonInterpreter, info[j].hostIp) &&
        forall j' :: j < j' < |info| ==> info[j'].hostName != name
  {
    if info != [] {
      var n := |info| - 1;
      HostGroupExact(info[..n], name);
      forall j | 0 <= j < n ensures info[..n][j] == info[j] { }
      if info[n].hostName != name && name in HostGroup(info) {
        var j :| 0 <= j < n && info[..n][j].hostName == name &&
          HostGroup(info[..n])[name] == HostVars(PythonInterpreter, info[..n][j].hostIp) &&
          forall j' :: j < j' < n ==> info[..n][j'].hostName != name;
        assert forall j' :: j < j' < |info| ==> info[j'].hostName != name;
      }
    }
  }

  /** Whether an entry of the basic info contributes hosts: it needs a non-empty cve id and hosts. */
  predicate Kept(e: FixItem)
  {
    e.cveId.Some? && e.cveId.value != "" && e.hostInfo != []
  }

  /** The groups a host of a CVE item goes into. */
  predicate Receives(g: string, c: CveId, reboot: bool)
  {
    g == TotalHosts || g == c || (reboot && g == RebootHosts)
  }

  /** One host of one CVE item: into "total_hosts", the CVE's group, and "reboot_hosts" when the CVE reboots. */
  function AddFixHost(inv: Inventory, c: CveId, h: HostAddr, reboot: bool): Inventory
  {
    var v := HostVars(PythonInterpreter, h.hostIp);
    var i1 := inv[TotalHosts := Group(inv, TotalHosts)[h.hostName := v]];
    var i2 := i1[c := Group(i1, c)[h.hostName := v]];
    if reboot then i2[RebootHosts := Group(i2, RebootHosts)[h.hostName := v]] else i2
  }

  function AddFixHosts(inv: Inventory, c: CveId, hs: seq<HostAddr>, reboot: bool): Inventory
  {
    if hs == [] then inv
    else
      var n := |hs| - 1;
      AddFixHost(AddFixHosts(inv, c, hs[..n], reboot), c, hs[n], reboot)
  }

  /** One entry of the basic info: a kept entry starts its CVE's group afresh and adds its hosts. */
  function WithFixItem(inv: Inventory, e: FixItem): Inventory
  {
    if Kept(e) then AddFixHosts(inv[e.cveId.value := map[]], e.cveId.value, e.hostInfo, e.reboot) else inv
  }

  function FixInventoryOf(basic: seq<FixItem>): Inventory
  {
    if basic == [] then map[TotalHosts := map[], RebootHosts := map[]]
    else
      var n := |basic| - 1;
      WithFixItem(FixInventoryOf(basic[..n]), basic[n])
  }

  /** create_fix_inventory: the loop's inventory, without "reboot_hosts" when that stayed empty. */
  function FixInventory(basic: seq<FixItem>): Inventory
  {
    var inv := FixInventoryOf(basic);
    if |Group(inv, RebootHosts)| == 0 then inv - {RebootHosts} else inv
  }

  method AddFixHostsLoop(inv: Inventory, c: CveId, hs: seq<HostAddr>, reboot: bool) returns (r: Inventory)
    ensures r == AddFixHosts(inv, c, hs, reboot)
  {
    r := inv;
    for j := 0 to |hs|
      invariant r == AddFixHosts(inv, c, hs[..j], reboot)
    {
      assert hs[..j + 1][..j] == hs[..j];
      var v := HostVars(PythonInterpreter, hs[j].hostIp);
      r := r[TotalHosts := Group(r, TotalHosts)[hs[j].hostName := v]];
      r := r[c := Group(r, c)[hs[j].hostName := v]];
      if reboot {
        r := r[RebootHosts := Group(r, RebootHosts)[hs[j].hostName := v]];
      }
    }
    assert hs[..|hs|] == hs;
  }

  method CreateFixInventory(basic: seq<FixItem>) returns (hosts: Inventory)
    ensures hosts == FixInventory(basic)
  {
    hosts := map[TotalHosts := map[], RebootHosts := map[]];
    for i := 0 to |basic|
      invariant hosts == FixInventoryOf(basic[..i])
    {
      assert basic[..i + 1][..i] == basic[..i];
      var info := basic[i];
      if info.cveId.None? || info.cveId.value == "" || info.hostInfo == [] {
        continue;
      }
      var c := info.cveId.value;
      hosts := hosts[c := map[]];
      hosts := AddFixHostsLoop(hosts, c, info.hostInfo, info.reboot);
    }
    assert basic[..|basic|] == basic;
    if |Group(hosts, RebootHosts)| == 0 {
      hosts := hosts - {RebootHosts};
    }
  }

  /** Some kept entry lists this host with this address. */
  ghost predicate ListedAt(basic: seq<FixItem>, name: string, ip: string)
  {
    exists i, j :: 0 <= i < |basic| && Kept(basic[i]) && 0 <= j < |basic[i].hostInfo| && basic[i].hostInfo[j] == HostAddr(name, ip)
  }

  /** Some kept entry lists this host, for a CVE whose hosts go into group g. */
  ghost predicate ListedFor(basic: seq<FixItem>, g: string, name: string)
  {
    exists i, j :: 0 <= i < |basic| && Kept(basic[i]) && Receives(g, basic[i].cveId.value, basic[i].reboot) &&
      0 <= j < |basic[i].hostInfo| && basic[i].hostInfo[j].hostName == name
  }

  /** No kept entry names a CVE after one of the two fixed groups. */
  predicate Regular(basic: seq<FixItem>)
  {
    forall i :: 0 <= i < |basic| && Kept(basic[i]) ==> basic[i].cveId.value != TotalHosts && basic[i].cveId.value != RebootHosts
  }

  lemma {:induction false} AddFixHostsEffect(inv: Inventory, c: CveId, hs: seq<HostAddr>, reboot: bool, g: string, name: string)
    requires c != TotalHosts && c != RebootHosts
    ensures inv.Keys <= AddFixHosts(inv, c, hs, reboot).Keys
    ensures var r := AddFixHosts(inv, c, hs, reboot);
      && (g in r <==> g in inv || (hs != [] && Receives(g, c, reboot)))
      && (name in Group(r, g) <==> name in Group(inv, g) || (Receives(g, c, reboot) && exists j :: 0 <= j < |hs| && hs[j].hostName == name))
      && (name in Group(r, g) ==>
            (name in Group(inv, g) && Group(r, g)[name] == Group(inv, g)[name]) ||
            (Receives(g, c, reboot) && exists j :: 0 <= j < |hs| && Group(r, g)[name] == HostVars(PythonInterpreter, hs[j].hostIp) && hs[j].hostName == name))
  {
    if hs != [] {
      var n := |hs| - 1;
      var prev := AddFixHosts(inv, c, hs[..n], reboot);
      AddFixHostsEffect(inv, c, hs[..n], reboot, g, name);
      AddFixHostEffect(prev, c, hs[n], reboot, g, name);
      forall j | 0 <= j < n ensures hs[..n][j] == hs[j] { }
    }
  }

  /** One host goes into exactly the groups that receive it, replacing its earlier address there. */
  lemma AddFixHostEffect(inv: Inventory, c: CveId, h: HostAddr, reboot: bool, g: string, name: string)
    requires c != TotalHosts && c != RebootHosts
    ensures var r := AddFixHost(inv, c, h, reboot);
      && inv.Keys <= r.Keys
      && (g in r <==> g in inv || Receives(g, c, reboot))
      && (name in Group(r, g) <==> name in Group(inv, g) || (Receives(g, c, reboot) && h.hostName == name))
      && (Receives(g, c, reboot) && h.hostName == name ==> Group(r, g)[name] == HostVars(PythonInterpreter, h.hostIp))
      && (!(Receives(g, c, reboot) && h.hostName == name) && name in Group(inv, g) ==> Group(r, g)[name] == Group(inv, g)[name])
  {
  }

  /** Entry i is kept and no later kept entry names the same CVE. */
  ghost predicate LastFor(basic: seq<FixItem>, i: int)
    requires 0 <= i < |basic|
  {
    Kept(basic[i]) && forall k :: i < k < |basic| && Kept(basic[k]) ==> basic[k].cveId != basic[i].cveId
  }

  /** The loop of create_fix_inventory keeps both fixed groups and adds a group for each CVE of a kept entry. */
  lemma {:induction false} FixGroupsExact(basic: seq<FixItem>, g: string)
    requires Regular(basic)
    ensures TotalHosts in FixInventoryOf(basic) && RebootHosts in FixInventoryOf(basic)
    ensures g != TotalHosts && g != RebootHosts ==>
      (g in FixInventoryOf(basic) <==> exists i :: 0 <= i < |basic| && Kept(basic[i]) && basic[i].cveId == Some(g))
  {
    if basic != [] {
      var n := |basic| - 1;
      var init := basic[..n];
      var e := basic[n];
      assert Regular(init) by {
        forall i | 0 <= i < n ensures init[i] == basic[i] { }
      }
      FixGroupsExact(init, g);
      CarriesSnoc(basic, g);
      if Kept(e) {
        var c := e.cveId.value;
        AddFixHostsEffect(FixInventoryOf(init)[c := map[]], c, e.hostInfo, e.reboot, g, "");
      }
    }
  }

  /** Some kept entry carries CVE g iff an earlier one does or the last one is kept and does. */
  lemma CarriesSnoc(basic: seq<FixItem>, g: string)
    requires basic != []
    ensures var n := |basic| - 1; var init := basic[..n];
      (exists i :: 0 <= i < |basic| && Kept(basic[i]) && basic[i].cveId == Some(g)) <==>
        ((exists i :: 0 <= i < |init| && Kept(init[i]) && init[i].cveId == Some(g)) ||
         (Kept(basic[n]) && basic[n].cveId == Some(g)))
  {
    var n := |basic| - 1;
    var init := basic[..n];
    if exists i :: 0 <= i < |basic| && Kept(basic[i]) && basic[i].cveId == Some(g) {
      var i :| 0 <= i < |basic| && Kept(basic[i]) && basic[i].cveId == Some(g);
      if i < n { assert init[i] == basic[i]; }
    }
    if exists i :: 0 <= i < |init| && Kept(init[i]) && init[i].cveId == Some(g) {
      var i :| 0 <= i < |init| && Kept(init[i]) && init[i].cveId == Some(g);
      assert init[i] == basic[i];
    }
  }

  /** "total_hosts" holds every host of a kept entry, "reboot_hosts" every host of a kept entry that reboots. */
  lemma {:induction false} FixSharedGroupsExact(basic: seq<FixItem>, g: string, name: string)
    requires Regular(basic)
    requires g == TotalHosts || g == RebootHosts
    ensures name in Group(FixInventoryOf(basic), g) <==> ListedFor(basic, g, name)
  {
    if basic != [] {
      var n := |basic| - 1;
      var init := basic[..n];
      var e := basic[n];
      assert Regular(init) by {
        forall i | 0 <= i < n ensures init[i] == basic[i] { }
      }
      FixSharedGroupsExact(init, g, name);
      ListedForSnoc(basic, g, name);
      if Kept(e) {
        var c := e.cveId.value;
        AddFixHostsEffect(FixInventoryOf(init)[c := map[]], c, e.hostInfo, e.reboot, g, name);
      }
    }
  }

  /** A host is listed for a group by the entries iff an earlier entry lists it or the last kept one does. */
  lemma ListedForSnoc(basic: seq<FixItem>, g: string, name: string)
    requires basic != []
    ensures var n := |basic| - 1; var e := basic[n];
      ListedFor(basic, g, name) <==>
        (ListedFor(basic[..n], g, name) ||
         (Kept(e) && Receives(g, e.cveId.value, e.reboot) && exists j :: 0 <= j < |e.hostInfo| && e.hostInfo[j].hostName == name))
  {
    var n := |basic| - 1;
    var init := basic[..n];
    if ListedFor(init, g, name) {
      var i, j :| 0 <= i < |init| && Kept(init[i]) && Receives(g, init[i].cveId.value, init[i].reboot) &&
        0 <= j < |init[i].hostInfo| && init[i].hostInfo[j].hostName == name;
      assert basic[i] == init[i];
    }
    if ListedFor(basic, g, name) {
      var i, j :| 0 <= i < |basic| && Kept(basic[i]) && Receives(g, basic[i].cveId.value, basic[i].reboot) &&
        0 <= j < |basic[i].hostInfo| && basic[i].hostInfo[j].hostName == name;
      if i < n {
        assert init[i] == basic[i];
      }
    }
  }

  /** Every host of every group carries the interpreter and an address some kept entry lists it with. */
  lemma {:induction false} FixHostVarsListed(basic: seq<FixItem>, g: string, name: string)
    requires Regular(basic)
    ensures name in Group(FixInventoryOf(basic), g) ==>
      Group(FixInventoryOf(basic), g)[name].interpreter == PythonInterpreter &&
      ListedAt(basic, name, Group(FixInventoryOf(basic), g)[name].address)
  {
    if basic != [] {
      var n := |basic| - 1;
      var init := basic[..n];
      var e := basic[n];
      forall i | 0 <= i < n ensures init[i] == basic[i] { }
      FixHostVarsListed(init, g, name);
      var prev := FixInventoryOf(init);
      var inv := FixInventoryOf(basic);
      if name in Group(inv, g) {
        var v := Group(inv, g)[name];
        var c := if Kept(e) then e.cveId.value else "";
        var start := if Kept(e) then prev[c := map[]] else prev;
        if Kept(e) {
          AddFixHostsEffect(start, c, e.hostInfo, e.reboot, g, name);
        }
        if Kept(e) && !(name in Group(start, g) && v == Group(start, g)[name]) {
          var j :| 0 <= j < |e.hostInfo| && v == HostVars(PythonInterpreter, e.hostInfo[j].hostIp) && e.hostInfo[j].hostName == name;
          assert basic[n].hostInfo[j] == HostAddr(name, v.address);
        } else {
          assert name in Group(prev, g) && v == Group(prev, g)[name];
          var i, j :| 0 <= i < |init| && Kept(init[i]) && 0 <= j < |init[i].hostInfo| && init[i].hostInfo[j] == HostAddr(name, v.address);
          assert basic[i] == init[i];
        }
      }
    }
  }

  /** A CVE's group holds exactly the hosts of the last kept entry naming that CVE. */
  lemma {:induction false} FixCveGroupExact(basic: seq<FixItem>, i: int, name: string)
    requires Regular(basic)
    requires 0 <= i < |basic| && LastFor(basic, i)
    ensures name in Group(FixInventoryOf(basic), basic[i].cveId.value) <==>
      exists j :: 0 <= j < |basic[i].hostInfo| && basic[i].hostInfo[j].hostName == name
  {
    var n := |basic| - 1;
    var init := basic[..n];
    var e := basic[n];
    var c := basic[i].cveId.value;
    forall k | 0 <= k < n ensures init[k] == basic[k] { }
    if i == n {
      AddFixHostsEffect(FixInventoryOf(init)[c := map[]], c, e.hostInfo, e.reboot, c, name);
    } else {
      assert init[i] == basic[i];
      FixCveGroupExact(init, i, name);
      if Kept(e) {
        var c' := e.cveId.value;
        AddFixHostsEffect(FixInventoryOf(init)[c' := map[]], c', e.hostInfo, e.reboot, c, name);
      }
    }
  }

  /**
   * create_fix_inventory, for basic info whose CVEs are not named after the two
   * fixed groups: "total_hosts" holds every host of a kept entry; "reboot_hosts"
   * is present iff some kept entry reboots, and then holds the hosts of those
   * entries; and a CVE has a group iff a kept entry names it.
   */
  lemma FixInventoryExact(basic: seq<FixItem>, g: string, name: string)
    requires Regular(basic)
    ensures TotalHosts in FixInventory(basic)
    ensures name in FixInventory(basic)[TotalHosts] <==> ListedFor(basic, TotalHosts, name)
    ensures RebootHosts in FixInventory(basic) <==> exists i :: 0 <= i < |basic| && Kept(basic[i]) && basic[i].reboot
    ensures name in Group(FixInventory(basic), RebootHosts) <==> ListedFor(basic, RebootHosts, name)
    ensures g != TotalHosts && g != RebootHosts ==>
      (g in FixInventory(basic) <==> exists i :: 0 <= i < |basic| && Kept(basic[i]) && basic[i].cveId == Some(g))
  {
    var inv := FixInventoryOf(basic);
    FixGroupsExact(basic, g);
    FixSharedGroupsExact(basic, TotalHosts, name);
    FixSharedGroupsExact(basic, RebootHosts, name);
    if exists i :: 0 <= i < |basic| && Kept(basic[i]) && basic[i].reboot {
      var i :| 0 <= i < |basic| && Kept(basic[i]) && basic[i].reboot;
      var h := basic[i].hostInfo[0].hostName;
      FixSharedGroupsExact(basic, RebootHosts, h);
      assert ListedFor(basic, RebootHosts, h);
    }
    if |Group(inv, RebootHosts)| != 0 {
      var h :| h in Group(inv, RebootHosts);
      FixSharedGroupsExact(basic, RebootHosts, h);
      var i, j :| 0 <= i < |basic| && Kept(basic[i]) && Receives(RebootHosts, basic[i].cveId.value, basic[i].reboot) &&
        0 <= j < |basic[i].hostInfo| && basic[i].hostInfo[j].hostName == h;
    }
  }

  // ---------------------------------------------------------------- CVE fix playbook

  /** create_fix_param: in "rpm" mode the CVE's packages if known, in any other mode a yum upgrade by CVE. */
  function FixParam(b: Builder, cveId: CveId, packageInfo: map<CveId, seq<string>>): Option<Action>
  {
    if b.fixFunction == "rpm" then
      if cveId in packageInfo then Some(YumPresent(packageInfo[cveId])) else None
    else
      Some(Shell("yum upgrade -y --cve=" + cveId))
  }

  /** The `when` key the guarded steps carry: the check condition when there are check items. */
  function Guard(b: Builder): Option<string>
  {
    if b.checkItems != [] then Some(CheckCondition(b.checkItems)) else None
  }

  /** create_fix_task: one step named after the CVE, on the CVE's group. */
  function FixTask(b: Builder, cveId: CveId, param: Action): Play
  {
    Play(cveId, [Step(cveId, true, param, None, Guard(b))])
  }

  /** The fix play an entry of the basic info contributes, if any. */
  function FixPlayOf(b: Builder, packageInfo: map<CveId, seq<string>>): FixItem -> Option<Play>
  {
    (e: FixItem) =>
      if e.cveId.None? then None
      else match FixParam(b, e.cveId.value, packageInfo)
        case Some(p) => Some(FixTask(b, e.cveId.value, p))
        case None => None
  }

  /** Some entry with a cve id asks for a reboot. */
  predicate AnyReboot(basic: seq<FixItem>)
  {
    exists i :: 0 <= i < |basic| && basic[i].cveId.Some? && basic[i].reboot
  }

  /** create_fix_playbook: the check task, the fix plays in input order, and the reboot template once if needed. */
  function FixPlaybook(b: Builder, basic: seq<FixItem>, packageInfo: map<CveId, seq<string>>): seq<Play>
  {
    CheckTask(b, CopyScriptTemplate) + Seqs.FilterMap(basic, FixPlayOf(b, packageInfo)) +
      (if AnyReboot(basic) then [RebootTemplate] else [])
  }

  method CreateFixPlaybook(b: Builder, basic: seq<FixItem>, packageInfo: map<CveId, seq<string>>) returns (playbook: seq<Play>)
    ensures playbook == FixPlaybook(b, basic, packageInfo)
  {
    var checks := CreateCheckTask(b, CopyScriptTemplate);
    playbook := checks;
    var reboot := false;
    for i := 0 to |basic|
      invariant playbook == checks + Seqs.FilterMap(basic[..i], FixPlayOf(b, packageInfo))
      invariant reboot <==> AnyReboot(basic[..i])
    {
      assert basic[..i + 1][..i] == basic[..i];
      assert basic[..i + 1][i] == basic[i];
      var info := basic[i];
      if info.cveId.None? {
        assert !AnyReboot(basic[..i + 1]) <==> !AnyReboot(basic[..i]);
        continue;
      }
      if !reboot && info.reboot {
        reboot := true;
      }
      var param := FixParam(b, info.cveId.value, packageInfo);
      if param.None? {
        continue;
      }
      var temp := FixTask(b, info.cveId.value, param.value);
      playbook := playbook + [temp];
    }
    assert basic[..|basic|] == basic;
    if reboot {
      playbook := playbook + [RebootTemplate];
    }
  }

  /**
   * Every fix play of create_fix_playbook is a single step named after its CVE,
   * on that CVE's group, ignoring errors and guarded by the check condition iff
   * there are checks; it installs the CVE's packages in "rpm" mode and upgrades
   * by CVE in any other mode.
   */
  lemma FixPlaysShape(b: Builder, basic: seq<FixItem>, packageInfo: map<CveId, seq<string>>)
    ensures var plays := Seqs.FilterMap(basic, FixPlayOf(b, packageInfo));
      forall k :: 0 <= k < |plays| ==>
        && plays[k].Play? && |plays[k].tasks| == 1 && plays[k].tasks[0].name == plays[k].hosts
        && plays[k].tasks[0].ignoreErrors && plays[k].tasks[0].when == Guard(b)
        && (exists i :: 0 <= i < |basic| && basic[i].cveId == Some(plays[k].hosts))
        && (b.fixFunction == "rpm" ==> plays[k].hosts in packageInfo && plays[k].tasks[0].action == YumPresent(packageInfo[plays[k].hosts]))
        && (b.fixFunction != "rpm" ==> plays[k].tasks[0].action == Shell("yum upgrade -y --cve=" + plays[k].hosts))
  {
    var f := FixPlayOf(b, packageInfo);
    var plays := Seqs.FilterMap(basic, f);
    var idx := Seqs.FilterMapIndices(basic, f);
    forall k | 0 <= k < |plays|
      ensures plays[k].Play? && |plays[k].tasks| == 1 && plays[k].tasks[0].name == plays[k].hosts
        && plays[k].tasks[0].ignoreErrors && plays[k].tasks[0].when == Guard(b)
        && (exists i :: 0 <= i < |basic| && basic[i].cveId == Some(plays[k].hosts))
        && (b.fixFunction == "rpm" ==> plays[k].hosts in packageInfo && plays[k].tasks[0].action == YumPresent(packageInfo[plays[k].hosts]))
        && (b.fixFunction != "rpm" ==> plays[k].tasks[0].action == Shell("yum upgrade -y --cve=" + plays[k].hosts))
    {
      var i := idx[k];
      assert f(basic[i]) == Some(plays[k]);
      assert basic[i].cveId == Some(plays[k].hosts);
    }
  }

  /** A CVE gets a fix play iff some entry carries it and it has a fix parameter. */
  lemma FixPlaysCover(b: Builder, basic: seq<FixItem>, packageInfo: map<CveId, seq<string>>, c: CveId)
    ensures var plays := Seqs.FilterMap(basic, FixPlayOf(b, packageInfo));
      (exists k :: 0 <= k < |plays| && plays[k].Play? && plays[k].hosts == c) <==>
        (exists i :: 0 <= i < |basic| && basic[i].cveId == Some(c)) && (b.fixFunction != "rpm" || c in packageInfo)
  {
    var f := FixPlayOf(b, packageInfo);
    var plays := Seqs.FilterMap(basic, f);
    var idx := Seqs.FilterMapIndices(basic, f);
    if exists k :: 0 <= k < |plays| && plays[k].Play? && plays[k].hosts == c {
      var k :| 0 <= k < |plays| && plays[k].Play? && plays[k].hosts == c;
      FixPlayOfEntry(b, packageInfo, basic[idx[k]], c);
    }
    if (exists i :: 0 <= i < |basic| && basic[i].cveId == Some(c)) && (b.fixFunction != "rpm" || c in packageInfo) {
      var i :| 0 <= i < |basic| && basic[i].cveId == Some(c);
      FixPlayOfEntry(b, packageInfo, basic[i], c);
      assert i in idx;
      var k :| 0 <= k < |idx| && idx[k] == i;
      assert f(basic[i]) == Some(plays[k]);
    }
  }

  /** The play of an entry, when it has one, is on the entry's CVE; an entry of CVE c has one iff c has a fix parameter. */
  lemma FixPlayOfEntry(b: Builder, packageInfo: map<CveId, seq<string>>, e: FixItem, c: CveId)
    ensures FixPlayOf(b, packageInfo)(e).Some? && FixPlayOf(b, packageInfo)(e).value.hosts == c ==> e.cveId == Some(c)
    ensures e.cveId == Some(c) ==> (FixPlayOf(b, packageInfo)(e).Some? <==> b.fixFunction != "rpm" || c in packageInfo)
  {
  }

  /** Outside "rpm" mode every entry with a cve id gets exactly one fix play. */
  lemma FixPlaysCount(b: Builder, basic: seq<FixItem>, packageInfo: map<CveId, seq<string>>)
    requires b.fixFunction != "rpm"
    ensures |Seqs.FilterMap(basic, FixPlayOf(b, packageInfo))| == |CveIds(basic)|
  {
    Seqs.FilterMapSameLength(basic, FixPlayOf(b, packageInfo), (e: FixItem) => e.cveId);
  }

  /** The fix playbook is the check task, then the fix plays, then the reboot template exactly when some CVE reboots. */
  lemma FixPlaybookShape(b: Builder, basic: seq<FixItem>, packageInfo: map<CveId, seq<string>>)
    ensures var pb := FixPlaybook(b, basic, packageInfo); var checks := CheckTask(b, CopyScriptTemplate);
      && |checks| <= |pb| && pb[..|checks|] == checks
      && (pb != [] && pb[|pb| - 1] == RebootTemplate <==> AnyReboot(basic))
      && (b.checkItems == [] <==> |checks| == 0)
  {
    var f := FixPlayOf(b, packageInfo);
    var plays := Seqs.FilterMap(basic, f);
    var idx := Seqs.FilterMapIndices(basic, f);
    var checks := CheckTask(b, CopyScriptTemplate);
    var pb := FixPlaybook(b, basic, packageInfo);
    assert pb[..|checks|] == checks;
    if !AnyReboot(basic) && pb != [] {
      if plays != [] {
        var k := |plays| - 1;
        assert f(basic[idx[k]]) == Some(plays[k]);
        assert pb[|pb| - 1] == plays[k];
      } else {
        assert pb == checks;
        assert checks[|checks| - 1].Play?;
      }
    }
  }

  // ---------------------------------------------------------------- rollback playbook

  /** create_rollback_param: the packages joined by blanks, as a shell command. */
  function RollbackParam(package: seq<string>): Action
  {
    Shell(Strs.Join(package, " "))
  }

  /** create_rollback_task: one step named after the CVE, with no check guard. */
  function RollbackTask(cveId: CveId, param: Action): Play
  {
    Play(cveId, [Step(cveId, true, param, None, None)])
  }

  /** The rollback play of a CVE, unless it has no (or an empty) package list. */
  function RollbackPlayOf(packageInfo: map<CveId, seq<string>>): CveId -> Option<Play>
  {
    (c: CveId) =>
      if c in packageInfo && packageInfo[c] != [] then Some(RollbackTask(c, RollbackParam(packageInfo[c]))) else None
  }

  function RollbackPlaybook(cveList: seq<CveId>, packageInfo: map<CveId, seq<string>>): seq<Play>
  {
    Seqs.FilterMap(cveList, RollbackPlayOf(packageInfo))
  }

  /** The rollback task id: the time-based uuid with its dashes removed. */
  function RollbackTaskId(uuid: string): (r: string)
  {
    Seqs.FilterMap(uuid, (ch: char) => if ch == '-' then None else Some(ch))
  }

  /** create_rollback_playbook, with the generated uuid as a parameter. */
  method CreateRollbackPlaybook(cveList: seq<CveId>, packageInfo: map<CveId, seq<string>>, uuid: string)
    returns (playbook: seq<Play>, taskId: string)
    ensures playbook == RollbackPlaybook(cveList, packageInfo)
    ensures taskId == RollbackTaskId(uuid)
  {
    playbook := [];
    taskId := RemoveDashes(uuid);
    for i := 0 to |cveList|
      invariant playbook == RollbackPlaybook(cveList[..i], packageInfo)
    {
      assert cveList[..i + 1][..i] == cveList[..i];
      var cveId := cveList[i];
      if cveId !in packageInfo || packageInfo[cveId] == [] {
        continue;
      }
      var param := RollbackParam(packageInfo[cveId]);
      var temp := RollbackTask(cveId, param);
      playbook := playbook + [temp];
    }
    assert cveList[..|cveList|] == cveList;
  }

  /** `str.replace('-', '')`. */
  method RemoveDashes(s: string) returns (r: string)
    ensures r == RollbackTaskId(s)
  {
    r := "";
    for i := 0 to |s|
      invariant r == RollbackTaskId(s[..i])
    {
      assert s[..i + 1][..i] == s[..i];
      if s[i] != '-' {
        r := r + [s[i]];
      }
    }
    assert s[..|s|] == s;
  }

  /** The task id has no dash and keeps every other character of the uuid, in order. */
  lemma RollbackTaskIdExact(uuid: string)
    ensures '-' !in RollbackTaskId(uuid)
    ensures forall ch :: ch != '-' ==> (ch in RollbackTaskId(uuid) <==> ch in uuid)
    ensures |RollbackTaskId(uuid)| <= |uuid|
  {
    var f := (ch: char) => if ch == '-' then None else Some(ch);
    var r := RollbackTaskId(uuid);
    var idx := Seqs.FilterMapIndices(uuid, f);
    forall k | 0 <= k < |r| ensures r[k] != '-' && r[k] == uuid[idx[k]] {
      assert f(uuid[idx[k]]) == Some(r[k]);
    }
    forall ch | ch != '-' && ch in uuid ensures ch in r {
      var i :| 0 <= i < |uuid| && uuid[i] == ch;
      assert i in idx;
      var k :| 0 <= k < |idx| && idx[k] == i;
      assert f(uuid[i]) == Some(r[k]);
    }
    IncreasingBounded(idx, |uuid|);
  }

  /**
   * The rollback playbook has one play per listed CVE that has packages, in
   * list order, and none for the others; each runs the CVE's packages joined by
   * blanks as one unguarded shell step on the CVE's group.
   */
  lemma RollbackPlaybookExact(cveList: seq<CveId>, packageInfo: map<CveId, seq<string>>, c: CveId)
    ensures var pb := RollbackPlaybook(cveList, packageInfo);
      && |pb| <= |cveList|
      && (forall k :: 0 <= k < |pb| ==>
            pb[k].Play? && pb[k].hosts in packageInfo && packageInfo[pb[k].hosts] != [] &&
            pb[k].tasks == [Step(pb[k].hosts, true, Shell(Strs.Join(packageInfo[pb[k].hosts], " ")), None, None)])
      && ((exists k :: 0 <= k < |pb| && pb[k].Play? && pb[k].hosts == c) <==> c in cveList && c in packageInfo && packageInfo[c] != [])
  {
    var f := RollbackPlayOf(packageInfo);
    var pb := RollbackPlaybook(cveList, packageInfo);
    var idx := Seqs.FilterMapIndices(cveList, f);
    IncreasingBounded(idx, |cveList|);
    forall k | 0 <= k < |pb|
      ensures pb[k].Play? && pb[k].hosts in packageInfo && packageInfo[pb[k].hosts] != [] &&
            pb[k].tasks == [Step(pb[k].hosts, true, Shell(Strs.Join(packageInfo[pb[k].hosts], " ")), None, None)]
    {
      assert f(cveList[idx[k]]) == Some(pb[k]);
    }
    if exists k :: 0 <= k < |pb| && pb[k].Play? && pb[k].hosts == c {
      var k :| 0 <= k < |pb| && pb[k].Play? && pb[k].hosts == c;
      assert f(cveList[idx[k]]) == Some(pb[k]);
    }
    if c in cveList && c in packageInfo && packageInfo[c] != [] {
      var i :| 0 <= i < |cveList| && cveList[i] == c;
      assert i in idx;
      var k :| 0 <= k < |idx| && idx[k] == i;
      assert f(cveList[i]) == Some(pb[k]);
    }
  }

  // ---------------------------------------------------------------- scan playbook

  const ScanCommand := "yum updateinfo list cves installed"

  /**
   * CveScanPlaybook.create_playbook: a single play on every host of the
   * inventory whose one step, "scan", lists the CVEs of the installed packages;
   * it runs unguarded and its errors are not ignored, whatever the builder's
   * check items.
   */
  function ScanPlaybook(): (r: seq<Play>)
    ensures |r| == 1 && r[0].Play? && r[0].hosts == TotalHosts
    ensures forall p, s :: p in r && p.Play? && s in p.tasks ==> s.when.None? && !s.ignoreErrors && !Strs.StartsWith(s.name, "check")
  {
    [Play(TotalHosts, [Step("scan", false, Shell(ScanCommand), None, None)])]
  }

  /** The scan playbook targets the one group the scan inventory has, which holds every listed host. */
  lemma ScanPlaybookOnInventory(info: seq<HostAddr>, name: string)
    ensures forall p :: p in ScanPlaybook() ==> p.Play? && p.hosts in map[TotalHosts := HostGroup(info)]
    ensures name in map[TotalHosts := HostGroup(info)][ScanPlaybook()[0].hosts] <==> exists j :: 0 <= j < |info| && info[j].hostName == name
  {
    HostGroupExact(info, name);
  }

  // ---------------------------------------------------------------- repo playbook

  const RepoDest := "/etc/yum.repos.d/aops-update.repo"

  /** The play of a repo-setting task: copy the repo file, then rebuild the yum cache. */
  function RepoPlay(b: Builder, repoPath: string): Play
  {
    Play(TotalHosts, [Step("copy repo", false, Copy(repoPath, RepoDest), None, Guard(b)),
                      Step("set repo", false, Shell("yum makecache"), None, Guard(b))])
  }

  function RepoPlaybook(b: Builder, repoPath: string): seq<Play>
  {
    CheckTask(b, CopyScriptTemplate) + [RepoPlay(b, repoPath)]
  }

  /** RepoPlaybook.create_playbook: the repo play is appended unguarded and then guarded in place. */
  method CreateRepoPlaybook(b: Builder, repoPath: string) returns (playbook: seq<Play>)
    ensures playbook == RepoPlaybook(b, repoPath)
  {
    var checks := CreateCheckTask(b, CopyScriptTemplate);
    playbook := checks + [Play(TotalHosts, [Step("copy repo", false, Copy(repoPath, RepoDest), None, None),
                                            Step("set repo", false, Shell("yum makecache"), None, None)])];
    if b.checkItems != [] {
      var last := playbook[|playbook| - 1];
      var steps := last.tasks;
      steps := steps[0 := steps[0].(when := Some(CheckCondition(b.checkItems)))];
      steps := steps[1 := steps[1].(when := Some(CheckCondition(b.checkItems)))];
      playbook := playbook[|playbook| - 1 := last.(tasks := steps)];
      assert playbook == checks + [last.(tasks := steps)];
      assert last.(tasks := steps) == RepoPlay(b, repoPath);
    }
  }

  /**
   * The step names of a repo playbook are what the repo callback routes on:
   * every step before the repo play is a check (its name starts with "check"),
   * the repo play is "copy repo" then "set repo", and only those two carry the
   * check condition, exactly when there are check items.
   */
  lemma RepoPlaybookSteps(b: Builder, repoPath: string)
    ensures var pb := RepoPlaybook(b, repoPath); var last := |pb| - 1;
      && last >= 0 && pb[last].Play?
      && (forall k, s :: 0 <= k < last && pb[k].Play? && 0 <= s < |pb[k].tasks| ==>
            Strs.StartsWith(pb[k].tasks[s].name, "check") && pb[k].tasks[s].when.None?)
      && |pb[last].tasks| == 2
      && pb[last].tasks[0].name == "copy repo" && !Strs.StartsWith("copy repo", "check")
      && pb[last].tasks[1].name == "set repo"
      && (pb[last].tasks[0].when == pb[last].tasks[1].when == (if b.checkItems != [] then Some(CheckCondition(b.checkItems)) else None))
  {
    var pb := RepoPlaybook(b, repoPath);
    var last := |pb| - 1;
    forall k, s | 0 <= k < last && pb[k].Play? && 0 <= s < |pb[k].tasks|
      ensures Strs.StartsWith(pb[k].tasks[s].name, "check") && pb[k].tasks[s].when.None?
    {
      var item := b.checkItems[k - 1];
      assert pb[k] == CheckPlay(item);
      assert pb[k].tasks[s].name == "check " + item;
      assert ("check " + item)[..5] == "check";
    }
    assert !Strs.StartsWith("copy repo", "check") by {
      assert "copy repo"[..5][1] == 'o' && "check"[1] == 'h';
    }
  }
}
