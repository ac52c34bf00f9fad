/**
 * The task cache: the host-info formats the handlers build from a task's CVE or
 * repo data, and a bounded cache of them keyed by task id. The cache's
 * least-recently-used order is kept abstract: when it is full, some other entry
 * makes room.
 */
module Cache {
  import opened Types
  import opened Wrappers
  import Dicts
  import Callbacks
  import Managers

  /** One item of a CVE task's info: a CVE and the hosts it is to be fixed on. */
  datatype CveItem = CveItem(cveId: CveId, hostInfo: seq<Callbacks.HostDict>)

  /** make_cve_info's result: the "cve" keys and the "host" dict, both in insertion order. */
  datatype CveTaskInfo = CveTaskInfo(cves: seq<CveId>, hosts: Dicts.Dict<string, Managers.FixHost>)

  /** The capacity of the global task cache. */
  const TaskCacheCapacity: nat := 100

  // ---------------------------------------------------------------- make_cve_info

  function ItemIds(info: seq<CveItem>): (r: seq<CveId>)
    ensures |r| == |info|
    ensures forall i :: 0 <= i < |info| ==> r[i] == info[i].cveId
  {
    seq(|info|, i requires 0 <= i < |info| => info[i].cveId)
  }

  /** Keys unique, and every host's CVE list without repeats. */
  ghost predicate WellFormed(hosts: Dicts.Dict<string, Managers.FixHost>)
  {
    && Dicts.UniqueKeys(hosts)
    && forall n :: Dicts.Get(hosts, n).Some? ==> Dicts.Distinct(Dicts.Get(hosts, n).value.cves)
  }

  /**
   * result["host"] after one host dict of one CVE: a known host name gains the
   * CVE; a new one is added as given, with the CVE as its only one.
   */
  function WithHost(hosts: Dicts.Dict<string, Managers.FixHost>, c: CveId, h: Callbacks.HostDict): Dicts.Dict<string, Managers.FixHost>
  {
    match Dicts.Get(hosts, h.hostName)
    case Some(e) => Dicts.Put(hosts, h.hostName, e.(cves := if c in e.cves then e.cves else e.cves + [c]))
    case None => hosts + [(h.hostName, Managers.FixHost(h.hostId, h.hostIp, [c]))]
  }

  /** The inner loop of make_cve_info: the host dicts of one CVE, in order. */
  function WithHosts(hosts: Dicts.Dict<string, Managers.FixHost>, c: CveId, hs: seq<Callbacks.HostDict>): Dicts.Dict<string, Managers.FixHost>
  {
    if hs == [] then hosts else WithHost(WithHosts(hosts, c, hs[..|hs| - 1]), c, hs[|hs| - 1])
  }

  /** The outer loop of make_cve_info: the "host" dict after every item. */
  function CveHosts(info: seq<CveItem>): Dicts.Dict<string, Managers.FixHost>
  {
    if info == [] then [] else WithHosts(CveHosts(info[..|info| - 1]), info[|info| - 1].cveId, info[|info| - 1].hostInfo)
  }

  lemma {:induction false} WithHostExact(hosts: Dicts.Dict<string, Managers.FixHost>, c: CveId, h: Callbacks.HostDict, name: string, c': CveId)
    requires WellFormed(hosts)
    ensures WellFormed(WithHost(hosts, c, h))
    ensures var r := Dicts.Get(WithHost(hosts, c, h), name); var g := Dicts.Get(hosts, name);
      && (r.Some? <==> g.Some? || h.hostName == name)
      && (g.Some? ==> r.value.hostId == g.value.hostId && r.value.hostIp == g.value.hostIp)
      && (g.None? && h.hostName == name ==> r.value.hostId == h.hostId && r.value.hostIp == h.hostIp)
      && (r.Some? ==> (c' in r.value.cves <==> (g.Some? && c' in g.value.cves) || (h.hostName == name && c' == c)))
  {
    var g := Dicts.Get(hosts, h.hostName);
    Dicts.GetDefined(hosts, h.hostName);
    if g.Some? {
      var e := g.value;
      var e' := e.(cves := if c in e.cves then e.cves else e.cves + [c]);
      Dicts.PutKeepsUnique(hosts, h.hostName, e');
      forall n | Dicts.Get(WithHost(hosts, c, h), n).Some?
        ensures Dicts.Distinct(Dicts.Get(WithHost(hosts, c, h), n).value.cves)
      {
        if n != h.hostName {
          Dicts.PutOther(hosts, h.hostName, e', n);
        } else if c !in e.cves {
          var s := e.cves + [c];
          forall i, j | 0 <= i < j < |s| ensures s[i] != s[j] {
            if j == |e.cves| { assert s[i] == e.cves[i]; }
          }
        }
      }
      if name != h.hostName {
        Dicts.PutOther(hosts, h.hostName, e', name);
      }
    } else {
      var e' := Managers.FixHost(h.hostId, h.hostIp, [c]);
      Dicts.AppendGet(hosts, h.hostName, e', name);
      var ks := Dicts.Keys(hosts) + [h.hostName];
      forall i, j | 0 <= i < j < |ks| ensures ks[i] != ks[j] {
        if j == |Dicts.Keys(hosts)| { assert ks[i] == Dicts.Keys(hosts)[i]; }
      }
      forall n | Dicts.Get(WithHost(hosts, c, h), n).Some?
        ensures Dicts.Distinct(Dicts.Get(WithHost(hosts, c, h), n).value.cves)
      {
        Dicts.AppendGet(hosts, h.hostName, e', n);
      }
    }
  }

  /** Some host dict of `hs` has this name. */
  ghost predicate Lists(hs: seq<Callbacks.HostDict>, name: string)
  {
    exists j :: 0 <= j < |hs| && hs[j].hostName == name
  }

  /** The first host dict of `hs` with this name carries this id and ip. */
  ghost predicate FirstLists(hs: seq<Callbacks.HostDict>, name: string, id: HostId, ip: string)
  {
    exists j :: 0 <= j < |hs| && hs[j].hostName == name && hs[j].hostId == id && hs[j].hostIp == ip &&
      forall j' :: 0 <= j' < j ==> hs[j'].hostName != name
  }

  /** Some item for CVE `c` lists a host dict with this name. */
  ghost predicate CveLists(info: seq<CveItem>, name: string, c: CveId)
  {
    exists i :: 0 <= i < |info| && info[i].cveId == c && Lists(info[i].hostInfo, name)
  }

  /** Every item's host dicts, one item after another. */
  function Flat(info: seq<CveItem>): seq<Callbacks.HostDict>
  {
    if info == [] then [] else Flat(info[..|info| - 1]) + info[|info| - 1].hostInfo
  }

  lemma ListsAppend(a: seq<Callbacks.HostDict>, b: seq<Callbacks.HostDict>, name: string)
    ensures Lists(a + b, name) <==> Lists(a, name) || Lists(b, name)
  {
    if Lists(a + b, name) {
      var j :| 0 <= j < |a + b| && (a + b)[j].hostName == name;
      if j < |a| { assert a[j] == (a + b)[j]; } else { assert b[j - |a|] == (a + b)[j]; }
    }
    if Lists(a, name) {
      var j :| 0 <= j < |a| && a[j].hostName == name;
      assert (a + b)[j] == a[j];
    }
    if Lists(b, name) {
      var j :| 0 <= j < |b| && b[j].hostName == name;
      assert (a + b)[|a| + j] == b[j];
    }
  }

  lemma FirstListsAppend(a: seq<Callbacks.HostDict>, b: seq<Callbacks.HostDict>, name: string, id: HostId, ip: string)
    requires FirstLists(a, name, id, ip) || (!Lists(a, name) && FirstLists(b, name, id, ip))
    ensures FirstLists(a + b, name, id, ip)
  {
    if FirstLists(a, name, id, ip) {
      var j :| 0 <= j < |a| && a[j].hostName == name && a[j].hostId == id && a[j].hostIp == ip &&
        forall j' :: 0 <= j' < j ==> a[j'].hostName != name;
      assert (a + b)[j] == a[j];
      forall j' | 0 <= j' < j ensures (a + b)[j'].hostName != name {
        assert (a + b)[j'] == a[j'];
      }
    } else {
      var j :| 0 <= j < |b| && b[j].hostName == name && b[j].hostId == id && b[j].hostIp == ip &&
        forall j' :: 0 <= j' < j ==> b[j'].hostName != name;
      assert (a + b)[|a| + j] == b[j];
      forall j' | 0 <= j' < |a| + j ensures (a + b)[j'].hostName != name {
        if j' < |a| { assert (a + b)[j'] == a[j']; } else { assert (a + b)[j'] == b[j' - |a|]; }
      }
    }
  }

  lemma {:induction false} ListsFlat(info: seq<CveItem>, i: int, name: string)
    requires 0 <= i < |info| && Lists(info[i].hostInfo, name)
    ensures Lists(Flat(info), name)
  {
    var n := |info| - 1;
    ListsAppend(Flat(info[..n]), info[n].hostInfo, name);
    if i < n {
      assert info[..n][i] == info[i];
      ListsFlat(info[..n], i, name);
    }
  }

  /**
   * Within one CVE's host dicts: a host is present afterwards iff it was before
   * or is listed; a host already present keeps its id and ip; a new host takes
   * those of the first dict listing it; and its CVEs gain exactly this CVE.
   */
  lemma {:induction false} WithHostsExact(hosts: Dicts.Dict<string, Managers.FixHost>, c: CveId, hs: seq<Callbacks.HostDict>,
                                          name: string, c': CveId)
    requires WellFormed(hosts)
    ensures WellFormed(WithHosts(hosts, c, hs))
    ensures var r := Dicts.Get(WithHosts(hosts, c, hs), name); var g := Dicts.Get(hosts, name);
      && (r.Some? <==> g.Some? || Lists(hs, name))
      && (g.Some? ==> r.value.hostId == g.value.hostId && r.value.hostIp == g.value.hostIp)
      && (g.None? && r.Some? ==> FirstLists(hs, name, r.value.hostId, r.value.hostIp))
      && (r.Some? ==> (c' in r.value.cves <==> (g.Some? && c' in g.value.cves) || (c' == c && Lists(hs, name))))
  {
    if hs != [] {
      var n := |hs| - 1;
      var init := hs[..n];
      var one := [hs[n]];
      assert hs == init + one;
      var mid := WithHosts(hosts, c, init);
      WithHostsExact(hosts, c, init, name, c');
      WithHostExact(mid, c, hs[n], name, c');
      ListsAppend(init, one, name);
      assert one[0] == hs[n];
      assert Lists(one, name) <==> hs[n].hostName == name;
      var g := Dicts.Get(hosts, name);
      var m := Dicts.Get(mid, name);
      var r := Dicts.Get(WithHosts(hosts, c, hs), name);
      if g.None? && r.Some? {
        if m.None? {
          assert FirstLists(one, name, r.value.hostId, r.value.hostIp);
        }
        FirstListsAppend(init, one, name, r.value.hostId, r.value.hostIp);
      }
    }
  }

  /**
   * make_cve_info's "host" dict: one entry per host name listed by any CVE (keys
   * unique), holding the id and ip of the first dict listing that name and
   * exactly the CVEs that list it, each once.
   */
  lemma {:induction false} CveHostsExact(info: seq<CveItem>, name: string, c: CveId)
    ensures WellFormed(CveHosts(info))
    ensures var r := Dicts.Get(CveHosts(info), name);
      && (r.Some? <==> Lists(Flat(info), name))
      && (r.Some? ==> FirstLists(Flat(info), name, r.value.hostId, r.value.hostIp))
      && (r.Some? ==> (c in r.value.cves <==> CveLists(info, name, c)))
  {
    if info != [] {
      var n := |info| - 1;
      var init := info[..n];
      var last := info[n];
      CveHostsExact(init, name, c);
      WithHostsExact(CveHosts(init), last.cveId, last.hostInfo, name, c);
      ListsAppend(Flat(init), last.hostInfo, name);
      var g := Dicts.Get(CveHosts(init), name);
      var r := Dicts.Get(CveHosts(info), name);
      if r.Some? {
        FirstListsAppend(Flat(init), last.hostInfo, name, r.value.hostId, r.value.hostIp);
        if CveLists(info, name, c) {
          var i :| 0 <= i < |info| && info[i].cveId == c && Lists(info[i].hostInfo, name);
          if i < n {
            assert init[i] == info[i];
            assert CveLists(init, name, c);
          }
        }
        if CveLists(init, name, c) {
          var i :| 0 <= i < |init| && init[i].cveId == c && Lists(init[i].hostInfo, name);
          assert info[i] == init[i];
          ListsFlat(init, i, name);
        }
      }
    }
  }

  /** The inner loop of make_cve_info. */
  method AddHosts(hosts: Dicts.Dict<string, Managers.FixHost>, c: CveId, hs: seq<Callbacks.HostDict>)
    returns (r: Dicts.Dict<string, Managers.FixHost>)
    ensures r == WithHosts(hosts, c, hs)
  {
    r := hosts;
    for j := 0 to |hs|
      invariant r == WithHosts(hosts, c, hs[..j])
    {
      assert hs[..j + 1][..j] == hs[..j];
      var h := hs[j];
      var known := Dicts.Get(r, h.hostName);
      if known.Some? {
        var e := known.value;
        r := Dicts.Put(r, h.hostName, e.(cves := if c in e.cves then e.cves else e.cves + [c]));
      } else {
        r := r + [(h.hostName, Managers.FixHost(h.hostId, h.hostIp, [c]))];
      }
    }
    assert hs[..|hs|] == hs;
  }

  /** make_cve_info: the task's CVEs, and its hosts each with the CVEs to fix on it. */
  method MakeCveInfo(info: seq<CveItem>) returns (r: CveTaskInfo)
    ensures r.cves == Dicts.FirstSeen(ItemIds(info))
    ensures r.hosts == CveHosts(info)
  {
    var cves: seq<CveId> := [];
    var hosts: Dicts.Dict<string, Managers.FixHost> := [];
    for i := 0 to |info|
      invariant cves == Dicts.FirstSeen(ItemIds(info[..i]))
      invariant hosts == CveHosts(info[..i])
    {
      assert info[..i + 1][..i] == info[..i];
      assert ItemIds(info[..i + 1]) == ItemIds(info[..i]) + [info[i].cveId];
      var item := info[i];
      if item.cveId !in cves {
        cves := cves + [item.cveId];
      }
      hosts := AddHosts(hosts, item.cveId, item.hostInfo);
    }
    assert info[..|info|] == info;
    r := CveTaskInfo(cves, hosts);
  }

  // ---------------------------------------------------------------- make_host_info

  /** make_host_info: host dicts keyed by name, a later dict replacing an earlier one. */
  method MakeHostInfo(info: seq<Callbacks.HostDict>) returns (r: map<string, Callbacks.HostDict>)
    ensures r == Callbacks.HostsByName(info)
  {
    r := map[];
    for i := 0 to |info|
      invariant r == Callbacks.HostsByName(info[..i])
    {
      assert info[..i + 1][..i] == info[..i];
      r := r[info[i].hostName := info[i]];
    }
    assert info[..|info|] == info;
  }

  // ---------------------------------------------------------------- the cache

  class TaskCache {
    const capacity: nat
    /** The cached host maps by task id; which entry goes first when full is left open. */
    var entries: map<TaskId, map<string, Callbacks.HostDict>>

    predicate Valid()
      reads this
    {
      0 < capacity && |entries| <= capacity
    }

    constructor (capacity: nat)
      requires 0 < capacity
      ensures Valid() && this.capacity == capacity && entries == map[]
    {
      this.capacity := capacity;
      entries := map[];
    }

    /** `get`: the cached value, if any. */
    function Lookup(taskId: TaskId): (r: Option<map<string, Callbacks.HostDict>>)
      reads this
      ensures r.Some? <==> taskId in entries
      ensures r.Some? ==> r.value == entries[taskId]
    {
      if taskId in entries then Some(entries[taskId]) else None
    }

    /**
     * `put`: the task's value is stored; when the cache is full and the task is
     * new, one other entry is dropped. Entries that stay keep their values.
     */
    method Put(taskId: TaskId, value: map<string, Callbacks.HostDict>)
      requires Valid()
      modifies this
      ensures Valid()
      ensures taskId in entries && entries[taskId] == value
      ensures entries.Keys <= old(entries.Keys) + {taskId}
      ensures forall t :: t in entries && t != taskId ==> entries[t] == old(entries[t])
      ensures |old(entries)| < capacity || taskId in old(entries) ==> entries.Keys == old(entries.Keys) + {taskId}
    {
      if taskId !in entries && |entries| == capacity {
        var victim :| victim in entries;
        entries := entries - {victim};
      }
      entries := entries[taskId := value];
    }

    /**
     * query_repo_info: a hit returns the cached host map and ignores the repo data;
     * a miss builds the map from the data, caches it and returns it.
     */
    method QueryRepoInfo(taskId: TaskId, repoInfo: seq<Callbacks.HostDict>) returns (taskInfo: map<string, Callbacks.HostDict>)
      requires Valid()
      modifies this
      ensures Valid()
      ensures old(taskId in entries) ==> taskInfo == old(entries[taskId]) && entries == old(entries)
      ensures old(taskId !in entries) ==>
        && taskInfo == Callbacks.HostsByName(repoInfo)
        && taskId in entries && entries[taskId] == taskInfo
        && entries.Keys <= old(entries.Keys) + {taskId}
        && forall t :: t in entries && t != taskId ==> entries[t] == old(entries[t])
    {
      var cached := Lookup(taskId);
      if cached.Some? {
        return cached.value;
      }
      taskInfo := MakeHostInfo(repoInfo);
      Put(taskId, taskInfo);
    }
  }

  /** The global cache of the task handlers. */
  method NewTaskCache() returns (c: TaskCache)
    ensures fresh(c) && c.Valid() && c.capacity == TaskCacheCapacity && c.entries == map[]
  {
    c := new TaskCache(TaskCacheCapacity);
  }
}
