/**
 * The `dnf hot-updateinfo list cves` table: the echo lines built from the
 * cold-patch advisories and the hotpatch data, and their filtering, column
 * widths and ordering.
 */
module HotDisplay {
  import opened Wrappers
  import Dicts
  import Seqs
  import opened HotpatchSelect

  /** A package as (name, evr, arch). */
  datatype Nevra = Nevra(name: string, evr: string, arch: string)

  /** The coldpatch column: a package tuple, or text such as "-". */
  datatype Coldpatch = Text(s: string) | Pkg(nevra: Nevra)

  /** `[cve_id, adv_type, coldpatch, hotpatch]`. */
  datatype EchoLine = EchoLine(cveId: string, advType: string, coldpatch: Coldpatch, hotpatch: string)

  /**
   * What the table reads of a hotpatch: its source package name, state, nevra,
   * the CVEs it fixes and its advisory's severity.
   */
  datatype HpView = HpView(srcName: string, state: State, nevra: string, cves: seq<string>, severity: string)

  /** One package of the cold-patch listing with its CVEs, each with its type label. */
  datatype Entry = Entry(nevra: Nevra, cves: seq<(string, string)>)

  /** A formatted line: every column a string. */
  datatype FormatLine = FormatLine(cveId: string, advType: string, coldpatch: string, hotpatch: string)

  /** The column widths and the lines to print. */
  datatype DisplayItem = DisplayItem(idw: nat, tiw: nat, ciw: nat, lines: seq<FormatLine>)

  // ---------------------------------------------------------------- building the echo lines

  /**
   * The state of the loop over one CVE's hotpatches: the lines so far, the
   * fixed CVEs so far, and what the variable `cve_id` holds (the loop over an
   * installed hotpatch's CVEs rebinds it).
   */
  datatype Acc = Acc(lines: seq<EchoLine>, fixed: set<string>, cur: string)

  /**
   * One hotpatch of a CVE listed against a package: a '-' line is appended;
   * for a hotpatch of that package an INSTALLED one instead records its CVEs
   * as fixed (leaving `cve_id` at the last of them) and drops the line, and an
   * INSTALLABLE one puts its nevra in the line.
   */
  function HotpatchStep(a: Acc, advType: string, nevra: Nevra, h: HpView): Acc
  {
    var line := EchoLine(a.cur, advType, Pkg(nevra), "-");
    if h.srcName != nevra.name then a.(lines := a.lines + [line])
    else if h.state == Installed then
      Acc(a.lines, a.fixed + set c | c in h.cves, if h.cves == [] then a.cur else h.cves[|h.cves| - 1])
    else if h.state == Installable then a.(lines := a.lines + [line.(hotpatch := h.nevra)])
    else a.(lines := a.lines + [line])
  }

  function HotpatchSteps(a: Acc, advType: string, nevra: Nevra, hs: seq<HpView>): Acc
  {
    if hs == [] then a
    else
      var n := |hs| - 1;
      HotpatchStep(HotpatchSteps(a, advType, nevra, hs[..n]), advType, nevra, hs[n])
  }

  /** The hotpatches the hotpatch data holds for a CVE (none for an unknown CVE). */
  function HotpatchesOf(table: Dicts.Dict<string, seq<HpView>>, cve: string): seq<HpView>
  {
    match Dicts.Get(table, cve)
    case Some(hs) => hs
    case None => []
  }

  /** One CVE of one package: a bare line when no hotpatch is known for it, otherwise one step per hotpatch. */
  function CveStep(lines: seq<EchoLine>, fixed: set<string>, nevra: Nevra, cve: string, advType: string,
                   table: Dicts.Dict<string, seq<HpView>>): Acc
  {
    var hs := HotpatchesOf(table, cve);
    if hs == [] then Acc(lines + [EchoLine(cve, advType, Pkg(nevra), "-")], fixed, cve)
    else HotpatchSteps(Acc(lines, fixed, cve), advType, nevra, hs)
  }

  /** The CVEs of one package, in order. */
  function EntrySteps(lines: seq<EchoLine>, fixed: set<string>, nevra: Nevra, cves: seq<(string, string)>,
                      table: Dicts.Dict<string, seq<HpView>>): (seq<EchoLine>, set<string>)
  {
    if cves == [] then (lines, fixed)
    else
      var n := |cves| - 1;
      var (l, f) := EntrySteps(lines, fixed, nevra, cves[..n], table);
      var a := CveStep(l, f, nevra, cves[n].0, cves[n].1, table);
      (a.lines, a.fixed)
  }

  /** The packages of the cold-patch listing, in order. */
  function EntriesSteps(entries: seq<Entry>, table: Dicts.Dict<string, seq<HpView>>): (seq<EchoLine>, set<string>)
  {
    if entries == [] then ([], {})
    else
      var n := |entries| - 1;
      var (l, f) := EntriesSteps(entries[..n], table);
      EntrySteps(l, f, entries[n].nevra, entries[n].cves, table)
  }

  /** The CVEs the cold-patch listing mentions. */
  function Iterated(entries: seq<Entry>): set<string>
  {
    if entries == [] then {}
    else
      var n := |entries| - 1;
      Iterated(entries[..n]) + CvesOf(entries[n].cves)
  }

  /** The CVE ids of one package's listing. */
  function CvesOf(cves: seq<(string, string)>): set<string>
  {
    set k | 0 <= k < |cves| :: cves[k].0
  }

  /** The CVEs known only from the hotpatch data, in the hotpatch data's order. */
  function HpOnly(table: Dicts.Dict<string, seq<HpView>>, iterated: set<string>): seq<string>
  {
    Seqs.Filter(Dicts.Keys(table), c => c !in iterated, true)
  }

  /**
   * The line a hotpatch-only CVE gets for one hotpatch: none when it is
   * INSTALLED, its nevra when INSTALLABLE, '-' otherwise.
   */
  function HpOnlyLine(cve: string, h: HpView): Option<EchoLine>
  {
    if h.state == Installed then None
    else if h.state == Installable then Some(EchoLine(cve, h.severity + "/Sec.", Text("-"), h.nevra))
    else Some(EchoLine(cve, h.severity + "/Sec.", Text("-"), "-"))
  }

  function HpOnlyStep(lines: seq<EchoLine>, fixed: set<string>, cve: string, hs: seq<HpView>): (seq<EchoLine>, set<string>)
  {
    if hs == [] then (lines, fixed)
    else
      var n := |hs| - 1;
      var (l, f) := HpOnlyStep(lines, fixed, cve, hs[..n]);
      match HpOnlyLine(cve, hs[n])
      case None => (l, f + {cve})
      case Some(line) => (l + [line], f)
  }

  function HpOnlySteps(lines: seq<EchoLine>, fixed: set<string>, cves: seq<string>, table: Dicts.Dict<string, seq<HpView>>): (seq<EchoLine>, set<string>)
  {
    if cves == [] then (lines, fixed)
    else
      var n := |cves| - 1;
      var (l, f) := HpOnlySteps(lines, fixed, cves[..n], table);
      HpOnlyStep(l, f, cves[n], HotpatchesOf(table, cves[n]))
  }

  /** The echo lines and the fixed CVEs of `get_formatting_parameters_and_display_lines`. */
  function BuildLines(entries: seq<Entry>, table: Dicts.Dict<string, seq<HpView>>): (seq<EchoLine>, set<string>)
  {
    var (l, f) := EntriesSteps(entries, table);
    HpOnlySteps(l, f, HpOnly(table, Iterated(entries)), table)
  }

  // ---------------------------------------------------------------- properties of the echo lines

  /**
   * The loop over a CVE's hotpatches only appends lines, only grows the fixed
   * set, and every line it appends carries the CVE itself or a CVE it has
   * marked fixed: rebinding `cve_id` never puts an unfixed CVE on a line.
   */
  lemma {:induction false} HotpatchStepsShadow(a: Acc, advType: string, nevra: Nevra, hs: seq<HpView>, cve: string)
    requires a.cur == cve || a.cur in a.fixed
    ensures var r := HotpatchSteps(a, advType, nevra, hs);
      && a.fixed <= r.fixed
      && |a.lines| <= |r.lines| && r.lines[..|a.lines|] == a.lines
      && (r.cur == cve || r.cur in r.fixed)
      && forall i :: |a.lines| <= i < |r.lines| ==> r.lines[i].cveId == cve || r.lines[i].cveId in r.fixed
  {
    if hs != [] {
      var n := |hs| - 1;
      HotpatchStepsShadow(a, advType, nevra, hs[..n], cve);
      var p := HotpatchSteps(a, advType, nevra, hs[..n]);
      var r := HotpatchStep(p, advType, nevra, hs[n]);
      assert r.lines[..|p.lines|] == p.lines;
      assert r.lines[..|a.lines|] == p.lines[..|a.lines|];
      if hs[n].srcName == nevra.name && hs[n].state == Installed && hs[n].cves != [] {
        assert hs[n].cves[|hs[n].cves| - 1] in hs[n].cves;
      }
    }
  }

  /** An INSTALLED hotpatch of the package that names the CVE marks the CVE fixed. */
  lemma {:induction false} InstalledMarksFixed(a: Acc, advType: string, nevra: Nevra, hs: seq<HpView>, cve: string, k: int)
    requires 0 <= k < |hs| && hs[k].srcName == nevra.name && hs[k].state == Installed && cve in hs[k].cves
    ensures cve in HotpatchSteps(a, advType, nevra, hs).fixed
  {
    var n := |hs| - 1;
    if k < n {
      assert hs[..n][k] == hs[k];
      InstalledMarksFixed(a, advType, nevra, hs[..n], cve, k);
    }
    FixedGrows(HotpatchSteps(a, advType, nevra, hs[..n]), advType, nevra, hs[n]);
  }

  lemma FixedGrows(a: Acc, advType: string, nevra: Nevra, h: HpView)
    ensures a.fixed <= HotpatchStep(a, advType, nevra, h).fixed
    ensures h.srcName == nevra.name && h.state == Installed ==> forall c :: c in h.cves ==> c in HotpatchStep(a, advType, nevra, h).fixed
  {
  }

  /**
   * Each hotpatch of a package's CVE gives one line unless it is an INSTALLED
   * hotpatch of that package; the line holds the nevra exactly when the
   * hotpatch is an INSTALLABLE one of that package.
   */
  lemma HotpatchStepLine(a: Acc, advType: string, nevra: Nevra, h: HpView)
    ensures var r := HotpatchStep(a, advType, nevra, h);
      if h.srcName == nevra.name && h.state == Installed then
        r.lines == a.lines && r.fixed == a.fixed + (set c | c in h.cves)
      else
        r.fixed == a.fixed && r.cur == a.cur &&
        r.lines == a.lines + [EchoLine(a.cur, advType, Pkg(nevra),
                                       if h.srcName == nevra.name && h.state == Installable then h.nevra else "-")]
  {
  }

  /**
   * A hotpatch-only CVE is marked fixed exactly when one of its hotpatches is
   * INSTALLED, and gets one line per other hotpatch, in order: the nevra for an
   * INSTALLABLE one, '-' otherwise.
   */
  lemma {:induction false} HpOnlyStepExact(lines: seq<EchoLine>, fixed: set<string>, cve: string, hs: seq<HpView>)
    ensures HpOnlyStep(lines, fixed, cve, hs).0 == lines + Seqs.FilterMap(hs, h => HpOnlyLine(cve, h))
    ensures HpOnlyStep(lines, fixed, cve, hs).1 ==
      fixed + (if exists k :: 0 <= k < |hs| && hs[k].state == Installed then {cve} else {})
  {
    if hs == [] {
      assert lines + [] == lines;
    } else {
      var n := |hs| - 1;
      HpOnlyStepExact(lines, fixed, cve, hs[..n]);
      var older := Seqs.FilterMap(hs[..n], h => HpOnlyLine(cve, h));
      assert Seqs.FilterMap(hs, h => HpOnlyLine(cve, h)) ==
        older + (match HpOnlyLine(cve, hs[n]) case Some(u) => [u] case None => []);
      assert forall k :: 0 <= k < n ==> hs[..n][k] == hs[k];
      match HpOnlyLine(cve, hs[n]) {
        case None =>
          assert lines + older + [] == lines + older;
        case Some(line) =>
          assert lines + older + [line] == lines + (older + [line]);
      }
    }
  }

  /** Every line carries one of the allowed CVEs or one marked fixed. */
  ghost predicate LinesFrom(lines: seq<EchoLine>, allowed: set<string>, fixed: set<string>)
  {
    forall i :: 0 <= i < |lines| ==> lines[i].cveId in allowed || lines[i].cveId in fixed
  }

  lemma CveStepFrom(lines: seq<EchoLine>, fixed: set<string>, nevra: Nevra, cve: string, advType: string,
                    table: Dicts.Dict<string, seq<HpView>>, allowed: set<string>)
    requires LinesFrom(lines, allowed, fixed) && cve in allowed
    ensures var a := CveStep(lines, fixed, nevra, cve, advType, table);
      fixed <= a.fixed && LinesFrom(a.lines, allowed, a.fixed)
  {
    var hs := HotpatchesOf(table, cve);
    if hs != [] {
      HotpatchStepsShadow(Acc(lines, fixed, cve), advType, nevra, hs, cve);
      var a := HotpatchSteps(Acc(lines, fixed, cve), advType, nevra, hs);
      forall i | 0 <= i < |a.lines| ensures a.lines[i].cveId in allowed || a.lines[i].cveId in a.fixed {
        if i < |lines| {
          assert a.lines[i] == a.lines[..|lines|][i];
        }
      }
    }
  }

  lemma {:induction false} EntryStepsFrom(lines: seq<EchoLine>, fixed: set<string>, nevra: Nevra, cves: seq<(string, string)>,
                                          table: Dicts.Dict<string, seq<HpView>>, allowed: set<string>)
    requires LinesFrom(lines, allowed, fixed) && CvesOf(cves) <= allowed
    ensures var r := EntrySteps(lines, fixed, nevra, cves, table);
      fixed <= r.1 && LinesFrom(r.0, allowed, r.1)
  {
    if cves != [] {
      var n := |cves| - 1;
      assert CvesOf(cves[..n]) <= CvesOf(cves) by {
        forall k | 0 <= k < n ensures cves[..n][k].0 in CvesOf(cves) {
          assert cves[..n][k] == cves[k];
        }
      }
      EntryStepsFrom(lines, fixed, nevra, cves[..n], table, allowed);
      var (l, f) := EntrySteps(lines, fixed, nevra, cves[..n], table);
      assert cves[n].0 in CvesOf(cves);
      CveStepFrom(l, f, nevra, cves[n].0, cves[n].1, table, allowed);
    }
  }

  lemma {:induction false} EntriesStepsFrom(entries: seq<Entry>, table: Dicts.Dict<string, seq<HpView>>)
    ensures var r := EntriesSteps(entries, table);
      LinesFrom(r.0, Iterated(entries), r.1)
  {
    if entries != [] {
      var n := |entries| - 1;
      EntriesStepsFrom(entries[..n], table);
      var (l, f) := EntriesSteps(entries[..n], table);
      EntryStepsFrom(l, f, entries[n].nevra, entries[n].cves, table, Iterated(entries));
    }
  }

  lemma {:induction false} HpOnlyStepsFrom(lines: seq<EchoLine>, fixed: set<string>, cves: seq<string>,
                                           table: Dicts.Dict<string, seq<HpView>>, allowed: set<string>)
    requires LinesFrom(lines, allowed, fixed) && forall k :: 0 <= k < |cves| ==> cves[k] in allowed
    ensures var r := HpOnlySteps(lines, fixed, cves, table);
      fixed <= r.1 && LinesFrom(r.0, allowed, r.1)
  {
    if cves != [] {
      var n := |cves| - 1;
      assert forall k :: 0 <= k < n ==> cves[..n][k] == cves[k];
      HpOnlyStepsFrom(lines, fixed, cves[..n], table, allowed);
      var (l, f) := HpOnlySteps(lines, fixed, cves[..n], table);
      var hs := HotpatchesOf(table, cves[n]);
      HpOnlyStepExact(l, f, cves[n], hs);
      var r := HpOnlyStep(l, f, cves[n], hs);
      forall i | |l| <= i < |r.0| ensures r.0[i].cveId == cves[n] {
        var idx := Seqs.FilterMapIndices(hs, h => HpOnlyLine(cves[n], h));
        assert r.0[i] == Seqs.FilterMap(hs, h => HpOnlyLine(cves[n], h))[i - |l|];
      }
      forall i | 0 <= i < |r.0| ensures r.0[i].cveId in allowed || r.0[i].cveId in r.1 {
        if i < |l| {
          assert r.0[i] == l[i];
        }
      }
    }
  }

  /**
   * Every echo line names a CVE of the cold-patch listing, a CVE of the
   * hotpatch data, or a CVE that ends up fixed.
   */
  lemma BuildLinesFrom(entries: seq<Entry>, table: Dicts.Dict<string, seq<HpView>>)
    ensures var r := BuildLines(entries, table);
      LinesFrom(r.0, Iterated(entries) + (set c | c in Dicts.Keys(table)), r.1)
  {
    var allowed := Iterated(entries) + (set c | c in Dicts.Keys(table));
    EntriesStepsFrom(entries, table);
    var (l, f) := EntriesSteps(entries, table);
    assert LinesFrom(l, allowed, f);
    var only := HpOnly(table, Iterated(entries));
    Seqs.FilterSplit(Dicts.Keys(table), c => c !in Iterated(entries));
    assert forall k :: 0 <= k < |only| ==> only[k] in only;
    HpOnlyStepsFrom(l, f, only, table, allowed);
  }

  // ---------------------------------------------------------------- the line-building loops

  /** `for cve_id in hotpatch.cves: fixed_cve_id.add(cve_id)`, leaving `cve_id` at the last one. */
  method MarkFixed(fixed: set<string>, cur: string, cves: seq<string>) returns (fixed': set<string>, cur': string)
    ensures fixed' == fixed + (set c | c in cves)
    ensures cur' == if cves == [] then cur else cves[|cves| - 1]
  {
    fixed', cur' := fixed, cur;
    for j := 0 to |cves|
      invariant fixed' == fixed + (set c | c in cves[..j])
      invariant cur' == if j == 0 then cur else cves[j - 1]
    {
      assert forall c :: c in cves[..j + 1] <==> c in cves[..j] || c == cves[j] by {
        assert cves[..j + 1] == cves[..j] + [cves[j]];
      }
      fixed' := fixed' + {cves[j]};
      cur' := cves[j];
    }
    assert cves[..|cves|] == cves;
  }

  /** The loop over one listed CVE's hotpatches: append a line, then pop it or fill in its hotpatch. */
  method HotpatchLines(a: Acc, advType: string, nevra: Nevra, hs: seq<HpView>) returns (r: Acc)
    ensures r == HotpatchSteps(a, advType, nevra, hs)
  {
    var lines, fixed, cur := a.lines, a.fixed, a.cur;
    for i := 0 to |hs|
      invariant Acc(lines, fixed, cur) == HotpatchSteps(a, advType, nevra, hs[..i])
    {
      assert hs[..i + 1][..i] == hs[..i];
      var h := hs[i];
      lines := lines + [EchoLine(cur, advType, Pkg(nevra), "-")];
      if h.srcName != nevra.name {
        continue;
      }
      if h.state == Installed {
        fixed, cur := MarkFixed(fixed, cur, h.cves);
        lines := lines[..|lines| - 1];
      } else if h.state == Installable {
        lines := lines[|lines| - 1 := lines[|lines| - 1].(hotpatch := h.nevra)];
      }
    }
    assert hs[..|hs|] == hs;
    r := Acc(lines, fixed, cur);
  }

  /** The loop over one package's CVEs. */
  method EntryLines(lines: seq<EchoLine>, fixed: set<string>, iterated: set<string>, e: Entry,
                    table: Dicts.Dict<string, seq<HpView>>)
    returns (lines': seq<EchoLine>, fixed': set<string>, iterated': set<string>)
    ensures (lines', fixed') == EntrySteps(lines, fixed, e.nevra, e.cves, table)
    ensures iterated' == iterated + CvesOf(e.cves)
  {
    lines', fixed', iterated' := lines, fixed, iterated;
    for k := 0 to |e.cves|
      invariant (lines', fixed') == EntrySteps(lines, fixed, e.nevra, e.cves[..k], table)
      invariant iterated' == iterated + CvesOf(e.cves[..k])
    {
      assert e.cves[..k + 1][..k] == e.cves[..k];
      CvesOfSnoc(e.cves, k);
      var (cve, advType) := e.cves[k];
      iterated' := iterated' + {cve};
      var hs := HotpatchesOf(table, cve);
      if hs == [] {
        lines' := lines' + [EchoLine(cve, advType, Pkg(e.nevra), "-")];
        continue;
      }
      var a := HotpatchLines(Acc(lines', fixed', cve), advType, e.nevra, hs);
      lines', fixed' := a.lines, a.fixed;
    }
    assert e.cves[..|e.cves|] == e.cves;
  }

  lemma CvesOfSnoc(cves: seq<(string, string)>, k: int)
    requires 0 <= k < |cves|
    ensures CvesOf(cves[..k + 1]) == CvesOf(cves[..k]) + {cves[k].0}
  {
    var p, q := cves[..k + 1], cves[..k];
    forall c | c in CvesOf(p) ensures c in CvesOf(q) + {cves[k].0} {
      var m :| 0 <= m < |p| && p[m].0 == c;
      if m < k {
        assert q[m] == p[m];
      }
    }
    forall c | c in CvesOf(q) ensures c in CvesOf(p) {
      var m :| 0 <= m < |q| && q[m].0 == c;
      assert p[m] == q[m];
    }
    assert p[k] == cves[k];
  }

  /** The loop over the sorted packages of the cold-patch listing. */
  method ListedLines(entries: seq<Entry>, table: Dicts.Dict<string, seq<HpView>>)
    returns (lines: seq<EchoLine>, fixed: set<string>, iterated: set<string>)
    ensures (lines, fixed) == EntriesSteps(entries, table)
    ensures iterated == Iterated(entries)
  {
    lines, fixed, iterated := [], {}, {};
    for i := 0 to |entries|
      invariant (lines, fixed) == EntriesSteps(entries[..i], table)
      invariant iterated == Iterated(entries[..i])
    {
      assert entries[..i + 1][..i] == entries[..i];
      lines, fixed, iterated := EntryLines(lines, fixed, iterated, entries[i], table);
    }
    assert entries[..|entries|] == entries;
  }

  /** The loop over the CVEs known only from the hotpatch data. */
  method HpOnlyLines(lines: seq<EchoLine>, fixed: set<string>, cves: seq<string>, table: Dicts.Dict<string, seq<HpView>>)
    returns (lines': seq<EchoLine>, fixed': set<string>)
    ensures (lines', fixed') == HpOnlySteps(lines, fixed, cves, table)
  {
    lines', fixed' := lines, fixed;
    for k := 0 to |cves|
      invariant (lines', fixed') == HpOnlySteps(lines, fixed, cves[..k], table)
    {
      assert cves[..k + 1][..k] == cves[..k];
      var cve := cves[k];
      var hs := HotpatchesOf(table, cve);
      ghost var start := (lines', fixed');
      for j := 0 to |hs|
        invariant (lines', fixed') == HpOnlyStep(start.0, start.1, cve, hs[..j])
      {
        assert hs[..j + 1][..j] == hs[..j];
        var h := hs[j];
        var line := EchoLine(cve, h.severity + "/Sec.", Text("-"), "-");
        if h.state == Installed {
          fixed' := fixed' + {cve};
          continue;
        } else if h.state == Installable {
          line := EchoLine(cve, h.severity + "/Sec.", Text("-"), h.nevra);
        }
        lines' := lines' + [line];
      }
      assert hs[..|hs|] == hs;
    }
    assert cves[..|cves|] == cves;
  }

  // ---------------------------------------------------------------- filtering and formatting

  /** `'%s-%s.%s' % (name, evr, arch)` for a package, the text itself otherwise. */
  function ColdText(c: Coldpatch): string
  {
    match c
    case Text(s) => s
    case Pkg(n) => n.name + "-" + n.evr + "." + n.arch
  }

  /**
   * A line is shown when its CVE passes the filter (if one is set) and is not
   * fixed, with its coldpatch rendered as text.
   */
  function Shown(l: EchoLine, filter: Option<set<string>>, fixed: set<string>): Option<FormatLine>
  {
    if filter.Some? && l.cveId !in filter.value then None
    else if l.cveId in fixed then None
    else Some(FormatLine(l.cveId, l.advType, ColdText(l.coldpatch), l.hotpatch))
  }

  /** The lines the table keeps, in the order of the echo lines. */
  function Kept(lines: seq<EchoLine>, filter: Option<set<string>>, fixed: set<string>): seq<FormatLine>
  {
    Seqs.FilterMap(lines, l => Shown(l, filter, fixed))
  }

  /** `max(0, len(...) for each line)`: the widest column of the lines. */
  function MaxWidth(lines: seq<FormatLine>, width: FormatLine -> nat): (r: nat)
    ensures forall i :: 0 <= i < |lines| ==> width(lines[i]) <= r
    ensures r == 0 || exists i :: 0 <= i < |lines| && width(lines[i]) == r
  {
    if lines == [] then 0
    else
      var n := |lines| - 1;
      var prev := MaxWidth(lines[..n], width);
      assert forall i :: 0 <= i < n ==> lines[..n][i] == lines[i];
      if width(lines[n]) > prev then width(lines[n]) else prev
  }

  function IdWidth(l: FormatLine): nat { |l.cveId| }
  function TypeWidth(l: FormatLine): nat { |l.advType| }
  function ColdWidth(l: FormatLine): nat { |l.coldpatch| }

  // ---------------------------------------------------------------- the sort order

  /** Python's string order: code point by code point, a proper prefix first. */
  predicate StrLe(a: string, b: string)
  {
    if a == [] then true
    else if b == [] then false
    else if a[0] != b[0] then a[0] < b[0]
    else StrLe(a[1..], b[1..])
  }

  lemma {:induction false} StrLeTotal(a: string, b: string)
    ensures StrLe(a, b) || StrLe(b, a)
  {
    if a != [] && b != [] && a[0] == b[0] {
      StrLeTotal(a[1..], b[1..]);
    }
  }

  lemma {:induction false} StrLeAntisym(a: string, b: string)
    requires StrLe(a, b) && StrLe(b, a)
    ensures a == b
  {
    if a != [] && b != [] {
      StrLeAntisym(a[1..], b[1..]);
      assert a == [a[0]] + a[1..] && b == [b[0]] + b[1..];
    }
  }

  lemma {:induction false} StrLeTrans(a: string, b: string, c: string)
    requires StrLe(a, b) && StrLe(b, c)
    ensures StrLe(a, c)
  {
    if a != [] && b != [] && c != [] && a[0] == b[0] && b[0] == c[0] {
      StrLeTrans(a[1..], b[1..], c[1..]);
    }
  }

  /** `key=lambda x: (x[2], x[3])`: by coldpatch, then by hotpatch. */
  predicate KeyLe(x: FormatLine, y: FormatLine)
  {
    (StrLe(x.coldpatch, y.coldpatch) && x.coldpatch != y.coldpatch) || (x.coldpatch == y.coldpatch && StrLe(x.hotpatch, y.hotpatch))
  }

  lemma KeyLeTotal(x: FormatLine, y: FormatLine)
    ensures KeyLe(x, y) || KeyLe(y, x)
  {
    StrLeTotal(x.coldpatch, y.coldpatch);
    StrLeTotal(x.hotpatch, y.hotpatch);
  }

  lemma KeyLeTrans(x: FormatLine, y: FormatLine, z: FormatLine)
    requires KeyLe(x, y) && KeyLe(y, z)
    ensures KeyLe(x, z)
  {
    if x.coldpatch == y.coldpatch && y.coldpatch == z.coldpatch {
      StrLeTrans(x.hotpatch, y.hotpatch, z.hotpatch);
    } else if x.coldpatch != y.coldpatch && y.coldpatch != z.coldpatch {
      StrLeTrans(x.coldpatch, y.coldpatch, z.coldpatch);
      if x.coldpatch == z.coldpatch {
        StrLeAntisym(x.coldpatch, y.coldpatch);
      }
    }
  }

  predicate Sorted(s: seq<FormatLine>)
  {
    forall i, j :: 0 <= i < j < |s| ==> KeyLe(s[i], s[j])
  }

  /** Inserting a line before the first line that sorts after it. */
  function Insert(s: seq<FormatLine>, x: FormatLine): (r: seq<FormatLine>)
    ensures multiset(r) == multiset(s) + multiset{x}
  {
    if s == [] then [x]
    else if KeyLe(x, s[0]) then [x] + s
    else
      assert s == [s[0]] + s[1..];
      [s[0]] + Insert(s[1..], x)
  }

  lemma {:induction false} InsertSorted(s: seq<FormatLine>, x: FormatLine)
    requires Sorted(s)
    ensures Sorted(Insert(s, x))
  {
    if s == [] {
    } else if KeyLe(x, s[0]) {
      var r := [x] + s;
      forall i, j | 0 <= i < j < |r| ensures KeyLe(r[i], r[j]) {
        if i == 0 {
          if j > 1 {
            KeyLeTrans(x, s[0], s[j - 1]);
          }
        } else {
          assert r[i] == s[i - 1] && r[j] == s[j - 1];
        }
      }
    } else {
      KeyLeTotal(x, s[0]);
      InsertSorted(s[1..], x);
      var r := Insert(s[1..], x);
      forall k | 0 <= k < |r| ensures KeyLe(s[0], r[k]) {
        assert r[k] in multiset(r);
        if r[k] != x {
          assert r[k] in multiset(s[1..]);
          var m :| 0 <= m < |s[1..]| && s[1..][m] == r[k];
          assert s[m + 1] == r[k];
        }
      }
    }
  }

  // ---------------------------------------------------------------- the formatting loop

  /**
   * `_filter_and_format_list_output`: the widths are the widest kept column (0
   * when nothing is kept), and the lines are the kept lines without
   * duplicates, sorted by coldpatch then hotpatch.
   */
  method FilterAndFormat(lines: seq<EchoLine>, fixed: set<string>, filter: Option<set<string>>) returns (d: DisplayItem)
    ensures d.idw == MaxWidth(Kept(lines, filter, fixed), IdWidth)
    ensures d.tiw == MaxWidth(Kept(lines, filter, fixed), TypeWidth)
    ensures d.ciw == MaxWidth(Kept(lines, filter, fixed), ColdWidth)
    ensures Sorted(d.lines) && Dicts.Distinct(d.lines)
    ensures forall l :: l in d.lines <==> l in Kept(lines, filter, fixed)
  {
    var idw, tiw, ciw := 0, 0, 0;
    var formatLines: seq<FormatLine> := [];
    ghost var kept: seq<FormatLine> := [];
    for i := 0 to |lines|
      invariant kept == Kept(lines[..i], filter, fixed)
      invariant idw == MaxWidth(kept, IdWidth) && tiw == MaxWidth(kept, TypeWidth) && ciw == MaxWidth(kept, ColdWidth)
      invariant Dicts.Distinct(formatLines) && forall l :: l in formatLines <==> l in kept
    {
      KeptSnoc(lines, i, filter, fixed);
      var l := lines[i];
      if filter.Some? && l.cveId !in filter.value {
        continue;
      }
      if l.cveId in fixed {
        continue;
      }
      var coldpatch := ColdText(l.coldpatch);
      var f := FormatLine(l.cveId, l.advType, coldpatch, l.hotpatch);
      MaxWidthSnoc(kept, f, IdWidth);
      MaxWidthSnoc(kept, f, TypeWidth);
      MaxWidthSnoc(kept, f, ColdWidth);
      idw := if |l.cveId| > idw then |l.cveId| else idw;
      tiw := if |l.advType| > tiw then |l.advType| else tiw;
      ciw := if |coldpatch| > ciw then |coldpatch| else ciw;
      kept := kept + [f];
      if f !in formatLines {
        DistinctSnoc(formatLines, f);
        formatLines := formatLines + [f];
      }
    }
    assert lines[..|lines|] == lines;
    var sorted := SortLines(formatLines);
    d := DisplayItem(idw, tiw, ciw, sorted);
  }

  lemma DistinctSnoc(s: seq<FormatLine>, f: FormatLine)
    requires Dicts.Distinct(s) && f !in s
    ensures Dicts.Distinct(s + [f])
  {
    forall i, j | 0 <= i < j < |s| + 1 ensures (s + [f])[i] != (s + [f])[j] {
      if j == |s| {
        assert (s + [f])[i] == s[i];
      }
    }
  }

  lemma KeptSnoc(lines: seq<EchoLine>, i: int, filter: Option<set<string>>, fixed: set<string>)
    requires 0 <= i < |lines|
    ensures Kept(lines[..i + 1], filter, fixed) ==
      Kept(lines[..i], filter, fixed) + (match Shown(lines[i], filter, fixed) case Some(f) => [f] case None => [])
  {
    assert lines[..i + 1][..i] == lines[..i];
  }

  lemma MaxWidthSnoc(s: seq<FormatLine>, f: FormatLine, width: FormatLine -> nat)
    ensures MaxWidth(s + [f], width) == if width(f) > MaxWidth(s, width) then width(f) else MaxWidth(s, width)
  {
    assert (s + [f])[..|s|] == s;
  }

  /** `sorted(format_lines, key=...)` over a duplicate-free list. */
  method SortLines(xs: seq<FormatLine>) returns (r: seq<FormatLine>)
    requires Dicts.Distinct(xs)
    ensures Sorted(r) && multiset(r) == multiset(xs)
    ensures Dicts.Distinct(r) && forall l :: l in r <==> l in xs
  {
    r := [];
    for i := 0 to |xs|
      invariant Sorted(r) && multiset(r) == multiset(xs[..i])
    {
      assert xs[..i + 1] == xs[..i] + [xs[i]];
      InsertSorted(r, xs[i]);
      r := Insert(r, xs[i]);
    }
    assert xs[..|xs|] == xs;
    DistinctMultiset(xs, r);
  }

  /** A list with the same elements, as often, as a duplicate-free one is duplicate-free. */
  lemma DistinctMultiset(xs: seq<FormatLine>, r: seq<FormatLine>)
    requires Dicts.Distinct(xs) && multiset(r) == multiset(xs)
    ensures Dicts.Distinct(r) && forall l :: l in r <==> l in xs
  {
    forall l ensures l in r <==> l in xs {
      assert l in r <==> l in multiset(r);
      assert l in xs <==> l in multiset(xs);
    }
    forall i, j | 0 <= i < j < |r| ensures r[i] != r[j] {
      if r[i] == r[j] {
        var x := r[i];
        assert multiset(r)[x] >= 2 by {
          var rest := r[..i] + r[i + 1..];
          assert r == r[..i] + [r[i]] + r[i + 1..];
          assert x in rest by { assert rest[j - 1] == r[j]; }
          assert multiset(r) == multiset(rest) + multiset{x};
        }
        DistinctCount(xs, x);
      }
    }
  }

  lemma {:induction false} DistinctCount(xs: seq<FormatLine>, x: FormatLine)
    requires Dicts.Distinct(xs)
    ensures multiset(xs)[x] <= 1
  {
    if xs != [] {
      var n := |xs| - 1;
      assert xs == xs[..n] + [xs[n]];
      assert Dicts.Distinct(xs[..n]);
      DistinctCount(xs[..n], x);
      if xs[n] == x {
        assert x !in xs[..n];
        assert multiset(xs[..n])[x] == 0;
      }
    }
  }

  /**
   * A formatted line is kept exactly when some echo line passes the CVE
   * filter, is not fixed, and formats to it.
   */
  lemma KeptMembers(lines: seq<EchoLine>, filter: Option<set<string>>, fixed: set<string>, f: FormatLine)
    ensures f in Kept(lines, filter, fixed) <==>
      exists i :: 0 <= i < |lines| && Shown(lines[i], filter, fixed) == Some(f)
    ensures f in Kept(lines, filter, fixed) ==>
      f.cveId !in fixed && (filter.Some? ==> f.cveId in filter.value)
  {
    var kept := Kept(lines, filter, fixed);
    var idx := Seqs.FilterMapIndices(lines, l => Shown(l, filter, fixed));
    if f in kept {
      var k :| 0 <= k < |kept| && kept[k] == f;
      assert Shown(lines[idx[k]], filter, fixed) == Some(f);
    }
    if i :| 0 <= i < |lines| && Shown(lines[i], filter, fixed) == Some(f) {
      assert i in idx;
      var k :| 0 <= k < |idx| && idx[k] == i;
      assert kept[k] == f;
    }
  }

  /**
   * `get_formatting_parameters_and_display_lines`: the echo lines are built
   * from the listing and the hotpatch data, then filtered and formatted.
   * Every displayed line names a listed or hotpatch-data CVE that passes the
   * filter and is not fixed.
   */
  method Display(entries: seq<Entry>, table: Dicts.Dict<string, seq<HpView>>, filter: Option<set<string>>)
    returns (d: DisplayItem)
    ensures var (lines, fixed) := BuildLines(entries, table);
      && d.idw == MaxWidth(Kept(lines, filter, fixed), IdWidth)
      && d.tiw == MaxWidth(Kept(lines, filter, fixed), TypeWidth)
      && d.ciw == MaxWidth(Kept(lines, filter, fixed), ColdWidth)
      && Sorted(d.lines) && Dicts.Distinct(d.lines)
      && (forall l :: l in d.lines <==> l in Kept(lines, filter, fixed))
      && forall l :: l in d.lines ==>
           && l.cveId !in fixed
           && (filter.Some? ==> l.cveId in filter.value)
           && (l.cveId in Iterated(entries) || l.cveId in Dicts.Keys(table))
  {
    var lines, fixed, iterated := ListedLines(entries, table);
    var only := Seqs.Filter(Dicts.Keys(table), c => c !in iterated, true);
    lines, fixed := HpOnlyLines(lines, fixed, only, table);
    d := FilterAndFormat(lines, fixed, filter);
    BuildLinesFrom(entries, table);
    forall l | l in d.lines
      ensures l.cveId !in fixed && (filter.Some? ==> l.cveId in filter.value)
      ensures l.cveId in Iterated(entries) || l.cveId in Dicts.Keys(table)
    {
      KeptMembers(lines, filter, fixed, l);
      var i :| 0 <= i < |lines| && Shown(lines[i], filter, fixed) == Some(l);
      assert lines[i].cveId == l.cveId;
    }
  }
}
