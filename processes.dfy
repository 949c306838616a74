/**
 * MemoryAnalyzer.get_processes (wamr.py): the process record, the two readers
 * of `ps` tables (macOS `ps -ax -m -o pid,user,rss,command` and Linux
 * `ps aux --sort=-rss`), the stable sort by resident memory, and the demo list
 * used when no table can be read.
 */
module Processes {
  import opened Wrappers
  import opened PyText
  import opened Host

  /** ProcessInfo: one process; rssMb is its resident memory in MB */
  datatype ProcessInfo = ProcessInfo(pid: int, name: string, user: string, rssMb: real, cmd: string)

  /** commands are stored cut to their first 100 characters */
  const CmdLimit: nat := 100

  /** processes below this resident size (MB) are dropped by the macOS reader */
  const NoiseFloorMb: real := 1.0

  /** cmd[:100] */
  function DisplayCommand(cmd: string): (shown: string)
    ensures |shown| == Min(CmdLimit, |cmd|) && shown == cmd[..|shown|]
  {
    SliceTo(cmd, CmdLimit)
  }

  /**
   * Path(cmd.split()[0]).name if cmd else 'unknown': the last path component
   * of the first word; None stands for the IndexError of a command made only
   * of whitespace.
   */
  function ProcessName(cmd: string): (name: Option<string>)
    ensures StartsSolid(cmd) ==> name == Some(Basename(TakeWord(cmd)))
  {
    if cmd == [] then Some("unknown")
    else
      var words := Words(cmd);
      if words == [] then None else Some(Basename(words[0]))
  }

  /**
   * The name rule both readers follow: the stored command is non-empty, starts
   * with a non-blank and has at most 100 characters, and the name is the last
   * path component of its first word whenever that word ends inside the stored
   * command or the command was not cut.
   */
  predicate WellNamed(p: ProcessInfo) {
    && StartsSolid(p.cmd)
    && |p.cmd| <= CmdLimit
    && (|TakeWord(p.cmd)| < |p.cmd| || |p.cmd| < CmdLimit ==> p.name == Basename(TakeWord(p.cmd)))
  }

  /** The first word of a cut string is the first word of the whole when it ends before the cut. */
  lemma {:induction false} TakeWordOfPrefix(s: string, n: nat)
    requires n <= |s|
    requires |TakeWord(s[..n])| < n
    ensures TakeWord(s[..n]) == TakeWord(s)
  {
    if IsSpace(s[0]) {
      assert s[..n][0] == s[0];
    } else {
      assert s[..n][0] == s[0];
      assert s[..n][1..] == s[1..][..n - 1];
      TakeWordOfPrefix(s[1..], n - 1);
    }
  }

  /** A record built from a command that starts with a non-blank follows the name rule. */
  lemma RecordWellNamed(pid: int, user: string, rssMb: real, cmd: string)
    requires StartsSolid(cmd)
    ensures ProcessName(cmd).Some?
    ensures WellNamed(ProcessInfo(pid, ProcessName(cmd).value, user, rssMb, DisplayCommand(cmd)))
  {
    var shown := DisplayCommand(cmd);
    assert shown[0] == cmd[0];
    if |TakeWord(shown)| < |shown| || |shown| < CmdLimit {
      if |cmd| > CmdLimit {
        TakeWordOfPrefix(cmd, CmdLimit);
      } else {
        assert shown == cmd;
      }
    }
  }

  /** the data rows of a `ps` table: every output line after the header */
  function TableRows(stdout: string): seq<string> {
    OutputLines(stdout)[1..]
  }

  // ---------------------------------------------------------------------------
  // macOS

  /**
   * One row of the macOS table, split into at most four fields; None for a
   * row the loop skips: fewer than four fields, a pid or rss that does not
   * parse, or a process under 1 MB.
   */
  function MacRow(line: string): Option<ProcessInfo> {
    var parts := SplitWs(line, 3);
    if |parts| < 4 then None
    else
      var pid := ParseInt(parts[0]);
      var rssKb := ParseFloat(parts[2]);
      if pid.None? || rssKb.None? || rssKb.value / KbPerMb < NoiseFloorMb then None
      else
        var name := ProcessName(parts[3]);
        if name.None? then None
        else Some(ProcessInfo(pid.value, name.value, parts[1], rssKb.value / KbPerMb, DisplayCommand(parts[3])))
  }

  /**
   * A macOS row is kept exactly when it has four fields whose pid and rss
   * parse and whose rss is at least 1024 kB (1.0 MB is kept); the record then
   * follows the name rule.
   */
  lemma MacRowKept(line: string)
    ensures var parts := SplitWs(line, 3);
            MacRow(line).Some? <==>
              && |parts| == 4
              && ParseInt(parts[0]).Some?
              && ParseFloat(parts[2]).Some?
              && ParseFloat(parts[2]).value >= 1024.0
    ensures MacRow(line).Some? ==>
              var p := MacRow(line).value;
              && p.rssMb >= NoiseFloorMb
              && p.rssMb * KbPerMb == ParseFloat(SplitWs(line, 3)[2]).value
              && p.pid == ParseInt(SplitWs(line, 3)[0]).value
              && p.user == SplitWs(line, 3)[1]
              && p.cmd == DisplayCommand(SplitWs(line, 3)[3])
              && p.name == Basename(TakeWord(SplitWs(line, 3)[3]))
              && WellNamed(p)
  {
    var parts := SplitWs(line, 3);
    SplitWsPieces(line, 3);
    if |parts| == 4 && ParseInt(parts[0]).Some? && ParseFloat(parts[2]).Some? {
      assert StartsSolid(parts[3]);
      RecordWellNamed(ParseInt(parts[0]).value, parts[1], ParseFloat(parts[2]).value / KbPerMb, parts[3]);
    }
  }

  /**
   * A macOS row as `ps -o pid,user,rss,command` prints it (the four columns,
   * each after its run of alignment blanks) reads back as its pid, user, size
   * in MB and command, the name being the last path component of the
   * command's first word; it is dropped exactly when the size is under 1024 kB.
   */
  lemma MacRowRoundTrip(pads: seq<string>, pid: int, user: string, rssKb: nat, cmd: string)
    requires |pads| == 4 && Gaps(pads)
    requires StartsSolid(user) && NoSpace(user)
    requires StartsSolid(cmd)
    ensures MacRow(Padded(pads, [IntToDecimal(pid), user, IntToDecimal(rssKb), cmd])) ==
            if rssKb >= 1024 then Some(ProcessInfo(pid, Basename(TakeWord(cmd)), user, rssKb as real / KbPerMb, DisplayCommand(cmd)))
            else None
  {
    var ws := [IntToDecimal(pid), user, IntToDecimal(rssKb)];
    IntToDecimalWord(pid);
    IntToDecimalWord(rssKb);
    SplitWsPadded(pads, ws, cmd);
    assert ws + [cmd] == [IntToDecimal(pid), user, IntToDecimal(rssKb), cmd];
    ParseIntOfDecimal(pid);
    ParseFloatOfNatural(rssKb);
  }

  /** the processes the macOS loop collects from the given rows, in row order */
  function MacCandidates(lines: seq<string>): seq<ProcessInfo>
    decreases |lines|
  {
    if lines == [] then []
    else
      var init := MacCandidates(lines[..|lines| - 1]);
      match MacRow(lines[|lines| - 1])
      case None => init
      case Some(p) => init + [p]
  }

  /** Collecting one more row appends that row's process, if it has one. */
  lemma MacCandidatesSnoc(lines: seq<string>, line: string)
    ensures MacCandidates(lines + [line]) ==
            MacCandidates(lines) + (if MacRow(line).Some? then [MacRow(line).value] else [])
  {
    assert (lines + [line])[..|lines|] == lines;
  }

  /** Every collected process is at least 1 MB and follows the name rule; there are at most as many as rows. */
  lemma {:induction false} MacCandidatesShape(lines: seq<string>)
    ensures |MacCandidates(lines)| <= |lines|
    ensures forall p | p in MacCandidates(lines) :: p.rssMb >= NoiseFloorMb && WellNamed(p)
    decreases |lines|
  {
    if lines != [] {
      MacCandidatesShape(lines[..|lines| - 1]);
      var row := MacRow(lines[|lines| - 1]);
      assert row.Some? ==> row.value.rssMb >= NoiseFloorMb && WellNamed(row.value) by {
        MacRowKept(lines[|lines| - 1]);
      }
    }
  }

  /** resident sizes never increase along the sequence */
  predicate SortedByRss(s: seq<ProcessInfo>) {
    forall i, j | 0 <= i < j < |s| :: s[i].rssMb >= s[j].rssMb
  }

  /** inserts p before the first element that is not larger than it */
  function InsertByRss(p: ProcessInfo, s: seq<ProcessInfo>): (r: seq<ProcessInfo>)
    ensures multiset(r) == multiset(s) + multiset{p}
  {
    if s == [] || p.rssMb >= s[0].rssMb then [p] + s
    else
      assert s == [s[0]] + s[1..];
      [s[0]] + InsertByRss(p, s[1..])
  }

  lemma {:induction false} InsertByRssSorted(p: ProcessInfo, s: seq<ProcessInfo>)
    requires SortedByRss(s)
    ensures SortedByRss(InsertByRss(p, s))
  {
    if s == [] || p.rssMb >= s[0].rssMb {
      SortedCons(p, s);
    } else {
      var rest := InsertByRss(p, s[1..]);
      InsertByRssSorted(p, s[1..]);
      forall x | x in rest ensures x.rssMb <= s[0].rssMb {
        assert x in multiset(rest);
        if x != p {
          assert x in multiset(s[1..]);
          assert x in s[1..];
        }
      }
      SortedCons(s[0], rest);
    }
  }

  /** Putting in front an element at least as large as everything else keeps the order. */
  lemma SortedCons(x: ProcessInfo, s: seq<ProcessInfo>)
    requires SortedByRss(s)
    requires forall y | y in s :: y.rssMb <= x.rssMb
    ensures SortedByRss([x] + s)
  {
    var r := [x] + s;
    forall i, j | 0 <= i < j < |r| ensures r[i].rssMb >= r[j].rssMb {
      assert r[j] == s[j - 1];
      if i > 0 {
        assert r[i] == s[i - 1];
      }
    }
  }

  /**
   * processes.sort(key=rss_mb, reverse=True): a stable insertion sort, largest
   * first; processes with equal sizes keep their order.
   */
  function SortByRss(s: seq<ProcessInfo>): (r: seq<ProcessInfo>)
    ensures multiset(r) == multiset(s) && |r| == |s|
  {
    if s == [] then []
    else
      assert s == [s[0]] + s[1..];
      InsertByRss(s[0], SortByRss(s[1..]))
  }

  lemma {:induction false} SortByRssSorted(s: seq<ProcessInfo>)
    ensures SortedByRss(SortByRss(s))
  {
    if s != [] {
      SortByRssSorted(s[1..]);
      InsertByRssSorted(s[0], SortByRss(s[1..]));
    }
  }

  /** the processes of s whose resident size is exactly v, in order */
  function WithRss(s: seq<ProcessInfo>, v: real): seq<ProcessInfo> {
    if s == [] then []
    else (if s[0].rssMb == v then [s[0]] else []) + WithRss(s[1..], v)
  }

  lemma {:induction false} InsertByRssStable(p: ProcessInfo, s: seq<ProcessInfo>, v: real)
    ensures WithRss(InsertByRss(p, s), v) == (if p.rssMb == v then [p] else []) + WithRss(s, v)
  {
    if s == [] || p.rssMb >= s[0].rssMb {
      assert ([p] + s)[1..] == s;
    } else {
      var rest := InsertByRss(p, s[1..]);
      assert ([s[0]] + rest)[1..] == rest;
      InsertByRssStable(p, s[1..], v);
      assert s[0].rssMb == v ==> p.rssMb != v;
    }
  }

  /** The sort is stable: for every size, the processes of that size keep their relative order. */
  lemma {:induction false} SortByRssStable(s: seq<ProcessInfo>, v: real)
    ensures WithRss(SortByRss(s), v) == WithRss(s, v)
  {
    if s != [] {
      SortByRssStable(s[1..], v);
      InsertByRssStable(s[0], SortByRss(s[1..]), v);
    }
  }

  /**
   * The macOS reader: the first 2*top_n data rows, kept as MacRow says, sorted
   * by resident size, cut to top_n (all slices with Python's negative-index
   * meaning).
   */
  function MacProcesses(stdout: string, topN: int): seq<ProcessInfo> {
    SliceTo(SortByRss(MacCandidates(SliceTo(TableRows(stdout), topN * 2))), topN)
  }

  /**
   * The macOS result holds the largest collected processes: it is sorted
   * largest first, has at most top_n entries, is drawn from the collected
   * rows, no left-out row is larger than a kept one, every entry is at least
   * 1 MB and follows the name rule.
   */
  lemma MacProcessesTop(stdout: string, topN: int)
    ensures var c := MacCandidates(SliceTo(TableRows(stdout), topN * 2));
            var r := MacProcesses(stdout, topN);
            && SortedByRss(r)
            && (topN >= 0 ==> |r| <= topN)
            && multiset(r) <= multiset(c)
            && (forall p, q | p in r && q in multiset(c) - multiset(r) :: p.rssMb >= q.rssMb)
            && (forall p | p in r :: p.rssMb >= NoiseFloorMb && WellNamed(p))
  {
    var c := MacCandidates(SliceTo(TableRows(stdout), topN * 2));
    var sorted := SortByRss(c);
    var r := MacProcesses(stdout, topN);
    SortByRssSorted(c);
    MacCandidatesShape(SliceTo(TableRows(stdout), topN * 2));
    SortedPrefixTop(sorted, |r|);
    assert r == sorted[..|r|];
    forall p | p in r ensures p.rssMb >= NoiseFloorMb && WellNamed(p) {
      assert p in multiset(c);
    }
  }

  /** A prefix of a sorted sequence is sorted, and none of what it leaves out is larger than what it keeps. */
  lemma SortedPrefixTop(s: seq<ProcessInfo>, k: nat)
    requires SortedByRss(s) && k <= |s|
    ensures SortedByRss(s[..k])
    ensures multiset(s[..k]) <= multiset(s)
    ensures forall p, q | p in s[..k] && q in multiset(s) - multiset(s[..k]) :: p.rssMb >= q.rssMb
  {
    var r := s[..k];
    var rest := s[k..];
    SplitMultiset(s, k);
    forall p: ProcessInfo, q: ProcessInfo | p in r && q in multiset(rest) ensures p.rssMb >= q.rssMb {
      PrefixDominates(s, k, p, q);
    }
  }

  lemma PrefixDominates(s: seq<ProcessInfo>, k: nat, p: ProcessInfo, q: ProcessInfo)
    requires SortedByRss(s) && k <= |s|
    requires p in s[..k] && q in multiset(s[k..])
    ensures p.rssMb >= q.rssMb
  {
    var i :| 0 <= i < k && s[..k][i] == p;
    assert q in s[k..];
    var j :| 0 <= j < |s| - k && s[k..][j] == q;
    assert s[i] == p && s[k + j] == q;
  }

  /** What a prefix leaves out of a sequence is its suffix. */
  lemma SplitMultiset(s: seq<ProcessInfo>, k: nat)
    requires k <= |s|
    ensures multiset(s) - multiset(s[..k]) == multiset(s[k..])
    ensures multiset(s[..k]) <= multiset(s)
  {
    assert s == s[..k] + s[k..];
  }

  /** The loop of get_processes on macOS, followed by the sort and the cut to top_n. */
  method ReadMacProcesses(stdout: string, topN: int) returns (ps: seq<ProcessInfo>)
    ensures ps == MacProcesses(stdout, topN)
  {
    var lines := SliceTo(TableRows(stdout), topN * 2);
    var processes: seq<ProcessInfo> := [];
    var i := 0;
    while i < |lines|
      invariant 0 <= i <= |lines|
      invariant processes == MacCandidates(lines[..i])
    {
      var row := MacRow(lines[i]);
      assert lines[..i + 1] == lines[..i] + [lines[i]];
      MacCandidatesSnoc(lines[..i], lines[i]);
      if row.Some? {
        processes := processes + [row.value];
      }
      i := i + 1;
    }
    assert lines[..i] == lines;
    ps := SliceTo(SortByRss(processes), topN);
  }

  // ---------------------------------------------------------------------------
  // Linux

  /** how the Linux loop treats one row: skipped, raising, or a process */
  datatype LinuxRow = ShortRow | BadRow | Row(p: ProcessInfo)

  /**
   * One row of `ps aux`, split into at most eleven fields: user, pid, ..., rss
   * in the sixth field, the command in the eleventh. A row with fewer fields
   * is skipped; a pid or rss that does not parse raises.
   */
  function ParseLinuxRow(line: string): LinuxRow {
    LinuxFields(SplitWs(line, 10))
  }

  /** the decision on a row once it is split into its fields */
  function LinuxFields(parts: seq<string>): LinuxRow {
    if |parts| < 11 then ShortRow
    else
      var pid := ParseInt(parts[1]);
      var rssKb := ParseFloat(parts[5]);
      if pid.None? || rssKb.None? then BadRow
      else
        var name := ProcessName(parts[10]);
        if name.None? then BadRow
        else Row(ProcessInfo(pid.value, name.value, parts[0], rssKb.value / KbPerMb, DisplayCommand(parts[10])))
  }

  /**
   * A Linux row is skipped exactly when it has fewer than eleven fields and
   * raises exactly when its pid or rss does not parse; a process read from it
   * has that pid, user and rss and follows the name rule. There is no size
   * filter.
   */
  lemma LinuxRowShape(line: string)
    ensures var parts := SplitWs(line, 10);
            && (ParseLinuxRow(line).ShortRow? <==> |parts| < 11)
            && (ParseLinuxRow(line).BadRow? <==>
                  |parts| == 11 && (ParseInt(parts[1]).None? || ParseFloat(parts[5]).None?))
    ensures ParseLinuxRow(line).Row? ==>
              var p := ParseLinuxRow(line).p;
              && p.pid == ParseInt(SplitWs(line, 10)[1]).value
              && p.user == SplitWs(line, 10)[0]
              && p.rssMb * KbPerMb == ParseFloat(SplitWs(line, 10)[5]).value
              && p.cmd == DisplayCommand(SplitWs(line, 10)[10])
              && p.name == Basename(TakeWord(SplitWs(line, 10)[10]))
              && WellNamed(p)
  {
    var parts := SplitWs(line, 10);
    SplitWsPieces(line, 10);
    if |parts| == 11 && ParseInt(parts[1]).Some? && ParseFloat(parts[5]).Some? {
      assert StartsSolid(parts[10]);
      RecordWellNamed(ParseInt(parts[1]).value, parts[0], ParseFloat(parts[5]).value / KbPerMb, parts[10]);
    }
  }

  /**
   * A row as `ps aux` prints it (ten columns, the first the user, the second
   * the pid and the sixth the rss in kB, then the command, each column after
   * its run of alignment blanks) reads back as that pid, the first column as
   * user, the size in MB and the command, whatever the other columns hold.
   */
  lemma LinuxRowRoundTrip(pads: seq<string>, columns: seq<string>, pid: int, rssKb: nat, cmd: string)
    requires |pads| == 11 && Gaps(pads)
    requires |columns| == 10 && AllWords(columns)
    requires columns[1] == IntToDecimal(pid) && columns[5] == IntToDecimal(rssKb)
    requires StartsSolid(cmd)
    ensures ParseLinuxRow(Padded(pads, columns + [cmd])) ==
            Row(ProcessInfo(pid, Basename(TakeWord(cmd)), columns[0], rssKb as real / KbPerMb, DisplayCommand(cmd)))
  {
    SplitWsPadded(pads, columns, cmd);
    ParseIntOfDecimal(pid);
    ParseFloatOfNatural(rssKb);
    LinuxRowOfFields(columns + [cmd], pid, rssKb as real);
  }

  /** a row whose eleven fields give a pid and an rss is read as the process they describe */
  lemma LinuxRowOfFields(parts: seq<string>, pid: int, rssKb: real)
    requires |parts| == 11
    requires ParseInt(parts[1]) == Some(pid) && ParseFloat(parts[5]) == Some(rssKb)
    requires StartsSolid(parts[10])
    ensures LinuxFields(parts) ==
            Row(ProcessInfo(pid, Basename(TakeWord(parts[10])), parts[0], rssKb / KbPerMb, DisplayCommand(parts[10])))
  {
    var name := ProcessName(parts[10]);
    assert name == Some(Basename(TakeWord(parts[10])));
  }

  /** the parsed form of every row */
  function LinuxRowsOf(lines: seq<string>): (rows: seq<LinuxRow>)
    ensures |rows| == |lines|
    ensures forall i | 0 <= i < |lines| :: rows[i] == ParseLinuxRow(lines[i])
  {
    seq(|lines|, i requires 0 <= i < |lines| => ParseLinuxRow(lines[i]))
  }

  /** the list the Linux loop builds, or None when a row raised */
  function LinuxList(rows: seq<LinuxRow>): Option<seq<ProcessInfo>>
    decreases |rows|
  {
    if rows == [] then Some([])
    else
      match LinuxList(rows[..|rows| - 1])
      case None => None
      case Some(ps) =>
        match rows[|rows| - 1]
        case ShortRow => Some(ps)
        case BadRow => None
        case Row(p) => Some(ps + [p])
  }

  /**
   * The Linux list is built row by row in order: the list of a concatenation
   * is the concatenation of the lists, and it fails when either part fails.
   */
  lemma {:induction false} LinuxListAppend(a: seq<LinuxRow>, b: seq<LinuxRow>)
    ensures LinuxList(a + b) ==
            if LinuxList(a).Some? && LinuxList(b).Some?
            then Some(LinuxList(a).value + LinuxList(b).value)
            else None
    decreases |b|
  {
    if b == [] {
      assert a + b == a;
      if LinuxList(a).Some? {
        assert LinuxList(a).value + LinuxList(b).value == LinuxList(a).value;
      }
    } else {
      var n := |b| - 1;
      assert (a + b)[..|a + b| - 1] == a + b[..n];
      assert (a + b)[|a + b| - 1] == b[n];
      LinuxListAppend(a, b[..n]);
      if LinuxList(a).Some? && LinuxList(b[..n]).Some? && b[n].Row? {
        assert LinuxList(a).value + LinuxList(b[..n]).value + [b[n].p]
            == LinuxList(a).value + (LinuxList(b[..n]).value + [b[n].p]);
      }
    }
  }

  /** The read fails exactly when some row raises; otherwise it has at most one process per row. */
  lemma {:induction false} LinuxListFails(rows: seq<LinuxRow>)
    ensures LinuxList(rows).None? <==> exists i | 0 <= i < |rows| :: rows[i].BadRow?
    ensures LinuxList(rows).Some? ==> |LinuxList(rows).value| <= |rows|
    decreases |rows|
  {
    if rows != [] {
      var init := rows[..|rows| - 1];
      LinuxListFails(init);
      if exists i | 0 <= i < |init| :: init[i].BadRow? {
        var i :| 0 <= i < |init| && init[i].BadRow?;
        assert rows[i] == init[i];
      }
      if exists i | 0 <= i < |rows| :: rows[i].BadRow? {
        var i :| 0 <= i < |rows| && rows[i].BadRow?;
        if i < |init| {
          assert init[i] == rows[i];
        }
      }
    }
  }

  /** The Linux reader: the first top_n data rows, in table order and unsorted; None when a row raised. */
  function LinuxProcesses(stdout: string, topN: int): Option<seq<ProcessInfo>> {
    LinuxList(LinuxRowsOf(SliceTo(TableRows(stdout), topN)))
  }

  /**
   * A successful Linux read has at most top_n processes, each following the
   * name rule.
   */
  lemma LinuxProcessesBound(stdout: string, topN: int)
    requires LinuxProcesses(stdout, topN).Some?
    ensures topN >= 0 ==> |LinuxProcesses(stdout, topN).value| <= topN
    ensures forall p | p in LinuxProcesses(stdout, topN).value :: WellNamed(p)
  {
    var lines := SliceTo(TableRows(stdout), topN);
    var rows := LinuxRowsOf(lines);
    LinuxListFails(rows);
    forall i | 0 <= i < |rows| ensures rows[i].Row? ==> WellNamed(rows[i].p) {
      LinuxRowShape(lines[i]);
    }
    LinuxListNamed(rows);
  }

  lemma {:induction false} LinuxListNamed(rows: seq<LinuxRow>)
    requires forall i | 0 <= i < |rows| :: rows[i].Row? ==> WellNamed(rows[i].p)
    requires LinuxList(rows).Some?
    ensures forall p | p in LinuxList(rows).value :: WellNamed(p)
    decreases |rows|
  {
    if rows != [] {
      LinuxListNamed(rows[..|rows| - 1]);
    }
  }

  /** The loop of get_processes on Linux; None when a row raised. */
  method ReadLinuxProcesses(stdout: string, topN: int) returns (ps: Option<seq<ProcessInfo>>)
    ensures ps == LinuxProcesses(stdout, topN)
  {
    var lines := SliceTo(TableRows(stdout), topN);
    ghost var rows := LinuxRowsOf(lines);
    LinuxListFails(rows);
    var processes: seq<ProcessInfo> := [];
    var i := 0;
    while i < |lines|
      invariant 0 <= i <= |lines|
      invariant LinuxList(rows[..i]) == Some(processes)
    {
      assert rows[..i + 1][..i] == rows[..i];
      var row := ParseLinuxRow(lines[i]);
      assert row == rows[i];
      match row {
        case ShortRow =>
        case BadRow =>
          return None;
        case Row(p) =>
          processes := processes + [p];
      }
      i := i + 1;
    }
    assert rows[..i] == rows;
    return Some(processes);
  }

  // ---------------------------------------------------------------------------
  // demo list and the whole of get_processes

  /**
   * The demo list returned when no table could be read. It is not sorted by
   * size, and its "postgres: main" entry does not follow the name rule.
   */
  function MockProcesses(): (ps: seq<ProcessInfo>)
    ensures |ps| == 8
    ensures !SortedByRss(ps)
  {
    var ps := [
      ProcessInfo(12091, "chrome", "username", 3276.8, "/usr/bin/chrome --type=renderer"),
      ProcessInfo(8432, "docker-compose", "username", 2150.4, "docker-compose up"),
      ProcessInfo(15678, "code", "username", 1024.5, "/usr/share/code/code"),
      ProcessInfo(14233, "node", "username", 1482.3, "node server.js"),
      ProcessInfo(9876, "ollama", "username", 1150.0, "ollama serve"),
      ProcessInfo(7654, "slack", "username", 856.2, "/usr/bin/slack"),
      ProcessInfo(3421, "postgres", "username", 642.8, "postgres: main"),
      ProcessInfo(5234, "redis-server", "username", 324.5, "redis-server *:6379")
    ];
    assert ps[2].rssMb < ps[3].rssMb;
    ps
  }

  /**
   * get_processes: on Darwin the macOS reader unless `ps` failed; otherwise
   * (or then) the Linux reader; the demo list when the Linux `ps` failed or a
   * row raised.
   */
  function ProcessList(system: string, macPs: CommandResult, linuxPs: CommandResult, topN: int): (ps: seq<ProcessInfo>)
    ensures system == Darwin && macPs.Completed? ==> ps == MacProcesses(macPs.stdout, topN)
    ensures system == Darwin && macPs.Completed? ==>
              SortedByRss(ps) && (topN >= 0 ==> |ps| <= topN) && forall p | p in ps :: p.rssMb >= NoiseFloorMb && WellNamed(p)
    ensures !(system == Darwin && macPs.Completed?) && linuxPs.Completed? && LinuxProcesses(linuxPs.stdout, topN).Some? ==>
              ps == LinuxProcesses(linuxPs.stdout, topN).value
    ensures !(system == Darwin && macPs.Completed?) && linuxPs.Completed? && LinuxProcesses(linuxPs.stdout, topN).Some? ==>
              (topN >= 0 ==> |ps| <= topN) && forall p | p in ps :: WellNamed(p)
    ensures !(system == Darwin && macPs.Completed?) && (linuxPs.CommandFailed? || LinuxProcesses(linuxPs.stdout, topN).None?) ==>
              ps == MockProcesses()
  {
    if system == Darwin && macPs.Completed? then
      MacProcessesTop(macPs.stdout, topN);
      MacProcesses(macPs.stdout, topN)
    else
      match linuxPs
      case CommandFailed => MockProcesses()
      case Completed(out) =>
        match LinuxProcesses(out, topN)
        case None => MockProcesses()
        case Some(ps) =>
          LinuxProcessesBound(out, topN);
          ps
  }
}
