/**
 * The presentation rules of wamr.py: format_bytes, the status band of the
 * memory overview, and print_analysis, rendered here as the list of
 * sections it prints with their contents instead of as text.
 */
module Report {
  import opened Wrappers
  import opened Memory

  /** format_bytes: a size in MB shown either in MB or in GB */
  datatype Size = Megabytes(mb: real) | Gigabytes(gb: real)

  /**
   * Sizes below 1024 MB stay in MB; from 1024 MB on they are shown in GB, so
   * 1024.0 becomes 1.0 GB while 1023.9 stays in MB.
   */
  function FormatBytes(mb: real): (s: Size)
    ensures s.Megabytes? <==> mb < 1024.0
    ensures s.Megabytes? ==> s.mb == mb
    ensures s.Gigabytes? ==> s.gb * 1024.0 == mb && s.gb >= 1.0
  {
    if mb < 1024.0 then Megabytes(mb) else Gigabytes(mb / 1024.0)
  }

  /** The size shown always stands for the size given: it is the same amount of memory. */
  lemma FormatBytesInjective(x: real, y: real)
    requires FormatBytes(x) == FormatBytes(y)
    ensures x == y
  {
  }

  /** the headline status of the memory overview */
  datatype Status = Critical | Warning | Healthy

  /** the thresholds, in percent of memory used */
  const CriticalPercent: real := 80.0
  const WarningPercent: real := 60.0

  /** CRITICAL from 80% on, WARNING from 60% on, HEALTHY below */
  function StatusBand(usedPercent: real): (s: Status)
    ensures s == Critical <==> usedPercent >= CriticalPercent
    ensures s == Warning <==> WarningPercent <= usedPercent < CriticalPercent
    ensures s == Healthy <==> usedPercent < WarningPercent
  {
    if usedPercent >= CriticalPercent then Critical
    else if usedPercent >= WarningPercent then Warning
    else Healthy
  }

  /** how alarming a status is */
  function Severity(s: Status): nat {
    match s
    case Healthy => 0
    case Warning => 1
    case Critical => 2
  }

  /** More memory in use never gives a milder status. */
  lemma StatusBandMonotone(p: real, q: real)
    requires p <= q
    ensures Severity(StatusBand(p)) <= Severity(StatusBand(q))
  {
  }

  /**
   * One entry of a priority list in the classifier's JSON reply; every key
   * may be missing. The pid key is not shown by print_analysis.
   */
  datatype Item = Item(
    process: Option<string>,
    memoryMb: Option<real>,
    reason: Option<string>,
    action: Option<string>,
    command: Option<string>)

  /** the classifier's JSON reply; every key may be missing */
  datatype Analysis = Analysis(
    summary: Option<string>,
    highPriority: Option<seq<Item>>,
    mediumPriority: Option<seq<Item>>,
    safeToIgnore: Option<seq<Item>>,
    totalReclaimableMb: Option<real>)

  /** a detailed entry as printed: name, size, reason, action and, when there is one, the command */
  datatype ItemView = ItemView(process: string, memory: Size, reason: string, action: string, command: Option<string>)

  /** a one-line entry of the safe-to-ignore list */
  datatype BriefView = BriefView(process: string, memory: Size, reason: string)

  /** what print_analysis prints, block by block */
  datatype Section =
    | Overview(status: Status, usedPercent: real, used: Size, total: Size)
    | Summary(text: string)
    | HighPriority(items: seq<ItemView>)
    | MediumPriority(items: seq<ItemView>)
    | SafeToIgnore(brief: seq<BriefView>)
    | Reclaimable(amount: Size)

  /** the position of each kind of block in the printout */
  function Rank(s: Section): nat {
    match s
    case Overview(_, _, _, _) => 0
    case Summary(_) => 1
    case HighPriority(_) => 2
    case MediumPriority(_) => 3
    case SafeToIgnore(_) => 4
    case Reclaimable(_) => 5
  }

  const UnknownProcess: string := "Unknown"
  const NotAvailable: string := "N/A"
  const NoSummary: string := "No summary available"

  /** a command is printed only when present and non-empty */
  function ShownCommand(command: Option<string>): (shown: Option<string>)
    ensures shown.Some? <==> command.Some? && command.value != []
    ensures shown.Some? ==> shown == command
  {
    if command.Some? && command.value != [] then command else None
  }

  /**
   * A detailed entry: each present key is shown as given (the size formatted),
   * a missing process as "Unknown", a missing size as 0.0 MB, a missing reason
   * or action as "N/A", and the command only when present and non-empty.
   */
  function View(item: Item): (v: ItemView)
    ensures item.process.Some? ==> v.process == item.process.value
    ensures item.process.None? ==> v.process == UnknownProcess
    ensures item.memoryMb.Some? ==> v.memory == FormatBytes(item.memoryMb.value)
    ensures item.memoryMb.None? ==> v.memory == Megabytes(0.0)
    ensures item.reason.Some? ==> v.reason == item.reason.value
    ensures item.reason.None? ==> v.reason == NotAvailable
    ensures item.action.Some? ==> v.action == item.action.value
    ensures item.action.None? ==> v.action == NotAvailable
    ensures v.command.Some? <==> item.command.Some? && item.command.value != []
    ensures v.command.Some? ==> v.command == item.command
  {
    ItemView(item.process.GetOr(UnknownProcess), FormatBytes(item.memoryMb.GetOr(0.0)),
             item.reason.GetOr(NotAvailable), item.action.GetOr(NotAvailable), ShownCommand(item.command))
  }

  function Brief(item: Item): BriefView {
    BriefView(item.process.GetOr(UnknownProcess), FormatBytes(item.memoryMb.GetOr(0.0)), item.reason.GetOr(NotAvailable))
  }

  function Views(items: seq<Item>): (vs: seq<ItemView>)
    ensures |vs| == |items| && forall i | 0 <= i < |items| :: vs[i] == View(items[i])
  {
    seq(|items|, i requires 0 <= i < |items| => View(items[i]))
  }

  function Briefs(items: seq<Item>): (bs: seq<BriefView>)
    ensures |bs| == |items| && forall i | 0 <= i < |items| :: bs[i] == Brief(items[i])
  {
    seq(|items|, i requires 0 <= i < |items| => Brief(items[i]))
  }

  /** a list key that is missing or empty prints nothing */
  function Listed(items: Option<seq<Item>>): seq<Item> {
    items.GetOr([])
  }

  /** the first line: status band, percentage, and used and total memory */
  function OverviewOf(mem: MemoryStats): Section {
    Overview(StatusBand(mem.usedPercent), mem.usedPercent, FormatBytes(mem.usedMb), FormatBytes(mem.totalMb))
  }

  /** print_analysis, as the sequence of blocks it prints */
  function Render(a: Analysis, mem: MemoryStats): (r: seq<Section>)
    ensures |r| >= 2 && r[0] == OverviewOf(mem) && r[1] == Summary(a.summary.GetOr(NoSummary))
  {
    var high := Listed(a.highPriority);
    var medium := Listed(a.mediumPriority);
    var safe := Listed(a.safeToIgnore);
    var reclaimable := a.totalReclaimableMb.GetOr(0.0);
    [OverviewOf(mem), Summary(a.summary.GetOr(NoSummary))]
    + (if high != [] then [HighPriority(Views(high))] else [])
    + (if medium != [] then [MediumPriority(Views(medium))] else [])
    + (if safe != [] then [SafeToIgnore(Briefs(safe))] else [])
    + (if reclaimable > 0.0 then [Reclaimable(FormatBytes(reclaimable))] else [])
  }

  /**
   * The blocks of a printout are exactly these: the overview, the summary, and
   * each optional block whose condition holds.
   */
  predicate RenderedBlock(a: Analysis, mem: MemoryStats, x: Section) {
    || x == OverviewOf(mem)
    || x == Summary(a.summary.GetOr(NoSummary))
    || (Listed(a.highPriority) != [] && x == HighPriority(Views(Listed(a.highPriority))))
    || (Listed(a.mediumPriority) != [] && x == MediumPriority(Views(Listed(a.mediumPriority))))
    || (Listed(a.safeToIgnore) != [] && x == SafeToIgnore(Briefs(Listed(a.safeToIgnore))))
    || (a.totalReclaimableMb.GetOr(0.0) > 0.0 && x == Reclaimable(FormatBytes(a.totalReclaimableMb.GetOr(0.0))))
  }

  lemma RenderBlocks(a: Analysis, mem: MemoryStats)
    ensures forall x | x in Render(a, mem) :: RenderedBlock(a, mem, x)
    ensures Listed(a.highPriority) != [] ==> HighPriority(Views(Listed(a.highPriority))) in Render(a, mem)
    ensures Listed(a.mediumPriority) != [] ==> MediumPriority(Views(Listed(a.mediumPriority))) in Render(a, mem)
    ensures Listed(a.safeToIgnore) != [] ==> SafeToIgnore(Briefs(Listed(a.safeToIgnore))) in Render(a, mem)
    ensures a.totalReclaimableMb.GetOr(0.0) > 0.0 ==>
              Reclaimable(FormatBytes(a.totalReclaimableMb.GetOr(0.0))) in Render(a, mem)
  {
    var high := Listed(a.highPriority);
    var medium := Listed(a.mediumPriority);
    var safe := Listed(a.safeToIgnore);
    var reclaimable := a.totalReclaimableMb.GetOr(0.0);
    var hs := if high != [] then [HighPriority(Views(high))] else [];
    var ms := if medium != [] then [MediumPriority(Views(medium))] else [];
    var ss := if safe != [] then [SafeToIgnore(Briefs(safe))] else [];
    var rs := if reclaimable > 0.0 then [Reclaimable(FormatBytes(reclaimable))] else [];
    var r := Render(a, mem);
    assert r == [OverviewOf(mem), Summary(a.summary.GetOr(NoSummary))] + hs + ms + ss + rs;
  }

  /** The blocks always come in the same order, each kind at most once. */
  lemma RenderOrdered(a: Analysis, mem: MemoryStats)
    ensures var r := Render(a, mem);
            forall i, j | 0 <= i < j < |r| :: Rank(r[i]) < Rank(r[j])
  {
  }

  /**
   * Each priority list appears exactly when its key is present with at least
   * one item, holding one entry per item; the reclaimable total appears
   * exactly when it is present and positive.
   */
  lemma RenderSections(a: Analysis, mem: MemoryStats)
    ensures var r := Render(a, mem);
            && ((exists s | s in r :: s.HighPriority?) <==> a.highPriority.Some? && a.highPriority.value != [])
            && ((exists s | s in r :: s.MediumPriority?) <==> a.mediumPriority.Some? && a.mediumPriority.value != [])
            && ((exists s | s in r :: s.SafeToIgnore?) <==> a.safeToIgnore.Some? && a.safeToIgnore.value != [])
            && ((exists s | s in r :: s.Reclaimable?) <==>
                  a.totalReclaimableMb.Some? && a.totalReclaimableMb.value > 0.0)
    ensures forall s | s in Render(a, mem) && s.HighPriority? :: s.items == Views(a.highPriority.value)
    ensures forall s | s in Render(a, mem) && s.MediumPriority? :: s.items == Views(a.mediumPriority.value)
    ensures forall s | s in Render(a, mem) && s.SafeToIgnore? :: s.brief == Briefs(a.safeToIgnore.value)
    ensures forall s | s in Render(a, mem) && s.Reclaimable? :: s.amount == FormatBytes(a.totalReclaimableMb.value)
  {
    RenderBlocks(a, mem);
    RenderPriorityLists(a, mem);
    RenderReclaimable(a, mem);
  }

  lemma RenderPriorityLists(a: Analysis, mem: MemoryStats)
    requires forall x | x in Render(a, mem) :: RenderedBlock(a, mem, x)
    ensures forall s | s in Render(a, mem) && s.HighPriority? ::
              a.highPriority.Some? && a.highPriority.value != [] && s.items == Views(a.highPriority.value)
    ensures forall s | s in Render(a, mem) && s.MediumPriority? ::
              a.mediumPriority.Some? && a.mediumPriority.value != [] && s.items == Views(a.mediumPriority.value)
    ensures forall s | s in Render(a, mem) && s.SafeToIgnore? ::
              a.safeToIgnore.Some? && a.safeToIgnore.value != [] && s.brief == Briefs(a.safeToIgnore.value)
  {
  }

  lemma RenderReclaimable(a: Analysis, mem: MemoryStats)
    requires forall x | x in Render(a, mem) :: RenderedBlock(a, mem, x)
    ensures forall s | s in Render(a, mem) && s.Reclaimable? ::
              a.totalReclaimableMb.Some? && a.totalReclaimableMb.value > 0.0
              && s.amount == FormatBytes(a.totalReclaimableMb.value)
  {
  }
}
