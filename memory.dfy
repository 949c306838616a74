/**
 * MemoryAnalyzer.get_system_memory (wamr.py): two memory-accounting parsers,
 * the `vm_stat` page counts of macOS and the `/proc/meminfo` key/value table
 * of Linux, the figures both derive, and the chain of fallbacks between them.
 */
module Memory {
  import opened Wrappers
  import opened PyText
  import opened Host

  /** the dict get_system_memory returns when it has figures: megabytes and a percentage */
  datatype MemoryStats = MemoryStats(totalMb: real, usedMb: real, freeMb: real, usedPercent: real)

  /**
   * Outcome of get_system_memory: figures read from the host, the fixed demo
   * snapshot used when /proc/meminfo does not exist, or the empty dict.
   */
  datatype MemoryResult = Sampled(stats: MemoryStats) | DemoSnapshot(stats: MemoryStats) | NoMemoryInfo

  /** the snapshot reported when /proc/meminfo is missing; its percentage is a literal, not computed */
  const DemoStats: MemoryStats := MemoryStats(16384.0, 12000.0, 4384.0, 73.2)

  /** used_percent: used/total*100 guarded against a zero (or negative) total */
  function UsedPercent(usedMb: real, totalMb: real): (p: real)
    ensures totalMb <= 0.0 ==> p == 0.0
  {
    if totalMb > 0.0 then usedMb / totalMb * 100.0 else 0.0
  }

  /**
   * With a positive total the percentage is the share of used memory, and it
   * lies between 0 and 100 whenever used memory does not exceed the total.
   */
  lemma UsedPercentShare(usedMb: real, totalMb: real)
    requires totalMb > 0.0
    ensures UsedPercent(usedMb, totalMb) * totalMb == usedMb * 100.0
    ensures 0.0 <= usedMb <= totalMb ==> 0.0 <= UsedPercent(usedMb, totalMb) <= 100.0
  {
  }

  // ---------------------------------------------------------------------------
  // dictionaries filled line by line

  /** a run of dict assignments d[k] = v; None stands for a line that assigns nothing */
  function Assign<V>(entries: seq<Option<(string, V)>>): map<string, V>
    decreases |entries|
  {
    if entries == [] then map[]
    else
      var t := Assign(entries[..|entries| - 1]);
      match entries[|entries| - 1]
      case None => t
      case Some((k, v)) => t[k := v]
  }

  /** entry i is the last one that assigns key k */
  predicate LastAssignment<V>(entries: seq<Option<(string, V)>>, k: string, i: int) {
    && 0 <= i < |entries|
    && entries[i].Some? && entries[i].value.0 == k
    && forall j | i < j < |entries| :: !(entries[j].Some? && entries[j].value.0 == k)
  }

  /** A key is in the dict exactly when some entry assigns it, and then it holds the last value assigned. */
  lemma {:induction false} AssignLookup<V>(entries: seq<Option<(string, V)>>, k: string)
    ensures k in Assign(entries) <==> exists i | 0 <= i < |entries| :: entries[i].Some? && entries[i].value.0 == k
    ensures k in Assign(entries) ==>
            exists i :: LastAssignment(entries, k, i) && Assign(entries)[k] == entries[i].value.1
    decreases |entries|
  {
    if entries != [] {
      var n := |entries| - 1;
      var init := entries[..n];
      var t := Assign(init);
      AssignLookup(init, k);
      forall i | 0 <= i < n ensures init[i] == entries[i] { }
      if entries[n].Some? && entries[n].value.0 == k {
        assert LastAssignment(entries, k, n);
      } else if k in t {
        var i :| LastAssignment(init, k, i) && t[k] == init[i].value.1;
        assert LastAssignment(entries, k, i);
      } else {
        assert !exists i | 0 <= i < |entries| :: entries[i].Some? && entries[i].value.0 == k;
      }
    }
  }

  // ---------------------------------------------------------------------------
  // /proc/meminfo

  /** how the meminfo loop treats one line: skipped, aborting the read, or a key with its kB count */
  datatype MeminfoLine = NoColon | Malformed | Field(key: string, kb: int)

  /**
   * A line with a colon must split into exactly two parts on ':' and its value
   * must start with an integer; anything else raises and aborts the whole read.
   */
  function ParseMeminfoLine(line: string): (r: MeminfoLine)
    ensures r.NoColon? <==> ':' !in line
    ensures CountChar(line, ':') > 1 ==> r.Malformed?
    ensures r.Field? ==> CountChar(line, ':') == 1 && r.key == Strip(line[..IndexOf(line, ':')])
  {
    SplitOnCount(line, ':');
    if ':' !in line then NoColon
    else
      var parts := SplitOn(line, ':');
      assert parts[0] == line[..IndexOf(line, ':')];
      if |parts| != 2 then Malformed
      else
        var words := Words(Strip(parts[1]));
        if words == [] then Malformed
        else
          match ParseInt(words[0])
          case None => Malformed
          case Some(kb) => Field(Strip(parts[0]), kb)
  }

  /**
   * A line written the way the kernel writes it (a key, a colon, padding, a
   * decimal count and " kB") reads back as the stripped key and that count.
   */
  lemma MeminfoLineRoundTrip(key: string, pad: string, kb: int)
    requires ':' !in key
    requires forall i | 0 <= i < |pad| :: IsSpace(pad[i])
    ensures ParseMeminfoLine(key + ":" + pad + IntToDecimal(kb) + " kB") == Field(Strip(key), kb)
  {
    var d := IntToDecimal(kb);
    var value := pad + d + " kB";
    assert key + ":" + pad + d + " kB" == key + [':'] + value;
    PaddedAmount(pad, kb);
    MeminfoLineParts(key, value);
    TakeWordUntilSpace(d, " kB");
    ParseIntOfDecimal(kb);
  }

  /** A line with one colon is decided by the first word of the text after it. */
  lemma MeminfoLineParts(key: string, value: string)
    requires ':' !in key && ':' !in value
    ensures var words := Words(Strip(value));
            ParseMeminfoLine(key + [':'] + value) ==
              if words == [] then Malformed
              else if ParseInt(words[0]).None? then Malformed
              else Field(Strip(key), ParseInt(words[0]).value)
  {
    SplitOnPair(key, value, ':');
  }

  /** padding, then str(kb) and " kB": no colon, and stripping leaves the amount and its unit */
  lemma PaddedAmount(pad: string, kb: int)
    requires forall i | 0 <= i < |pad| :: IsSpace(pad[i])
    ensures var d := IntToDecimal(kb);
            && ':' !in pad + d + " kB"
            && Strip(pad + d + " kB") == d + " kB"
            && NoSpace(d)
  {
    var d := IntToDecimal(kb);
    IntToDecimalWord(kb);
    AmountHasNoColon(pad, d, kb);
    assert pad + d + " kB" == pad + (d + " kB");
    StripPadding(pad, d + " kB");
  }

  lemma AmountHasNoColon(pad: string, d: string, kb: int)
    requires forall i | 0 <= i < |pad| :: IsSpace(pad[i])
    requires d == IntToDecimal(kb)
    ensures ':' !in pad + d + " kB"
  {
    IntToDecimalChars(kb);
    var value := pad + d + " kB";
    forall i | 0 <= i < |value| ensures value[i] != ':' {
      if i < |pad| {
        assert IsSpace(value[i]);
      } else if i < |pad| + |d| {
        assert value[i] == d[i - |pad|];
      }
    }
  }

  /** the parsed form of every line */
  function MeminfoFields(lines: seq<string>): (fields: seq<MeminfoLine>)
    ensures |fields| == |lines|
    ensures forall i | 0 <= i < |lines| :: fields[i] == ParseMeminfoLine(lines[i])
  {
    seq(|lines|, i requires 0 <= i < |lines| => ParseMeminfoLine(lines[i]))
  }

  /** the assignment mem_info[key] = kB / 1024 a field line performs */
  function MeminfoEntry(f: MeminfoLine): Option<(string, real)> {
    match f
    case Field(k, kb) => Some((k, kb as real / KbPerMb))
    case _ => None
  }

  /** mem_info after the loop over the parsed lines (values in MB), or None when the loop raised */
  function MeminfoTable(fields: seq<MeminfoLine>): Option<map<string, real>>
    decreases |fields|
  {
    if fields == [] then Some(map[])
    else
      match MeminfoTable(fields[..|fields| - 1])
      case None => None
      case Some(t) =>
        match fields[|fields| - 1]
        case NoColon => Some(t)
        case Malformed => None
        case Field(k, kb) => Some(t[k := kb as real / KbPerMb])
  }

  /** Reading one more line after a read that has not failed: skipped, aborting, or one more assignment. */
  lemma MeminfoTableSnoc(fields: seq<MeminfoLine>, f: MeminfoLine, t: map<string, real>)
    requires MeminfoTable(fields) == Some(t)
    ensures f.NoColon? ==> MeminfoTable(fields + [f]) == Some(t)
    ensures f.Malformed? ==> MeminfoTable(fields + [f]) == None
    ensures f.Field? ==> MeminfoTable(fields + [f]) == Some(t[f.key := f.kb as real / KbPerMb])
  {
    assert (fields + [f])[..|fields|] == fields;
  }

  /** The read of /proc/meminfo fails exactly when some line with a colon is malformed. */
  lemma {:induction false} MeminfoTableFails(fields: seq<MeminfoLine>)
    ensures MeminfoTable(fields).None? <==> exists i | 0 <= i < |fields| :: fields[i].Malformed?
    decreases |fields|
  {
    if fields != [] {
      var init := fields[..|fields| - 1];
      MeminfoTableFails(init);
      if exists i | 0 <= i < |init| :: init[i].Malformed? {
        var i :| 0 <= i < |init| && init[i].Malformed?;
        assert fields[i] == init[i];
      }
      if exists i | 0 <= i < |fields| :: fields[i].Malformed? {
        var i :| 0 <= i < |fields| && fields[i].Malformed?;
        if i < |init| {
          assert init[i] == fields[i];
        }
      }
    }
  }

  /**
   * A read that does not fail is the plain sequence of dictionary assignments
   * of its field lines: a key is present exactly when some line defines it,
   * with the value of the last such line (see AssignLookup).
   */
  lemma {:induction false} MeminfoTableAssigns(fields: seq<MeminfoLine>)
    requires MeminfoTable(fields).Some?
    ensures MeminfoTable(fields).value == Assign(seq(|fields|, i requires 0 <= i < |fields| => MeminfoEntry(fields[i])))
    decreases |fields|
  {
    if fields != [] {
      var n := |fields| - 1;
      var entries := seq(|fields|, i requires 0 <= i < |fields| => MeminfoEntry(fields[i]));
      MeminfoTableAssigns(fields[..n]);
      assert entries[..n] == seq(n, i requires 0 <= i < n => MeminfoEntry(fields[..n][i]));
    }
  }

  /**
   * The loop of get_system_memory that fills mem_info from the parsed lines,
   * stopping at the first malformed one.
   */
  method FillMeminfo(fields: seq<MeminfoLine>) returns (table: Option<map<string, real>>)
    ensures table == MeminfoTable(fields)
    ensures table.None? <==> exists i | 0 <= i < |fields| :: fields[i].Malformed?
  {
    MeminfoTableFails(fields);
    var memInfo: map<string, real> := map[];
    var i := 0;
    while i < |fields|
      invariant 0 <= i <= |fields|
      invariant MeminfoTable(fields[..i]) == Some(memInfo)
    {
      assert fields[..i + 1] == fields[..i] + [fields[i]];
      MeminfoTableSnoc(fields[..i], fields[i], memInfo);
      match fields[i] {
        case NoColon =>
        case Malformed =>
          return None;
        case Field(k, kb) =>
          memInfo := memInfo[k := kb as real / KbPerMb];
      }
      i := i + 1;
    }
    assert fields[..i] == fields;
    return Some(memInfo);
  }

  /** Reading /proc/meminfo line by line; None when some line with a colon is malformed. */
  method ReadMeminfo(lines: seq<string>) returns (table: Option<map<string, real>>)
    ensures table == MeminfoTable(MeminfoFields(lines))
    ensures table.None? <==> exists i | 0 <= i < |lines| :: ParseMeminfoLine(lines[i]).Malformed?
  {
    table := FillMeminfo(MeminfoFields(lines));
    MeminfoLinesFail(lines);
  }

  /** The read fails exactly when some line with a colon is malformed. */
  lemma MeminfoLinesFail(lines: seq<string>)
    ensures MeminfoTable(MeminfoFields(lines)).None? <==> exists i | 0 <= i < |lines| :: ParseMeminfoLine(lines[i]).Malformed?
  {
    var fields := MeminfoFields(lines);
    MeminfoTableFails(fields);
    if exists i | 0 <= i < |lines| :: ParseMeminfoLine(lines[i]).Malformed? {
      var i :| 0 <= i < |lines| && ParseMeminfoLine(lines[i]).Malformed?;
      assert fields[i].Malformed?;
    }
  }



  /** dict.get(key, 0) on the MB table */
  function Lookup(t: map<string, real>, k: string): real {
    if k in t then t[k] else 0.0
  }

  /**
   * The Linux figures: total is MemTotal, free is MemAvailable and used is the
   * difference; a missing key reads as 0. MemFree, Buffers and Cached are
   * fetched by the source but never enter the result.
   */
  function MeminfoStats(t: map<string, real>): (m: MemoryStats)
    ensures m.totalMb == Lookup(t, "MemTotal") && m.freeMb == Lookup(t, "MemAvailable")
    ensures m.usedMb + m.freeMb == m.totalMb
    ensures m.usedPercent == UsedPercent(m.usedMb, m.totalMb)
    ensures "MemAvailable" !in t ==> m.usedMb == m.totalMb && m.freeMb == 0.0
    ensures 0.0 <= m.freeMb <= m.totalMb ==> 0.0 <= m.usedMb <= m.totalMb
  {
    var total := Lookup(t, "MemTotal");
    var available := Lookup(t, "MemAvailable");
    var used := total - available;
    MemoryStats(total, used, available, UsedPercent(used, total))
  }

  /** Only MemTotal and MemAvailable matter: any other key (MemFree, Buffers, Cached, ...) can change freely. */
  lemma MeminfoIgnoresOtherKeys(t: map<string, real>, k: string, v: real)
    requires k != "MemTotal" && k != "MemAvailable"
    ensures MeminfoStats(t[k := v]) == MeminfoStats(t)
  {
    assert Lookup(t[k := v], "MemTotal") == Lookup(t, "MemTotal");
    assert Lookup(t[k := v], "MemAvailable") == Lookup(t, "MemAvailable");
  }

  /** some line of the file has a colon but is malformed, so the loop raises */
  predicate MeminfoAborts(text: string) {
    var lines := SplitOn(text, '\n');
    exists i | 0 <= i < |lines| :: ParseMeminfoLine(lines[i]).Malformed?
  }

  /** the Linux branch of get_system_memory, from the outcome of reading /proc/meminfo */
  function MeminfoMemory(meminfo: FileResult): (r: MemoryResult)
    ensures r.DemoSnapshot? <==> meminfo.FileMissing?
    ensures r.NoMemoryInfo? <==>
            meminfo.FileUnreadable? || (meminfo.FileText? && MeminfoAborts(meminfo.text))
    ensures r.Sampled? ==>
            && meminfo.FileText?
            && MeminfoTable(MeminfoFields(SplitOn(meminfo.text, '\n'))).Some?
            && r.stats == MeminfoStats(MeminfoTable(MeminfoFields(SplitOn(meminfo.text, '\n'))).value)
  {
    match meminfo
    case FileMissing => DemoSnapshot(DemoStats)
    case FileUnreadable => NoMemoryInfo
    case FileText(text) =>
      MeminfoTableFails(MeminfoFields(SplitOn(text, '\n')));
      match MeminfoTable(MeminfoFields(SplitOn(text, '\n')))
      case None => NoMemoryInfo
      case Some(t) => Sampled(MeminfoStats(t))
  }

  /** The Linux branch of get_system_memory step by step. */
  method ReadLinuxMemory(meminfo: FileResult) returns (r: MemoryResult)
    ensures r == MeminfoMemory(meminfo)
  {
    match meminfo {
      case FileMissing =>
        r := DemoSnapshot(DemoStats);
      case FileUnreadable =>
        r := NoMemoryInfo;
      case FileText(text) =>
        var table := ReadMeminfo(SplitOn(text, '\n'));
        r := if table.None? then NoMemoryInfo else Sampled(MeminfoStats(table.value));
    }
  }

  // ---------------------------------------------------------------------------
  // vm_stat

  /**
   * One line of vm_stat: the stripped text before the first ':' and the number
   * formed by the digit characters after it; None for a line without a colon
   * or without digits.
   */
  function ParseVmStatLine(line: string): (r: Option<(string, nat)>)
    ensures r.Some? ==> ':' in line && r.value.1 == DigitsValue(Digits(line[IndexOf(line, ':') + 1..]))
  {
    if ':' !in line then None
    else
      var i := IndexOf(line, ':');
      var after := line[i + 1..];
      var ds := Digits(RStripChar(Strip(after), '.'));
      DigitsOfTrimmed(after);
      if ds == [] then None else Some((Strip(line[..i]), DigitsValue(ds)))
  }

  /**
   * A line written the way vm_stat writes it (a label, a colon, padding, a
   * page count and a final period) reads back as the stripped label and that count.
   */
  lemma VmStatLineRoundTrip(key: string, pad: string, pages: nat)
    requires ':' !in key
    requires forall i | 0 <= i < |pad| :: IsSpace(pad[i])
    ensures ParseVmStatLine(key + ":" + pad + NatToDecimal(pages) + ".") == Some((Strip(key), pages))
  {
    var d := NatToDecimal(pages);
    var value := pad + d + ".";
    assert key + ":" + pad + d + "." == key + [':'] + value;
    PaddedCountDigits(pad, d);
    VmStatLineParts(key, value);
    NatToDecimalValue(pages);
  }

  /** A vm_stat line gives the stripped text before its first colon and the digits after it, if any. */
  lemma VmStatLineParts(key: string, value: string)
    requires ':' !in key
    ensures var ds := Digits(value);
            ParseVmStatLine(key + [':'] + value) == if ds == [] then None else Some((Strip(key), DigitsValue(ds)))
  {
    FirstSeparator(key, value, ':');
    DigitsOfTrimmed(value);
  }

  /** the digits of a padded count followed by a period are the count's */
  lemma PaddedCountDigits(pad: string, d: string)
    requires forall i | 0 <= i < |pad| :: IsSpace(pad[i])
    requires AllDigits(d)
    ensures Digits(pad + d + ".") == d
  {
    forall i | 0 <= i < |pad| ensures !IsDigit(pad[i]) {
      assert IsSpace(pad[i]);
    }
    NoDigits(pad);
    NoDigits(".");
    DigitsAppend(pad, d);
    DigitsAppend(pad + d, ".");
  }

  /** Trimming whitespace and trailing dots never removes a digit. */
  lemma DigitsOfTrimmed(v: string)
    ensures Digits(RStripChar(Strip(v), '.')) == Digits(v)
  {
    DigitsOfLStrip(v);
    var r := RStrip(LStrip(v));
    DigitsOfPrefix(LStrip(v), |r|);
    DigitsOfPrefix(r, |RStripChar(r, '.')|);
  }

  lemma {:induction false} DigitsOfLStrip(s: string)
    ensures Digits(LStrip(s)) == Digits(s)
  {
    if s != [] && IsSpace(s[0]) {
      DigitsOfLStrip(s[1..]);
    }
  }

  /** Dropping a tail without digits keeps the digits. */
  lemma DigitsOfPrefix(s: string, n: nat)
    requires n <= |s|
    requires forall i | n <= i < |s| :: !IsDigit(s[i])
    ensures Digits(s[..n]) == Digits(s)
  {
    NoDigits(s[n..]);
    DigitsAppend(s[..n], s[n..]);
    assert s == s[..n] + s[n..];
  }

  lemma {:induction false} NoDigits(s: string)
    requires forall i | 0 <= i < |s| :: !IsDigit(s[i])
    ensures Digits(s) == []
  {
    if s != [] {
      NoDigits(s[1..]);
    }
  }

  lemma {:induction false} DigitsAppend(a: string, b: string)
    ensures Digits(a + b) == Digits(a) + Digits(b)
  {
    if a != [] {
      assert (a + b)[1..] == a[1..] + b;
      DigitsAppend(a[1..], b);
    } else {
      assert a + b == b;
    }
  }

  /** the assignment each vm_stat line performs */
  function VmStatEntries(lines: seq<string>): (entries: seq<Option<(string, nat)>>)
    ensures |entries| == |lines|
    ensures forall i | 0 <= i < |lines| :: entries[i] == ParseVmStatLine(lines[i])
  {
    seq(|lines|, i requires 0 <= i < |lines| => ParseVmStatLine(lines[i]))
  }

  /** The loop of get_system_memory that fills stats from the vm_stat lines. */
  method ReadVmStat(lines: seq<string>) returns (stats: map<string, nat>)
    ensures stats == Assign(VmStatEntries(lines))
  {
    stats := map[];
    var i := 0;
    while i < |lines|
      invariant 0 <= i <= |lines|
      invariant stats == Assign(VmStatEntries(lines[..i]))
    {
      assert VmStatEntries(lines[..i + 1])[..i] == VmStatEntries(lines[..i]);
      var entry := ParseVmStatLine(lines[i]);
      if entry.Some? {
        stats := stats[entry.value.0 := entry.value.1];
      }
      i := i + 1;
    }
    assert lines[..i] == lines;
  }

  const DefaultPageSize: nat := 4096

  /**
   * The page size: all digits of the header line when it mentions "page size
   * of" (None when it has none, which raises), 4096 otherwise.
   */
  function PageSize(header: string): (r: Option<nat>)
    ensures !IsInfix("page size of", Lower(header)) ==> r == Some(DefaultPageSize)
    ensures r.None? <==>
            IsInfix("page size of", Lower(header)) && forall i | 0 <= i < |header| :: !IsDigit(header[i])
    ensures r.Some? && IsInfix("page size of", Lower(header)) ==> r.value == DigitsValue(Digits(header))
  {
    DigitsEmpty(header);
    if IsInfix("page size of", Lower(header)) then
      var ds := Digits(header);
      if ds == [] then None else Some(DigitsValue(ds))
    else Some(DefaultPageSize)
  }

  /**
   * The header vm_stat prints, "... (page size of N bytes)" after a title
   * without digits, gives the page size N.
   */
  lemma PageSizeOfHeader(title: string, size: nat)
    requires forall i | 0 <= i < |title| :: !IsDigit(title[i])
    ensures PageSize(title + "(page size of " + NatToDecimal(size) + " bytes)") == Some(size)
  {
    var d := NatToDecimal(size);
    var opening := "(page size of ";
    var closing := " bytes)";
    var header := title + opening + d + closing;
    HeaderMentionsPageSize(title, opening, d + closing);
    assert header == title + opening + (d + closing);
    HeaderDigits(title, opening, d, closing);
    NatToDecimalValue(size);
  }

  lemma HeaderMentionsPageSize(title: string, opening: string, rest: string)
    requires opening == "(page size of "
    ensures IsInfix("page size of", Lower(title + opening + rest))
  {
    var header := title + opening + rest;
    var pat := "page size of";
    var k := |title| + 1;
    forall i | 0 <= i < |pat| ensures Lower(header)[k + i] == pat[i] {
      assert header[k + i] == opening[i + 1] == pat[i];
    }
    assert Lower(header)[k..k + |pat|] == pat;
    assert OccursAt(pat, Lower(header), k);
  }

  lemma HeaderDigits(title: string, opening: string, d: string, closing: string)
    requires forall i | 0 <= i < |title| :: !IsDigit(title[i])
    requires opening == "(page size of " && closing == " bytes)"
    requires AllDigits(d)
    ensures Digits(title + opening + d + closing) == d
  {
    NoDigits(title);
    forall i | 0 <= i < |opening| ensures !IsDigit(opening[i]) { }
    NoDigits(opening);
    forall i | 0 <= i < |closing| ensures !IsDigit(closing[i]) { }
    NoDigits(closing);
    DigitsAppend(title, opening);
    DigitsAppend(title + opening, d);
    DigitsAppend(title + opening + d, closing);
  }

  /** stats.get(key, 0) */
  function Pages(t: map<string, nat>, k: string): nat {
    if k in t then t[k] else 0
  }

  /** pages * page_size / (1024 * 1024): an integer byte count divided exactly */
  function PagesToMb(pages: nat, pageSize: nat): real {
    (pages * pageSize) as real / BytesPerMb
  }

  /** Converting page counts to megabytes distributes over adding the counts. */
  lemma PagesToMbAdd(a: nat, b: nat, pageSize: nat)
    ensures PagesToMb(a, pageSize) + PagesToMb(b, pageSize) == PagesToMb(a + b, pageSize)
  {
    assert (a + b) * pageSize == a * pageSize + b * pageSize;
  }

  /** Converting page counts to megabytes is linear in the page size. */
  lemma PagesToMbScale(pages: nat, pageSize: nat, factor: nat, scaled: nat)
    requires scaled == factor * pageSize
    ensures PagesToMb(pages, scaled) == factor as real * PagesToMb(pages, pageSize)
  {
    assert pages * (factor * pageSize) == factor * (pages * pageSize);
  }

  /** pages counted as used: active and wired down */
  function UsedPages(t: map<string, nat>): nat {
    Pages(t, "Pages active") + Pages(t, "Pages wired down")
  }

  /** pages counted as free: free, speculative and inactive */
  function FreePages(t: map<string, nat>): nat {
    Pages(t, "Pages free") + Pages(t, "Pages speculative") + Pages(t, "Pages inactive")
  }

  /** the figures for given used and free page counts and a capacity in bytes */
  function PageStats(usedPages: nat, freePages: nat, pageSize: nat, totalBytes: int): MemoryStats {
    var usedMb := PagesToMb(usedPages, pageSize);
    var totalMb := totalBytes as real / BytesPerMb;
    MemoryStats(totalMb, usedMb, PagesToMb(freePages, pageSize), UsedPercent(usedMb, totalMb))
  }

  /**
   * The macOS figures, item by item as the source adds them up: used counts
   * active and wired pages, free counts free, speculative and inactive pages,
   * and the total comes from hw.memsize alone.
   */
  function VmStatStats(t: map<string, nat>, pageSize: nat, totalBytes: int): (m: MemoryStats)
    ensures m == PageStats(UsedPages(t), FreePages(t), pageSize, totalBytes)
  {
    var freeMb := PagesToMb(Pages(t, "Pages free") + Pages(t, "Pages speculative"), pageSize);
    var activeMb := PagesToMb(Pages(t, "Pages active"), pageSize);
    var inactiveMb := PagesToMb(Pages(t, "Pages inactive"), pageSize);
    var wiredMb := PagesToMb(Pages(t, "Pages wired down"), pageSize);
    var totalMb := totalBytes as real / BytesPerMb;
    var usedMb := activeMb + wiredMb;
    PagesToMbAdd(Pages(t, "Pages active"), Pages(t, "Pages wired down"), pageSize);
    PagesToMbAdd(Pages(t, "Pages free") + Pages(t, "Pages speculative"), Pages(t, "Pages inactive"), pageSize);
    MemoryStats(totalMb, usedMb, freeMb + inactiveMb, UsedPercent(usedMb, totalMb))
  }

  /**
   * Multiplying the page size by a factor multiplies used and free by it,
   * and the used percentage too when the capacity is positive, and leaves the
   * total (which comes from the capacity query) untouched.
   */
  lemma PageSizeScaling(usedPages: nat, freePages: nat, pageSize: nat, factor: nat, scaled: nat, totalBytes: int)
    requires scaled == factor * pageSize
    ensures var a := PageStats(usedPages, freePages, pageSize, totalBytes);
            var b := PageStats(usedPages, freePages, scaled, totalBytes);
            && b.totalMb == a.totalMb
            && b.usedMb == factor as real * a.usedMb
            && b.freeMb == factor as real * a.freeMb
            && (totalBytes > 0 ==> b.usedPercent == factor as real * a.usedPercent)
            && (totalBytes <= 0 ==> b.usedPercent == 0.0)
  {
    var a := PageStats(usedPages, freePages, pageSize, totalBytes);
    var b := PageStats(usedPages, freePages, scaled, totalBytes);
    PagesToMbScale(usedPages, pageSize, factor, scaled);
    PagesToMbScale(freePages, pageSize, factor, scaled);
    if totalBytes > 0 {
      ScaledPercent(a.usedMb, factor as real, a.totalMb);
    }
  }

  lemma ScaledPercent(usedMb: real, f: real, totalMb: real)
    requires totalMb > 0.0
    ensures UsedPercent(f * usedMb, totalMb) == f * UsedPercent(usedMb, totalMb)
  {
  }

  /**
   * Inactive pages only ever count as free: changing the inactive counter
   * leaves used and total alone and moves free by exactly those pages.
   */
  lemma InactiveCountsAsFree(t: map<string, nat>, inactive: nat)
    ensures UsedPages(t["Pages inactive" := inactive]) == UsedPages(t)
    ensures FreePages(t["Pages inactive" := inactive]) - FreePages(t) == inactive - Pages(t, "Pages inactive")
  {
    var t' := t["Pages inactive" := inactive];
    assert Pages(t', "Pages active") == Pages(t, "Pages active");
    assert Pages(t', "Pages wired down") == Pages(t, "Pages wired down");
    assert Pages(t', "Pages free") == Pages(t, "Pages free");
    assert Pages(t', "Pages speculative") == Pages(t, "Pages speculative");
    assert Pages(t', "Pages inactive") == inactive;
  }

  /**
   * The Darwin branch of get_system_memory: figures from vm_stat and
   * hw.memsize, or None when anything in it raised (and the caller falls
   * through to the Linux branch).
   */
  function DarwinMemory(vmStat: CommandResult, memsize: CommandResult): (r: Option<MemoryStats>)
    ensures r.Some? <==>
            && vmStat.Completed? && PageSize(OutputLines(vmStat.stdout)[0]).Some?
            && memsize.Completed? && ParseInt(memsize.stdout).Some?
    ensures r.Some? ==>
            r.value == VmStatStats(Assign(VmStatEntries(OutputLines(vmStat.stdout))),
                                   PageSize(OutputLines(vmStat.stdout)[0]).value,
                                   ParseInt(memsize.stdout).value)
    ensures r.Some? ==> r.value.totalMb == ParseInt(memsize.stdout).value as real / BytesPerMb
  {
    match vmStat
    case CommandFailed => None
    case Completed(out) =>
      var lines := OutputLines(out);
      var stats := Assign(VmStatEntries(lines));
      match PageSize(lines[0])
      case None => None
      case Some(pageSize) =>
        match memsize
        case CommandFailed => None
        case Completed(text) =>
          StripIdempotent(text);
          match ParseInt(Strip(text))
          case None => None
          case Some(totalBytes) => Some(VmStatStats(stats, pageSize, totalBytes))
  }

  /** The Darwin branch of get_system_memory step by step: None when any step raised. */
  method ReadDarwinMemory(vmStat: CommandResult, memsize: CommandResult) returns (stats: Option<MemoryStats>)
    ensures stats == DarwinMemory(vmStat, memsize)
  {
    if vmStat.CommandFailed? {
      return None;
    }
    var lines := OutputLines(vmStat.stdout);
    var table := ReadVmStat(lines);
    var pageSize := PageSize(lines[0]);
    if pageSize.None? || memsize.CommandFailed? {
      return None;
    }
    var totalBytes := ParseInt(Strip(memsize.stdout));
    if totalBytes.None? {
      return None;
    }
    return Some(VmStatStats(table, pageSize.value, totalBytes.value));
  }

  lemma StripIdempotent(s: string)
    ensures Strip(Strip(s)) == Strip(s)
  {
    StripUnchanged(Strip(s));
  }

  /**
   * get_system_memory as a whole: on Darwin the vm_stat figures unless that
   * branch raised; otherwise (or then) the /proc/meminfo figures, the demo
   * snapshot when that file is missing, and no figures on any other failure.
   */
  function SystemMemory(system: string, vmStat: CommandResult, memsize: CommandResult, meminfo: FileResult)
    : (r: MemoryResult)
    ensures system == Darwin && DarwinMemory(vmStat, memsize).Some? ==> r == Sampled(DarwinMemory(vmStat, memsize).value)
    ensures !(system == Darwin && DarwinMemory(vmStat, memsize).Some?) ==> r == MeminfoMemory(meminfo)
    ensures r.DemoSnapshot? <==>
            meminfo.FileMissing? && !(system == Darwin && DarwinMemory(vmStat, memsize).Some?)
    ensures r.DemoSnapshot? ==> r.stats == DemoStats
    ensures r.NoMemoryInfo? <==>
            && !(system == Darwin && DarwinMemory(vmStat, memsize).Some?)
            && (meminfo.FileUnreadable? || (meminfo.FileText? && MeminfoAborts(meminfo.text)))
    ensures r.Sampled? ==> r.stats.usedPercent == UsedPercent(r.stats.usedMb, r.stats.totalMb)
  {
    if system == Darwin then
      match DarwinMemory(vmStat, memsize)
      case Some(m) => Sampled(m)
      case None => MeminfoMemory(meminfo)
    else MeminfoMemory(meminfo)
  }
}
