/**
 * The MemoryAnalyzer object of wamr.py: the figures and the process list it
 * keeps between calls, and analyze_with_llm, which samples both, builds the
 * prompt for the classifier and accepts its reply.
 */
module Analyzer {
  import opened Wrappers
  import opened PyText
  import opened Host
  import opened Memory
  import opened Processes
  import opened Report

  /** one numbered line of the prompt's list of top memory consumers */
  datatype PromptEntry = PromptEntry(rank: nat, name: string, pid: int, rssMb: real, user: string, cmd: string)

  /** what the prompt tells the classifier: the memory figures and the numbered consumers */
  datatype Prompt = Prompt(memory: MemoryStats, consumers: seq<PromptEntry>)

  /** the prompt lists at most this many processes */
  const PromptLimit: nat := 10

  /** analyze_with_llm calls get_processes with its default top_n */
  const DefaultTopN: int := 20

  const HttpOk: int := 200

  /**
   * The classifier's answer: an HTTP status with the reply text already
   * decoded (None when it is not valid JSON; a reply without a response
   * field decodes as the empty analysis), or no answer at all (connection
   * error, timeout, missing HTTP library).
   */
  datatype Reply = Replied(status: int, body: Option<Analysis>) | NoReply

  /** what analyze_with_llm ends with */
  datatype Outcome = Analysed(analysis: Analysis) | NoAnalysis | MissingMemoryFigures

  /** The prompt's list: the first ten processes, numbered from 1, in list order. */
  method ListTopConsumers(ps: seq<ProcessInfo>) returns (entries: seq<PromptEntry>)
    ensures |entries| == Min(PromptLimit, |ps|)
    ensures forall k | 0 <= k < |entries| ::
              entries[k] == PromptEntry(k + 1, ps[k].name, ps[k].pid, ps[k].rssMb, ps[k].user, ps[k].cmd)
  {
    entries := [];
    var k := 0;
    while k < |ps| && k < PromptLimit
      invariant 0 <= k <= Min(PromptLimit, |ps|)
      invariant |entries| == k
      invariant forall j | 0 <= j < k ::
                  entries[j] == PromptEntry(j + 1, ps[j].name, ps[j].pid, ps[j].rssMb, ps[j].user, ps[j].cmd)
    {
      var p := ps[k];
      entries := entries + [PromptEntry(k + 1, p.name, p.pid, p.rssMb, p.user, p.cmd)];
      k := k + 1;
    }
  }

  /** The reply is accepted only with status 200 and a body that decodes. */
  function Accept(reply: Reply): (outcome: Outcome)
    ensures outcome.Analysed? <==> reply.Replied? && reply.status == HttpOk && reply.body.Some?
    ensures outcome.Analysed? ==> outcome.analysis == reply.body.value
    ensures !outcome.MissingMemoryFigures?
  {
    match reply
    case Replied(status, body) =>
      if status == HttpOk && body.Some? then Analysed(body.value) else NoAnalysis
    case NoReply => NoAnalysis
  }

  class MemoryAnalyzer {
    /** the list the last call of get_processes produced */
    var processes: seq<ProcessInfo>
    /** the figures the last successful call of get_system_memory produced */
    var totalMemMb: real
    var usedMemMb: real
    var freeMemMb: real

    constructor ()
      ensures processes == [] && totalMemMb == 0.0 && usedMemMb == 0.0 && freeMemMb == 0.0
    {
      processes := [];
      totalMemMb := 0.0;
      usedMemMb := 0.0;
      freeMemMb := 0.0;
    }

    /**
     * get_system_memory: returns the outcome and, whenever it has figures,
     * keeps them; when it has none the kept figures are those of before.
     */
    method GetSystemMemory(system: string, vmStat: CommandResult, memsize: CommandResult, meminfo: FileResult)
      returns (r: MemoryResult)
      modifies this
      ensures r == SystemMemory(system, vmStat, memsize, meminfo)
      ensures !r.NoMemoryInfo? ==>
                totalMemMb == r.stats.totalMb && usedMemMb == r.stats.usedMb && freeMemMb == r.stats.freeMb
      ensures r.NoMemoryInfo? ==>
                totalMemMb == old(totalMemMb) && usedMemMb == old(usedMemMb) && freeMemMb == old(freeMemMb)
      ensures processes == old(processes)
    {
      if system == Darwin {
        var darwin := ReadDarwinMemory(vmStat, memsize);
        if darwin.Some? {
          totalMemMb, usedMemMb, freeMemMb := darwin.value.totalMb, darwin.value.usedMb, darwin.value.freeMb;
          return Sampled(darwin.value);
        }
      }
      r := ReadLinuxMemory(meminfo);
      if !r.NoMemoryInfo? {
        totalMemMb, usedMemMb, freeMemMb := r.stats.totalMb, r.stats.usedMb, r.stats.freeMb;
      }
    }

    /** get_processes: returns the list and keeps it. */
    method GetProcesses(system: string, macPs: CommandResult, linuxPs: CommandResult, topN: int)
      returns (ps: seq<ProcessInfo>)
      modifies this
      ensures ps == ProcessList(system, macPs, linuxPs, topN)
      ensures processes == ps
      ensures totalMemMb == old(totalMemMb) && usedMemMb == old(usedMemMb) && freeMemMb == old(freeMemMb)
    {
      if system == Darwin && macPs.Completed? {
        ps := ReadMacProcesses(macPs.stdout, topN);
      } else if linuxPs.CommandFailed? {
        ps := MockProcesses();
      } else {
        var read := ReadLinuxProcesses(linuxPs.stdout, topN);
        ps := if read.Some? then read.value else MockProcesses();
      }
      processes := ps;
    }

    /**
     * analyze_with_llm: samples memory, then the top 20 processes; without
     * memory figures the prompt cannot be built (a KeyError); otherwise the
     * prompt carries the figures and the first ten processes, and the reply
     * to it is accepted as Accept says.
     */
    method AnalyzeWithLlm(system: string, vmStat: CommandResult, memsize: CommandResult, meminfo: FileResult,
                          macPs: CommandResult, linuxPs: CommandResult, ask: Prompt -> Reply)
      returns (outcome: Outcome, prompt: Option<Prompt>)
      modifies this
      ensures var mem := SystemMemory(system, vmStat, memsize, meminfo);
              && processes == ProcessList(system, macPs, linuxPs, DefaultTopN)
              && (mem.NoMemoryInfo? <==> outcome.MissingMemoryFigures?)
              && (mem.NoMemoryInfo? <==> prompt.None?)
      ensures prompt.Some? ==>
                && prompt.value.memory == SystemMemory(system, vmStat, memsize, meminfo).stats
                && |prompt.value.consumers| == Min(PromptLimit, |processes|)
                && (forall k | 0 <= k < |prompt.value.consumers| ::
                      prompt.value.consumers[k] ==
                        PromptEntry(k + 1, processes[k].name, processes[k].pid, processes[k].rssMb, processes[k].user, processes[k].cmd))
                && outcome == Accept(ask(prompt.value))
    ensures var mem := SystemMemory(system, vmStat, memsize, meminfo);
            && (!mem.NoMemoryInfo? ==>
                  totalMemMb == mem.stats.totalMb && usedMemMb == mem.stats.usedMb && freeMemMb == mem.stats.freeMb)
            && (mem.NoMemoryInfo? ==>
                  totalMemMb == old(totalMemMb) && usedMemMb == old(usedMemMb) && freeMemMb == old(freeMemMb))
    {
      var mem := GetSystemMemory(system, vmStat, memsize, meminfo);
      var ps := GetProcesses(system, macPs, linuxPs, DefaultTopN);
      if mem.NoMemoryInfo? {
        return MissingMemoryFigures, None;
      }
      var consumers := ListTopConsumers(ps);
      prompt := Some(Prompt(mem.stats, consumers));
      outcome := Accept(ask(prompt.value));
    }
  }
}
