/**
 * What the analyser reads from its host, passed in as values: the captured
 * standard output of an external command, or the text of a file.
 */
module Host {
  import opened PyText

  /** subprocess.run(..., check=True): the captured stdout, or a failure (missing binary, non-zero exit) */
  datatype CommandResult = Completed(stdout: string) | CommandFailed

  /** open(path).readlines(): the text, FileNotFoundError, or any other error while reading */
  datatype FileResult = FileText(text: string) | FileMissing | FileUnreadable

  /** the host reports sizes in bytes or kB; the analyser works in MB */
  const BytesPerMb: real := 1048576.0
  const KbPerMb: real := 1024.0

  /** platform.system() on macOS */
  const Darwin: string := "Darwin"

  /** the lines of a command's output as the analyser takes them: stdout.strip().split('\n') */
  function OutputLines(stdout: string): (lines: seq<string>)
    ensures |lines| >= 1
    ensures Strip(stdout) == [] ==> lines == [[]]
  {
    SplitOn(Strip(stdout), '\n')
  }
}
