/** utils/log.py: an in-memory record of (configuration, alphas) pairs,
    written to a file at the end of a run. */
module Logging {
  class Log<C, A> {
    var fileName: string
    var log: seq<(C, A)>

    /** A new log for the given file; the entry list starts empty. */
    constructor (fileName: string)
      ensures this.fileName == fileName && log == []
    {
      this.fileName := fileName;
      log := [];
    }

    /** The dataclass's second field given explicitly: a log that starts with
        the supplied entries. */
    constructor WithEntries(fileName: string, entries: seq<(C, A)>)
      ensures this.fileName == fileName && log == entries
    {
      this.fileName := fileName;
      log := entries;
    }

    /** `add_entry(conf, alphas)`: the pair goes at the end; the earlier
        entries and the file name are untouched. */
    method AddEntry(conf: C, alphas: A)
      modifies this
      ensures log == old(log) + [(conf, alphas)]
      ensures fileName == old(fileName)
      ensures |log| == |old(log)| + 1 && log[..|old(log)|] == old(log)
    {
      log := log + [(conf, alphas)];
    }
  }
}
