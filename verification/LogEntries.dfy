/** The reference-counted log entries of include/log.h. */
module LogEntries {
  import opened Bits

  /** `sizeof(struct LogHead)`: the message bytes start this far into an entry. */
  const HEAD_SIZE: nat := 24

  class LogEntry {
    var next: LogEntry?
    var refc: int
    const time: nat
    const data: Bytes

    constructor (time: nat, data: Bytes, refc: int)
      ensures this.time == time && this.data == data && this.refc == refc && next == null
    {
      this.time, this.data, this.refc, next := time, data, refc, null;
    }
  }
}
