/** The commands, statuses and deadlines both of the host's request protocols use. */
module Commands {
  import opened Bytes
  import Framing

  const LEASE: byte := 0x02
  const RELEASE: byte := 0x03
  const READ: byte := 0x11
  const WRITE: byte := 0x12
  const DISCARD: byte := 0x13
  const SAVE: byte := 0x14
  const WATCH: byte := 0x20
  const STATS: byte := 0x22
  const SAMPLE: byte := 0x40
  const REPLY: byte := 0x80

  const STATUS_LEASE_LOST: byte := 8
  const STATUS_BUDGET: byte := 10

  /** How long the firmware may take to answer; a save writes flash. */
  const REPLY_TIMEOUT: nat := 1_000_000_000
  const SAVE_TIMEOUT: nat := 3_000_000_000

  /** The status a reply starts with; an empty one counts as a request the firmware could not parse. */
  function StatusOf(f: Framing.Frame): byte {
    if f.payload == [] then 1 else f.payload[0]
  }
}
