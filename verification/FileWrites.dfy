/** Writing a small file as a whole, on one drive (src/erasure/drive.rs, src/cluster/server.rs). */
module FileWrites {
  import opened Wrappers

  /**
   * How a write ended. `Landed`: in place, but reported as failed. `Torn`: a drive
   * truncates the file before it writes, and a write that stops on the way leaves one
   * that cannot be parsed, which counts as missing. `Missed`: the file was not touched.
   */
  datatype Landing = Acked | Landed | Torn | Missed {
    predicate Lands() {
      Acked? || Landed?
    }
  }

  function AfterWriting<T>(before: Option<T>, l: Landing, content: T): Option<T> {
    match l
    case Acked => Some(content)
    case Landed => Some(content)
    case Torn => None
    case Missed => before
  }
}
